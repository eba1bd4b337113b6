/** The option lists of the search form's genre and author selectors. */
module FilterOptions {
  import opened Catalog

  /** One `<option>`: the value submitted and the text shown. */
  datatype Choice = Choice(value: string, text: string)

  /** `generateFilter`: an "All ..." entry whose value is the wildcard,
      followed by one entry per table entry, in the table's enumeration
      order. The table is given as its key/display-name pairs. */
  function GenerateFilter(table: seq<(string, string)>, name: string): (r: seq<Choice>)
    ensures |r| == |table| + 1
    ensures r[0] == Choice(Any, "All " + name)
    ensures forall k :: 0 <= k < |table| ==> r[k + 1] == Choice(table[k].0, table[k].1)
  {
    [Choice(Any, "All " + name)] + seq(|table|, k requires 0 <= k < |table| => Choice(table[k].0, table[k].1))
  }

  /** Whatever option is picked, the submitted value is the wildcard or a
      key of the table, and every key of the table can be picked. */
  lemma ChoicesAreAnyOrKeys(table: seq<(string, string)>, name: string)
    ensures forall c :: c in GenerateFilter(table, name) ==>
      c.value == Any || exists k :: 0 <= k < |table| && table[k].0 == c.value
    ensures forall k :: 0 <= k < |table| ==>
      exists c :: c in GenerateFilter(table, name) && c.value == table[k].0
  {
    var r := GenerateFilter(table, name);
    forall c | c in r
      ensures c.value == Any || exists k :: 0 <= k < |table| && table[k].0 == c.value
    {
      var i :| 0 <= i < |r| && r[i] == c;
      if i > 0 {
        assert table[i - 1].0 == c.value;
      }
    }
    forall k | 0 <= k < |table|
      ensures exists c :: c in r && c.value == table[k].0
    {
      assert r[k + 1] in r;
    }
  }
}
