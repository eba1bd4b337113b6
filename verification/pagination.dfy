/** Paging through the current match set: each render pass emits the next
    window of at most a page of books and advances the display cursor by a
    full page; the "Show more" button reports how many books remain. */
module Pagination {
  import opened Text
  import opened Optional
  import opened Catalog

  function Min(a: int, b: int): int { if a <= b then a else b }

  function Max(a: int, b: int): int { if a <= b then b else a }

  /** The controller's pagination state: the books of the last search and
      the display cursor, which may run past the end of `matches`. */
  datatype Pager = Pager(matches: seq<Book>, displayed: nat)

  /** The "Show more" button as the controller leaves it. */
  datatype Button = Button(text: string, disabled: bool)

  /** The books emitted by one render pass, and the state after it. */
  datatype Pass = Pass(emitted: seq<Book>, pager: Pager)

  /** The books emitted by a pass together with the button it leaves. */
  datatype Update = Update(emitted: seq<Book>, pager: Pager, button: Button)

  /** A search outcome on screen: the first update and whether the
      "no results" message is shown. */
  datatype Shown = Shown(update: Update, messageShown: bool)

  /** `Array.prototype.slice(start, end)` for non-negative bounds: both are
      clamped to the length, and a window that starts at or after its end
      is empty. */
  function Slice<T>(s: seq<T>, start: nat, end: nat): (r: seq<T>)
    ensures |r| == Max(0, Min(end, |s|) - start)
    ensures forall k :: 0 <= k < |r| ==> r[k] == s[start + k]
  {
    if start >= Min(end, |s|) then [] else s[start..Min(end, |s|)]
  }

  /** Adjacent windows of a sequence join into one window. */
  lemma SliceJoin<T>(s: seq<T>, a: nat, b: nat, c: nat)
    requires a <= b <= c
    ensures Slice(s, a, b) + Slice(s, b, c) == Slice(s, a, c)
  {
    var l, r := Slice(s, a, b) + Slice(s, b, c), Slice(s, a, c);
    assert |l| == |r|;
    forall k | 0 <= k < |l| ensures l[k] == r[k] {
      if k < |Slice(s, a, b)| {
        assert l[k] == s[a + k];
      } else {
        assert l[k] == Slice(s, b, c)[k - |Slice(s, a, b)|];
      }
    }
  }

  /** `displayBooks`: emits the window starting at the cursor, at most one
      page long and empty once the cursor has reached the end, then
      advances the cursor by a whole page whatever was emitted. */
  function DisplayBooks(p: Pager, pageSize: nat): (r: Pass)
    ensures r.pager.matches == p.matches
    ensures r.pager.displayed == p.displayed + pageSize
    ensures |r.emitted| == if p.displayed < |p.matches| then Min(pageSize, |p.matches| - p.displayed) else 0
    ensures forall k :: 0 <= k < |r.emitted| ==> r.emitted[k] == p.matches[p.displayed + k]
  {
    Pass(Slice(p.matches, p.displayed, p.displayed + pageSize),
         p.(displayed := p.displayed + pageSize))
  }

  /** How many matches the cursor has not yet passed; negative once the
      cursor has run past the end. */
  function Remaining(p: Pager): int {
    |p.matches| - p.displayed
  }

  /** The literal shown on the button for a count. */
  const LabelPrefix: string := "Show more ("

  /** The caption for a count reads back as that count, and the caption
      of a spent button is literally "Show more (0)". */
  function Label(n: nat): (r: string)
    ensures ReadLabel(r) == Some(n)
    ensures n == 0 ==> r == "Show more (0)"
    ensures |r| > |LabelPrefix| && (r[|LabelPrefix|] == '0' ==> n == 0)
  {
    var digits := NatToString(n);
    var caption := LabelPrefix + digits + ")";
    assert caption[..|LabelPrefix|] == LabelPrefix;
    assert caption[|LabelPrefix|..|caption| - 1] == digits;
    ParseNatToString(n);
    caption
  }

  /** Reads the count back out of a button caption; `None` for any text
      that is not such a caption. */
  function ReadLabel(text: string): Option<nat> {
    var p := |LabelPrefix|;
    if |text| >= p + 2 && text[..p] == LabelPrefix && text[|text| - 1] == ')'
       && forall i :: p <= i < |text| - 1 ==> '0' <= text[i] <= '9'
    then Some(ParseNat(text[p..|text| - 1]))
    else None
  }

  /** The button `updateUI` leaves: enabled with the remaining count while
      books remain, otherwise disabled and showing zero. */
  function ButtonFor(p: Pager): (b: Button)
    ensures b.disabled <==> Remaining(p) <= 0
    ensures ReadLabel(b.text) == Some(Max(0, Remaining(p)))
    ensures b.text == Label(Max(0, Remaining(p)))
  {
    var n := Remaining(p);
    if n <= 0 then Button(Label(0), true) else Button(Label(n), false)
  }

  /** `updateUI`: one render pass, then the button for the new cursor. */
  function UpdateUI(p: Pager, pageSize: nat): (u: Update)
    ensures u.pager.matches == p.matches
    ensures u.pager.displayed == p.displayed + pageSize
    ensures u.emitted == Slice(p.matches, p.displayed, p.displayed + pageSize)
    ensures u.button.disabled <==> |p.matches| <= p.displayed + pageSize
    ensures ReadLabel(u.button.text) == Some(Max(0, |p.matches| - (p.displayed + pageSize)))
    ensures u.button == ButtonFor(u.pager)
  {
    var pass := DisplayBooks(p, pageSize);
    Update(pass.emitted, pass.pager, ButtonFor(pass.pager))
  }

  /** `showResults`: the result replaces the match set wholesale, the cursor
      restarts at zero, the "no results" message is shown exactly when the
      result is empty, and the first page is rendered. */
  function ShowResults(result: seq<Book>, pageSize: nat): (r: Shown)
    ensures r.messageShown <==> |result| == 0
    ensures r.update.pager == Pager(result, pageSize)
    ensures r.update.emitted == result[..Min(pageSize, |result|)]
    ensures r.update.button.disabled <==> |result| <= pageSize
  {
    var u := UpdateUI(Pager(result, 0), pageSize);
    assert u.emitted == result[..Min(pageSize, |result|)];
    Shown(u, |result| < 1)
  }

  /** One render pass leaves no more books remaining than before, and a
      disabled button stays disabled. */
  lemma UpdateUINeverRevives(p: Pager, pageSize: nat)
    ensures Remaining(UpdateUI(p, pageSize).pager) == Remaining(p) - pageSize
    ensures ButtonFor(p).disabled ==> UpdateUI(p, pageSize).button.disabled
    ensures ButtonFor(p).disabled ==> UpdateUI(p, pageSize).emitted == []
  {
  }

  /** `k` successive render passes: everything they emit, in order, and the
      state they leave. */
  function Passes(p: Pager, pageSize: nat, k: nat): Pass
    decreases k
  {
    if k == 0 then Pass([], p)
    else
      var first := DisplayBooks(p, pageSize);
      var rest := Passes(first.pager, pageSize, k - 1);
      Pass(first.emitted + rest.emitted, rest.pager)
  }

  /** `k` passes emit exactly the window of `k` pages after the cursor,
      with nothing repeated or skipped, and move the cursor `k` pages. */
  lemma {:induction false} PassesEmitWindow(p: Pager, pageSize: nat, k: nat)
    ensures Passes(p, pageSize, k).pager == p.(displayed := p.displayed + k * pageSize)
    ensures Passes(p, pageSize, k).emitted == Slice(p.matches, p.displayed, p.displayed + k * pageSize)
    decreases k
  {
    if k > 0 {
      var first := DisplayBooks(p, pageSize);
      PassesEmitWindow(first.pager, pageSize, k - 1);
      assert first.pager.displayed + (k - 1) * pageSize == p.displayed + k * pageSize by {
        assert (k - 1) * pageSize == k * pageSize - pageSize;
      }
      SliceJoin(p.matches, p.displayed, p.displayed + pageSize, p.displayed + k * pageSize);
    }
  }

  /** Pages needed to show `n` books, `n / pageSize` rounded up. */
  function PagesFor(n: nat, pageSize: nat): nat
    requires pageSize > 0
  {
    (n + pageSize - 1) / pageSize
  }

  /** From a fresh cursor, after as many passes as there are pages every
      match has been emitted once and in order, the button is disabled, and
      the cursor stands on the next multiple of the page size, past the end
      unless the page size divides the number of matches. */
  lemma {:induction false} PassesExhaust(matches: seq<Book>, pageSize: nat)
    requires pageSize > 0
    ensures var n := PagesFor(|matches|, pageSize);
      && Passes(Pager(matches, 0), pageSize, n).emitted == matches
      && Passes(Pager(matches, 0), pageSize, n).pager.displayed == n * pageSize
      && ButtonFor(Passes(Pager(matches, 0), pageSize, n).pager).disabled
      && (n > 0 ==> !ButtonFor(Passes(Pager(matches, 0), pageSize, n - 1).pager).disabled)
  {
    var n := PagesFor(|matches|, pageSize);
    PassesEmitWindow(Pager(matches, 0), pageSize, n);
    assert n * pageSize >= |matches| by { DivCeiling(|matches|, pageSize); }
    assert matches[0..|matches|] == matches;
    if n > 0 {
      PassesEmitWindow(Pager(matches, 0), pageSize, n - 1);
      assert (n - 1) * pageSize < |matches| by { DivCeiling(|matches|, pageSize); }
    }
  }

  /** `PagesFor` is the least number of pages covering `n` books. */
  lemma DivCeiling(n: nat, pageSize: nat)
    requires pageSize > 0
    ensures PagesFor(n, pageSize) * pageSize >= n
    ensures PagesFor(n, pageSize) > 0 ==> (PagesFor(n, pageSize) - 1) * pageSize < n
  {
    var q := PagesFor(n, pageSize);
    var m := n + pageSize - 1;
    assert m == q * pageSize + m % pageSize;
    assert m % pageSize < pageSize;
  }

  /** The first page followed by the passes of the remaining clicks is the
      whole result, and leaves the cursor at or past its end. */
  lemma FirstPageThenClicks(result: seq<Book>, size: nat)
    requires size > 0
    ensures var clicks := Max(1, PagesFor(|result|, size)) - 1;
      var rest := Passes(Pager(result, size), size, clicks);
      && result[..Min(size, |result|)] + rest.emitted == result
      && rest.pager.matches == result
      && ButtonFor(rest.pager).disabled
  {
    var clicks := Max(1, PagesFor(|result|, size)) - 1;
    var end := size + clicks * size;
    PagesCover(|result|, size);
    assert size <= end && |result| <= end;
    var rest := Passes(Pager(result, size), size, clicks);
    assert rest.emitted == Slice(result, size, end) && rest.pager == Pager(result, end) by {
      PassesEmitWindow(Pager(result, size), size, clicks);
    }
    assert result[..Min(size, |result|)] == Slice(result, 0, size);
    assert Slice(result, 0, size) + rest.emitted == Slice(result, 0, end) by {
      SliceJoin(result, 0, size, end);
    }
    assert Slice(result, 0, end) == result by {
      assert result[0..|result|] == result;
    }
  }

  /** Before each of the clicks that follow the first page, books still
      remain, so the button is enabled when it is clicked. */
  lemma EnabledBeforeEachClick(result: seq<Book>, size: nat)
    requires size > 0
    ensures forall j :: 0 <= j < Max(1, PagesFor(|result|, size)) - 1 ==>
      !ButtonFor(Passes(Pager(result, size), size, j).pager).disabled
  {
    var n := PagesFor(|result|, size);
    DivCeiling(|result|, size);
    forall j | 0 <= j < Max(1, n) - 1
      ensures !ButtonFor(Passes(Pager(result, size), size, j).pager).disabled
    {
      PassesEmitWindow(Pager(result, size), size, j);
      assert size + j * size == (j + 1) * size;
      MulMonotone(j + 1, n - 1, size);
    }
  }

  /** Multiplying by a natural number keeps the order. */
  lemma MulMonotone(a: nat, b: nat, c: nat)
    requires a <= b
    ensures a * c <= b * c
  {
    assert b * c - a * c == (b - a) * c;
  }

  /** At least one page, and as many as `PagesFor`, cover all `n` books. */
  lemma PagesCover(n: nat, size: nat)
    requires size > 0
    ensures size + (Max(1, PagesFor(n, size)) - 1) * size >= n
    ensures (Max(1, PagesFor(n, size)) - 1) * size >= 0
  {
    DivCeiling(n, size);
    var pages := Max(1, PagesFor(n, size));
    assert size + (pages - 1) * size == pages * size;
  }
}
