/** Resolving a click on a preview to a catalog book: the event path is
    walked from the innermost node outwards, and the first node whose
    preview id names a book of the full catalog selects that book. */
module Selection {
  import opened Optional
  import opened Catalog

  /** One node of an event path: the `data-preview` id it carries, if any. */
  type PathNode = Option<string>

  /** A node counts only when its preview id is present and non-empty, as
      an empty attribute value is falsy. */
  predicate HasPreview(node: PathNode) {
    node.Some? && node.value != ""
  }

  /** The position of the first catalog book carrying `id`. */
  function FindIndex(books: seq<Book>, id: string): (r: Option<nat>)
    ensures r.None? <==> forall k :: 0 <= k < |books| ==> books[k].id != id
    ensures r.Some? ==> r.value < |books| && books[r.value].id == id
    ensures r.Some? ==> forall j :: 0 <= j < r.value ==> books[j].id != id
  {
    if books == [] then None
    else if books[0].id == id then Some(0)
    else
      match FindIndex(books[1..], id)
      case None => None
      case Some(k) => Some(k + 1)
  }

  /** The first catalog book carrying `id`, as the inner scan finds it. */
  function FindBook(books: seq<Book>, id: string): (r: Option<Book>)
    ensures r.None? <==> forall b :: b in books ==> b.id != id
    ensures r.Some? ==> r.value in books && r.value.id == id
  {
    match FindIndex(books, id)
    case None => None
    case Some(k) => Some(books[k])
  }

  /** The node resolves to a book of the catalog. */
  predicate Resolves(books: seq<Book>, node: PathNode) {
    HasPreview(node) && FindBook(books, node.value).Some?
  }

  /** The index of the first node on the path that resolves. */
  function FirstResolving(books: seq<Book>, path: seq<PathNode>): (r: Option<nat>)
    ensures r.None? <==> forall i :: 0 <= i < |path| ==> !Resolves(books, path[i])
    ensures r.Some? ==> r.value < |path| && Resolves(books, path[r.value])
    ensures r.Some? ==> forall j :: 0 <= j < r.value ==> !Resolves(books, path[j])
  {
    if path == [] then None
    else if Resolves(books, path[0]) then Some(0)
    else
      match FirstResolving(books, path[1..])
      case None => None
      case Some(i) => Some(i + 1)
  }

  /** `selectedBook`'s choice: the catalog book named by the first node that
      resolves, or nothing when no node does. */
  function SelectedBook(books: seq<Book>, path: seq<PathNode>): (r: Option<Book>)
    ensures r.None? <==> forall i :: 0 <= i < |path| ==> !Resolves(books, path[i])
    ensures r.Some? ==> r.value in books
    ensures r.Some? ==> FirstResolving(books, path).Some?
    ensures r.Some? ==> r.value.id == path[FirstResolving(books, path).value].value
  {
    match FirstResolving(books, path)
    case None => None
    case Some(i) => FindBook(books, path[i].value)
  }

  /** The walk `selectedBook` performs: for each node carrying a preview id,
      scan the catalog for that id, stopping at the first hit. */
  method SelectActive(books: seq<Book>, path: seq<PathNode>) returns (active: Option<Book>)
    ensures active == SelectedBook(books, path)
  {
    active := None;
    var i := 0;
    while i < |path| && active.None?
      invariant 0 <= i <= |path|
      invariant active.None? ==> forall j :: 0 <= j < i ==> !Resolves(books, path[j])
      invariant active.Some? ==> 0 < i && FirstResolving(books, path) == Some(i - 1)
      invariant active.Some? ==> active == FindBook(books, path[i - 1].value)
    {
      var node := path[i];
      if HasPreview(node) {
        var k := 0;
        while k < |books| && active.None?
          invariant 0 <= k <= |books|
          invariant active.None? ==> forall j :: 0 <= j < k ==> books[j].id != node.value
          invariant active.Some? ==> active == FindBook(books, node.value)
        {
          if books[k].id == node.value {
            active := Some(books[k]);
            FindBookFirst(books, node.value, k);
          }
          k := k + 1;
        }
        if active.Some? {
          FirstResolvingAt(books, path, i);
        }
      }
      i := i + 1;
    }
  }

  /** A book at index `k` with no earlier book of the same id is what
      `FindBook` returns. */
  lemma FindBookFirst(books: seq<Book>, id: string, k: nat)
    requires k < |books| && books[k].id == id
    requires forall j :: 0 <= j < k ==> books[j].id != id
    ensures FindBook(books, id) == Some(books[k])
  {
    assert FindIndex(books, id) == Some(k);
  }

  /** A resolving node with no resolving node before it is the first one. */
  lemma FirstResolvingAt(books: seq<Book>, path: seq<PathNode>, i: nat)
    requires i < |path| && Resolves(books, path[i])
    requires forall j :: 0 <= j < i ==> !Resolves(books, path[j])
    ensures FirstResolving(books, path) == Some(i)
  {
  }
}
