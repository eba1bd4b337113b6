/** The book catalog and its search filter: a book is kept when the author,
    title and genre predicates of the submitted search form all hold, and
    the kept books stay in catalog order. */
module Catalog {
  import opened Text

  /** A catalog record; never mutated after load. */
  datatype Book = Book(
    id: string,
    genres: seq<string>,
    popularity: int,
    title: string,
    image: string,
    description: string,
    pages: int,
    published: string,
    author: string)

  /** The search form's fields, as submitted. */
  datatype Filters = Filters(title: string, genre: string, author: string)

  /** The option value that stands for "every author" / "every genre". */
  const Any: string := "any"

  /** The wildcard keeps every book; any other key keeps exactly the books
      by that author. */
  predicate AuthorMatch(f: Filters, b: Book)
    ensures f.author == Any ==> AuthorMatch(f, b)
    ensures f.author != Any ==> (AuthorMatch(f, b) <==> b.author == f.author)
  {
    f.author == Any || f.author == b.author
  }

  /** A whitespace-only query keeps every title; otherwise the lowered title
      must contain the lowered query exactly as typed, spaces included, so a
      query longer than the title never matches. */
  predicate TitleMatch(query: string, title: string)
    ensures Blank(query) ==> TitleMatch(query, title)
    ensures !Blank(query) ==> (TitleMatch(query, title) <==> Contains(ToLower(title), ToLower(query)))
    ensures TitleMatch(query, title) && !Blank(query) ==> |query| <= |title|
  {
    Trim(query) == "" || Contains(ToLower(title), ToLower(query))
  }

  /** The wildcard keeps every book; any other key keeps exactly the books
      listing it among their genres. */
  predicate GenreMatch(f: Filters, b: Book)
    ensures f.genre == Any ==> GenreMatch(f, b)
    ensures f.genre != Any ==> (GenreMatch(f, b) <==> exists k :: 0 <= k < |b.genres| && b.genres[k] == f.genre)
  {
    f.genre == Any || f.genre in b.genres
  }

  predicate Matches(f: Filters, b: Book) {
    TitleMatch(f.title, b.title) && AuthorMatch(f, b) && GenreMatch(f, b)
  }

  /** `a` can be obtained from `b` by deleting elements. */
  ghost predicate IsSubsequence<T>(a: seq<T>, b: seq<T>)
    decreases |b|
  {
    || a == []
    || (b != [] && ((a[0] == b[0] && IsSubsequence(a[1..], b[1..])) || IsSubsequence(a, b[1..])))
  }

  /** `books.filter(...)` with the three predicates: an order-preserving
      selection holding every matching occurrence and nothing else. */
  function Search(books: seq<Book>, f: Filters): (r: seq<Book>)
    ensures |r| <= |books|
    ensures forall b :: b in r <==> b in books && Matches(f, b)
  {
    if books == [] then []
    else
      var rest := Search(books[1..], f);
      assert books == [books[0]] + books[1..];
      if Matches(f, books[0]) then [books[0]] + rest else rest
  }

  /** The result is the catalog with some books deleted: order is kept. */
  lemma {:induction false} SearchIsSubsequence(books: seq<Book>, f: Filters)
    ensures IsSubsequence(Search(books, f), books)
  {
    if books != [] {
      SearchIsSubsequence(books[1..], f);
    }
  }

  /** The result keeps every occurrence of a matching book and no
      occurrence of any other book. */
  lemma {:induction false} SearchCounts(books: seq<Book>, f: Filters, b: Book)
    ensures multiset(Search(books, f))[b] == if Matches(f, b) then multiset(books)[b] else 0
  {
    if books != [] {
      var head, tail := books[0], books[1..];
      var kept := if Matches(f, head) then [head] else [];
      assert Search(books, f) == kept + Search(tail, f);
      assert multiset(books) == multiset([head]) + multiset(tail) by {
        assert books == [head] + tail;
      }
      assert multiset(Search(books, f)) == multiset(kept) + multiset(Search(tail, f));
      SearchCounts(tail, f, b);
    }
  }

  /** Searching splits over concatenated catalogs. */
  lemma {:induction false} SearchAppend(a: seq<Book>, b: seq<Book>, f: Filters)
    ensures Search(a + b, f) == Search(a, f) + Search(b, f)
  {
    if a == [] {
      assert a + b == b;
    } else {
      assert (a + b)[0] == a[0];
      assert (a + b)[1..] == a[1..] + b;
      SearchAppend(a[1..], b, f);
    }
  }

  /** A blank title with both wildcards returns the whole catalog in order. */
  lemma {:induction false} SearchAllWildcards(books: seq<Book>, f: Filters)
    requires Blank(f.title) && f.author == Any && f.genre == Any
    ensures Search(books, f) == books
  {
    if books != [] {
      SearchAllWildcards(books[1..], f);
    }
  }

  /** Searching the result of a search again changes nothing. */
  lemma {:induction false} SearchIdempotent(books: seq<Book>, f: Filters)
    ensures Search(Search(books, f), f) == Search(books, f)
  {
    if books != [] {
      SearchIdempotent(books[1..], f);
    }
  }

  /** The title predicate: a blank query, or an occurrence of the lowered,
      untrimmed query inside the lowered title. */
  lemma TitleMatchIff(query: string, title: string)
    ensures TitleMatch(query, title) <==>
      Blank(query) || Occurs(ToLower(title), ToLower(query))
  {
    ContainsIffOccurs(ToLower(title), ToLower(query));
  }

  /** Any title that is not blank matches itself as a query, but no longer
      once a trailing space is typed after it: the query is not trimmed
      before it is searched for. */
  lemma UntrimmedQueryMatters(title: string)
    requires !Blank(title)
    ensures TitleMatch(title, title) && !TitleMatch(title + " ", title)
  {
    TitleMatchIff(title, title);
    assert OccursAt(ToLower(title), ToLower(title), 0);
    BlankPrefix(title, " ");
  }

  /** The query's own letter case never changes what is found. */
  lemma {:induction false} SearchCaseInsensitive(books: seq<Book>, f: Filters)
    ensures Search(books, f) == Search(books, f.(title := ToLower(f.title)))
  {
    ToLowerIdempotent(f.title);
    ToLowerKeepsBlank(f.title);
    if books != [] {
      SearchCaseInsensitive(books[1..], f);
    }
  }

  /** Lowering distributes over concatenation. */
  lemma ToLowerAppend(a: string, b: string)
    ensures ToLower(a + b) == ToLower(a) + ToLower(b)
  {
    var l, r := ToLower(a + b), ToLower(a) + ToLower(b);
    assert |l| == |r|;
    forall i | 0 <= i < |l| ensures l[i] == r[i] {
      if i < |a| {
        assert (a + b)[i] == a[i];
      } else {
        assert (a + b)[i] == b[i - |a|];
      }
    }
  }

  /** The query is matched as typed: text appended to a query, trailing
      whitespace included, can only narrow the titles it matches. */
  lemma TitleMatchExtend(query: string, extra: string, title: string)
    ensures TitleMatch(query + extra, title) ==> TitleMatch(query, title)
  {
    TitleMatchIff(query + extra, title);
    TitleMatchIff(query, title);
    ToLowerAppend(query, extra);
    BlankPrefix(query, extra);
    OccursPrefix(ToLower(title), ToLower(query), ToLower(extra));
  }
}
