/** The controller as a state machine: the page starts with `init`, then
    each user action (search form submit, "Show more" click, click in the
    book list, detail close, settings form submit) runs to completion and
    produces the next state together with the books it emitted. */
module Session {
  import opened Optional
  import opened Catalog
  import opened Pagination
  import opened Theme
  import opened Selection
  import opened FilterOptions

  /** What the controller is given and never changes: the catalog, the
      author and genre tables as key/display-name pairs, the page size and
      whether the environment prefers a dark colour scheme. */
  datatype Env = Env(
    catalog: seq<Book>,
    authors: seq<(string, string)>,
    genres: seq<(string, string)>,
    pageSize: nat,
    prefersDark: bool)

  /** The detail overlay: whether it is open, the two images (blurred
      background and cover), the title and the description. */
  datatype Detail = Detail(open: bool, blur: string, cover: string, title: string, description: string)

  const ClosedDetail: Detail := Detail(false, "", "", "", "")

  datatype State = State(
    pager: Pager,
    button: Button,
    messageShown: bool,
    theme: ThemeState,
    detail: Detail,
    genreChoices: seq<Choice>,
    authorChoices: seq<Choice>)

  datatype Event =
    | SubmitSearch(filters: Filters)
    | ShowMore
    | ClickList(path: seq<PathNode>)
    | CloseDetail
    | SubmitSettings(themeValue: string)

  /** The books a step emitted into the list, and the state after it. */
  datatype Outcome = Outcome(emitted: seq<Book>, state: State)

  /** The button always reflects the pager it was computed from. */
  predicate Consistent(s: State) {
    s.button == ButtonFor(s.pager)
  }

  /** The detail overlay after a selection: opened on the selected book, or
      left exactly as it was when nothing was selected. */
  function ShowDetail(d: Detail, active: Option<Book>): (r: Detail)
    ensures active.None? ==> r == d
    ensures active.Some? ==> r.open && r.title == active.value.title
    ensures active.Some? ==> r.blur == r.cover == active.value.image
    ensures active.Some? ==> r.description == active.value.description
  {
    match active
    case None => d
    case Some(b) => Detail(true, b.image, b.image, b.title, b.description)
  }

  /** `init`: the whole catalog becomes the match set, the theme is set from
      the form's initial value, the genre and author selectors are filled,
      and the first page is rendered. */
  function Init(env: Env, themeValue: string): (o: Outcome)
    ensures o.state.pager == Pager(env.catalog, env.pageSize)
    ensures o.emitted == env.catalog[..Min(env.pageSize, |env.catalog|)]
    ensures o.state.theme == ToggleTheme(themeValue, env.prefersDark)
    ensures |o.state.genreChoices| == |env.genres| + 1 && o.state.genreChoices[0].value == Any
    ensures |o.state.authorChoices| == |env.authors| + 1 && o.state.authorChoices[0].value == Any
    ensures o.state.genreChoices == GenerateFilter(env.genres, "Genres")
    ensures o.state.authorChoices == GenerateFilter(env.authors, "Authors")
    ensures !o.state.messageShown && !o.state.detail.open
    ensures Consistent(o.state)
  {
    var u := UpdateUI(Pager(env.catalog, 0), env.pageSize);
    assert u.emitted == env.catalog[..Min(env.pageSize, |env.catalog|)];
    Outcome(u.emitted, State(
      u.pager, u.button, false,
      ToggleTheme(themeValue, env.prefersDark),
      ClosedDetail,
      GenerateFilter(env.genres, "Genres"),
      GenerateFilter(env.authors, "Authors")))
  }

  /** One user action. Each event changes only the parts of the state its
      handler touches. */
  function Step(env: Env, s: State, e: Event): (o: Outcome)
    ensures e.SubmitSearch? ==>
      var result := Search(env.catalog, e.filters);
      && o.state.pager == Pager(result, env.pageSize)
      && o.emitted == result[..Min(env.pageSize, |result|)]
      && (o.state.messageShown <==> |result| == 0)
      && o.state == s.(pager := o.state.pager, button := o.state.button, messageShown := o.state.messageShown)
    ensures e.ShowMore? && s.button.disabled ==> o == Outcome([], s)
    ensures e.ShowMore? && !s.button.disabled ==>
      && o.state.pager == s.pager.(displayed := s.pager.displayed + env.pageSize)
      && o.emitted == Slice(s.pager.matches, s.pager.displayed, s.pager.displayed + env.pageSize)
      && o.state == s.(pager := o.state.pager, button := o.state.button)
    ensures e.ClickList? ==>
      && o.emitted == []
      && o.state == s.(detail := o.state.detail)
      && (SelectedBook(env.catalog, e.path).None? ==> o.state == s)
      && (SelectedBook(env.catalog, e.path).Some? ==> o.state.detail.open)
      && o.state.detail == ShowDetail(s.detail, SelectedBook(env.catalog, e.path))
    ensures e.CloseDetail? ==> o == Outcome([], s.(detail := s.detail.(open := false)))
    ensures e.SubmitSettings? ==>
      o == Outcome([], s.(theme := ToggleTheme(e.themeValue, env.prefersDark)))
    ensures e.SubmitSearch? || (e.ShowMore? && !s.button.disabled) || Consistent(s) ==> Consistent(o.state)
  {
    match e
    case SubmitSearch(f) =>
      var shown := ShowResults(Search(env.catalog, f), env.pageSize);
      Outcome(shown.update.emitted, s.(
        pager := shown.update.pager,
        button := shown.update.button,
        messageShown := shown.messageShown))
    case ShowMore =>
      if s.button.disabled then Outcome([], s)
      else
        var u := UpdateUI(s.pager, env.pageSize);
        Outcome(u.emitted, s.(pager := u.pager, button := u.button))
    case ClickList(path) =>
      Outcome([], s.(detail := ShowDetail(s.detail, SelectedBook(env.catalog, path))))
    case CloseDetail =>
      Outcome([], s.(detail := s.detail.(open := false)))
    case SubmitSettings(v) =>
      Outcome([], s.(theme := ToggleTheme(v, env.prefersDark)))
  }

  /** A sequence of actions: everything emitted, in order, and the final
      state. */
  function Run(env: Env, s: State, events: seq<Event>): Outcome
    decreases |events|
  {
    if events == [] then Outcome([], s)
    else
      var first := Step(env, s, events[0]);
      var rest := Run(env, first.state, events[1..]);
      Outcome(first.emitted + rest.emitted, rest.state)
  }

  /** No action of the run is a new search. */
  predicate NoSearch(events: seq<Event>) {
    forall i :: 0 <= i < |events| ==> !events[i].SubmitSearch?
  }

  /** Between two searches, no sequence of actions increases the number of
      books remaining, none changes the match set, and once the button is
      disabled it stays disabled. */
  lemma {:induction false} ExhaustedStaysExhausted(env: Env, s: State, events: seq<Event>)
    requires Consistent(s) && NoSearch(events)
    ensures Consistent(Run(env, s, events).state)
    ensures Run(env, s, events).state.pager.matches == s.pager.matches
    ensures Remaining(Run(env, s, events).state.pager) <= Remaining(s.pager)
    ensures s.button.disabled ==> Run(env, s, events).state.button.disabled
    decreases |events|
  {
    if events != [] {
      var first := Step(env, s, events[0]);
      assert NoSearch(events[1..]) by {
        forall i | 0 <= i < |events[1..]| ensures !events[1..][i].SubmitSearch? {
          assert events[1..][i] == events[i + 1];
        }
      }
      ExhaustedStaysExhausted(env, first.state, events[1..]);
    }
  }

  /** `k` clicks on "Show more". */
  function ShowMoreClicks(k: nat): (r: seq<Event>)
    ensures |r| == k && NoSearch(r)
  {
    seq(k, _ => ShowMore)
  }

  /** `k` clicks on "Show more", each made while the button is enabled,
      are `k` render passes over the match set. */
  lemma {:induction false} ClicksArePasses(env: Env, s: State, k: nat)
    requires Consistent(s)
    requires forall j :: 0 <= j < k ==> !ButtonFor(Passes(s.pager, env.pageSize, j).pager).disabled
    ensures Run(env, s, ShowMoreClicks(k)).emitted == Passes(s.pager, env.pageSize, k).emitted
    ensures Run(env, s, ShowMoreClicks(k)).state.pager == Passes(s.pager, env.pageSize, k).pager
    decreases k
  {
    if k > 0 {
      var clicks := ShowMoreClicks(k);
      assert clicks[0] == ShowMore;
      assert clicks[1..] == ShowMoreClicks(k - 1);
      assert !s.button.disabled by {
        assert Passes(s.pager, env.pageSize, 0).pager == s.pager;
      }
      var next := Step(env, s, ShowMore).state;
      forall j | 0 <= j < k - 1
        ensures !ButtonFor(Passes(next.pager, env.pageSize, j).pager).disabled
      {
        assert Passes(next.pager, env.pageSize, j).pager == Passes(s.pager, env.pageSize, j + 1).pager;
      }
      ClicksArePasses(env, next, k - 1);
    }
  }

  /** A search followed by `k` clicks runs as the search's step and then
      the clicks from the state the search left. */
  lemma SearchThenClicks(env: Env, s: State, f: Filters, k: nat)
    ensures var first := Step(env, s, SubmitSearch(f));
      var rest := Run(env, first.state, ShowMoreClicks(k));
      Run(env, s, [SubmitSearch(f)] + ShowMoreClicks(k)) == Outcome(first.emitted + rest.emitted, rest.state)
  {
    var events := [SubmitSearch(f)] + ShowMoreClicks(k);
    assert events[0] == SubmitSearch(f);
    assert events[1..] == ShowMoreClicks(k);
  }

  /** After a search, clicking "Show more" until the button disables emits
      every match exactly once, in catalog order: the search renders the
      first page and each further page takes one click, and the button is
      enabled before every one of those clicks. */
  lemma SearchThenShowAll(env: Env, s: State, f: Filters)
    requires env.pageSize > 0
    ensures var result := Search(env.catalog, f);
      var clicks := Max(1, PagesFor(|result|, env.pageSize)) - 1;
      var o := Run(env, s, [SubmitSearch(f)] + ShowMoreClicks(clicks));
      && o.emitted == result
      && o.state.pager.matches == result
      && o.state.button.disabled
    ensures var result := Search(env.catalog, f);
      var clicks := Max(1, PagesFor(|result|, env.pageSize)) - 1;
      forall j :: 0 <= j < clicks ==>
        !Run(env, s, [SubmitSearch(f)] + ShowMoreClicks(j)).state.button.disabled
  {
    var result := Search(env.catalog, f);
    var clicks := Max(1, PagesFor(|result|, env.pageSize)) - 1;
    var first := Step(env, s, SubmitSearch(f));
    EnabledBeforeEachClick(result, env.pageSize);
    SearchThenClicks(env, s, f, clicks);
    ClicksArePasses(env, first.state, clicks);
    FirstPageThenClicks(result, env.pageSize);
    ExhaustedStaysExhausted(env, first.state, ShowMoreClicks(clicks));
    forall j | 0 <= j < clicks
      ensures !Run(env, s, [SubmitSearch(f)] + ShowMoreClicks(j)).state.button.disabled
    {
      SearchThenClicks(env, s, f, j);
      ClicksArePasses(env, first.state, j);
      ExhaustedStaysExhausted(env, first.state, ShowMoreClicks(j));
    }
  }

  /** A click is resolved against the full catalog: the detail overlay it
      leaves does not depend on the current match set or cursor, so a book
      outside the last search's results can still be opened. */
  lemma ClickIgnoresMatches(env: Env, s1: State, s2: State, path: seq<PathNode>)
    requires s1.detail == s2.detail
    ensures Step(env, s1, ClickList(path)).state.detail == Step(env, s2, ClickList(path)).state.detail
    ensures SelectedBook(env.catalog, path).Some? ==>
      Step(env, s1, ClickList(path)).state.detail.title == SelectedBook(env.catalog, path).value.title
  {
  }
}
