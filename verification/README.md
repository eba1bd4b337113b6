# Book catalog browser: search, pagination, theme and selection

This project models the controller script of a client-side book catalog browser
(`scripts.js`) in Dafny and proves properties of the model. The controller:

- filters an in-memory catalog with the search form's title, genre and author
  fields;
- pages through the matches with a "Show more" button;
- resolves a click in the book list to a catalog book for the detail overlay;
- switches the colour scheme between day and night;
- fills the genre and author selectors.

Modules, one per component of the script:

- `Text`: the string primitives the search uses. These are ECMAScript `trim`
  (the WhiteSpace and LineTerminator characters), `toLowerCase` on ASCII letters,
  `includes`, and the decimal rendering `${n}` of a count, with a parser as its
  inverse.
- `Optional`: the `Option` type for lookups and parses that can fail.
- `Catalog`: the `Book` record, the search form's `Filters`, the three match
  predicates and `Search`, the `books.filter(...)` of `search`.
- `Pagination`: the `(matches, booksDisplayed)` state as `Pager`. It also holds
  `Array.prototype.slice`, `displayBooks`, `updateUI`'s button and `showResults`.
- `Theme`: `toggleTheme` as a total function of the selected value and the
  environment's dark-scheme preference.
- `Selection`: `selectedBook`'s walk over the event path. The functional
  definition `SelectedBook` is the reference, and the method `SelectActive`
  carries the nested loops with their early exits.
- `FilterOptions`: the option list built by `generateFilter`.
- `Session`: the whole controller as a state machine. `Init` models `init`, and
  `Step` handles the form submissions, the show-more click, list clicks and
  closing the detail overlay. `Run` applies a sequence of actions.

Rendering is modelled as the sequence of books a step emits into the list. The
event path of a click is a sequence of optional preview ids. The data the
script imports (books, authors, genres, page size) is a parameter (`Env`), and
so is the result of the `prefers-color-scheme: dark` media query.

Behaviour of the code that is easy to misread. The model follows the code in
each case:

- The display cursor advances by a whole page on every render pass, not by the
  number of books rendered. It therefore runs past the end of the match set:
  after `PagesFor(L, P)` passes it stands at `PagesFor(L, P) * P`, which equals
  `L` only when `P` divides `L`. That last pass disables the button, and a
  disabled button dispatches no click events, so the cursor goes no further
  until the next search. Still, "cursor ≤ number of matches" is not an
  invariant. `Remaining` goes negative,
  and the button is what clamps the shown count to zero.
- Night is chosen only when the environment prefers a dark scheme AND "night"
  was submitted. A user who picks "night" on a light-preference system gets day.
- The title query is trimmed only to decide whether it is blank. Otherwise the
  lowered query is searched for exactly as typed, so `"hobbit "` (trailing
  space) does not find "The Hobbit".
- A preview id that is the empty string is skipped, because it is falsy.

## Model

| member | source | states |
|---|---|---|
| Text.Trim | scripts.js:262 | the trimmed query is the query with its leading and trailing whitespace cut: a contiguous piece of it, with only whitespace on either side of the piece and none at either end of it; it is empty exactly when the query is whitespace only |
| Text.ToLower | scripts.js:263 | lowering keeps the length and lowers each character on its own, leaving every character except `A`–`Z` as it is |
| Text.ToLowerIdempotent | scripts.js:263 | lowering the title or query twice is the same as lowering once |
| Text.ToLowerKeepsBlank | scripts.js:262-263 | lowering never changes whether a query is whitespace only |
| Text.Contains | scripts.js:263 | the empty needle is always found, and a needle longer than the text never is |
| Text.ContainsIffOccurs | scripts.js:263 | `includes` holds exactly when the needle occurs at some index of the text; the empty needle occurs everywhere |
| Text.NatToString | scripts.js:109 | the count in the label is rendered as decimal digits with no leading zero; zero is rendered as the single digit "0" |
| Text.ParseNatToString | scripts.js:109 | reading the rendered count back gives the count |
| Catalog.AuthorMatch | scripts.js:259-260 | the author "any" keeps every book; any other author key keeps exactly the books by that author |
| Catalog.TitleMatch | scripts.js:261-263 | a whitespace-only query keeps every title; any other query keeps a title iff its lowered text contains the lowered query as typed, so a query longer than the title never matches |
| Catalog.GenreMatch | scripts.js:264-265 | the genre "any" keeps every book; any other genre key keeps exactly the books that list it among their genres |
| Catalog.Search | scripts.js:258-268 | the result is no longer than the catalog, and a book is in it iff it is in the catalog and all three predicates hold |
| Catalog.SearchIsSubsequence | scripts.js:258-268 | the result is the catalog with some books deleted, so catalog order is kept |
| Catalog.SearchCounts | scripts.js:258-268 | every occurrence of a matching book is kept and no occurrence of any other book, so duplicates survive as often as they occur |
| Catalog.SearchAllWildcards | scripts.js:259-265 | a blank or whitespace-only title with author and genre both "any" returns the whole catalog in its order |
| Catalog.SearchIdempotent | scripts.js:258-268 | filtering a search result with the same form again returns it unchanged |
| Catalog.SearchAppend | scripts.js:258-268 | the filter is decided book by book: searching two catalogs joined is joining their searches |
| Catalog.TitleMatchIff | scripts.js:261-263 | the title predicate holds iff the query is whitespace only or the lowered untrimmed query occurs in the lowered title |
| Catalog.SearchCaseInsensitive | scripts.js:261-263 | the letter case of the query never changes the result |
| Catalog.TitleMatchExtend | scripts.js:261-263 | appending text to a query, trailing spaces included, can only narrow the titles it matches |
| Catalog.UntrimmedQueryMatters | scripts.js:261-263 | the query is matched untrimmed: every title that is not blank matches itself as a query, but not once a trailing space is added |
| Pagination.Slice | scripts.js:72-75 | `slice` gives the window of the sequence from start to end, both clamped to the length; the window is empty when it starts at or past its end |
| Pagination.DisplayBooks | scripts.js:70-99 | one pass emits the books at the cursor: at most a page of them, and none once the cursor has reached the end; the cursor then advances by exactly one page whatever was emitted; the match set is unchanged |
| Pagination.Label | scripts.js:109-112 | the button caption "Show more (n)" reads back as the count n, with no leading zero in the count; the caption for no books left is literally "Show more (0)" |
| Pagination.ButtonFor | scripts.js:108-114 | the button is disabled iff no books remain; its caption is the canonical caption of the remaining count, or "Show more (0)" when none remain |
| Pagination.UpdateUI | scripts.js:105-118 | after a render pass the button is disabled iff the advanced cursor has reached the end; the caption counts the books left after the pass, never below 0; the button is exactly the one for the advanced cursor |
| Pagination.ShowResults | scripts.js:228-246 | the result replaces the match set; the cursor restarts at 0 and is one page on after the first pass; the empty message shows iff the result is empty; the first page of the result is emitted |
| Pagination.UpdateUINeverRevives | scripts.js:105-118 | a pass lowers the remaining count by a page; a disabled button stays disabled; an exhausted pass emits nothing |
| Pagination.PassesEmitWindow | scripts.js:72-95 | k passes emit exactly the k-page window after the cursor, nothing skipped or repeated, and move the cursor k pages |
| Pagination.PassesExhaust | scripts.js:95-114 | from a fresh cursor, ceil(L/P) passes emit all L matches in order and disable the button; one pass fewer leaves it enabled; the cursor ends at ceil(L/P)·P |
| Pagination.EnabledBeforeEachClick | scripts.js:108-114 | after the first page, books remain, and the button is enabled, before each of the ceil(L/P) − 1 further passes |
| Pagination.FirstPageThenClicks | scripts.js:95-114 | the first page plus the passes of the remaining clicks is the whole result, and the button ends disabled |
| Theme.ToggleTheme | scripts.js:162-186 | night iff the environment prefers dark and "night" was submitted, with dark = "255, 255, 255" and light = "10, 10, 20"; every other input gives value "day" and the swapped pair |
| Theme.ToggleThemeStable | scripts.js:164-182 | submitting the value the toggle settled on changes nothing; the two tokens are always the two distinct colours |
| Selection.FindIndex | scripts.js:204-207 | the inner scan finds the first catalog position carrying the id; nothing iff no book carries it |
| Selection.FirstResolving | scripts.js:200-209 | the outer walk stops at the first path node whose non-empty preview id names a catalog book; nothing iff no node does |
| Selection.SelectedBook | scripts.js:192-218 | the selected book is a catalog book with the id of the first resolving node; nothing is selected iff no node resolves |
| Selection.SelectActive | scripts.js:197-209 | the nested early-exit loops compute exactly the reference selection |
| FilterOptions.GenerateFilter | scripts.js:125-137 | the options are an "All <name>" entry with value "any", then one entry per table entry in order |
| FilterOptions.ChoicesAreAnyOrKeys | scripts.js:127-137 | every option submits "any" or a table key, and every table key can be submitted |
| Session.ShowDetail | scripts.js:211-218 | a selected book opens the overlay with its image as cover and blur, its title and its description; no selection leaves the overlay unchanged |
| Session.Init | scripts.js:327-333 | the catalog becomes the match set; the first page is emitted; the theme comes from the form's initial value; each selector is the "All Genres" or "All Authors" entry with value "any" followed by one entry per table entry; the button matches the pager |
| Session.Step | scripts.js:277-322 | each action changes only its own part of the state; a search replaces the matches and resets the cursor; show-more on an enabled button advances a page over the stored matches and does nothing on a disabled one; a resolved click opens the overlay on the selected book's image, title and description, and an unresolved click changes nothing |
| Session.ExhaustedStaysExhausted | scripts.js:317 | between searches, actions never change the matches or raise the remaining count, and never re-enable a disabled button |
| Session.ClicksArePasses | scripts.js:317 | k show-more clicks, each on an enabled button, are k render passes over the stored match set |
| Session.SearchThenShowAll | scripts.js:253-274 | after a search, the button is enabled before each of the ceil(L/P) − 1 show-more clicks, and those clicks emit every match once, in catalog order, and leave the button disabled |
| Session.ClickIgnoresMatches | scripts.js:200-209 | a click is resolved against the full catalog, so the overlay it leaves does not depend on the current matches or cursor |

## Left out

- book-preview.js: a custom element holding only a style template and `append`. It has no logic.
- DOM plumbing: element lookups, `innerHTML` templates, listener registration, `composedPath`, `scrollTo`, focus and the search/settings overlay toggles (scripts.js:41-64, 76-94, 278-293). Rendering is modelled as the emitted sequence of books.
- The single reused preview container (scripts.js:42, 92). It is never emptied, so the model claims nothing about what is on screen after a second search, only about what each step emits.
- The detail subtitle and the author name on each preview (scripts.js:88, 216). They need the author table's display strings and `Date` parsing.
- The try/catch and `console.error` around every function. A failure there is a missing DOM element, which the model has no way to express.
- The partial effects of a failure half-way through a render. They depend on which DOM call throws.
- Text.ToLower: lowers only ASCII `A`–`Z`. Unicode case mapping is not modelled.
- FilterOptions.GenerateFilter: the table is given in the order `Object.entries` lists it. The engine's ordering of integer-like keys is not modelled.
- Session.Init: the overlay is assumed closed and the empty-list message hidden at load. These come from the page markup.
- Browser event dispatch. A disabled button receives no click events, so the handler at scripts.js:317 never runs for one; `Session.Step` therefore treats a show-more click on a disabled button as doing nothing, rather than modelling the browser.
- `window.matchMedia` being undefined is modelled as "does not prefer dark", which is the same branch.
