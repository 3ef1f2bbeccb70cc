/** The URL contract of the page switchers: `updateUrl` pushes a history
    entry whose state is `{page: id}` and whose fragment is `#id`, and the
    page to show is resolved from a history state or a fragment with the
    fallback page `energia`. */
module Routing {
  import opened Web

  /** The page every switcher starts on and falls back to. */
  const DefaultPage := "energia"

  /** A `history.pushState({page: page}, '', pathname + fragment)` entry;
      the pathname does not change and is not kept. */
  datatype HistoryEntry = HistoryEntry(page: string, fragment: string)

  /** The entry `updateUrl(id)` pushes. */
  function Pushed(id: string): (e: HistoryEntry)
    ensures e.page == id && |e.fragment| == |id| + 1 && e.fragment[0] == '#' && e.fragment[1..] == id
  {
    HistoryEntry(id, "#" + id)
  }

  /** `s.replace('#', '')`: a string pattern replaces only its first
      occurrence, wherever it is. */
  function StripFirstHash(s: string): (r: string)
    ensures '#' !in s ==> r == s
    ensures '#' in s ==> |r| == |s| - 1
    ensures s != [] && s[0] == '#' ==> r == s[1..]
  {
    if s == [] then []
    else if s[0] == '#' then s[1..]
    else [s[0]] + StripFirstHash(s[1..])
  }

  /** `location.hash.replace('#', '') || 'energia'`. */
  function HashPage(hash: string): (r: string)
    ensures r != ""
  {
    var id := StripFirstHash(hash);
    if id == "" then DefaultPage else id
  }

  /** `e.state?.page || location.hash.replace('#', '') || 'energia'`; `state`
      is the page recorded in the entry, None when the state is null or has
      no page. An empty page is falsy and falls through to the fragment. */
  function PopstatePage(state: Option<string>, hash: string): (r: string)
    ensures r != ""
  {
    if state.Some? && state.value != "" then state.value else HashPage(hash)
  }

  /** Loading the fragment that `updateUrl(id)` wrote gives back `id`; the
      empty id is the one exception and falls back to the default page. */
  lemma HashRoundTrip(id: string)
    ensures HashPage(Pushed(id).fragment) == if id == "" then DefaultPage else id
  {
    assert Pushed(id).fragment[1..] == id;
  }

  /** Going back to an entry that `updateUrl(id)` pushed resolves to `id`,
      whatever the fragment the browser reports, for every non-empty id. */
  lemma PopstateRoundTrip(id: string, hash: string)
    ensures id != "" ==> PopstatePage(Some(Pushed(id).page), hash) == id
    ensures PopstatePage(Some(Pushed(id).page), Pushed(id).fragment) == if id == "" then DefaultPage else id
  {
    HashRoundTrip(id);
  }

  /** The fallback chain: a usable state wins; otherwise the fragment without
      its first `#`; otherwise the default page. */
  lemma PopstateFallback(state: Option<string>, hash: string)
    ensures state.Some? && state.value != "" ==> PopstatePage(state, hash) == state.value
    ensures (state.None? || state.value == "") && StripFirstHash(hash) != "" ==>
      PopstatePage(state, hash) == StripFirstHash(hash)
    ensures (state.None? || state.value == "") && StripFirstHash(hash) == "" ==>
      PopstatePage(state, hash) == DefaultPage
  {
  }

  /** An empty fragment, a lone `#` and `#energia` all resolve to the
      default page. */
  lemma DefaultFragments()
    ensures HashPage("") == DefaultPage
    ensures HashPage("#") == DefaultPage
    ensures HashPage("#energia") == DefaultPage
  {
    assert "#energia"[0] == '#' && "#energia"[1..] == DefaultPage;
  }
}
