/** The page switcher without a drawer, as RASCUNHOS/project/script.js and
    main/script.js write it (their `changePage`, `updateUrl`,
    `loadPageFromUrl` and `popstate` listener are the same code; only the
    catalogue differs). Each handler is a function from the state before
    the event to the state after it; pending `setTimeout` callbacks are part
    of the state. */
module PlainSite {
  import opened Web
  import opened Timers
  import opened Routing

  /** The delay of the Swap callback. */
  const SwapDelay := 150
  /** The delay, counted from the Swap, of the callback clearing the flag. */
  const SettleDelay := 300

  /** A `.nav-btn`: its `data-target` and whether it carries `active`. */
  datatype NavButton = NavButton(target: Option<string>, active: bool)

  datatype Action =
    | Swap(section: nat, target: string, info: PageInfo, updateHistory: bool)
    | Settle

  datatype Snapshot = Snapshot(
    currentPage: string,
    isAnimating: bool,
    nav: seq<NavButton>,
    sections: seq<Section>,
    title: string,
    description: string,
    history: seq<HistoryEntry>,
    now: int,
    timers: seq<Timer<Action>>)

  function Marked(nav: seq<NavButton>, target: string): seq<NavButton>
  {
    seq(|nav|, i requires 0 <= i < |nav| => nav[i].(active := nav[i].target == Some(target)))
  }

  predicate Accepts(pageData: map<string, PageInfo>, s: Snapshot, target: string)
  {
    !s.isAnimating && target != s.currentPage
    && target in pageData && SectionIndex(s.sections, target).Some?
  }

  /** `changePage(target, updateHistory)`: the guard and the Start phase. */
  function ChangePage(pageData: map<string, PageInfo>, s: Snapshot, target: string, updateHistory: bool): (r: Snapshot)
    ensures !Accepts(pageData, s, target) ==> r == s
    ensures Accepts(pageData, s, target) ==>
      r.isAnimating && r.currentPage == s.currentPage && |r.nav| == |s.nav| &&
      (forall i :: 0 <= i < |r.nav| ==>
         r.nav[i].target == s.nav[i].target && (r.nav[i].active <==> s.nav[i].target == Some(target))) &&
      |r.sections| == |s.sections| &&
      (forall i :: 0 <= i < |r.sections| ==> !r.sections[i].active && r.sections[i].id == s.sections[i].id) &&
      |r.timers| == |s.timers| + 1
  {
    if !Accepts(pageData, s, target) then s
    else
      var k := SectionIndex(s.sections, target).value;
      s.(isAnimating := true,
         sections := Deactivated(s.sections),
         nav := Marked(s.nav, target),
         timers := s.timers + [Timer(s.now + SwapDelay, Swap(k, target, pageData[target], updateHistory))])
  }

  /** What the Start phase of an accepted switch schedules: the Swap for
      the target's section and catalogue entry 150 ms on; besides the flag,
      the buttons, the sections and the queue, nothing changes. */
  lemma ChangePageSchedules(pageData: map<string, PageInfo>, s: Snapshot, target: string, updateHistory: bool)
    requires Accepts(pageData, s, target)
    ensures var r := ChangePage(pageData, s, target, updateHistory);
      r.timers == s.timers +
        [Timer(s.now + SwapDelay, Swap(SectionIndex(s.sections, target).value, target, pageData[target], updateHistory))] &&
      r == s.(isAnimating := true, nav := r.nav, sections := r.sections, timers := r.timers)
  {
  }

  /** `loadPageFromUrl()` with `location.hash == hash`. */
  function LoadPageFromUrl(pageData: map<string, PageInfo>, s: Snapshot, hash: string): Snapshot
  {
    var id := HashPage(hash);
    if id in pageData then ChangePage(pageData, s, id, false) else s
  }

  /** The `popstate` listener. */
  function Popstate(pageData: map<string, PageInfo>, s: Snapshot, state: Option<string>, hash: string): Snapshot
  {
    var id := PopstatePage(state, hash);
    if id in pageData then ChangePage(pageData, s, id, false) else s
  }

  /** Click, Enter or Space on the nav button at `i`. */
  function ActivateNavButton(pageData: map<string, PageInfo>, s: Snapshot, i: nat): Snapshot
  {
    if i < |s.nav| && s.nav[i].target.Some? && s.nav[i].target.value != "" then
      ChangePage(pageData, s, s.nav[i].target.value, true)
    else s
  }

  /** Going back to an entry a switch to `id` pushed, or loading its
      fragment, requests `id` again without pushing history; a fragment that
      names no page changes nothing. */
  lemma UrlSwitches(pageData: map<string, PageInfo>, s: Snapshot, id: string, hash: string)
    ensures id != "" && id in pageData ==>
      Popstate(pageData, s, Some(Pushed(id).page), hash) == ChangePage(pageData, s, id, false) &&
      LoadPageFromUrl(pageData, s, Pushed(id).fragment) == ChangePage(pageData, s, id, false)
    ensures HashPage(hash) !in pageData ==> LoadPageFromUrl(pageData, s, hash) == s
  {
    PopstateRoundTrip(id, hash);
  }

  function Run(s: Snapshot, a: Action): Snapshot
  {
    match a
    case Swap(k, target, info, updateHistory) =>
      s.(title := info.title,
         description := ShownDescription(info),
         sections := Activated(s.sections, k),
         currentPage := target,
         history := if updateHistory then s.history + [Pushed(target)] else s.history,
         timers := s.timers + [Timer(s.now + SettleDelay, Settle)])
    case Settle => s.(isAnimating := false)
  }

  function FireNext(s: Snapshot): Snapshot
  {
    if s.timers == [] then s
    else
      var k := Earliest(s.timers);
      Run(s.(now := s.timers[k].due, timers := RemoveAt(s.timers, k)), s.timers[k].action)
  }

  function Weight(a: Action): nat
  {
    if a.Settle? then 1 else 2
  }

  lemma FireNextLowersLoad(s: Snapshot)
    requires s.timers != []
    ensures Load(FireNext(s).timers, Weight) < Load(s.timers, Weight)
  {
    var k := Earliest(s.timers);
    LoadRemoveAt(s.timers, k, Weight);
    LoadAppend(RemoveAt(s.timers, k), [Timer(s.timers[k].due + SettleDelay, Settle)], Weight);
    assert Load([Timer(s.timers[k].due + SettleDelay, Settle)], Weight) == 1;
  }

  /** The event loop up to time `t`. */
  function RunUntil(s: Snapshot, t: int): Snapshot
    decreases Load(s.timers, Weight)
  {
    if s.timers != [] && s.timers[Earliest(s.timers)].due <= t then
      FireNextLowersLoad(s);
      RunUntil(FireNext(s), t)
    else if s.now < t then s.(now := t)
    else s
  }

  /** The queues the script can produce: empty and idle, or exactly one
      Swap or Settle in flight with the flag set. */
  predicate Shape(s: Snapshot)
  {
    (forall i :: 0 <= i < |s.timers| ==> s.timers[i].due >= s.now) &&
    |s.timers| <= 1 &&
    (s.isAnimating <==> |s.timers| == 1) &&
    (|s.timers| == 1 ==> s.timers[0].action.Settle? || s.timers[0].action.section < |s.sections|)
  }

  /** The state after `DOMContentLoaded` sets up the listeners. */
  function Initial(nav: seq<NavButton>, sections: seq<Section>, now: int): (r: Snapshot)
    ensures Shape(r) && !r.isAnimating && r.currentPage == DefaultPage
  {
    Snapshot(DefaultPage, false, nav, sections, "", "", [], now, [])
  }

  lemma ChangePageKeepsShape(pageData: map<string, PageInfo>, s: Snapshot, target: string, updateHistory: bool)
    requires Shape(s)
    ensures Shape(ChangePage(pageData, s, target, updateHistory))
  {
  }

  lemma FireNextKeepsShape(s: Snapshot)
    requires Shape(s)
    ensures Shape(FireNext(s)) && FireNext(s).now >= s.now
  {
  }

  lemma {:induction false} RunUntilKeepsShape(s: Snapshot, t: int)
    requires Shape(s)
    ensures Shape(RunUntil(s, t))
    ensures RunUntil(s, t).now >= s.now && RunUntil(s, t).now >= t
    decreases Load(s.timers, Weight)
  {
    if s.timers != [] && s.timers[Earliest(s.timers)].due <= t {
      FireNextLowersLoad(s);
      FireNextKeepsShape(s);
      RunUntilKeepsShape(FireNext(s), t);
    }
  }

  /** Two transitions never overlap: while one is in flight every request
      is dropped, with nothing queued. */
  lemma DroppedWhileAnimating(pageData: map<string, PageInfo>, s: Snapshot, target: string, u: bool,
                              state: Option<string>, hash: string, i: nat)
    requires s.isAnimating
    ensures ChangePage(pageData, s, target, u) == s
    ensures LoadPageFromUrl(pageData, s, hash) == s
    ensures Popstate(pageData, s, state, hash) == s
    ensures ActivateNavButton(pageData, s, i) == s
  {
  }

  /** The flag is cleared by the Settle callback and by nothing else. */
  lemma OnlySettleClears(s: Snapshot)
    requires s.isAnimating && s.timers != []
    ensures !FireNext(s).isAnimating ==> s.timers[Earliest(s.timers)].action.Settle?
  {
  }

  /** The Swap, 150 ms after an accepted request from an idle state: the
      page, title, description, active section and history reflect the
      target, the flag is still set and only the Settle is pending. */
  lemma SwapPhase(pageData: map<string, PageInfo>, s: Snapshot, target: string, updateHistory: bool)
    requires Shape(s) && Accepts(pageData, s, target)
    ensures var k := SectionIndex(s.sections, target).value;
      var x := FireNext(ChangePage(pageData, s, target, updateHistory));
      x.now == s.now + SwapDelay &&
      x.currentPage == target &&
      x.title == pageData[target].title &&
      x.description == ShownDescription(pageData[target]) &&
      |x.sections| == |s.sections| &&
      (forall i :: 0 <= i < |x.sections| ==> (x.sections[i].active <==> i == k)) &&
      x.history == s.history + (if updateHistory then [Pushed(target)] else []) &&
      x.isAnimating &&
      x.timers == [Timer(s.now + SwapDelay + SettleDelay, Settle)]
  {
    ExactlyOneSectionActive(s.sections, SectionIndex(s.sections, target).value);
  }

  /** The flag is set from the request until 300 ms after the Swap, and is
      cleared then, with nothing else changed and nothing pending. */
  lemma SettlesAfterSwap(pageData: map<string, PageInfo>, s: Snapshot, target: string, updateHistory: bool, t: int)
    requires Shape(s) && Accepts(pageData, s, target) && t >= s.now
    ensures var started := ChangePage(pageData, s, target, updateHistory);
      var x := FireNext(started);
      var r := RunUntil(started, t);
      (r.isAnimating <==> t < s.now + SwapDelay + SettleDelay) &&
      (t >= s.now + SwapDelay + SettleDelay ==>
         r == x.(isAnimating := false, timers := [], now := t))
  {
    var started := ChangePage(pageData, s, target, updateHistory);
    var x := FireNext(started);
    var e := s.now + SwapDelay + SettleDelay;
    SwapPhase(pageData, s, target, updateHistory);
    if t < s.now + SwapDelay {
      assert RunUntil(started, t) == started.(now := t);
    } else {
      assert RunUntil(started, t) == RunUntil(x, t);
      if t >= e {
        assert FireNext(x) == x.(isAnimating := false, timers := [], now := e);
      }
    }
  }

  // ----- the two catalogues -----

  const PageIds: set<string> := {"energia", "agua", "biodiversidade", "agricultura", "residuos", "cidades", "educacao", "politicas"}

  /** The key set both catalogues share. */
  predicate SiteKeys(pageData: map<string, PageInfo>)
  {
    pageData.Keys == PageIds
  }

  /** The catalogue of main/script.js: `energia` and `agua` have a title
      only; the other six have a description too. */
  predicate MainCatalog(pageData: map<string, PageInfo>)
  {
    SiteKeys(pageData) &&
    forall id :: id in pageData ==> (pageData[id].description.None? <==> id == "energia" || id == "agua")
  }

  /** The catalogue of RASCUNHOS/project/script.js: every entry has a
      description. */
  predicate ProjectCatalog(pageData: map<string, PageInfo>)
  {
    SiteKeys(pageData) &&
    forall id :: id in pageData ==> pageData[id].description.Some?
  }

  /** Loading with an empty fragment, a lone `#` or `#energia` is a no-op:
      the resolved page is the one already shown. */
  lemma StartupDefaultIsNoOp(pageData: map<string, PageInfo>, nav: seq<NavButton>, sections: seq<Section>, now: int, hash: string)
    requires hash == "" || hash == "#" || hash == "#energia"
    ensures LoadPageFromUrl(pageData, Initial(nav, sections, now), hash) == Initial(nav, sections, now)
  {
    DefaultFragments();
  }

  /** Startup with `#agua`, when `agua` has a section: the switch starts
      without scheduling any history push, and at the Swap `agua` is shown
      and the history is still empty. */
  lemma StartupWithFragment(pageData: map<string, PageInfo>, nav: seq<NavButton>, sections: seq<Section>, now: int)
    requires "agua" in pageData && SectionIndex(sections, "agua").Some?
    ensures var s := Initial(nav, sections, now);
      var x := FireNext(LoadPageFromUrl(pageData, s, "#agua"));
      x.currentPage == "agua" && x.history == []
  {
    var s := Initial(nav, sections, now);
    assert "#agua"[0] == '#' && "#agua"[1..] == "agua";
    assert HashPage("#agua") == "agua";
    SwapPhase(pageData, s, "agua", false);
  }

  /** In main/script.js, switching to a page without a description empties
      the description element; in RASCUNHOS/project/script.js every switch
      shows the entry's description. */
  lemma DescriptionShown(pageData: map<string, PageInfo>, s: Snapshot, target: string)
    requires Shape(s) && Accepts(pageData, s, target)
    ensures MainCatalog(pageData) && (target == "energia" || target == "agua") ==>
      FireNext(ChangePage(pageData, s, target, true)).description == ""
    ensures ProjectCatalog(pageData) ==>
      FireNext(ChangePage(pageData, s, target, true)).description == pageData[target].description.value
  {
    SwapPhase(pageData, s, target, true);
  }
}
