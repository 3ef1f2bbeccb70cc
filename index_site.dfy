/** The navigation shell of RASCUNHOS/index/script.js as a state machine:
    page switching in timed phases, the navigation drawer, the keyboard
    focus rules and the inactivity auto-close, all sharing one
    `isAnimating` flag. Every handler is a function from the state before
    the event to the state after it; pending `setTimeout` callbacks are part
    of the state and run through `FireNext`. */
module IndexSite {
  import opened Web
  import opened Timers
  import opened Routing
  import FocusRules

  /** CONFIG.ANIMATION_DURATION */
  const AnimationDuration := 300
  /** The exit phase of a page switch: ANIMATION_DURATION / 2. */
  const SwapDelay := AnimationDuration / 2
  /** The delay of the drawer close a page switch schedules. */
  const DrawerCloseDelay := 200
  /** CONFIG.AUTO_CLOSE_DELAY; the inactivity check compares against it
      times 60, that is five minutes. */
  const AutoCloseDelay := 5000
  /** Widths above this close an open drawer on resize. */
  const WideViewport := 768

  /** A `.nav-item`: its identity, its `data-target`, whether it carries
      `active`, and its `tabindex`. */
  datatype NavItem = NavItem(element: Element, target: Option<string>, active: bool, tabIndex: int)

  /** The callbacks `changePage`, `openDrawer` and `closeDrawer` schedule. */
  datatype Action =
    | Swap(section: nat, target: string, info: PageInfo, updateHistory: bool)  // +150 ms: show the page
    | Settle                                                                   // +300 ms: isAnimating = false
    | CloseDrawerLater                                                         // +200 ms: closeDrawer()

  /** What the page fixes once: the catalogue and the drawer's focusable
      descendants, in document order. */
  datatype Config = Config(pageData: map<string, PageInfo>, drawerFocusables: seq<Element>)

  /** `appState`, the parts of the document the script writes, the history
      it pushes, the clock and the pending timers. `trapActive` says whether
      the focus trap's listener is installed. */
  datatype Snapshot = Snapshot(
    currentPage: string,
    isAnimating: bool,
    isDrawerOpen: bool,
    focusedElement: Option<Element>,
    activeElement: Option<Element>,
    trapActive: bool,
    nav: seq<NavItem>,
    sections: seq<Section>,
    title: string,
    description: string,
    history: seq<HistoryEntry>,
    lastInteraction: int,
    now: int,
    timers: seq<Timer<Action>>)

  // ----- page switching -----

  /** The nav item after the Start phase's `classList.toggle` and
      `setAttribute('tabindex', ...)`. */
  function Mark(item: NavItem, target: string): NavItem
  {
    var on := item.target == Some(target);
    item.(active := on, tabIndex := if on then 0 else -1)
  }

  function Marked(nav: seq<NavItem>, target: string): seq<NavItem>
  {
    seq(|nav|, i requires 0 <= i < |nav| => Mark(nav[i], target))
  }

  /** The guard of `changePage` lets the request through. */
  predicate Accepts(c: Config, s: Snapshot, target: string)
  {
    !s.isAnimating && target != s.currentPage
    && target in c.pageData && SectionIndex(s.sections, target).Some?
  }

  /** `changePage(target, updateHistory)` at time `s.now`: the Start phase,
      which schedules the Swap and, with the drawer open, a close. */
  function ChangePage(c: Config, s: Snapshot, target: string, updateHistory: bool): (r: Snapshot)
    ensures !Accepts(c, s, target) ==> r == s
    ensures Accepts(c, s, target) ==>
      r.isAnimating && r.currentPage == s.currentPage && |r.nav| == |s.nav| &&
      (forall i :: 0 <= i < |r.nav| ==>
         r.nav[i].element == s.nav[i].element && r.nav[i].target == s.nav[i].target &&
         (r.nav[i].active <==> s.nav[i].target == Some(target)) &&
         r.nav[i].tabIndex == (if s.nav[i].target == Some(target) then 0 else -1)) &&
      |r.sections| == |s.sections| &&
      (forall i :: 0 <= i < |r.sections| ==> !r.sections[i].active && r.sections[i].id == s.sections[i].id) &&
      |r.timers| == |s.timers| + (if s.isDrawerOpen then 2 else 1)
  {
    if !Accepts(c, s, target) then s
    else
      var k := SectionIndex(s.sections, target).value;
      var swap := Timer(s.now + SwapDelay, Swap(k, target, c.pageData[target], updateHistory));
      var close := if s.isDrawerOpen then [Timer(s.now + DrawerCloseDelay, CloseDrawerLater)] else [];
      s.(isAnimating := true,
         sections := Deactivated(s.sections),
         nav := Marked(s.nav, target),
         timers := s.timers + [swap] + close)
  }

  /** What the Start phase of an accepted switch schedules: the Swap for
      the target's section and catalogue entry 150 ms on and, with the
      drawer open, a drawer close 200 ms on; besides the flag, the nav items,
      the sections and the queue, nothing changes (drawer, focus, page,
      title, description, history). */
  lemma ChangePageSchedules(c: Config, s: Snapshot, target: string, updateHistory: bool)
    requires Accepts(c, s, target)
    ensures var r := ChangePage(c, s, target, updateHistory);
      r.timers == s.timers +
        [Timer(s.now + SwapDelay, Swap(SectionIndex(s.sections, target).value, target, c.pageData[target], updateHistory))] +
        (if s.isDrawerOpen then [Timer(s.now + DrawerCloseDelay, CloseDrawerLater)] else []) &&
      r == s.(isAnimating := true, nav := r.nav, sections := r.sections, timers := r.timers)
  {
  }

  /** `loadPageFromUrl()` with `location.hash == hash`. */
  function LoadPageFromUrl(c: Config, s: Snapshot, hash: string): Snapshot
  {
    var id := HashPage(hash);
    if id in c.pageData then ChangePage(c, s, id, false) else s
  }

  /** The `popstate` listener for an entry with state page `state`. */
  function Popstate(c: Config, s: Snapshot, state: Option<string>, hash: string): Snapshot
  {
    var id := PopstatePage(state, hash);
    if id in c.pageData then ChangePage(c, s, id, false) else s
  }

  /** Click, Enter or Space on the nav item at `i`: an absent or empty
      `data-target` does nothing. */
  function ActivateNavItem(c: Config, s: Snapshot, i: nat): Snapshot
  {
    if i < |s.nav| && s.nav[i].target.Some? && s.nav[i].target.value != "" then
      ChangePage(c, s, s.nav[i].target.value, true)
    else s
  }

  /** Going back to an entry a switch to `id` pushed, or loading its
      fragment, requests `id` again without pushing history; a fragment that
      names no page changes nothing. */
  lemma UrlSwitches(c: Config, s: Snapshot, id: string, hash: string)
    ensures id != "" && id in c.pageData ==>
      Popstate(c, s, Some(Pushed(id).page), hash) == ChangePage(c, s, id, false) &&
      LoadPageFromUrl(c, s, Pushed(id).fragment) == ChangePage(c, s, id, false)
    ensures HashPage(hash) !in c.pageData ==> LoadPageFromUrl(c, s, hash) == s
  {
    PopstateRoundTrip(id, hash);
  }

  // ----- drawer -----

  /** `openDrawer()`: records the focused element, installs the focus trap
      (which focuses the first focusable, if any) and schedules the Settle. */
  function OpenDrawer(c: Config, s: Snapshot): (r: Snapshot)
    ensures s.isAnimating ==> r == s
    ensures !s.isAnimating ==>
      r.isAnimating && r.isDrawerOpen && r.trapActive && r.focusedElement == s.activeElement &&
      r.activeElement == (if c.drawerFocusables == [] then s.activeElement else Some(c.drawerFocusables[0])) &&
      r.timers == s.timers + [Timer(s.now + AnimationDuration, Settle)] &&
      r.currentPage == s.currentPage
  {
    if s.isAnimating then s
    else
      s.(isAnimating := true, isDrawerOpen := true, focusedElement := s.activeElement,
         trapActive := true,
         activeElement := if c.drawerFocusables == [] then s.activeElement else Some(c.drawerFocusables[0]),
         timers := s.timers + [Timer(s.now + AnimationDuration, Settle)])
  }

  /** `focusManager.restoreFocus()`. */
  function RestoreFocus(s: Snapshot): (r: Snapshot)
    ensures r.focusedElement.None?
    ensures r.activeElement == if s.focusedElement.Some? then s.focusedElement else s.activeElement
  {
    if s.focusedElement.Some? then s.(activeElement := s.focusedElement, focusedElement := None) else s
  }

  /** `closeDrawer()`: removes the trap, restores focus and schedules the
      Settle. It does not look at `isDrawerOpen`. */
  function CloseDrawer(s: Snapshot): (r: Snapshot)
    ensures s.isAnimating ==> r == s
    ensures !s.isAnimating ==>
      r.isAnimating && !r.isDrawerOpen && !r.trapActive && r.focusedElement.None? &&
      r.activeElement == (if s.focusedElement.Some? then s.focusedElement else s.activeElement) &&
      r.timers == s.timers + [Timer(s.now + AnimationDuration, Settle)] &&
      r.currentPage == s.currentPage
  {
    if s.isAnimating then s
    else
      var r := RestoreFocus(s.(isAnimating := true, isDrawerOpen := false, trapActive := false));
      r.(timers := s.timers + [Timer(s.now + AnimationDuration, Settle)])
  }

  /** `toggleDrawer()`: click, Enter or Space on the menu toggle. */
  function ToggleDrawer(c: Config, s: Snapshot): (r: Snapshot)
    ensures s.isDrawerOpen ==> r == CloseDrawer(s)
    ensures !s.isDrawerOpen ==> r == OpenDrawer(c, s)
  {
    if s.isDrawerOpen then CloseDrawer(s) else OpenDrawer(c, s)
  }

  /** A click on the overlay closes the drawer, open or not. */
  function OverlayClick(s: Snapshot): Snapshot
  {
    CloseDrawer(s)
  }

  /** Escape anywhere closes an open drawer. */
  function EscapeKey(s: Snapshot): Snapshot
  {
    if s.isDrawerOpen then CloseDrawer(s) else s
  }

  /** The debounced resize callback at viewport width `width`. */
  function Resize(s: Snapshot, width: int): Snapshot
  {
    if width > WideViewport && s.isDrawerOpen then CloseDrawer(s) else s
  }

  /** A document click; `inside` says whether the target lies in the drawer
      or the menu toggle. */
  function DocumentClick(s: Snapshot, inside: bool): Snapshot
  {
    if s.isDrawerOpen && !inside then CloseDrawer(s) else s
  }

  /** `Array.from(elements.navItems)`, as elements. */
  function NavElements(nav: seq<NavItem>): (r: seq<Element>)
    ensures |r| == |nav|
    ensures forall i :: 0 <= i < |nav| ==> r[i] == nav[i].element
  {
    seq(|nav|, i requires 0 <= i < |nav| => nav[i].element)
  }

  /** A keydown inside the drawer: the trap's handler for Tab while the trap
      is installed, the roving handler for the arrow keys, Home and End.
      Only the focus moves these handlers make are modelled. */
  function DrawerKeyDown(c: Config, s: Snapshot, key: Key, shift: bool): Snapshot
  {
    if key == Tab then
      if !s.trapActive then s
      else match FocusRules.TrapTab(c.drawerFocusables, s.activeElement, key, shift)
        case Some(e) => s.(activeElement := Some(e))
        case None => s
    else
      match FocusRules.ArrowTarget(|s.nav|, FocusRules.IndexOf(NavElements(s.nav), s.activeElement), key)
      case Some(j) => s.(activeElement := Some(s.nav[j].element))
      case None => s
  }

  /** Nav items are distinct elements. */
  predicate DistinctNav(nav: seq<NavItem>)
  {
    forall i, j :: 0 <= i < j < |nav| ==> nav[i].element != nav[j].element
  }

  lemma FocusedNavPosition(s: Snapshot, i: nat)
    requires DistinctNav(s.nav) && i < |s.nav| && s.activeElement == Some(s.nav[i].element)
    ensures FocusRules.IndexOf(NavElements(s.nav), s.activeElement) == i
  {
    var items := NavElements(s.nav);
    var r := FocusRules.IndexOf(items, s.activeElement);
    assert items[i] == s.nav[i].element;
    assert r != -1;
    assert s.nav[r].element == s.nav[i].element;
  }

  /** With focus on the nav item at `i` (nav items being distinct
      elements), ArrowDown focuses the next item, wrapping from the last to
      the first, ArrowUp the previous one, wrapping from the first to the
      last, Home the first and End the last; any other key except Tab does
      nothing. Only the focus changes. */
  lemma ArrowKeysInDrawer(c: Config, s: Snapshot, i: nat, shift: bool, other: Key)
    requires DistinctNav(s.nav) && i < |s.nav| && s.activeElement == Some(s.nav[i].element)
    ensures DrawerKeyDown(c, s, ArrowDown, shift) ==
      s.(activeElement := Some(s.nav[if i == |s.nav| - 1 then 0 else i + 1].element))
    ensures DrawerKeyDown(c, s, ArrowUp, shift) ==
      s.(activeElement := Some(s.nav[if i == 0 then |s.nav| - 1 else i - 1].element))
    ensures DrawerKeyDown(c, s, Home, shift) == s.(activeElement := Some(s.nav[0].element))
    ensures DrawerKeyDown(c, s, End, shift) == s.(activeElement := Some(s.nav[|s.nav| - 1].element))
    ensures other !in {Tab, ArrowDown, ArrowUp, Home, End} ==> DrawerKeyDown(c, s, other, shift) == s
  {
    FocusedNavPosition(s, i);
    FocusRules.ArrowMoves(|s.nav|, i);
  }

  /** With focus on no nav item, the roving handler does nothing. */
  lemma ArrowKeysOffNav(c: Config, s: Snapshot, key: Key, shift: bool)
    requires key != Tab
    requires forall i :: 0 <= i < |s.nav| ==> s.activeElement != Some(s.nav[i].element)
    ensures DrawerKeyDown(c, s, key, shift) == s
  {
  }

  /** Tab is handled by the trap while it is installed: Tab on the last
      focusable goes to the first, Shift+Tab on the first goes to the last,
      and every other Tab, and every Tab with the trap removed, is left to
      the browser. */
  lemma TabInDrawer(c: Config, s: Snapshot, shift: bool)
    ensures !s.trapActive ==> DrawerKeyDown(c, s, Tab, shift) == s
    ensures var f := c.drawerFocusables;
      s.trapActive && f != [] && !shift && s.activeElement == Some(f[|f| - 1]) ==>
        DrawerKeyDown(c, s, Tab, shift) == s.(activeElement := Some(f[0]))
    ensures var f := c.drawerFocusables;
      s.trapActive && f != [] && shift && s.activeElement == Some(f[0]) ==>
        DrawerKeyDown(c, s, Tab, shift) == s.(activeElement := Some(f[|f| - 1]))
    ensures var f := c.drawerFocusables;
      f == [] || (!shift && s.activeElement != Some(f[|f| - 1])) || (shift && s.activeElement != Some(f[0])) ==>
        DrawerKeyDown(c, s, Tab, shift) == s
  {
  }

  // ----- inactivity -----

  /** The interval check's condition: more than AUTO_CLOSE_DELAY * 60 ms
      since the last interaction, with the drawer open. */
  predicate IdleTooLong(now: int, lastInteraction: int, isDrawerOpen: bool)
  {
    now - lastInteraction > AutoCloseDelay * 60 && isDrawerOpen
  }

  /** Any of the interactions the script listens for (mouse, key, scroll,
      touch, click) at time `s.now`. */
  function Interact(s: Snapshot): (r: Snapshot)
    ensures r.lastInteraction == s.now
  {
    s.(lastInteraction := s.now)
  }

  /** The 30-second interval callback. */
  function InactivityCheck(s: Snapshot): Snapshot
  {
    if IdleTooLong(s.now, s.lastInteraction, s.isDrawerOpen) then CloseDrawer(s) else s
  }

  /** The auto-close fires exactly when the drawer is open and the user has
      been idle for more than five minutes, and it never fires once the
      drawer is closed. */
  lemma IdleRule(now: int, later: int, last: int, open: bool)
    ensures IdleTooLong(now, last, open) <==> open && now - last > 300000
    ensures IdleTooLong(now, last, open) && now <= later ==> IdleTooLong(later, last, open)
  {
  }

  /** After an interaction, the interval check changes nothing for the next
      five minutes, whatever else happens meanwhile that leaves the last
      interaction time alone. */
  lemma QuietAfterInteraction(s: Snapshot, x: Snapshot)
    requires x.lastInteraction == Interact(s).lastInteraction
    requires x.now <= s.now + AutoCloseDelay * 60
    ensures InactivityCheck(x) == x
  {
  }

  /** When the idle rule holds and no transition is in flight, the check
      closes the drawer: the trap is removed, focus goes back to the saved
      element and the record is cleared. During a transition the close is
      dropped like any other. */
  lemma AutoCloseCloses(s: Snapshot)
    requires IdleTooLong(s.now, s.lastInteraction, s.isDrawerOpen)
    ensures var r := InactivityCheck(s);
      !s.isAnimating ==>
        !r.isDrawerOpen && !r.trapActive && r.focusedElement.None? && r.isAnimating &&
        r.activeElement == (if s.focusedElement.Some? then s.focusedElement else s.activeElement)
    ensures s.isAnimating ==> InactivityCheck(s) == s
  {
  }

  // ----- timers -----

  /** The callback a timer runs, at the timer's due time. */
  function Run(c: Config, s: Snapshot, a: Action): Snapshot
  {
    match a
    case Swap(k, target, info, updateHistory) =>
      s.(title := info.title,
         description := ShownDescription(info),
         sections := Activated(s.sections, k),
         currentPage := target,
         history := if updateHistory then s.history + [Pushed(target)] else s.history,
         timers := s.timers + [Timer(s.now + AnimationDuration, Settle)])
    case Settle => s.(isAnimating := false)
    case CloseDrawerLater => CloseDrawer(s)
  }

  /** One turn of the event loop: the earliest pending timer runs. */
  function FireNext(c: Config, s: Snapshot): Snapshot
  {
    if s.timers == [] then s
    else
      var k := Earliest(s.timers);
      Run(c, s.(now := s.timers[k].due, timers := RemoveAt(s.timers, k)), s.timers[k].action)
  }

  function Weight(a: Action): nat
  {
    if a.Settle? then 1 else 2
  }

  /** Running a callback lowers the load: a Swap or a scheduled close adds
      at most one Settle, and a Settle adds nothing. */
  lemma FireNextLowersLoad(c: Config, s: Snapshot)
    requires s.timers != []
    ensures Load(FireNext(c, s).timers, Weight) < Load(s.timers, Weight)
  {
    var k := Earliest(s.timers);
    var rest := RemoveAt(s.timers, k);
    LoadRemoveAt(s.timers, k, Weight);
    LoadAppend(rest, [Timer(s.timers[k].due + AnimationDuration, Settle)], Weight);
    assert Load([Timer(s.timers[k].due + AnimationDuration, Settle)], Weight) == 1;
  }

  /** The event loop up to time `t`: every timer due at or before `t` runs,
      in order, then the clock reads `t`. */
  function RunUntil(c: Config, s: Snapshot, t: int): Snapshot
    decreases Load(s.timers, Weight)
  {
    if s.timers != [] && s.timers[Earliest(s.timers)].due <= t then
      FireNextLowersLoad(c, s);
      RunUntil(c, FireNext(c, s), t)
    else if s.now < t then s.(now := t)
    else s
  }

  // ----- the timer queue invariant -----

  predicate SwapFor(s: Snapshot, t: Timer<Action>)
  {
    t.action.Swap? && t.action.section < |s.sections|
  }

  /** Every queue the script can produce: idle and empty; one Swap or one
      Settle in flight; a Swap followed by the drawer close it scheduled,
      due before the Settle the Swap will schedule; or that close followed
      by the Settle. The flag is set exactly when something is pending, and
      nothing is due in the past. */
  predicate Shape(s: Snapshot)
  {
    (forall i :: 0 <= i < |s.timers| ==> s.timers[i].due >= s.now) &&
    |s.timers| <= 2 &&
    (|s.timers| == 0 ==> !s.isAnimating) &&
    (|s.timers| == 1 ==> s.isAnimating && (s.timers[0].action.Settle? || SwapFor(s, s.timers[0]))) &&
    (|s.timers| == 2 ==>
       s.isAnimating &&
       ((SwapFor(s, s.timers[0]) && s.timers[1].action.CloseDrawerLater? &&
         s.timers[1].due < s.timers[0].due + AnimationDuration) ||
        (s.timers[0].action.CloseDrawerLater? && s.timers[1].action.Settle? &&
         s.timers[0].due < s.timers[1].due)))
  }

  /** The state `app.init()` starts from on a document with these sections and nav
      items, at time `now`. */
  function Initial(nav: seq<NavItem>, sections: seq<Section>, now: int): (r: Snapshot)
    ensures Shape(r) && !r.isAnimating && !r.isDrawerOpen && r.currentPage == DefaultPage
  {
    Snapshot(DefaultPage, false, false, None, None, false, nav, sections, "", "", [], now, now, [])
  }

  lemma ChangePageKeepsShape(c: Config, s: Snapshot, target: string, updateHistory: bool)
    requires Shape(s)
    ensures Shape(ChangePage(c, s, target, updateHistory))
  {
  }

  lemma DrawerKeepsShape(c: Config, s: Snapshot)
    requires Shape(s)
    ensures Shape(OpenDrawer(c, s)) && Shape(CloseDrawer(s)) && Shape(ToggleDrawer(c, s))
  {
  }

  lemma FireNextKeepsShape(c: Config, s: Snapshot)
    requires Shape(s)
    ensures Shape(FireNext(c, s))
    ensures FireNext(c, s).now >= s.now
  {
    if s.timers != [] {
      var k := Earliest(s.timers);
      var a := s.timers[k].action;
      var y := s.(now := s.timers[k].due, timers := RemoveAt(s.timers, k));
      assert FireNext(c, s) == Run(c, y, a);
      assert y.timers == if |s.timers| == 1 then [] else [s.timers[1 - k]];
      if a.CloseDrawerLater? {
        CloseLaterKeepsShape(c, y);
      } else if a.Settle? {
        SettleKeepsShape(c, y);
      } else {
        SwapKeepsShape(c, y, a);
      }
    }
  }

  /** The scheduled close runs while the flag is set and changes nothing. */
  lemma CloseLaterKeepsShape(c: Config, y: Snapshot)
    requires Shape(y) && y.isAnimating
    ensures Run(c, y, CloseDrawerLater) == y
  {
  }

  /** The Settle is the last thing pending, and it clears the flag. */
  lemma SettleKeepsShape(c: Config, y: Snapshot)
    requires y.timers == []
    ensures Shape(Run(c, y, Settle))
  {
  }

  /** The Swap runs with at most the close, due before the Settle it
      schedules, still pending. */
  lemma SwapKeepsShape(c: Config, y: Snapshot, a: Action)
    requires a.Swap? && a.section < |y.sections| && y.isAnimating
    requires y.timers == [] ||
      (|y.timers| == 1 && y.timers[0].action.CloseDrawerLater? && y.now <= y.timers[0].due < y.now + AnimationDuration)
    ensures Shape(Run(c, y, a))
  {
  }

  lemma {:induction false} RunUntilKeepsShape(c: Config, s: Snapshot, t: int)
    requires Shape(s)
    ensures Shape(RunUntil(c, s, t))
    ensures RunUntil(c, s, t).now >= s.now && RunUntil(c, s, t).now >= t
    decreases Load(s.timers, Weight)
  {
    if s.timers != [] && s.timers[Earliest(s.timers)].due <= t {
      FireNextLowersLoad(c, s);
      FireNextKeepsShape(c, s);
      RunUntilKeepsShape(c, FireNext(c, s), t);
    }
  }

  // ----- properties of the whole machine -----

  /** While a transition is in flight, page switches and drawer requests
      from every source are dropped: nothing changes and nothing is queued. */
  lemma DroppedWhileAnimating(c: Config, s: Snapshot, target: string, u: bool, state: Option<string>, hash: string, i: nat)
    requires s.isAnimating
    ensures ChangePage(c, s, target, u) == s
    ensures LoadPageFromUrl(c, s, hash) == s
    ensures Popstate(c, s, state, hash) == s
    ensures ActivateNavItem(c, s, i) == s
    ensures OpenDrawer(c, s) == s && CloseDrawer(s) == s && ToggleDrawer(c, s) == s
    ensures EscapeKey(s) == s && InactivityCheck(s) == s
  {
  }

  /** The flag is cleared by a Settle callback and by nothing else. */
  lemma OnlySettleClears(c: Config, s: Snapshot)
    requires s.isAnimating && s.timers != []
    ensures !FireNext(c, s).isAnimating ==> s.timers[Earliest(s.timers)].action.Settle?
  {
  }

  /** Under the queue invariant, the drawer close that a page switch
      schedules always runs while `isAnimating` is still set, so
      `closeDrawer` returns at its guard: the drawer and the focus stay as
      they are. */
  lemma ScheduledCloseIsDropped(c: Config, s: Snapshot)
    requires Shape(s) && s.timers != [] && s.timers[Earliest(s.timers)].action.CloseDrawerLater?
    ensures FireNext(c, s).isDrawerOpen == s.isDrawerOpen
    ensures FireNext(c, s).activeElement == s.activeElement
    ensures FireNext(c, s).isAnimating
  {
  }

  /** The Swap phase of an accepted switch from an idle state, 150 ms after
      the request: `currentPage`, title and description come from
      `pageData`, exactly the target's section is active, one history entry
      is pushed if and only if `updateHistory`, and the flag stays set with
      the Settle (after the drawer close, if one was scheduled) pending. */
  lemma SwapPhase(c: Config, s: Snapshot, target: string, updateHistory: bool)
    requires Shape(s) && Accepts(c, s, target)
    ensures var k := SectionIndex(s.sections, target).value;
      var x := FireNext(c, ChangePage(c, s, target, updateHistory));
      var settle := Timer(s.now + SwapDelay + AnimationDuration, Settle);
      x.now == s.now + SwapDelay &&
      x.currentPage == target &&
      x.title == c.pageData[target].title &&
      x.description == ShownDescription(c.pageData[target]) &&
      |x.sections| == |s.sections| &&
      (forall i :: 0 <= i < |x.sections| ==> (x.sections[i].active <==> i == k)) &&
      x.history == s.history + (if updateHistory then [Pushed(target)] else []) &&
      x.isAnimating && x.isDrawerOpen == s.isDrawerOpen && x.activeElement == s.activeElement &&
      x.timers == if s.isDrawerOpen then [Timer(s.now + DrawerCloseDelay, CloseDrawerLater), settle] else [settle]
  {
    var k := SectionIndex(s.sections, target).value;
    StartedFrom(c, s, target, updateHistory);
    SwapFromStart(c, s, ChangePage(c, s, target, updateHistory), Swap(k, target, c.pageData[target], updateHistory));
  }

  /** The Swap phase from any state the Start phase can leave behind: the
      one section is activated and the Swap's page data is shown. */
  lemma SwapFromStart(c: Config, s: Snapshot, y: Snapshot, sw: Action)
    requires sw.Swap? && sw.section < |s.sections|
    requires y.isAnimating && y.now == s.now && y.isDrawerOpen == s.isDrawerOpen &&
      y.activeElement == s.activeElement && y.history == s.history && y.sections == Deactivated(s.sections)
    requires y.timers == if s.isDrawerOpen then [Timer(s.now + SwapDelay, sw), Timer(s.now + DrawerCloseDelay, CloseDrawerLater)]
      else [Timer(s.now + SwapDelay, sw)]
    ensures var x := FireNext(c, y);
      var settle := Timer(s.now + SwapDelay + AnimationDuration, Settle);
      x.now == s.now + SwapDelay &&
      x.currentPage == sw.target &&
      x.title == sw.info.title &&
      x.description == ShownDescription(sw.info) &&
      |x.sections| == |s.sections| &&
      (forall i :: 0 <= i < |x.sections| ==> (x.sections[i].active <==> i == sw.section)) &&
      x.history == s.history + (if sw.updateHistory then [Pushed(sw.target)] else []) &&
      x.isAnimating && x.isDrawerOpen == s.isDrawerOpen && x.activeElement == s.activeElement &&
      x.timers == if s.isDrawerOpen then [Timer(s.now + DrawerCloseDelay, CloseDrawerLater), settle] else [settle]
  {
    ExactlyOneSectionActive(s.sections, sw.section);
    SwapRuns(c, y, sw, s.isDrawerOpen);
  }

  /** A full page switch from an idle state ends 450 ms after the request:
      the flag is cleared, nothing is pending, the page shown at the Swap is
      still shown, and an open drawer is still open because the close the
      switch scheduled was dropped. */
  lemma SwitchCompletes(c: Config, s: Snapshot, target: string, updateHistory: bool)
    requires Shape(s) && Accepts(c, s, target)
    ensures var started := ChangePage(c, s, target, updateHistory);
      var x := FireNext(c, started);
      var done := RunUntil(c, started, s.now + SwapDelay + AnimationDuration);
      !done.isAnimating && done.timers == [] &&
      done.currentPage == target && done.sections == x.sections && done.history == x.history &&
      done.title == x.title && done.description == x.description &&
      done.isDrawerOpen == s.isDrawerOpen && done.activeElement == s.activeElement
  {
    var k := SectionIndex(s.sections, target).value;
    StartedFrom(c, s, target, updateHistory);
    var sw := Swap(k, target, c.pageData[target], updateHistory);
    StartedRunsOut(c, ChangePage(c, s, target, updateHistory), sw, s.isDrawerOpen);
  }

  /** The flag is not cleared before those 450 ms have passed, so no second
      switch or drawer request can start in between. */
  lemma SwitchBusyUntilSettle(c: Config, s: Snapshot, target: string, updateHistory: bool, t: int)
    requires Shape(s) && Accepts(c, s, target)
    requires t < s.now + SwapDelay + AnimationDuration
    ensures RunUntil(c, ChangePage(c, s, target, updateHistory), t).isAnimating
  {
    var k := SectionIndex(s.sections, target).value;
    StartedFrom(c, s, target, updateHistory);
    StartedBusy(c, ChangePage(c, s, target, updateHistory), Swap(k, target, c.pageData[target], updateHistory), s.isDrawerOpen, t);
  }

  /** An accepted switch from a valid (hence idle, empty-queued) state: the
      flag is set, the clock and the drawer are as before, and the queue is
      the Swap, then the close if the drawer is open. */
  lemma StartedFrom(c: Config, s: Snapshot, target: string, updateHistory: bool)
    requires Shape(s) && Accepts(c, s, target)
    ensures var started := ChangePage(c, s, target, updateHistory);
      var k := SectionIndex(s.sections, target).value;
      started.isAnimating && started.now == s.now && started.isDrawerOpen == s.isDrawerOpen &&
      started.activeElement == s.activeElement && started.history == s.history &&
      started.sections == Deactivated(s.sections) &&
      var swap := Timer(s.now + SwapDelay, Swap(k, target, c.pageData[target], updateHistory));
      started.timers == if s.isDrawerOpen then [swap, Timer(s.now + DrawerCloseDelay, CloseDrawerLater)] else [swap]
  {
    ChangePageSchedules(c, s, target, updateHistory);
    assert s.timers == [];
  }

  /** With the Swap first and possibly the drawer close behind it, the next
      turn of the event loop runs the Swap at its due time: the page, title,
      description, section and history change as the Swap says, the Settle
      is queued behind the close, and drawer, focus and flag are untouched. */
  lemma SwapRuns(c: Config, y: Snapshot, sw: Action, dc: bool)
    requires sw.Swap?
    requires y.timers == if dc then [Timer(y.now + SwapDelay, sw), Timer(y.now + DrawerCloseDelay, CloseDrawerLater)] else [Timer(y.now + SwapDelay, sw)]
    ensures y.timers[Earliest(y.timers)].due == y.now + SwapDelay
    ensures var x := FireNext(c, y);
      x.now == y.now + SwapDelay && x.currentPage == sw.target &&
      x.title == sw.info.title && x.description == ShownDescription(sw.info) &&
      x.sections == Activated(y.sections, sw.section) &&
      x.history == y.history + (if sw.updateHistory then [Pushed(sw.target)] else []) &&
      x.isAnimating == y.isAnimating && x.isDrawerOpen == y.isDrawerOpen && x.activeElement == y.activeElement &&
      x.timers == if dc then [Timer(y.now + DrawerCloseDelay, CloseDrawerLater), Timer(y.now + SwapDelay + AnimationDuration, Settle)]
        else [Timer(y.now + SwapDelay + AnimationDuration, Settle)]
  {
    var rest := if dc then [Timer(y.now + DrawerCloseDelay, CloseDrawerLater)] else [];
    assert Earliest(y.timers) == 0;
    assert RemoveAt(y.timers, 0) == rest;
  }

  /** From the queue a switch starts with, the flag stays set until 450 ms
      have passed. */
  lemma StartedBusy(c: Config, y: Snapshot, sw: Action, dc: bool, t: int)
    requires y.isAnimating && sw.Swap?
    requires y.timers == if dc then [Timer(y.now + SwapDelay, sw), Timer(y.now + DrawerCloseDelay, CloseDrawerLater)] else [Timer(y.now + SwapDelay, sw)]
    requires t < y.now + SwapDelay + AnimationDuration
    ensures RunUntil(c, y, t).isAnimating
  {
    if t < y.now + SwapDelay {
      SwapRuns(c, y, sw, dc);
      WaitBeforeEarliest(c, y, t);
    } else if dc {
      SwapStepClose(c, y, sw, t);
      ClosePendingIsBusy(c, FireNext(c, y), y.now + DrawerCloseDelay, y.now + SwapDelay + AnimationDuration, t);
    } else {
      SwapStepPlain(c, y, sw, t);
      SettlePendingIsBusy(c, FireNext(c, y), y.now + SwapDelay + AnimationDuration, t);
    }
  }

  /** From the queue a switch starts with, everything has run 450 ms on:
      the flag is cleared, nothing is pending, and the rest is what the Swap
      left. */
  lemma StartedRunsOut(c: Config, y: Snapshot, sw: Action, dc: bool)
    requires y.isAnimating && sw.Swap?
    requires y.timers == if dc then [Timer(y.now + SwapDelay, sw), Timer(y.now + DrawerCloseDelay, CloseDrawerLater)] else [Timer(y.now + SwapDelay, sw)]
    ensures var x := FireNext(c, y);
      var d := RunUntil(c, y, y.now + SwapDelay + AnimationDuration);
      !d.isAnimating && d.timers == [] &&
      d.currentPage == sw.target && d.sections == x.sections && d.history == x.history &&
      d.title == x.title && d.description == x.description &&
      d.isDrawerOpen == y.isDrawerOpen && d.activeElement == y.activeElement
  {
    SwapRuns(c, y, sw, dc);
    if dc {
      SwappedRunsOut(c, y, sw);
    } else {
      SwappedRunsOutPlain(c, y, sw);
    }
  }

  /** With the close behind the Swap: 450 ms on, only the flag and the
      queue differ from what the Swap left. */
  lemma SwappedRunsOut(c: Config, y: Snapshot, sw: Action)
    requires y.isAnimating && sw.Swap?
    requires y.timers == [Timer(y.now + SwapDelay, sw), Timer(y.now + DrawerCloseDelay, CloseDrawerLater)]
    ensures var e := y.now + SwapDelay + AnimationDuration;
      RunUntil(c, y, e) == FireNext(c, y).(isAnimating := false, timers := [], now := e)
  {
    var e := y.now + SwapDelay + AnimationDuration;
    SwapStepClose(c, y, sw, e);
    CloseThenSettleRunOut(c, FireNext(c, y), y.now + DrawerCloseDelay, e);
  }

  /** With the Swap alone: 450 ms on, only the flag and the queue differ
      from what the Swap left. */
  lemma SwappedRunsOutPlain(c: Config, y: Snapshot, sw: Action)
    requires y.isAnimating && sw.Swap?
    requires y.timers == [Timer(y.now + SwapDelay, sw)]
    ensures var e := y.now + SwapDelay + AnimationDuration;
      RunUntil(c, y, e) == FireNext(c, y).(isAnimating := false, timers := [], now := e)
  {
    var e := y.now + SwapDelay + AnimationDuration;
    SwapStepPlain(c, y, sw, e);
    SettleRuns(c, FireNext(c, y), e, e);
  }

  /** Once the Swap is due, the event loop runs it; the close it was
      scheduled with and the Settle it schedules are left. */
  lemma SwapStepClose(c: Config, y: Snapshot, sw: Action, t: int)
    requires y.isAnimating && sw.Swap?
    requires y.timers == [Timer(y.now + SwapDelay, sw), Timer(y.now + DrawerCloseDelay, CloseDrawerLater)]
    requires y.now + SwapDelay <= t
    ensures RunUntil(c, y, t) == RunUntil(c, FireNext(c, y), t)
    ensures var x := FireNext(c, y);
      x.isAnimating && x.now == y.now + SwapDelay &&
      x.timers == [Timer(y.now + DrawerCloseDelay, CloseDrawerLater), Timer(y.now + SwapDelay + AnimationDuration, Settle)]
  {
    SwapRuns(c, y, sw, true);
    StepEarliest(c, y, t);
  }

  /** Once the Swap is due, the event loop runs it; the Settle it schedules
      is left. */
  lemma SwapStepPlain(c: Config, y: Snapshot, sw: Action, t: int)
    requires y.isAnimating && sw.Swap?
    requires y.timers == [Timer(y.now + SwapDelay, sw)]
    requires y.now + SwapDelay <= t
    ensures RunUntil(c, y, t) == RunUntil(c, FireNext(c, y), t)
    ensures var x := FireNext(c, y);
      x.isAnimating && x.now == y.now + SwapDelay &&
      x.timers == [Timer(y.now + SwapDelay + AnimationDuration, Settle)]
  {
    SwapRuns(c, y, sw, false);
    StepEarliest(c, y, t);
  }

  /** With only a Settle due at `e` pending, the event loop keeps the flag
      set before `e` and clears it at `e`, touching nothing else. */
  lemma SettleRuns(c: Config, x: Snapshot, e: int, t: int)
    requires x.timers == [Timer(e, Settle)] && x.now <= e
    ensures t < e ==> RunUntil(c, x, t) == x.(now := if x.now < t then t else x.now)
    ensures t >= e ==> RunUntil(c, x, t) == x.(isAnimating := false, timers := [], now := t)
  {
    if t >= e {
      assert FireNext(c, x) == x.(isAnimating := false, timers := [], now := e);
    }
  }

  /** A scheduled drawer close due at `dc` before the Settle at `e`: once the
      clock passes `dc` the close has run and been dropped. */
  lemma CloseRunsFirst(c: Config, x: Snapshot, dc: int, e: int, t: int)
    requires x.isAnimating && x.timers == [Timer(dc, CloseDrawerLater), Timer(e, Settle)] && x.now <= dc < e
    ensures t < dc ==> RunUntil(c, x, t).isAnimating
    ensures t >= dc ==> RunUntil(c, x, t) == RunUntil(c, x.(now := dc, timers := [Timer(e, Settle)]), t)
  {
    if t >= dc {
      assert Earliest(x.timers) == 0;
    }
  }

  /** The dropped close and then the Settle run out by the Settle's due
      time, and only the flag and the clock change. */
  lemma CloseThenSettleRunOut(c: Config, x: Snapshot, dc: int, e: int)
    requires x.isAnimating && x.now <= dc < e
    requires x.timers == [Timer(dc, CloseDrawerLater), Timer(e, Settle)]
    ensures RunUntil(c, x, e) == x.(isAnimating := false, timers := [], now := e)
  {
    CloseRunsFirst(c, x, dc, e, e);
    SettleRuns(c, x.(now := dc, timers := [Timer(e, Settle)]), e, e);
  }

  /** With only a Settle pending, the flag stays set until it is due. */
  lemma SettlePendingIsBusy(c: Config, x: Snapshot, e: int, t: int)
    requires x.isAnimating && x.timers == [Timer(e, Settle)] && x.now <= e && t < e
    ensures RunUntil(c, x, t).isAnimating
  {
    SettleRuns(c, x, e, t);
  }

  /** With the dropped close and then the Settle pending, the flag stays set
      until the Settle is due. */
  lemma ClosePendingIsBusy(c: Config, x: Snapshot, dc: int, e: int, t: int)
    requires x.isAnimating && x.timers == [Timer(dc, CloseDrawerLater), Timer(e, Settle)] && x.now <= dc < e && t < e
    ensures RunUntil(c, x, t).isAnimating
  {
    CloseRunsFirst(c, x, dc, e, t);
    if t >= dc {
      SettleRuns(c, x.(now := dc, timers := [Timer(e, Settle)]), e, t);
    }
  }

  /** Before the earliest timer is due, the event loop only moves the clock. */
  lemma WaitBeforeEarliest(c: Config, x: Snapshot, t: int)
    requires x.timers != [] && x.timers[Earliest(x.timers)].due > t
    ensures RunUntil(c, x, t) == x.(now := if x.now < t then t else x.now)
  {
  }

  /** Once the earliest timer is due, the event loop runs it first. */
  lemma StepEarliest(c: Config, x: Snapshot, t: int)
    requires x.timers != [] && x.timers[Earliest(x.timers)].due <= t
    ensures RunUntil(c, x, t) == RunUntil(c, FireNext(c, x), t)
  {
  }

  /** Opening the drawer, waiting for its animation and closing it puts the
      focus back on the element that had it before the drawer opened. */
  lemma OpenCloseRestoresFocus(c: Config, s: Snapshot, t: int)
    requires Shape(s) && !s.isAnimating && !s.isDrawerOpen && s.activeElement.Some?
    requires t >= s.now + AnimationDuration
    ensures var afterOpen := ToggleDrawer(c, s);
      var closed := ToggleDrawer(c, RunUntil(c, afterOpen, t));
      afterOpen.isDrawerOpen && !closed.isDrawerOpen &&
      closed.activeElement == s.activeElement && closed.focusedElement.None?
  {
    var afterOpen := ToggleDrawer(c, s);
    assert afterOpen.timers == [Timer(s.now + AnimationDuration, Settle)];
    var settled := FireNext(c, afterOpen);
    assert settled.timers == [] && !settled.isAnimating;
    assert RunUntil(c, afterOpen, t) == RunUntil(c, settled, t);
  }

  // ----- app.setupAccessibility -----

  /** The tabindex part of `setupAccessibility()`: 0 on the first nav item
      and -1 on every other, whatever page is current; nothing else. */
  function ResetTabIndex(s: Snapshot): (r: Snapshot)
    ensures |r.nav| == |s.nav|
    ensures forall i :: 0 <= i < |r.nav| ==>
      r.nav[i].element == s.nav[i].element && r.nav[i].target == s.nav[i].target &&
      r.nav[i].active == s.nav[i].active && r.nav[i].tabIndex == (if i == 0 then 0 else -1)
    ensures r == s.(nav := r.nav)
  {
    s.(nav := seq(|s.nav|, i requires 0 <= i < |s.nav| => s.nav[i].(tabIndex := if i == 0 then 0 else -1)))
  }

  /** `app.init()` runs `loadPageFromUrl()` before `setupAccessibility()`.
      With a fragment naming a page whose nav item is not the first, the
      Start phase marks that item active with tabindex 0, and the reset
      then takes its tabindex back to -1 and gives 0 to the first item,
      which is not active: the roving tabindex no longer follows the
      active item. */
  lemma DeepLinkTabIndex(c: Config, nav: seq<NavItem>, sections: seq<Section>, now: int, hash: string, i: nat)
    requires Accepts(c, Initial(nav, sections, now), HashPage(hash))
    requires 0 < i < |nav| && nav[i].target == Some(HashPage(hash))
    requires nav[0].target != Some(HashPage(hash))
    ensures var started := LoadPageFromUrl(c, Initial(nav, sections, now), hash);
      var r := ResetTabIndex(started);
      started.nav[i].active && started.nav[i].tabIndex == 0 &&
      r.nav[i].active && r.nav[i].tabIndex == -1 &&
      !r.nav[0].active && r.nav[0].tabIndex == 0
  {
  }

  // ----- app.validateElements -----

  /** The element keys `validateElements` checks, in order. */
  const RequiredElements := ["menuToggle", "navigationDrawer", "drawerOverlay", "pageTitle", "pageDescription", "contentArea"]

  /** The first required key without an element: `every` stops there and
      reports that key only. */
  function FirstMissing(required: seq<string>, present: set<string>): (r: Option<nat>)
    ensures r.Some? ==> r.value < |required| && required[r.value] !in present
    ensures r.Some? ==> forall j :: 0 <= j < r.value ==> required[j] in present
    ensures r.None? <==> forall j :: 0 <= j < |required| ==> required[j] in present
  {
    if required == [] then None
    else if required[0] !in present then Some(0)
    else
      match FirstMissing(required[1..], present)
      case None => None
      case Some(k) => Some(k + 1)
  }

  /** `validateElements()`: initialisation goes ahead exactly when all six
      elements exist. */
  predicate ValidateElements(present: set<string>)
  {
    FirstMissing(RequiredElements, present).None?
  }

  /** Initialisation goes ahead exactly when every one of the six keys has
      an element, and a single missing key stops it. */
  lemma ValidateElementsRule(present: set<string>, missing: string)
    ensures ValidateElements(present) <==> (forall k :: k in RequiredElements ==> k in present)
    ensures missing in RequiredElements && missing !in present ==> !ValidateElements(present)
  {
    if ValidateElements(present) {
      forall k | k in RequiredElements
        ensures k in present
      {
        var j :| 0 <= j < |RequiredElements| && RequiredElements[j] == k;
      }
    }
  }
}
