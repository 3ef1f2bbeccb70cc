/** RASCUNHOS/index/script.js as the script runs it: `appState` and the
    written parts of the document are fields updated in place, the nav items
    and content sections are fixed-size arrays whose elements the `forEach`
    loops rewrite, and every handler is proved to perform exactly the step
    of the IndexSite state machine. */
module IndexApp {
  import opened Web
  import opened Timers
  import opened Routing
  import FocusRules
  import S = IndexSite

  class App {
    const pageData: map<string, PageInfo>
    const drawerFocusables: seq<Element>
    const navItems: array<S.NavItem>
    const contentPages: array<Section>

    var currentPage: string
    var isAnimating: bool
    var isDrawerOpen: bool
    var focusedElement: Option<Element>
    var activeElement: Option<Element>
    var trapActive: bool
    var title: string
    var description: string
    var history: seq<HistoryEntry>
    var lastInteraction: int
    var now: int
    var timers: seq<Timer<S.Action>>

    function Config(): S.Config
    {
      S.Config(pageData, drawerFocusables)
    }

    function State(): S.Snapshot
      reads this, navItems, contentPages
    {
      S.Snapshot(currentPage, isAnimating, isDrawerOpen, focusedElement, activeElement, trapActive,
                 navItems[..], contentPages[..], title, description, history, lastInteraction, now, timers)
    }

    /** The timer queue has one of the shapes the script can produce. */
    ghost predicate Valid()
      reads this, navItems, contentPages
    {
      S.Shape(State())
    }

    /** The state `app.init()` starts from: first page, drawer closed,
        nothing pending. */
    constructor (pageData: map<string, PageInfo>, drawerFocusables: seq<Element>,
                 navItems: array<S.NavItem>, contentPages: array<Section>, now: int)
      ensures Valid()
      ensures Config() == S.Config(pageData, drawerFocusables)
      ensures this.navItems == navItems && this.contentPages == contentPages
      ensures State() == S.Initial(navItems[..], contentPages[..], now)
    {
      this.pageData := pageData;
      this.drawerFocusables := drawerFocusables;
      this.navItems := navItems;
      this.contentPages := contentPages;
      currentPage := DefaultPage;
      isAnimating := false;
      isDrawerOpen := false;
      focusedElement := None;
      activeElement := None;
      trapActive := false;
      title := "";
      description := "";
      history := [];
      lastInteraction := now;
      this.now := now;
      timers := [];
    }

    /** `pageManager.changePage(targetPageId, updateHistory)`: the guard, then
        the Start phase, scheduling the Swap and, with the drawer open, a
        close 200 ms later. */
    method ChangePage(target: string, updateHistory: bool)
      requires Valid()
      modifies this, navItems, contentPages
      ensures Valid()
      ensures State() == S.ChangePage(Config(), old(State()), target, updateHistory)
    {
      S.ChangePageKeepsShape(Config(), State(), target, updateHistory);
      if isAnimating || target == currentPage {
        return;
      }
      var k := SectionIndex(contentPages[..], target);
      if k.None? || target !in pageData {
        return;
      }
      isAnimating := true;
      DeactivateSections();
      MarkNavItems(target);
      timers := timers + [Timer(now + S.SwapDelay, S.Swap(k.value, target, pageData[target], updateHistory))];
      if isDrawerOpen {
        timers := timers + [Timer(now + S.DrawerCloseDelay, S.CloseDrawerLater)];
      }
    }

    /** `contentPages.forEach(page => page.classList.remove('active'))`. */
    method DeactivateSections()
      modifies contentPages
      ensures contentPages[..] == Deactivated(old(contentPages[..]))
    {
      var i := 0;
      while i < contentPages.Length
        invariant 0 <= i <= contentPages.Length
        invariant forall j :: 0 <= j < i ==> contentPages[j] == old(contentPages[j]).(active := false)
        invariant forall j :: i <= j < contentPages.Length ==> contentPages[j] == old(contentPages[j])
      {
        contentPages[i] := contentPages[i].(active := false);
        i := i + 1;
      }
    }

    /** `navItems.forEach(...)`: `active` and tabindex 0 exactly on the items
        whose `data-target` is `target`, tabindex -1 on the others. */
    method MarkNavItems(target: string)
      modifies navItems
      ensures navItems[..] == S.Marked(old(navItems[..]), target)
    {
      var i := 0;
      while i < navItems.Length
        invariant 0 <= i <= navItems.Length
        invariant forall j :: 0 <= j < i ==> navItems[j] == S.Mark(old(navItems[j]), target)
        invariant forall j :: i <= j < navItems.Length ==> navItems[j] == old(navItems[j])
      {
        var on := navItems[i].target == Some(target);
        navItems[i] := navItems[i].(active := on, tabIndex := if on then 0 else -1);
        i := i + 1;
      }
    }

    /** `pageManager.updateUrl(pageId)`. */
    method UpdateUrl(pageId: string)
      modifies this
      ensures State() == old(State()).(history := old(history) + [Pushed(pageId)])
    {
      history := history + [Pushed(pageId)];
    }

    /** `pageManager.loadPageFromUrl()` with `location.hash == hash`. */
    method LoadPageFromUrl(hash: string)
      requires Valid()
      modifies this, navItems, contentPages
      ensures Valid()
      ensures State() == S.LoadPageFromUrl(Config(), old(State()), hash)
    {
      var id := HashPage(hash);
      if id in pageData {
        ChangePage(id, false);
      }
    }

    /** The `popstate` listener. */
    method Popstate(state: Option<string>, hash: string)
      requires Valid()
      modifies this, navItems, contentPages
      ensures Valid()
      ensures State() == S.Popstate(Config(), old(State()), state, hash)
    {
      var id := PopstatePage(state, hash);
      if id in pageData {
        ChangePage(id, false);
      }
    }

    /** Click, Enter or Space on the nav item at `i`. */
    method ActivateNavItem(i: nat)
      requires Valid()
      modifies this, navItems, contentPages
      ensures Valid()
      ensures State() == S.ActivateNavItem(Config(), old(State()), i)
    {
      if i < navItems.Length {
        var target := navItems[i].target;
        if target.Some? && target.value != "" {
          ChangePage(target.value, true);
        }
      }
    }

    /** `navigationManager.openDrawer()`. */
    method OpenDrawer()
      requires Valid()
      modifies this
      ensures Valid()
      ensures State() == S.OpenDrawer(Config(), old(State()))
    {
      S.DrawerKeepsShape(Config(), State());
      if isAnimating {
        return;
      }
      isAnimating := true;
      isDrawerOpen := true;
      focusedElement := activeElement;
      trapActive := true;
      if drawerFocusables != [] {
        activeElement := Some(drawerFocusables[0]);
      }
      timers := timers + [Timer(now + S.AnimationDuration, S.Settle)];
    }

    /** `focusManager.restoreFocus()`. */
    method RestoreFocus()
      modifies this
      ensures State() == S.RestoreFocus(old(State()))
    {
      if focusedElement.Some? {
        activeElement := focusedElement;
        focusedElement := None;
      }
    }

    /** `navigationManager.closeDrawer()`; it runs from the scheduled close
        as well, so it does not assume the queue invariant. */
    method CloseDrawer()
      modifies this
      ensures State() == S.CloseDrawer(old(State()))
      ensures old(Valid()) ==> Valid()
    {
      if old(Valid()) {
        S.DrawerKeepsShape(Config(), State());
      }
      if isAnimating {
        return;
      }
      isAnimating := true;
      isDrawerOpen := false;
      trapActive := false;
      RestoreFocus();
      timers := timers + [Timer(now + S.AnimationDuration, S.Settle)];
    }

    /** `navigationManager.toggleDrawer()`: the menu toggle's click, Enter
        or Space. */
    method ToggleDrawer()
      requires Valid()
      modifies this
      ensures Valid()
      ensures State() == S.ToggleDrawer(Config(), old(State()))
    {
      if isDrawerOpen {
        CloseDrawer();
      } else {
        OpenDrawer();
      }
    }

    /** A click on the overlay. */
    method OverlayClick()
      requires Valid()
      modifies this
      ensures Valid()
      ensures State() == S.OverlayClick(old(State()))
    {
      CloseDrawer();
    }

    /** Escape pressed anywhere. */
    method EscapeKey()
      requires Valid()
      modifies this
      ensures Valid()
      ensures State() == S.EscapeKey(old(State()))
    {
      if isDrawerOpen {
        CloseDrawer();
      }
    }

    /** The debounced resize callback. */
    method Resize(width: int)
      requires Valid()
      modifies this
      ensures Valid()
      ensures State() == S.Resize(old(State()), width)
    {
      if width > S.WideViewport && isDrawerOpen {
        CloseDrawer();
      }
    }

    /** A click anywhere; `inside` says whether it landed in the drawer or
        on the menu toggle. */
    method DocumentClick(inside: bool)
      requires Valid()
      modifies this
      ensures Valid()
      ensures State() == S.DocumentClick(old(State()), inside)
    {
      if isDrawerOpen && !inside {
        CloseDrawer();
      }
    }

    /** A keydown inside the drawer: the focus trap's and the roving focus
        handlers. */
    method DrawerKeyDown(key: Key, shift: bool)
      requires Valid()
      modifies this
      ensures Valid()
      ensures State() == S.DrawerKeyDown(Config(), old(State()), key, shift)
    {
      if key == Tab {
        if trapActive {
          var next := FocusRules.TrapTab(drawerFocusables, activeElement, key, shift);
          if next.Some? {
            activeElement := next;
          }
        }
      } else {
        var nav := navItems[..];
        var current := FocusRules.IndexOf(S.NavElements(nav), activeElement);
        var next := FocusRules.ArrowTarget(|nav|, current, key);
        if next.Some? {
          activeElement := Some(nav[next.value].element);
        }
      }
    }

    /** The tabindex loop of `app.setupAccessibility()`. */
    method ResetTabIndex()
      requires Valid()
      modifies navItems
      ensures Valid()
      ensures State() == S.ResetTabIndex(old(State()))
    {
      var i := 0;
      while i < navItems.Length
        invariant 0 <= i <= navItems.Length
        invariant forall j :: 0 <= j < i ==> navItems[j] == old(navItems[j]).(tabIndex := if j == 0 then 0 else -1)
        invariant forall j :: i <= j < navItems.Length ==> navItems[j] == old(navItems[j])
      {
        navItems[i] := navItems[i].(tabIndex := if i == 0 then 0 else -1);
        i := i + 1;
      }
    }

    /** `updateLastInteraction`, for each listened-for interaction. */
    method Interact()
      requires Valid()
      modifies this
      ensures Valid()
      ensures State() == S.Interact(old(State()))
    {
      lastInteraction := now;
    }

    /** The 30-second inactivity interval callback. */
    method InactivityCheck()
      requires Valid()
      modifies this
      ensures Valid()
      ensures State() == S.InactivityCheck(old(State()))
    {
      if S.IdleTooLong(now, lastInteraction, isDrawerOpen) {
        CloseDrawer();
      }
    }

    /** The body of a scheduled callback. */
    method RunCallback(a: S.Action)
      modifies this, contentPages
      ensures State() == S.Run(Config(), old(State()), a)
    {
      match a
      case Swap(k, target, info, updateHistory) =>
        title := info.title;
        description := ShownDescription(info);
        if k < contentPages.Length {
          contentPages[k] := contentPages[k].(active := true);
        }
        currentPage := target;
        if updateHistory {
          UpdateUrl(target);
        }
        timers := timers + [Timer(now + S.AnimationDuration, S.Settle)];
      case Settle =>
        isAnimating := false;
      case CloseDrawerLater =>
        CloseDrawer();
    }

    /** One turn of the event loop: the earliest pending timer fires. */
    method FireNextTimer()
      requires Valid()
      modifies this, contentPages
      ensures Valid()
      ensures State() == S.FireNext(Config(), old(State()))
    {
      S.FireNextKeepsShape(Config(), State());
      if timers == [] {
        return;
      }
      var k := Earliest(timers);
      var t := timers[k];
      now := t.due;
      timers := RemoveAt(timers, k);
      RunCallback(t.action);
    }

    /** The event loop until the clock reads `t`. */
    method AdvanceTo(t: int)
      requires Valid()
      modifies this, contentPages
      ensures Valid()
      ensures State() == S.RunUntil(Config(), old(State()), t)
    {
      while timers != [] && timers[Earliest(timers)].due <= t
        invariant Valid()
        invariant S.RunUntil(Config(), State(), t) == S.RunUntil(Config(), old(State()), t)
        decreases Load(timers, S.Weight)
      {
        S.FireNextLowersLoad(Config(), State());
        FireNextTimer();
      }
      if now < t {
        now := t;
      }
    }
  }
}
