/** The drawer-less page switcher of RASCUNHOS/project/script.js and
    main/script.js as the scripts run it: `appState` and the written parts of
    the document are fields, the nav buttons and content sections are
    fixed-size arrays the `forEach` loops rewrite, and each handler is proved
    to perform exactly the PlainSite step. */
module PlainApp {
  import opened Web
  import opened Timers
  import opened Routing
  import S = PlainSite

  class Switcher {
    const pageData: map<string, PageInfo>
    const navBtns: array<S.NavButton>
    const contentPages: array<Section>

    var currentPage: string
    var isAnimating: bool
    var title: string
    var description: string
    var history: seq<HistoryEntry>
    var now: int
    var timers: seq<Timer<S.Action>>

    function State(): S.Snapshot
      reads this, navBtns, contentPages
    {
      S.Snapshot(currentPage, isAnimating, navBtns[..], contentPages[..], title, description, history, now, timers)
    }

    ghost predicate Valid()
      reads this, navBtns, contentPages
    {
      S.Shape(State())
    }

    constructor (pageData: map<string, PageInfo>, navBtns: array<S.NavButton>, contentPages: array<Section>, now: int)
      ensures Valid()
      ensures this.pageData == pageData && this.navBtns == navBtns && this.contentPages == contentPages
      ensures State() == S.Initial(navBtns[..], contentPages[..], now)
    {
      this.pageData := pageData;
      this.navBtns := navBtns;
      this.contentPages := contentPages;
      currentPage := DefaultPage;
      isAnimating := false;
      title := "";
      description := "";
      history := [];
      this.now := now;
      timers := [];
    }

    /** `pageManager.changePage(targetPageId, updateHistory)`. */
    method ChangePage(target: string, updateHistory: bool)
      requires Valid()
      modifies this, navBtns, contentPages
      ensures Valid()
      ensures State() == S.ChangePage(pageData, old(State()), target, updateHistory)
    {
      S.ChangePageKeepsShape(pageData, State(), target, updateHistory);
      if isAnimating || target == currentPage {
        return;
      }
      var k := SectionIndex(contentPages[..], target);
      if k.None? || target !in pageData {
        return;
      }
      isAnimating := true;
      DeactivateSections();
      MarkNavButtons(target);
      timers := timers + [Timer(now + S.SwapDelay, S.Swap(k.value, target, pageData[target], updateHistory))];
    }

    /** `contentPages.forEach(page => page.classList.remove('active'))`. */
    method DeactivateSections()
      modifies contentPages
      ensures contentPages[..] == Deactivated(old(contentPages[..]))
    {
      var i := 0;
      while i < contentPages.Length
        invariant 0 <= i <= contentPages.Length
        invariant forall j :: 0 <= j < i ==> contentPages[j] == old(contentPages[j]).(active := false)
        invariant forall j :: i <= j < contentPages.Length ==> contentPages[j] == old(contentPages[j])
      {
        contentPages[i] := contentPages[i].(active := false);
        i := i + 1;
      }
    }

    /** `navBtns.forEach(btn => btn.classList.toggle('active', ...))`. */
    method MarkNavButtons(target: string)
      modifies navBtns
      ensures navBtns[..] == S.Marked(old(navBtns[..]), target)
    {
      var i := 0;
      while i < navBtns.Length
        invariant 0 <= i <= navBtns.Length
        invariant forall j :: 0 <= j < i ==> navBtns[j] == old(navBtns[j]).(active := old(navBtns[j]).target == Some(target))
        invariant forall j :: i <= j < navBtns.Length ==> navBtns[j] == old(navBtns[j])
      {
        navBtns[i] := navBtns[i].(active := navBtns[i].target == Some(target));
        i := i + 1;
      }
    }

    /** `pageManager.updateUrl(pageId)`. */
    method UpdateUrl(pageId: string)
      modifies this
      ensures State() == old(State()).(history := old(history) + [Pushed(pageId)])
    {
      history := history + [Pushed(pageId)];
    }

    /** `pageManager.loadPageFromUrl()` with `location.hash == hash`. */
    method LoadPageFromUrl(hash: string)
      requires Valid()
      modifies this, navBtns, contentPages
      ensures Valid()
      ensures State() == S.LoadPageFromUrl(pageData, old(State()), hash)
    {
      var id := HashPage(hash);
      if id in pageData {
        ChangePage(id, false);
      }
    }

    /** The `popstate` listener. */
    method Popstate(state: Option<string>, hash: string)
      requires Valid()
      modifies this, navBtns, contentPages
      ensures Valid()
      ensures State() == S.Popstate(pageData, old(State()), state, hash)
    {
      var id := PopstatePage(state, hash);
      if id in pageData {
        ChangePage(id, false);
      }
    }

    /** Click, Enter or Space on the nav button at `i`. */
    method ActivateNavButton(i: nat)
      requires Valid()
      modifies this, navBtns, contentPages
      ensures Valid()
      ensures State() == S.ActivateNavButton(pageData, old(State()), i)
    {
      if i < navBtns.Length {
        var target := navBtns[i].target;
        if target.Some? && target.value != "" {
          ChangePage(target.value, true);
        }
      }
    }

    /** One turn of the event loop: the earliest pending timer fires. */
    method FireNextTimer()
      requires Valid()
      modifies this, contentPages
      ensures Valid()
      ensures State() == S.FireNext(old(State()))
    {
      S.FireNextKeepsShape(State());
      if timers == [] {
        return;
      }
      var k := Earliest(timers);
      var t := timers[k];
      now := t.due;
      timers := RemoveAt(timers, k);
      match t.action
      case Swap(j, target, info, updateHistory) =>
        title := info.title;
        description := ShownDescription(info);
        if j < contentPages.Length {
          contentPages[j] := contentPages[j].(active := true);
        }
        currentPage := target;
        if updateHistory {
          UpdateUrl(target);
        }
        timers := timers + [Timer(now + S.SettleDelay, S.Settle)];
      case Settle =>
        isAnimating := false;
    }

    /** The event loop until the clock reads `t`. */
    method AdvanceTo(t: int)
      requires Valid()
      modifies this, contentPages
      ensures Valid()
      ensures State() == S.RunUntil(old(State()), t)
    {
      while timers != [] && timers[Earliest(timers)].due <= t
        invariant Valid()
        invariant S.RunUntil(State(), t) == S.RunUntil(old(State()), t)
        decreases Load(timers, S.Weight)
      {
        S.FireNextLowersLoad(State());
        FireNextTimer();
      }
      if now < t {
        now := t;
      }
    }
  }
}
