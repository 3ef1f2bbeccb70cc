/** The two keyboard focus rules of the navigation drawer: the focus trap's
    Tab wrap-around and the roving arrow/Home/End focus over nav items. */
module FocusRules {
  import opened Web

  /** The trap's keydown decision (`handleTabKey`): the element focus is
      moved to, or None when the handler lets the event through. */
  function TrapTab(focusables: seq<Element>, active: Option<Element>, key: Key, shift: bool): (r: Option<Element>)
    ensures r.Some? ==> key == Tab && |focusables| > 0
    ensures key == Tab && |focusables| > 0 && shift ==>
      (r.Some? <==> active == Some(focusables[0])) &&
      (r.Some? ==> r.value == focusables[|focusables| - 1])
    ensures key == Tab && |focusables| > 0 && !shift ==>
      (r.Some? <==> active == Some(focusables[|focusables| - 1])) &&
      (r.Some? ==> r.value == focusables[0])
  {
    if key != Tab || focusables == [] then None
    else if shift then
      (if active == Some(focusables[0]) then Some(focusables[|focusables| - 1]) else None)
    else
      (if active == Some(focusables[|focusables| - 1]) then Some(focusables[0]) else None)
  }

  /** The trap with three focusables a, b, c: Tab from c goes to a, Shift+Tab
      from a goes to c, and Tab from b is left to the browser. */
  lemma TrapThree(a: Element, b: Element, c: Element)
    requires a != b && b != c && a != c
    ensures TrapTab([a, b, c], Some(c), Tab, false) == Some(a)
    ensures TrapTab([a, b, c], Some(a), Tab, true) == Some(c)
    ensures TrapTab([a, b, c], Some(b), Tab, false) == None
    ensures TrapTab([a, b, c], Some(b), Tab, true) == None
  {
  }

  /** `Array.prototype.indexOf`: the first position of `active` among the
      nav items, or -1. */
  function IndexOf(items: seq<Element>, active: Option<Element>): (r: int)
    ensures -1 <= r < |items|
    ensures r >= 0 ==> Some(items[r]) == active && forall j :: 0 <= j < r ==> Some(items[j]) != active
    ensures r == -1 ==> forall j :: 0 <= j < |items| ==> Some(items[j]) != active
  {
    if items == [] then -1
    else if Some(items[0]) == active then 0
    else
      var k := IndexOf(items[1..], active);
      if k == -1 then -1 else k + 1
  }

  /** The roving-focus decision (`setupArrowNavigation`) for `n` nav items
      when focus is at position `current` (-1: not on a nav item): the
      position that receives focus, or None when nothing happens. */
  function ArrowTarget(n: nat, current: int, key: Key): (r: Option<nat>)
    requires -1 <= current < n
    ensures r.Some? ==> r.value < n
    ensures current == -1 ==> r.None?
    ensures current >= 0 ==> (r.Some? <==> key in {ArrowDown, ArrowUp, Home, End})
  {
    if current == -1 then None
    else match key
      case ArrowDown => Some((current + 1) % n)
      case ArrowUp => Some(if current == 0 then n - 1 else current - 1)
      case Home => Some(0)
      case End => Some(n - 1)
      case _ => None
  }

  /** The four moves: down wraps from the last item to the first, up wraps
      from the first to the last, Home and End go to the ends. */
  lemma ArrowMoves(n: nat, i: nat)
    requires i < n
    ensures ArrowTarget(n, i, ArrowDown) == Some(if i == n - 1 then 0 else i + 1)
    ensures ArrowTarget(n, i, ArrowUp) == Some(if i == 0 then n - 1 else i - 1)
    ensures ArrowTarget(n, i, Home) == Some(0)
    ensures ArrowTarget(n, i, End) == Some(n - 1)
  {
  }

  /** Down then up, or up then down, returns to the starting item. */
  lemma ArrowUpUndoesDown(n: nat, i: nat)
    requires i < n
    ensures ArrowTarget(n, ArrowTarget(n, i, ArrowDown).value, ArrowUp) == Some(i)
    ensures ArrowTarget(n, ArrowTarget(n, i, ArrowUp).value, ArrowDown) == Some(i)
  {
    ArrowMoves(n, i);
    var d := ArrowTarget(n, i, ArrowDown).value;
    var u := ArrowTarget(n, i, ArrowUp).value;
    ArrowMoves(n, d);
    ArrowMoves(n, u);
  }
}
