# Sustainable-development site scripts, modelled in Dafny

The site "Desenvolvimento Sustentável na Engenharia de Computação" is a set
of static pages driven by small browser scripts. Underneath their DOM calls
sit a few state machines and index rules, and this project models those:

- **The navigation shell** (`RASCUNHOS/index/script.js`): `changePage`
  switches the visible content section in three timed phases (Start at the
  request, Swap at +150 ms, Settle 300 ms after the Swap), the navigation
  drawer opens and closes with its own 300 ms animation, focus is saved
  and restored around the drawer, a focus trap wraps Tab inside the drawer,
  arrow keys, Home and End move focus over the nav items, and a 30-second
  interval closes the drawer after five minutes without interaction. Page
  switching and the drawer share one `isAnimating` flag.
- **The page switchers without a drawer** (`RASCUNHOS/project/script.js`
  and `main/script.js`): the same `changePage`, `updateUrl`,
  `loadPageFromUrl` and `popstate` code, with different catalogues; in
  `main/script.js` the entries `energia` and `agua` have no description.
- **The post pager** (`oti/script.js`): a clamped index over the posts,
  prev/next buttons disabled at the ends, ArrowLeft/ArrowRight pressing
  them, and a progress percentage.

Each script that changes state step by step is modelled twice, and the two
are tied together:

- a state machine on values (`IndexSite`, `PlainSite`): the state is a
  `Snapshot` datatype holding `appState`, the written parts of the
  document, the pushed history, the clock and the pending `setTimeout`
  callbacks as an explicit queue; each handler is a function from the state
  before the event to the state after it, `FireNext` runs the earliest due
  callback (first scheduled first on equal due times), and `RunUntil` runs
  the event loop up to a given time. The properties of the site are lemmas
  about these functions;
- a class (`IndexApp.App`, `PlainApp.Switcher`) whose fields are
  `appState` and the written document parts, whose nav items and content
  sections are arrays rewritten by `forEach` loops, and whose every event
  handler is proved to perform exactly the corresponding step of the state
  machine while keeping the timer queue in one of the shapes the script can
  produce (`Valid`); the helper methods the handlers call are proved against
  the same functions.

The pager is a class over an array of display flags (`PostPager.Pager`)
with pure index and progress functions beside it. The shared pieces are
`Web` (values), `Timers` (the timer queue), `Routing` (history entries and
fragment/`popstate` resolution), `UrlText` (`sanitizeForUrl`) and
`FocusRules` (the Tab trap and the roving arrow focus).

Some behaviours of the code are worth knowing:

- When a page switch starts with the drawer open, `changePage` schedules a
  `closeDrawer` at +200 ms, but the flag it set stays on until +450 ms, so
  `closeDrawer` returns at its guard and the drawer stays open
  (`IndexSite.ScheduledCloseIsDropped`, `IndexSite.SwitchCompletes`).
- The inactivity auto-close goes through `closeDrawer`, so a check that
  falls inside a page switch or a drawer animation does nothing; a later
  check made while no transition is in flight closes the drawer
  (`IndexSite.AutoCloseCloses`). A switch started by the back and forward
  buttons does not count as an interaction, so it can drop a check too.
- `app.init` resets the nav tabindex after loading the page named by the
  fragment, so on a deep link to any page but the first the active nav item
  ends with tabindex -1 and the first, inactive item with 0
  (`IndexSite.DeepLinkTabIndex`).
- The progress readout `Math.round((i + 1) / n * 100)` is 0 on the first
  post once there are more than 200 posts, and reads 100 before the last
  post once there are 200 or more (`PostPager.ProgressBounds`).

Integers are unbounded; every quantity here (indices, milliseconds since
start, percentages) stays far from any machine limit, so no wrap-around is
modelled.

## Model

| member | source | states |
|---|---|---|
| Web.ShownDescription | main/script.js:87 | setting `textContent` to an entry's description shows that text, and to an absent description (`undefined`, which converts to null) empties the element |
| Web.SectionIndex | RASCUNHOS/index/script.js:306 | `getElementById` over the content sections: the first section with that id, or none when no section has it |
| Web.ExactlyOneSectionActive | RASCUNHOS/index/script.js:317-319 | after every section loses `active` and the target's section gains it, exactly that section is active and no id changes |
| Routing.Pushed | RASCUNHOS/index/script.js:367-370 | `updateUrl(id)` pushes an entry whose state page is `id` and whose fragment is `#` followed by `id` |
| Routing.StripFirstHash | RASCUNHOS/index/script.js:376 | `replace('#', '')` removes only the first `#`, wherever it is: no `#` leaves the string as it is, otherwise it is one shorter, and a leading `#` is dropped |
| Routing.HashPage | RASCUNHOS/index/script.js:376 | the page a fragment names is never empty: an empty remainder falls back to `energia` |
| Routing.PopstatePage | RASCUNHOS/index/script.js:441 | the page a `popstate` resolves to is never empty |
| Routing.HashRoundTrip | RASCUNHOS/project/script.js:138-151 | loading the fragment `updateUrl(id)` wrote resolves to `id` (to `energia` for the empty id) |
| Routing.PopstateRoundTrip | RASCUNHOS/project/script.js:138-141 | going back to an entry `updateUrl(id)` pushed resolves to `id`, whatever fragment the browser reports |
| Routing.PopstateFallback | RASCUNHOS/project/script.js:212 | the resolution chain: a non-empty state page, else the fragment without its first `#`, else `energia` |
| Routing.DefaultFragments | main/script.js:123-127 | an empty fragment, a lone `#` and `#energia` all resolve to `energia` |
| UrlText.SanitizeForUrl | RASCUNHOS/index/script.js:130-132 | the result contains only `a-z` and `0-9` and is no longer than the input |
| UrlText.SanitizeKeepsSafe | RASCUNHOS/index/script.js:130-132 | a string made only of `a-z0-9` passes through unchanged |
| UrlText.SanitizeIdempotent | RASCUNHOS/index/script.js:130-132 | sanitizing twice equals sanitizing once |
| UrlText.SanitizeConcat | RASCUNHOS/index/script.js:130-132 | the global replace works per character: sanitizing a concatenation concatenates the results |
| UrlText.SanitizeChar | RASCUNHOS/index/script.js:131 | an upper-case letter yields its lower-case form, a character outside the class yields nothing |
| FocusRules.TrapTab | RASCUNHOS/index/script.js:161-175 | only Tab with at least one focusable moves focus; Shift+Tab moves exactly when focus is on the first, to the last; Tab moves exactly when focus is on the last, to the first |
| FocusRules.TrapThree | RASCUNHOS/index/script.js:161-175 | with three focusables, Tab from the last wraps to the first, Shift+Tab from the first wraps to the last, and the middle one is left to the browser |
| FocusRules.IndexOf | RASCUNHOS/index/script.js:475-476 | `indexOf` of the focused element among the nav items: its first position, or -1 exactly when it is none of them |
| FocusRules.ArrowTarget | RASCUNHOS/index/script.js:474-501 | the target is always a nav item; focus off the nav items does nothing; on a nav item exactly ArrowDown, ArrowUp, Home and End move focus |
| FocusRules.ArrowMoves | RASCUNHOS/index/script.js:482-500 | ArrowDown gives the next item and wraps from the last to the first, ArrowUp the previous one and wraps from the first to the last, Home the first, End the last |
| FocusRules.ArrowUpUndoesDown | RASCUNHOS/index/script.js:482-492 | ArrowDown then ArrowUp, and ArrowUp then ArrowDown, return to the starting item |
| IndexSite.ChangePage | RASCUNHOS/index/script.js:303-361 | a refused request (animating, same page, unknown id, no section) changes nothing; an accepted one sets the flag, keeps `currentPage`, makes every section inactive, marks exactly the nav items targeting the page as active with tabindex 0 and the others tabindex -1, and queues one callback more with the drawer closed, two with it open |
| IndexSite.ChangePageSchedules | RASCUNHOS/index/script.js:328-361 | an accepted request appends the Swap for the target's section and catalogue entry at +150 ms and, with the drawer open, a close at +200 ms, and changes nothing else (drawer, focus, page, history, title) |
| IndexSite.UrlSwitches | RASCUNHOS/index/script.js:375-380 | going back to or loading an entry a switch to `id` pushed requests `id` without pushing history; a fragment naming no page changes nothing |
| IndexSite.OpenDrawer | RASCUNHOS/index/script.js:205-232 | refused while animating; otherwise the drawer is open, the flag set, the focused element recorded, the trap installed with focus on the first focusable (if any), and one Settle scheduled 300 ms later |
| IndexSite.RestoreFocus | RASCUNHOS/index/script.js:192-197 | a recorded element gets the focus back and the record is cleared |
| IndexSite.CloseDrawer | RASCUNHOS/index/script.js:237-267 | refused while animating; otherwise the drawer is closed, the trap removed, focus restored to the recorded element, the record cleared, and one Settle scheduled |
| IndexSite.ToggleDrawer | RASCUNHOS/index/script.js:272-278 | closes exactly when the drawer is open, opens otherwise |
| IndexSite.NavElements | RASCUNHOS/index/script.js:475 | `Array.from(navItems)`: the i-th element is the i-th nav item's element |
| IndexSite.FocusedNavPosition | RASCUNHOS/index/script.js:474-476 | with distinct nav elements, `indexOf` of the focused nav item is its position |
| IndexSite.ArrowKeysInDrawer | RASCUNHOS/index/script.js:482-500 | on the state: with focus on nav item i, ArrowDown focuses the next item (the first after the last), ArrowUp the previous (the last before the first), Home the first and End the last, changing nothing but the focus; other non-Tab keys change nothing |
| IndexSite.ArrowKeysOffNav | RASCUNHOS/index/script.js:474-478 | with focus on no nav item, the arrow handler leaves the state unchanged |
| IndexSite.TabInDrawer | RASCUNHOS/index/script.js:161-177 | on the state: with the trap installed, Tab on the last focusable focuses the first and Shift+Tab on the first focuses the last; every other Tab, and every Tab once the trap is removed, changes nothing |
| IndexSite.Interact | RASCUNHOS/index/script.js:509-515 | an interaction records the current time |
| IndexSite.IdleRule | RASCUNHOS/index/script.js:518-527 | the auto-close condition holds exactly when the drawer is open and more than 300000 ms have passed, and once it holds it keeps holding as time goes on |
| IndexSite.QuietAfterInteraction | RASCUNHOS/index/script.js:509-524 | after an interaction, the interval check changes nothing until more than 300000 ms have passed |
| IndexSite.AutoCloseCloses | RASCUNHOS/index/script.js:518-527 | when the idle rule holds and no transition is in flight, the check closes the drawer, removes the trap and gives focus back to the saved element; during a transition it changes nothing |
| IndexSite.FireNextLowersLoad | RASCUNHOS/index/script.js:328-354 | a callback schedules at most one shorter-lived callback, so the event loop always drains |
| IndexSite.Initial | RASCUNHOS/index/script.js:74-80 | the start state is on `energia`, drawer closed, not animating, nothing pending |
| IndexSite.ChangePageKeepsShape | RASCUNHOS/index/script.js:303-362 | a page switch keeps the timer queue in one of the shapes the script can produce |
| IndexSite.DrawerKeepsShape | RASCUNHOS/index/script.js:205-278 | opening, closing and toggling the drawer keep the queue shape |
| IndexSite.FireNextKeepsShape | RASCUNHOS/index/script.js:328-354 | running the earliest callback keeps the queue shape and never moves the clock back |
| IndexSite.CloseLaterKeepsShape | RASCUNHOS/index/script.js:356-361 | the close a switch scheduled, run while the flag is set, changes nothing |
| IndexSite.SettleKeepsShape | RASCUNHOS/index/script.js:350-352 | the Settle, run as the last pending callback, leaves an idle state with an empty queue |
| IndexSite.SwapKeepsShape | RASCUNHOS/index/script.js:328-354 | the Swap, run with at most the close pending, leaves the close followed by its Settle, in due order |
| IndexSite.RunUntilKeepsShape | RASCUNHOS/index/script.js:328-361 | running the event loop up to any time keeps the queue shape and leaves the clock at or after that time |
| IndexSite.DroppedWhileAnimating | RASCUNHOS/index/script.js:206 | while the flag is set, page switches from every source, opening, closing, toggling, Escape and the inactivity close are all dropped, with nothing queued |
| IndexSite.OnlySettleClears | RASCUNHOS/index/script.js:350-352 | the flag is cleared only by a Settle callback |
| IndexSite.ScheduledCloseIsDropped | RASCUNHOS/index/script.js:356-361 | the close a page switch schedules always runs while the flag is set, so the drawer state and the focus stay as they are |
| IndexSite.SwapPhase | RASCUNHOS/index/script.js:328-354 | 150 ms after an accepted request: `currentPage`, title and description come from `pageData`, exactly the target's section is active, one history entry is pushed if and only if `updateHistory`, and the flag is still set |
| IndexSite.SettleRuns | RASCUNHOS/index/script.js:350-352 | with only a Settle pending, the event loop clears the flag exactly at its due time and changes nothing else |
| IndexSite.CloseRunsFirst | RASCUNHOS/index/script.js:356-361 | the scheduled close runs before the Settle and leaves the flag set |
| IndexSite.SwitchCompletes | RASCUNHOS/index/script.js:303-362 | 450 ms after an accepted request the flag is clear, nothing is pending, the new page is still shown, and an open drawer is still open |
| IndexSite.SwitchBusyUntilSettle | RASCUNHOS/index/script.js:309-352 | the flag stays set for the whole 450 ms, so no second switch or drawer request can start in between |
| IndexSite.StartedFrom | RASCUNHOS/index/script.js:303-361 | from a valid state an accepted request leaves the flag set, clock, drawer, focus and history as they were, every section inactive, and exactly the Swap (then the close, with the drawer open) queued |
| IndexSite.SwapFromStart | RASCUNHOS/index/script.js:328-354 | from that queue the next callback is the Swap, which shows the page data, activates exactly the one section, pushes history if and only if asked and leaves the close (if any) and the Settle |
| IndexSite.SwapRuns | RASCUNHOS/index/script.js:328-354 | with the Swap first in the queue, the next turn of the event loop runs it at its due time with exactly the effects the callback has |
| IndexSite.StartedBusy | RASCUNHOS/index/script.js:328-352 | from the queue a switch starts with, the flag is still set at every time before 450 ms |
| IndexSite.StartedRunsOut | RASCUNHOS/index/script.js:328-361 | from that queue, 450 ms on, the flag is clear, the queue empty, and page, sections, history, title, description, drawer and focus are what the Swap left |
| IndexSite.SwappedRunsOut | RASCUNHOS/index/script.js:328-361 | with the close queued behind the Swap, 450 ms on only the flag, the queue and the clock differ from the Swap's result |
| IndexSite.SwappedRunsOutPlain | RASCUNHOS/index/script.js:328-352 | with the Swap alone, 450 ms on only the flag, the queue and the clock differ from the Swap's result |
| IndexSite.SwapStepClose | RASCUNHOS/index/script.js:328-361 | once the Swap is due it runs first and leaves the close and the Settle queued, the flag still set |
| IndexSite.SwapStepPlain | RASCUNHOS/index/script.js:328-352 | once the Swap is due it runs first and leaves only the Settle queued, the flag still set |
| IndexSite.CloseThenSettleRunOut | RASCUNHOS/index/script.js:350-361 | the dropped close and then the Settle run out by the Settle's due time, changing only the flag, the queue and the clock |
| IndexSite.SettlePendingIsBusy | RASCUNHOS/index/script.js:350-352 | with only the Settle pending, the flag stays set until it is due |
| IndexSite.ClosePendingIsBusy | RASCUNHOS/index/script.js:350-361 | with the close and then the Settle pending, the flag stays set until the Settle is due |
| IndexSite.WaitBeforeEarliest | RASCUNHOS/index/script.js:328-361 | before the earliest callback is due, the event loop only moves the clock |
| IndexSite.StepEarliest | RASCUNHOS/index/script.js:328-361 | once the earliest callback is due, the event loop runs it first |
| IndexSite.OpenCloseRestoresFocus | RASCUNHOS/index/script.js:192-278 | toggling the drawer open, waiting out its animation and toggling it closed gives the focus back to the element that had it before |
| IndexSite.ResetTabIndex | RASCUNHOS/index/script.js:592-595 | the first nav item gets tabindex 0 and every other -1, whatever page is current; nothing else changes |
| IndexSite.DeepLinkTabIndex | RASCUNHOS/index/script.js:546-550 | on a deep link to a page whose nav item is not the first, the Start phase gives that item tabindex 0 and the later reset takes it back to -1, leaving 0 on the inactive first item |
| IndexSite.FirstMissing | RASCUNHOS/index/script.js:571-578 | `every` stops at the first required key without an element; none is found exactly when every key has one |
| IndexSite.ValidateElementsRule | RASCUNHOS/index/script.js:561-579 | initialisation goes ahead exactly when all six required keys have an element; any missing one stops it |
| IndexApp.App.constructor | RASCUNHOS/index/script.js:74-80 | the application state before the first `loadPageFromUrl`, satisfying the queue invariant |
| IndexApp.App.ChangePage | RASCUNHOS/index/script.js:303-362 | performs exactly `IndexSite.ChangePage`, keeping the queue invariant |
| IndexApp.App.DeactivateSections | RASCUNHOS/index/script.js:317-319 | the loop leaves every section inactive and otherwise unchanged |
| IndexApp.App.MarkNavItems | RASCUNHOS/index/script.js:322-325 | the loop marks each nav item active with tabindex 0 exactly when it targets the page, tabindex -1 otherwise |
| IndexApp.App.UpdateUrl | RASCUNHOS/index/script.js:367-370 | appends the entry for `pageId` to the history and changes nothing else |
| IndexApp.App.LoadPageFromUrl | RASCUNHOS/index/script.js:375-380 | performs exactly `IndexSite.LoadPageFromUrl` |
| IndexApp.App.Popstate | RASCUNHOS/index/script.js:440-445 | performs exactly `IndexSite.Popstate` |
| IndexApp.App.ActivateNavItem | RASCUNHOS/index/script.js:408-427 | performs exactly `IndexSite.ActivateNavItem`: an item without a target does nothing |
| IndexApp.App.OpenDrawer | RASCUNHOS/index/script.js:205-232 | performs exactly `IndexSite.OpenDrawer`, keeping the invariant |
| IndexApp.App.RestoreFocus | RASCUNHOS/index/script.js:192-197 | performs exactly `IndexSite.RestoreFocus` |
| IndexApp.App.CloseDrawer | RASCUNHOS/index/script.js:237-267 | performs exactly `IndexSite.CloseDrawer`, keeping the invariant when it held |
| IndexApp.App.ToggleDrawer | RASCUNHOS/index/script.js:390-400 | performs exactly `IndexSite.ToggleDrawer` |
| IndexApp.App.OverlayClick | RASCUNHOS/index/script.js:403-405 | calls `closeDrawer`, open or not, which does nothing while a transition is in progress |
| IndexApp.App.EscapeKey | RASCUNHOS/index/script.js:433-437 | closes an open drawer, unless a transition is in progress |
| IndexApp.App.Resize | RASCUNHOS/index/script.js:448-452 | closes an open drawer at widths above 768, unless a transition is in progress |
| IndexApp.App.DocumentClick | RASCUNHOS/index/script.js:458-464 | closes an open drawer on a click outside it and the toggle, unless a transition is in progress |
| IndexApp.App.DrawerKeyDown | RASCUNHOS/index/script.js:161-503 | the two drawer keydown listeners, exactly as `IndexSite.DrawerKeyDown`: the trap's Tab rule (lines 161-182) while the trap is installed, and the roving focus rule (lines 470-503) for the other keys |
| IndexApp.App.ResetTabIndex | RASCUNHOS/index/script.js:592-595 | the loop performs exactly `IndexSite.ResetTabIndex`, keeping the invariant |
| IndexApp.App.Interact | RASCUNHOS/index/script.js:509-515 | records the current time as the last interaction |
| IndexApp.App.InactivityCheck | RASCUNHOS/index/script.js:518-527 | calls `closeDrawer` exactly when the idle rule holds, which closes the drawer unless a transition is in progress |
| IndexApp.App.RunCallback | RASCUNHOS/index/script.js:328-354 | runs a Swap, Settle or scheduled close callback exactly as `IndexSite.Run` |
| IndexApp.App.FireNextTimer | RASCUNHOS/index/script.js:328-361 | runs the earliest pending callback, exactly as `IndexSite.FireNext` |
| IndexApp.App.AdvanceTo | RASCUNHOS/index/script.js:328-361 | the event loop up to time `t`, exactly as `IndexSite.RunUntil` |
| PlainSite.ChangePage | RASCUNHOS/project/script.js:83-107 | a refused request changes nothing; an accepted one sets the flag, keeps `currentPage`, makes every section inactive, marks exactly the buttons targeting the page as active, and queues exactly one callback more |
| PlainSite.ChangePageSchedules | RASCUNHOS/project/script.js:107-127 | an accepted request appends the Swap for the target's section and catalogue entry at +150 ms and changes nothing else |
| PlainSite.UrlSwitches | RASCUNHOS/project/script.js:146-151 | going back to or loading an entry a switch to `id` pushed requests `id` without pushing history; a fragment naming no page changes nothing |
| PlainSite.FireNextLowersLoad | RASCUNHOS/project/script.js:107-132 | a callback schedules at most one shorter-lived callback |
| PlainSite.Initial | RASCUNHOS/project/script.js:73-76 | the start state is on `energia`, not animating, nothing pending |
| PlainSite.ChangePageKeepsShape | RASCUNHOS/project/script.js:83-133 | a page switch keeps the queue shape: the flag is set exactly when one callback is pending |
| PlainSite.FireNextKeepsShape | RASCUNHOS/project/script.js:107-132 | running the earliest callback keeps the queue shape |
| PlainSite.RunUntilKeepsShape | RASCUNHOS/project/script.js:107-132 | the event loop up to any time keeps the queue shape |
| PlainSite.DroppedWhileAnimating | RASCUNHOS/project/script.js:84 | while the flag is set, every page switch request is dropped with nothing queued |
| PlainSite.OnlySettleClears | RASCUNHOS/project/script.js:129-131 | the flag is cleared only by the Settle callback |
| PlainSite.SwapPhase | RASCUNHOS/project/script.js:107-127 | 150 ms after an accepted request the page, title, description, active section and history reflect the target, history growing if and only if `updateHistory` |
| PlainSite.SettlesAfterSwap | main/script.js:71-108 | the flag is set exactly until 300 ms after the Swap, and then cleared with nothing else changed and nothing pending |
| PlainSite.StartupDefaultIsNoOp | main/script.js:51-61 | loading with an empty fragment, `#` or `#energia` changes nothing |
| PlainSite.StartupWithFragment | main/script.js:123-127 | loading `#agua` shows `agua` at the Swap without pushing history |
| PlainSite.DescriptionShown | main/script.js:8-13 | in `main/script.js` switching to `energia` or `agua` empties the description; with a description in every entry it is shown |
| PlainApp.Switcher.constructor | main/script.js:50-53 | the switcher state before the first `loadPageFromUrl`, satisfying the queue invariant |
| PlainApp.Switcher.ChangePage | main/script.js:60-110 | performs exactly `PlainSite.ChangePage`, keeping the invariant |
| PlainApp.Switcher.DeactivateSections | main/script.js:74-76 | the loop leaves every section inactive and otherwise unchanged |
| PlainApp.Switcher.MarkNavButtons | main/script.js:79-81 | the loop marks a button active exactly when it targets the page |
| PlainApp.Switcher.UpdateUrl | main/script.js:115-118 | appends the entry for `pageId` to the history |
| PlainApp.Switcher.LoadPageFromUrl | main/script.js:123-128 | performs exactly `PlainSite.LoadPageFromUrl` |
| PlainApp.Switcher.Popstate | main/script.js:188-193 | performs exactly `PlainSite.Popstate` |
| PlainApp.Switcher.ActivateNavButton | main/script.js:166-185 | performs exactly `PlainSite.ActivateNavButton` |
| PlainApp.Switcher.FireNextTimer | main/script.js:84-109 | runs the earliest pending callback, exactly as `PlainSite.FireNext` |
| PlainApp.Switcher.AdvanceTo | main/script.js:84-109 | the event loop up to time `t`, exactly as `PlainSite.RunUntil` |
| PostPager.IndexRules | oti/script.js:28-40 | prev and next keep the index in range; prev at 0 and next at the last post leave it unchanged, and elsewhere they move it by one |
| PostPager.PrevNextRoundTrip | oti/script.js:28-40 | prev then next from an interior post, and next then prev, return to the starting post |
| PostPager.Visibility | oti/script.js:11-17 | one display flag per post |
| PostPager.ExactlyOnePostShown | oti/script.js:11-17 | with the index in range exactly one post is shown, the one at the index |
| PostPager.Progress | oti/script.js:107-110 | no percentage (Infinity) exactly when there are no posts; otherwise the percentage p is 100 (i + 1) / n rounded half up, that is 2np - n <= 200 (i + 1) < 2np + n |
| PostPager.ProgressBounds | oti/script.js:107-110 | the percentage lies in 0..100, is 100 at the last post and exactly when 200 (n - 1 - i) <= n, and is positive exactly when n <= 200 (i + 1) |
| PostPager.ProgressMonotone | oti/script.js:107-110 | the percentage never decreases as the index moves forward |
| PostPager.Pager.constructor | oti/script.js:7-52 | the index starts at 0 and the display flags and disabled states agree with it |
| PostPager.Pager.UpdatePostVisibility | oti/script.js:10-21 | the loop shows exactly the post at the index; prev is disabled exactly at 0 and next exactly at the last post |
| PostPager.Pager.PrevClick | oti/script.js:28-33 | moves the index as `PrevIndex`, keeping flags and buttons in agreement |
| PostPager.Pager.NextClick | oti/script.js:35-40 | moves the index as `NextIndex`, keeping flags and buttons in agreement |
| PostPager.Pager.KeyDown | oti/script.js:43-49 | ArrowLeft acts as prev and ArrowRight as next, the disabled checks matching the clamps; other keys change nothing |

## Left out

- Presentation: class names other than `active`, ARIA attributes, styles, `overflow`, `scrollTo`/`smoothScrollTo`, the IntersectionObserver fade-ins, hover transforms and reduced-motion handling. They change nothing the scripts read back.
- `announceToScreenReader` and the live-region node it creates and removes: output only.
- `console.warn`, `console.log` and `console.error`, including the progress line of `oti/script.js`, whose percentage is `PostPager.Progress`.
- The 30-second period of the inactivity interval: `InactivityCheck` is an event at an arbitrary time, so the model does not say when the next check comes.
- `utils.debounce`: the resize callback is modelled as the call the debouncer finally makes.
- `utils.generateId` (randomness) and `utils.isElementVisible` (viewport geometry): neither is used by the modelled handlers.
- `setupAccessibility` apart from its tabindex reset (`ResetTabIndex`): the ARIA attributes and roles it sets are never read back.
- The global error handler (which also closes an open drawer) and the debug export: they react to script errors, which the model does not have, and expose state for debugging.
- The drawer's focusable elements are fixed once, in `Config.drawerFocusables`; the script re-queries them each time the drawer opens, and its selector includes `[tabindex]:not([tabindex="-1"])`, so which nav items are focusable follows the tabindex that `changePage` and the reset rewrite. The model does not capture that dependency.
- `document.getElementById(targetPageId)` is modelled as a search among the content sections only (`SectionIndex`); an element elsewhere in the document with a page's id would be accepted by the script, never deactivated, and activated at the Swap. The model assumes page ids name content sections.
- `sharePost` in `oti/script.js`: the share sheet and clipboard are outside the page.
- The initial hero title and description, and the pathname of pushed URLs: the model starts them empty and keeps only the fragment.
- The keyword lists of `pageData` and its static text: never read by the scripts; the catalogue is an arbitrary map from id to title and optional description.
- Keys inherited by `pageData` from `Object.prototype` (such as `constructor`): lookups are modelled as map membership.
- The DOM tree tests of the outside click (`contains`) and the viewport width are parameters of `DocumentClick` and `Resize`.
- The browser's own Tab movement between focusables: the trap only decides when to override it.
- Whether the element focus is given to is focusable: `focus()` is modelled as always moving the focus.
- `app.init` giving up when an element is missing: `ValidateElements` models the check, and the `App` class models a page on which it passed.
- Percent-encoding of fragments by the browser: a fragment is kept as the string written.
- UrlText.SanitizeForUrl: lower-cases only A-Z, because `toLowerCase` on other characters needs the Unicode tables (characters such as U+0130 or U+212A lower-case to ASCII letters in JavaScript and are dropped here).
- PostPager.Progress: computed exactly with integers, because `Math.round` of the floating-point product can differ when the exact value is a half.
