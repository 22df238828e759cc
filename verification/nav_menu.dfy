/** The navigation menu: the `active` class on the menu and on its toggle, the body's
    `overflow: hidden`, and the set of dropdowns carrying `active`, driven by the
    page's click and resize events. */
module NavMenu {

  /** Widest viewport, in CSS pixels, that gets the mobile menu behaviour. */
  const MobileMaxWidth: int := 768

  /** `openDropdowns` holds the indices of the `.nav-dropdown` elements that are active. */
  datatype Nav = Nav(menuActive: bool, toggleActive: bool, overflowHidden: bool, openDropdowns: set<nat>)

  /** Where a click that reached the document handler landed. */
  datatype Region = InsideMenu | OnToggle | Outside

  /** The events the menu's handlers react to. A click on the toggle or on a wishlist button
      stops propagating, so it never reaches the document handler; every other click does. */
  datatype Event =
    | ToggleClick
    | DropdownClick(dropdown: nat, width: int)
    | LinkClick
    | DocumentClick(target: Region)
    | Resize(width: int)

  /** The page as loaded: everything closed. */
  const Initial: Nav := Nav(false, false, false, {})

  predicate AllClosed(s: Nav) {
    !s.menuActive && !s.toggleActive && !s.overflowHidden && s.openDropdowns == {}
  }

  /** Menu, toggle and body overflow agree. */
  predicate InStep(s: Nav) {
    s.menuActive == s.toggleActive && s.toggleActive == s.overflowHidden
  }

  /** The common closing step of the link, outside-click and wide-resize handlers. */
  function CloseAll(s: Nav): (r: Nav)
    ensures AllClosed(r)
    ensures InStep(r)
  {
    s.(menuActive := false, toggleActive := false, overflowHidden := false, openDropdowns := {})
  }

  /** The toggle's handler: flip the menu and the toggle, then set the overflow from the menu. */
  function ToggleMenu(s: Nav): (r: Nav)
    ensures r.menuActive != s.menuActive && r.toggleActive != s.toggleActive
    ensures r.overflowHidden == r.menuActive
    ensures r.openDropdowns == s.openDropdowns
  {
    var menu := !s.menuActive;
    Nav(menu, !s.toggleActive, menu, s.openDropdowns)
  }

  /** A dropdown link's handler: on a narrow viewport flip that dropdown, else let the link be. */
  function ToggleDropdown(s: Nav, d: nat, width: int): (r: Nav)
    ensures width > MobileMaxWidth ==> r == s
    ensures width <= MobileMaxWidth ==>
      r.menuActive == s.menuActive && r.toggleActive == s.toggleActive &&
      r.overflowHidden == s.overflowHidden &&
      (d in r.openDropdowns <==> d !in s.openDropdowns) &&
      forall e :: e != d ==> (e in r.openDropdowns <==> e in s.openDropdowns)
  {
    if width <= MobileMaxWidth then
      s.(openDropdowns := if d in s.openDropdowns then s.openDropdowns - {d} else s.openDropdowns + {d})
    else s
  }

  /** One event's handler. Only the toggle opens the menu, only a dropdown link opens a
      dropdown, and menu, toggle and overflow stay in step. */
  function Step(s: Nav, e: Event): (r: Nav)
    ensures InStep(s) ==> InStep(r)
    ensures r.menuActive && !s.menuActive ==> e == ToggleClick
    ensures !e.DropdownClick? ==> r.openDropdowns <= s.openDropdowns
  {
    match e
    case ToggleClick => ToggleMenu(s)
    case DropdownClick(d, width) => ToggleDropdown(s, d, width)
    case LinkClick => CloseAll(s)
    case DocumentClick(target) => if target == Outside then CloseAll(s) else s
    case Resize(width) => if width > MobileMaxWidth then CloseAll(s) else s
  }

  /** The state after a sequence of events, in order. */
  function Run(s: Nav, es: seq<Event>): Nav
    decreases |es|
  {
    if es == [] then s else Run(Step(s, es[0]), es[1..])
  }

  lemma {:induction false} RunKeepsInStep(s: Nav, es: seq<Event>)
    requires InStep(s)
    ensures InStep(Run(s, es))
    decreases |es|
  {
    if es != [] {
      RunKeepsInStep(Step(s, es[0]), es[1..]);
    }
  }

  /** From the page as loaded, menu open, toggle active and scrolling locked always coincide. */
  lemma ReachableStatesInStep(es: seq<Event>)
    ensures InStep(Run(Initial, es))
  {
    RunKeepsInStep(Initial, es);
  }

  /** A regular link, a click outside, or a resize past the breakpoint closes everything. */
  lemma ClosingEvents(s: Nav, e: Event)
    requires e == LinkClick || e == DocumentClick(Outside) || (e.Resize? && e.width > MobileMaxWidth)
    ensures AllClosed(Step(s, e))
    ensures Step(s, e) == Initial
  {
  }

  /** Closing is idempotent: a second closing event changes nothing. */
  lemma CloseIdempotent(s: Nav)
    ensures CloseAll(CloseAll(s)) == CloseAll(s)
    ensures AllClosed(s) ==> CloseAll(s) == s
  {
  }

  /** A resize within the mobile range and a click inside the menu or on the toggle that
      reaches the document leave the state as it is. */
  lemma QuietEvents(s: Nav, e: Event)
    requires (e.Resize? && e.width <= MobileMaxWidth) || e == DocumentClick(InsideMenu) || e == DocumentClick(OnToggle)
    ensures Step(s, e) == s
  {
  }

  /** Two toggle clicks restore a state whose menu, toggle and overflow agree. */
  lemma ToggleTwiceRestores(s: Nav)
    requires InStep(s)
    ensures Step(Step(s, ToggleClick), ToggleClick) == s
  {
  }

  /** Two clicks on the same dropdown link restore the state, on any viewport. */
  lemma DropdownTwiceRestores(s: Nav, d: nat, width: int)
    ensures Step(Step(s, DropdownClick(d, width)), DropdownClick(d, width)) == s
  {
  }
}
