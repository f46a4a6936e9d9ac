/**
 * The mobile navigation menu: the `.nav-links` element carries the CSS
 * classes `hidden` and `flex` (each present or absent on its own), and the
 * `.mobile-menu-toggle` button holds an SVG path whose `d` attribute draws
 * either a hamburger or an X.  Three click handlers change that state.
 */
module Menu {

  /** The two drawings the toggle button's icon path can show. */
  datatype Icon = Hamburger | Cross

  /** The `d` attribute written for each icon. */
  function PathData(icon: Icon): (d: string)
    ensures d == "M4 6h16M4 12h16M4 18h16" <==> icon == Hamburger
    ensures d == "M6 18L18 6M6 6l12 12" <==> icon == Cross
  {
    match icon
    case Hamburger => "M4 6h16M4 12h16M4 18h16"
    case Cross => "M6 18L18 6M6 6l12 12"
  }

  /** The part of the page the menu handlers read and write. */
  datatype NavState = NavState(hidden: bool, flex: bool, icon: Icon)

  /** The state every closing handler writes. */
  const Closed: NavState := NavState(true, false, Hamburger)

  /** The menu is shown when `flex` is on. */
  predicate IsOpen(s: NavState)
  {
    s.flex
  }

  /** Exactly one of `hidden` and `flex` is present. */
  predicate ExactlyOneClass(s: NavState)
  {
    s.hidden != s.flex
  }

  /** The icon is the X exactly when `flex` is present. */
  predicate IconAgrees(s: NavState)
  {
    (s.icon == Cross) == s.flex
  }

  /** The state the page is meant to stay in. */
  predicate Consistent(s: NavState)
  {
    ExactlyOneClass(s) && IconAgrees(s)
  }

  /** Toggle button click: both classes flip, then the icon follows `flex`. */
  function Toggled(s: NavState): (t: NavState)
    ensures t.hidden != s.hidden && IsOpen(t) != IsOpen(s)
    ensures IconAgrees(t)
  {
    var flex := !s.flex;
    NavState(!s.hidden, flex, if flex then Cross else Hamburger)
  }

  /** Click on a link inside the nav: the menu is forced closed. */
  function LinkClicked(s: NavState): (t: NavState)
    ensures t.hidden && !IsOpen(t) && Consistent(t)
  {
    Closed
  }

  /**
   * Click anywhere in the document: closes the menu only when the target is
   * neither inside the nav nor inside the toggle button and the menu is open.
   */
  function DocumentClicked(s: NavState, insideNav: bool, onToggle: bool): (t: NavState)
    ensures t != s ==> !insideNav && !onToggle && IsOpen(s)
    ensures !insideNav && !onToggle && IsOpen(s) ==> t.hidden && !IsOpen(t) && Consistent(t)
  {
    if !insideNav && !onToggle && s.flex then Closed else s
  }

  /** Where a click lands, as far as the three handlers can tell. */
  datatype Click = OnToggle | OnNavLink | ElsewhereInNav | Outside

  /**
   * One click as the browser delivers it: the handler on the target (the
   * toggle button or a nav link) runs first, then the event bubbles up to
   * the document handler.
   */
  function Dispatch(s: NavState, c: Click): (t: NavState)
    ensures Consistent(s) ==> Consistent(t)
  {
    match c
    case OnToggle => DocumentClicked(Toggled(s), false, true)
    case OnNavLink => DocumentClicked(LinkClicked(s), true, false)
    case ElsewhereInNav => DocumentClicked(s, true, false)
    case Outside => DocumentClicked(s, false, false)
  }

  /** A sequence of clicks, delivered in order. */
  function Run(s: NavState, clicks: seq<Click>): NavState
    decreases |clicks|
  {
    if clicks == [] then s else Run(Dispatch(s, clicks[0]), clicks[1..])
  }

  lemma ToggleKeepsExactlyOneClass(s: NavState)
    ensures ExactlyOneClass(Toggled(s)) <==> ExactlyOneClass(s)
  {
  }

  lemma ToggleSetsIcon(s: NavState)
    ensures Toggled(s).icon == Cross <==> Toggled(s).flex
    ensures Toggled(s).flex == !s.flex && Toggled(s).hidden == !s.hidden
  {
  }

  /** Toggling twice restores the classes, and the icon too when it agreed with `flex`. */
  lemma ToggleTwice(s: NavState)
    ensures Toggled(Toggled(s)).hidden == s.hidden && Toggled(Toggled(s)).flex == s.flex
    ensures Toggled(Toggled(s)) == s <==> IconAgrees(s)
  {
  }

  lemma LinkClickCloses(s: NavState)
    ensures LinkClicked(s).hidden && !LinkClicked(s).flex && LinkClicked(s).icon == Hamburger
    ensures LinkClicked(LinkClicked(s)) == LinkClicked(s)
  {
  }

  lemma DocumentClickRule(s: NavState, insideNav: bool, onToggle: bool)
    ensures DocumentClicked(s, insideNav, onToggle) != s ==> !insideNav && !onToggle && IsOpen(s)
    ensures !insideNav && !onToggle && IsOpen(s) ==> DocumentClicked(s, insideNav, onToggle) == LinkClicked(s)
  {
  }

  /** The document handler never undoes what the target's own handler did. */
  lemma DispatchOutcome(s: NavState, c: Click)
    ensures c == OnToggle ==> Dispatch(s, c) == Toggled(s)
    ensures c == OnNavLink ==> Dispatch(s, c) == Closed
    ensures c == ElsewhereInNav ==> Dispatch(s, c) == s
    ensures c == Outside ==> Dispatch(s, c) == if IsOpen(s) then Closed else s
  {
  }

  /** From a consistent state every sequence of clicks leaves the page consistent. */
  lemma {:induction false} RunKeepsConsistent(s: NavState, clicks: seq<Click>)
    requires Consistent(s)
    ensures Consistent(Run(s, clicks))
    decreases |clicks|
  {
    if clicks != [] {
      var t := Dispatch(s, clicks[0]);
      assert Consistent(t) by { DispatchOutcome(s, clicks[0]); }
      RunKeepsConsistent(t, clicks[1..]);
    }
  }

  /** The nav element and the toggle's icon path, updated in place by the handlers. */
  class NavMenu {
    var hidden: bool
    var flex: bool
    var icon: Icon

    function State(): NavState
      reads this
    {
      NavState(hidden, flex, icon)
    }

    constructor (hidden: bool, flex: bool, icon: Icon)
      ensures State() == NavState(hidden, flex, icon)
    {
      this.hidden := hidden;
      this.flex := flex;
      this.icon := icon;
    }

    /** The toggle button's click listener. */
    method Toggle()
      modifies this
      ensures State() == Toggled(old(State()))
    {
      hidden := !hidden;
      flex := !flex;
      if flex {
        icon := Cross;
      } else {
        icon := Hamburger;
      }
    }

    /** The click listener every link inside the nav carries. */
    method ClickLink()
      modifies this
      ensures State() == LinkClicked(old(State()))
    {
      hidden := true;
      flex := false;
      icon := Hamburger;
    }

    /** The document's click listener; the caller tells where the target lies. */
    method ClickDocument(insideNav: bool, onToggle: bool)
      modifies this
      ensures State() == DocumentClicked(old(State()), insideNav, onToggle)
    {
      if !insideNav && !onToggle && flex {
        hidden := true;
        flex := false;
        icon := Hamburger;
      }
    }

    /** One click, with the target's listener first and the document's second. */
    method Click(c: Click)
      modifies this
      ensures State() == Dispatch(old(State()), c)
      ensures Consistent(old(State())) ==> Consistent(State())
    {
      DispatchOutcome(State(), c);
      match c
      case OnToggle =>
        Toggle();
        ClickDocument(false, true);
      case OnNavLink =>
        ClickLink();
        ClickDocument(true, false);
      case ElsewhereInNav =>
        ClickDocument(true, false);
      case Outside =>
        ClickDocument(false, false);
    }
  }
}
