/**
 * The mobile menu: the toggle button's and the menu's `active` classes and the
 * toggle's `aria-expanded` attribute. A click on the toggle flips both classes and
 * sets the attribute from the toggle's new class; a click on any navigation link
 * closes both.
 */
module Menu {

  datatype MenuState = MenuState(toggleActive: bool, menuActive: bool, ariaExpanded: string)

  /** The attribute value written for a given toggle state. */
  function AriaFor(active: bool): string
  {
    if active then "true" else "false"
  }

  /** `aria-expanded` mirrors the toggle's `active` class. */
  predicate Mirrored(m: MenuState)
  {
    m.ariaExpanded == AriaFor(m.toggleActive)
  }

  /** The toggle and the menu agree on being open. */
  predicate Synced(m: MenuState)
  {
    m.toggleActive == m.menuActive
  }

  /** A click on the toggle button. */
  function Toggle(m: MenuState): (r: MenuState)
    ensures r.toggleActive == !m.toggleActive && r.menuActive == !m.menuActive
    ensures Mirrored(r)
    ensures r.ariaExpanded == "true" <==> r.toggleActive
  {
    var toggleActive := !m.toggleActive;
    MenuState(toggleActive, !m.menuActive, AriaFor(toggleActive))
  }

  /** A click on a navigation link. */
  function Close(m: MenuState): (r: MenuState)
    ensures !r.toggleActive && !r.menuActive && r.ariaExpanded == "false"
    ensures Mirrored(r) && Synced(r)
  {
    MenuState(false, false, "false")
  }

  datatype Click = ToggleClick | LinkClick

  function Step(m: MenuState, c: Click): MenuState
  {
    match c
    case ToggleClick => Toggle(m)
    case LinkClick => Close(m)
  }

  /** The state after a sequence of clicks, applied in order. */
  function Run(m: MenuState, clicks: seq<Click>): MenuState
    decreases |clicks|
  {
    if clicks == [] then m else Step(Run(m, clicks[..|clicks| - 1]), clicks[|clicks| - 1])
  }

  /** After any click at all, `aria-expanded` is "true" exactly when the toggle is active. */
  lemma RunMirrored(m: MenuState, clicks: seq<Click>)
    requires clicks != [] || Mirrored(m)
    ensures Mirrored(Run(m, clicks))
    ensures Run(m, clicks).ariaExpanded == "true" <==> Run(m, clicks).toggleActive
  {
  }

  /** Starting with toggle and menu in agreement, no sequence of clicks separates them. */
  lemma {:induction false} RunSynced(m: MenuState, clicks: seq<Click>)
    requires Synced(m)
    ensures Synced(Run(m, clicks))
    decreases |clicks|
  {
    if clicks != [] {
      RunSynced(m, clicks[..|clicks| - 1]);
    }
  }

  /** Number of toggle clicks. */
  function Toggles(clicks: seq<Click>): nat
    decreases |clicks|
  {
    if clicks == [] then 0
    else Toggles(clicks[..|clicks| - 1]) + (if clicks[|clicks| - 1] == ToggleClick then 1 else 0)
  }

  /** Without link clicks, the toggle is open after an odd number of toggles iff it started closed. */
  lemma {:induction false} RunParity(m: MenuState, clicks: seq<Click>)
    requires forall i :: 0 <= i < |clicks| ==> clicks[i] == ToggleClick
    ensures Run(m, clicks).toggleActive == (m.toggleActive != (Toggles(clicks) % 2 == 1))
    ensures Run(m, clicks).menuActive == (m.menuActive != (Toggles(clicks) % 2 == 1))
    decreases |clicks|
  {
    if clicks != [] {
      RunParity(m, clicks[..|clicks| - 1]);
    }
  }

  /** Two toggle clicks give back the state before them. */
  lemma ToggleTwice(m: MenuState)
    requires Mirrored(m)
    ensures Toggle(Toggle(m)) == m
  {
  }

  /** A link click closes the menu whatever came before, and a second one changes nothing. */
  lemma LinkClickCloses(m: MenuState, clicks: seq<Click>)
    ensures var r := Run(m, clicks + [LinkClick]);
            !r.toggleActive && !r.menuActive && r.ariaExpanded == "false"
    ensures Run(m, clicks + [LinkClick, LinkClick]) == Run(m, clicks + [LinkClick])
  {
    assert (clicks + [LinkClick, LinkClick])[..|clicks| + 1] == clicks + [LinkClick];
    assert (clicks + [LinkClick])[..|clicks|] == clicks;
  }
}
