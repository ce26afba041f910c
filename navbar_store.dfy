/** The navigation bar store of `src/stores/navbar.js`: one persisted text,
    `navbarState`, cycled by `toggleState` through `auto`, `open` and
    `close`. */
module NavbarStore {
  import opened Wrappers

  /** The three states the store is written to use. */
  predicate IsKnownState(s: string) {
    s == "auto" || s == "open" || s == "close"
  }

  /** The state after one toggle: `auto` opens, `open` closes, and anything
      else, `close` or an unexpected persisted text, goes back to `auto`. */
  function NextState(s: string): (r: string)
    ensures IsKnownState(r)
    ensures r == "open" <==> s == "auto"
    ensures r == "close" <==> s == "open"
    ensures r == "auto" <==> s != "auto" && s != "open"
  {
    if s == "auto" then "open"
    else if s == "open" then "close"
    else "auto"
  }

  /** Three toggles bring each of the three states back. */
  lemma ThreeTogglesReturn(s: string)
    requires IsKnownState(s)
    ensures NextState(NextState(NextState(s))) == s
  {
  }

  /** Every known state is reached by toggling exactly one known state. */
  lemma EachStateHasOnePredecessor(s: string, t: string)
    requires IsKnownState(s) && IsKnownState(t)
    ensures NextState(s) == NextState(t) ==> s == t
  {
  }

  /** After at most one toggle the state is a known one, and from then on
      the three states repeat with period three. */
  lemma ToggledStateCycles(s: string, n: nat)
    ensures IsKnownState(Toggled(NextState(s), n))
    ensures Toggled(NextState(s), n + 3) == Toggled(NextState(s), n)
  {
    ToggledKnown(NextState(s), n);
    ToggledPeriod(NextState(s), n);
  }

  /** `n` toggles in a row. */
  function Toggled(s: string, n: nat): string {
    if n == 0 then s else NextState(Toggled(s, n - 1))
  }

  lemma {:induction false} ToggledKnown(s: string, n: nat)
    requires IsKnownState(s)
    ensures IsKnownState(Toggled(s, n))
  {
    if n > 0 {
      ToggledKnown(s, n - 1);
    }
  }

  lemma {:induction false} ToggledPeriod(s: string, n: nat)
    requires IsKnownState(s)
    ensures Toggled(s, n + 3) == Toggled(s, n)
  {
    if n == 0 {
      assert Toggled(s, 0) == s;
      assert Toggled(s, 1) == NextState(s);
      assert Toggled(s, 2) == NextState(NextState(s));
      ThreeTogglesReturn(s);
    } else {
      ToggledPeriod(s, n - 1);
    }
  }

  class Navbar {
    var state: string

    /** `useStorage('navbarState', 'auto')`: the persisted text, or `auto`
        when there is none. */
    constructor (persisted: Option<string>)
      ensures persisted.None? ==> state == "auto"
      ensures persisted.Some? ==> state == persisted.value
    {
      state := persisted.GetOr("auto");
    }

    /** The `getState` getter. */
    function GetState(): (r: string)
      reads this
      ensures r == state
    {
      state
    }

    /** `toggleState()`. */
    method ToggleState()
      modifies this
      ensures state == NextState(old(state))
      ensures IsKnownState(state)
    {
      if state == "auto" {
        state := "open";
      } else if state == "open" {
        state := "close";
      } else {
        state := "auto";
      }
    }
  }
}
