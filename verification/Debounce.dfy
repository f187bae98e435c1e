/** The button debouncer of impl_stm32.c: an edge interrupt that toggles the state and starts a
    blackout, and a one-shot timer that ends it. */
module Debounce {

  /** What can happen: an edge on the line, or the expiry of the timer. */
  datatype Event = Edge | Expire

  /** `level` is the line itself; the rest is what the driver keeps. */
  datatype Line = Line(level: bool, state: bool, enabled: bool, armed: bool)

  function Next(l: Line, e: Event): Line {
    match e
    case Edge =>
      if l.enabled then Line(!l.level, !l.state, false, true) else l.(level := !l.level)
    case Expire =>
      if l.armed then l.(enabled := true, armed := false) else l
  }

  function After(start: bool, trace: seq<Event>): Line {
    if trace == [] then Line(start, false, true, false)
    else Next(After(start, trace[..|trace| - 1]), trace[|trace| - 1])
  }

  class Button {
    var state: bool
    var enabled: bool      // line events are delivered
    var armed: bool        // the virtual timer is running

    constructor ()
      ensures !state && enabled && !armed
    {
      state, enabled, armed := false, true, false;
    }

    ghost function View(level: bool): Line
      reads this
    {
      Line(level, state, enabled, armed)
    }

    /** Runs on an edge, as long as line events are enabled. */
    method ButtonCb(ghost level: bool)
      requires enabled
      modifies this
      ensures View(!level) == Next(old(View(level)), Edge)
    {
      enabled := false;
      armed := false;
      state := !state;
      armed := true;
    }

    /** Runs when the timer expires. */
    method VtCb(ghost level: bool)
      requires armed
      modifies this
      ensures View(level) == Next(old(View(level)), Expire)
    {
      armed := false;
      enabled := true;
    }
  }

  // ---------------------------------------------------------------- counting edges

  /** An edge counts exactly when the event before it, if any, is an expiry. */
  function Accepted(trace: seq<Event>): nat {
    if trace == [] then 0
    else
      var n := |trace| - 1;
      Accepted(trace[..n]) + if trace[n].Edge? && (n == 0 || trace[n - 1].Expire?) then 1 else 0
  }

  /** The other edges fall into a blackout. */
  function Ignored(trace: seq<Event>): nat {
    if trace == [] then 0
    else
      var n := |trace| - 1;
      Ignored(trace[..n]) + if trace[n].Edge? && n > 0 && trace[n - 1].Edge? then 1 else 0
  }

  /** In every trace: exactly one of "events enabled" and "timer armed" holds, `state` is the parity
      of the accepted edges, and the line is the parity of all edges. */
  lemma {:induction false} Invariant(start: bool, trace: seq<Event>)
    ensures var l := After(start, trace);
            && l.enabled != l.armed
            && (l.enabled <==> trace == [] || trace[|trace| - 1].Expire?)
            && (l.state <==> Accepted(trace) % 2 == 1)
            && (l.level != start <==> (Accepted(trace) + Ignored(trace)) % 2 == 1)
  {
    if trace != [] {
      var n := |trace| - 1;
      Invariant(start, trace[..n]);
      assert n > 0 ==> trace[..n][n - 1] == trace[n - 1];
    }
  }

  /** With the line low at power-up the state follows it exactly when the blackouts swallowed an
      even number of edges; with the line high, exactly when they swallowed an odd number. */
  lemma FollowsExactly(start: bool, trace: seq<Event>)
    ensures After(start, trace).state == After(start, trace).level <==> (Ignored(trace) % 2 == 0) == !start
  {
    Invariant(start, trace);
  }

  /** Edges swallowed by the blackout that is still running. */
  function Swallowed(trace: seq<Event>): nat {
    if |trace| > 1 && trace[|trace| - 1].Edge? && trace[|trace| - 2].Edge?
    then 1 + Swallowed(trace[..|trace| - 1]) else 0
  }

  /** Every finished blackout swallowed an even number of edges. */
  predicate EvenBlackouts(trace: seq<Event>) {
    trace == [] ||
    (var n := |trace| - 1;
     EvenBlackouts(trace[..n]) && (trace[n].Expire? ==> Swallowed(trace[..n]) % 2 == 0))
  }

  lemma {:induction false} EvenBlackoutsSum(trace: seq<Event>)
    requires EvenBlackouts(trace)
    ensures (Ignored(trace) - Swallowed(trace)) % 2 == 0
  {
    if trace != [] {
      var n := |trace| - 1;
      EvenBlackoutsSum(trace[..n]);
      assert n > 0 ==> trace[..n][n - 1] == trace[n - 1];
      if trace[n].Edge? && n > 0 && trace[n - 1].Expire? {
        assert Swallowed(trace[..n]) == 0;
      }
    }
  }

  /** Then, whenever events are enabled, the state equals the line if the line was low at power-up,
      and is its opposite if a button was held. */
  lemma EvenBlackoutsFollow(start: bool, trace: seq<Event>)
    requires EvenBlackouts(trace) && After(start, trace).enabled
    ensures After(start, trace).state == (After(start, trace).level != start)
  {
    EvenBlackoutsSum(trace);
    Invariant(start, trace);
    FollowsExactly(start, trace);
  }

  /** One swallowed edge inverts the button until another one is swallowed. */
  lemma BounceInverts()
    ensures var l := After(false, [Edge, Edge, Expire]); l.enabled && l.state != l.level
  {
    Invariant(false, [Edge, Edge, Expire]);
    assert [Edge, Edge, Expire][..2] == [Edge, Edge] && [Edge, Edge][..1] == [Edge] && [Edge][..0] == [];
  }
}
