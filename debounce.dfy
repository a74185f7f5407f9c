/**
 * `debounce(func, wait)` (app.js:569-579): a trailing-edge debounce. The captured
 * `timeout` holds at most one pending call; each event clears it and schedules a
 * new one carrying that event's arguments, and when the quiet period passes the
 * pending call runs `func` once.
 */
module Debounce {
  import opened Wrappers

  /** `Call(args)`: the debounced function is invoked; `Elapse`: the pending timeout fires. */
  datatype Event<A> = Call(args: A) | Elapse

  /** The pending call after one event, and the arguments `func` runs with during it, if any. */
  datatype Outcome<A> = Outcome(pending: Option<A>, ran: Option<A>)

  function Step<A>(pending: Option<A>, e: Event<A>): (o: Outcome<A>)
    ensures e.Call? ==> o.pending == Some(e.args) && o.ran.None?
    ensures e.Elapse? ==> o.pending.None? && o.ran == pending
  {
    match e
    case Call(args) => Outcome(Some(args), None)
    case Elapse => Outcome(None, pending)
  }

  /** The pending call after a run of events, and every call of `func` in order. */
  function Run<A>(pending: Option<A>, events: seq<Event<A>>): (r: (Option<A>, seq<A>))
    ensures |r.1| <= |events|
    decreases |events|
  {
    if events == [] then (pending, [])
    else
      var o := Step(pending, events[0]);
      var (last, calls) := Run(o.pending, events[1..]);
      (last, (if o.ran.Some? then [o.ran.value] else []) + calls)
  }

  function Elapses<A>(events: seq<Event<A>>): nat
  {
    if events == [] then 0 else (if events[0].Elapse? then 1 else 0) + Elapses(events[1..])
  }

  function Calls<A>(events: seq<Event<A>>): nat
  {
    if events == [] then 0 else (if events[0].Call? then 1 else 0) + Calls(events[1..])
  }

  /** `func` runs at most once per quiet period. */
  lemma {:induction false} RunsAtMostOncePerElapse<A>(pending: Option<A>, events: seq<Event<A>>)
    ensures |Run(pending, events).1| <= Elapses(events)
    decreases |events|
  {
    if events != [] {
      RunsAtMostOncePerElapse(Step(pending, events[0]).pending, events[1..]);
    }
  }

  /** Every run of `func`, and the call left pending, accounts for a distinct call (or the one pending at the start). */
  lemma {:induction false} RunsAtMostOncePerCall<A>(pending: Option<A>, events: seq<Event<A>>)
    ensures |Run(pending, events).1| + (if Run(pending, events).0.Some? then 1 else 0)
              <= Calls(events) + (if pending.Some? then 1 else 0)
    decreases |events|
  {
    if events != [] {
      RunsAtMostOncePerCall(Step(pending, events[0]).pending, events[1..]);
    }
  }

  /** At most one call is pending, and it is the latest event's when that event is a call. */
  lemma {:induction false} PendingIsLatestCall<A>(pending: Option<A>, events: seq<Event<A>>)
    requires events != []
    ensures Run(pending, events).0 ==
              (if events[|events| - 1].Call? then Some(events[|events| - 1].args) else None)
    decreases |events|
  {
    if |events| > 1 {
      PendingIsLatestCall(Step(pending, events[0]).pending, events[1..]);
      assert events[1..][|events| - 2] == events[|events| - 1];
    }
  }

  /**
   * Independent of `Step`: the arguments of the call pending after `events`. That is the
   * latest event's when it is a call, none after a quiet period, and `pending` when
   * nothing happened yet.
   */
  function LatestPending<A>(pending: Option<A>, events: seq<Event<A>>): Option<A>
  {
    if events == [] then pending
    else if events[|events| - 1].Call? then Some(events[|events| - 1].args)
    else None
  }

  /**
   * Independent of `Step`: the arguments `func` runs with, in order. Every quiet period
   * runs the call pending just before it: the call directly before it, or `pending` when
   * it is the first event.
   */
  function Fired<A>(pending: Option<A>, events: seq<Event<A>>): seq<A>
  {
    if events == [] then []
    else
      var init := events[..|events| - 1];
      var before := LatestPending(pending, init);
      Fired(pending, init) + (if events[|events| - 1].Elapse? && before.Some? then [before.value] else [])
  }

  /** Replaying one more event continues from where the replay of the others stopped. */
  lemma {:induction false} RunSnoc<A>(pending: Option<A>, events: seq<Event<A>>, e: Event<A>)
    ensures var o := Step(Run(pending, events).0, e);
            Run(pending, events + [e]) ==
              (o.pending, Run(pending, events).1 + (if o.ran.Some? then [o.ran.value] else []))
    decreases |events|
  {
    var all := events + [e];
    if events == [] {
      assert all == [e] && all[1..] == [];
      var o := Step(pending, e);
      var ran := if o.ran.Some? then [o.ran.value] else [];
      assert Run(pending, all) == (o.pending, ran + []);
      assert ran + [] == ran && [] + ran == ran;
      assert Run(pending, events) == (pending, []);
    } else {
      assert all[0] == events[0];
      assert all[1..] == events[1..] + [e];
      var first := Step(pending, events[0]);
      RunSnoc(first.pending, events[1..], e);
      var o := Step(Run(pending, events).0, e);
      var head := if first.ran.Some? then [first.ran.value] else [];
      var tail := if o.ran.Some? then [o.ran.value] else [];
      assert head + (Run(first.pending, events[1..]).1 + tail) == (head + Run(first.pending, events[1..]).1) + tail;
    }
  }

  /** The replay agrees with the independent description of the pending call and of every run of `func`. */
  lemma {:induction false} RunIsFired<A>(pending: Option<A>, events: seq<Event<A>>)
    ensures Run(pending, events) == (LatestPending(pending, events), Fired(pending, events))
    decreases |events|
  {
    if events != [] {
      var init := events[..|events| - 1];
      var e := events[|events| - 1];
      assert events == init + [e];
      RunIsFired(pending, init);
      RunSnoc(pending, init, e);
    }
  }

  /** The events of a burst of calls with the given arguments, with no pause between them. */
  function Burst<A>(args: seq<A>): (events: seq<Event<A>>)
    ensures |events| == |args|
  {
    if args == [] then [] else [Call(args[0])] + Burst(args[1..])
  }

  /** A burst collapses: after the quiet period `func` has run exactly once, with the last arguments. */
  lemma {:induction false} BurstRunsOnceWithLatest<A>(pending: Option<A>, args: seq<A>)
    requires |args| > 0
    ensures Run(pending, Burst(args) + [Elapse]) == (None, [args[|args| - 1]])
    decreases |args|
  {
    var events := Burst(args) + [Elapse];
    assert events[0] == Call(args[0]);
    assert events[1..] == Burst(args[1..]) + [Elapse];
    assert Step(pending, events[0]) == Outcome(Some(args[0]), None);
    assert events != [];
    var r := Run(Some(args[0]), events[1..]);
    assert Run(pending, events) == (r.0, [] + r.1);
    assert [] + r.1 == r.1;
    if |args| > 1 {
      BurstRunsOnceWithLatest(Some(args[0]), args[1..]);
      assert args[1..][|args| - 2] == args[|args| - 1];
    } else {
      var tail: seq<Event<A>> := [Elapse];
      assert events[1..] == tail && tail[1..] == [];
      assert Run(Some(args[0]), tail) == (None, [args[0]] + []);
      assert [args[0]] + [] == [args[|args| - 1]];
    }
  }

  /** The closure `executedFunction` together with its captured `timeout`. */
  class Debouncer<A> {
    /** The arguments of the scheduled `later`, if a timeout is pending. */
    var pending: Option<A>

    constructor ()
      ensures pending.None?
    {
      pending := None;
    }

    /** `executedFunction(...args)`: clear the pending timeout and schedule one for `args`. */
    method Invoke(args: A)
      modifies this
      ensures Outcome(pending, None) == Step(old(pending), Call(args))
    {
      pending := None;        // clearTimeout(timeout)
      pending := Some(args);  // timeout = setTimeout(later, wait)
    }

    /** The pending timeout fires: `later` clears it and runs `func` with its arguments. */
    method Elapse() returns (ran: Option<A>)
      modifies this
      ensures Outcome(pending, ran) == Step(old(pending), Event.Elapse)
    {
      ran := pending;
      pending := None;
    }
  }
}
