/**
 The event scheduler of a machine. Events wait in a priority queue ordered by cycle and then by
 sequence number; a callback may schedule further events while it is dispatched.
 */
module Scheduler {
  import opened Bytes

  datatype Event = Event(cycle: nat, sequence: nat, callback: nat, name: Option<string>)

  /** What a callback schedules. */
  datatype Request = Request(cycle: nat, callback: nat, name: Option<string>)

  /**
   The callbacks: what each dispatch schedules may depend on everything dispatched so far, the event
   itself last.
   */
  type Callbacks = seq<Event> -> seq<Request>

  /** `Later`, turned round: the order of the queue. */
  predicate Before(a: Event, b: Event)
  {
    if a.cycle != b.cycle then a.cycle < b.cycle else a.sequence < b.sequence
  }

  predicate Sorted(events: seq<Event>)
  {
    forall i, j :: 0 <= i < j < |events| ==> Before(events[i], events[j])
  }

  /** The queue, its next event first. */
  function Inserted(events: seq<Event>, e: Event): (r: seq<Event>)
    ensures |r| == |events| + 1 && multiset(r) == multiset(events) + multiset{e}
    ensures forall x :: x in r <==> x in events || x == e
  {
    if events == [] || Before(e, events[0]) then [e] + events
    else
      assert events == [events[0]] + events[1..];
      [events[0]] + Inserted(events[1..], e)
  }

  /** The events that were asked for, numbered from zero. */
  function Wanted(requests: seq<Request>): (events: seq<Event>)
    ensures |events| == |requests|
  {
    seq(|requests|, k requires 0 <= k < |requests| =>
      Event(requests[k].cycle, k, requests[k].callback, requests[k].name))
  }

  /** `log` holds what was dispatched and `requests` what was asked for, each in order. */
  datatype State = State(now: nat, events: seq<Event>, log: seq<Event>, requests: seq<Request>)
  {
    /** Every request was dispatched once or is still waiting. */
    ghost predicate Valid()
    {
      Sorted(events) && multiset(log) + multiset(events) == multiset(Wanted(requests))
    }

    function Scheduled(r: Request): State
    {
      this.(events := Inserted(events, Event(r.cycle, |requests|, r.callback, r.name)), requests := requests + [r])
    }

    predicate Due() { events != [] && events[0].cycle <= now }
  }

  function ScheduledAll(s: State, requests: seq<Request>): State
    decreases |requests|
  {
    if requests == [] then s else ScheduledAll(s.Scheduled(requests[0]), requests[1..])
  }

  /** One turn of the loop: the next event leaves the queue and its callback runs. */
  function Dispatch(s: State, callbacks: Callbacks): State
    requires s.events != []
  {
    var log := s.log + [s.events[0]];
    ScheduledAll(s.(events := s.events[1..], log := log), callbacks(log))
  }

  /** At most `turns` turns of the loop. */
  function DispatchTurns(s: State, callbacks: Callbacks, turns: nat): State
    decreases turns
  {
    if turns == 0 || !s.Due() then s else DispatchTurns(Dispatch(s, callbacks), callbacks, turns - 1)
  }

  // ---------- conservation ----------

  lemma WasWanted(s: State, e: Event)
    requires s.Valid() && (e in s.events || e in s.log)
    ensures e.sequence < |s.requests|
  {
    assert e in multiset(Wanted(s.requests));
    var k :| 0 <= k < |s.requests| && Wanted(s.requests)[k] == e;
  }

  lemma {:induction false} InsertedIsSorted(events: seq<Event>, e: Event)
    requires Sorted(events) && forall x :: x in events ==> x.sequence != e.sequence
    ensures Sorted(Inserted(events, e))
  {
    if events != [] && !Before(e, events[0]) {
      assert events[0] in events;
      InsertedIsSorted(events[1..], e);
      var rest := Inserted(events[1..], e);
      forall j | 0 <= j < |rest|
        ensures Before(events[0], rest[j])
      {
        assert rest[j] in rest;
      }
    } else if events != [] {
      forall j | 0 <= j < |events|
        ensures Before(e, events[j])
      {}
    }
  }

  /** A request adds its event, with the next number, and nothing else. */
  lemma ScheduledKeepsValid(s: State, r: Request)
    requires s.Valid()
    ensures s.Scheduled(r).Valid() && s.Scheduled(r).requests == s.requests + [r]
    ensures multiset(s.Scheduled(r).events) == multiset(s.events) + multiset{Event(r.cycle, |s.requests|, r.callback, r.name)}
  {
    var e := Event(r.cycle, |s.requests|, r.callback, r.name);
    forall x | x in s.events
      ensures x.sequence != e.sequence
    {
      WasWanted(s, x);
    }
    InsertedIsSorted(s.events, e);
    hide Inserted;
    assert Wanted(s.requests + [r]) == Wanted(s.requests) + [e];
  }

  lemma {:induction false} ScheduledAllKeepsValid(s: State, requests: seq<Request>)
    requires s.Valid()
    ensures ScheduledAll(s, requests).Valid() && ScheduledAll(s, requests).requests == s.requests + requests
    ensures ScheduledAll(s, requests).log == s.log && ScheduledAll(s, requests).now == s.now
    decreases |requests|
  {
    hide Inserted, Sorted, Wanted;
    if requests != [] {
      ScheduledKeepsValid(s, requests[0]);
      ScheduledAllKeepsValid(s.Scheduled(requests[0]), requests[1..]);
      assert s.requests + [requests[0]] + requests[1..] == s.requests + requests;
    }
  }

  /** No event is lost or dispatched twice, whatever the callbacks schedule. */
  lemma DispatchKeepsValid(s: State, callbacks: Callbacks)
    requires s.Valid() && s.events != []
    ensures Dispatch(s, callbacks).Valid()
    ensures Dispatch(s, callbacks).log == s.log + [s.events[0]] && Dispatch(s, callbacks).now == s.now
    ensures Dispatch(s, callbacks).requests == s.requests + callbacks(s.log + [s.events[0]])
  {
    hide ScheduledAll;
    var log := s.log + [s.events[0]];
    var taken := s.(events := s.events[1..], log := log);
    assert s.events == [s.events[0]] + s.events[1..];
    assert multiset(s.events) == multiset{s.events[0]} + multiset(s.events[1..]);
    ScheduledAllKeepsValid(taken, callbacks(log));
  }

  lemma {:induction false} TurnsKeepValid(s: State, callbacks: Callbacks, turns: nat)
    requires s.Valid()
    ensures DispatchTurns(s, callbacks, turns).Valid()
    ensures s.log <= DispatchTurns(s, callbacks, turns).log && DispatchTurns(s, callbacks, turns).now == s.now
    decreases turns
  {
    hide Dispatch;
    if turns > 0 && s.Due() {
      DispatchKeepsValid(s, callbacks);
      TurnsKeepValid(Dispatch(s, callbacks), callbacks, turns - 1);
    }
  }

  /**
   The k-th request ever made has exactly one event, dispatched or waiting, with its number and its
   cycle, callback and name; and there are no other events.
   */
  lemma ExactlyOnce(s: State, k: nat)
    requires s.Valid() && k < |s.requests|
    ensures var e := Event(s.requests[k].cycle, k, s.requests[k].callback, s.requests[k].name);
            multiset(s.log)[e] + multiset(s.events)[e] == 1
    ensures forall e :: e in s.log || e in s.events ==>
              && e.sequence < |s.requests|
              && e == Event(s.requests[e.sequence].cycle, e.sequence, s.requests[e.sequence].callback, s.requests[e.sequence].name)
  {
    var wanted := Wanted(s.requests);
    OnceInOrder(wanted, k);
    assert (multiset(s.log) + multiset(s.events))[wanted[k]] == 1;
    forall e | e in s.log || e in s.events
      ensures e.sequence < |wanted| && e == wanted[e.sequence]
    {
      assert e in multiset(wanted);
    }
  }

  lemma {:induction false} OnceInOrder(events: seq<Event>, k: nat)
    requires k < |events| && forall i :: 0 <= i < |events| ==> events[i].sequence == i
    ensures multiset(events)[events[k]] == 1
    decreases |events|
  {
    var n := |events| - 1;
    var start, last := events[..n], events[n];
    assert events == start + [last];
    if k < n {
      OnceInOrder(start, k);
      assert start[k] == events[k];
    } else {
      assert last !in start;
    }
  }

  /** What the callbacks ask for while the log grows from `from` events to all of `log`. */
  function AskedFor(callbacks: Callbacks, log: seq<Event>, from: nat): seq<Request>
    requires from <= |log|
    decreases |log| - from
  {
    if from == |log| then [] else callbacks(log[..from + 1]) + AskedFor(callbacks, log, from + 1)
  }

  /**
   Every turn runs the callback of a due event once and grants what it asks for: the requests made
   are those of the events that were dispatched, in that order, and no event runs before its time.
   */
  lemma {:induction false} TurnsGrantRequests(s: State, callbacks: Callbacks, turns: nat)
    requires s.Valid()
    ensures var after := DispatchTurns(s, callbacks, turns);
            && s.log <= after.log
            && after.requests == s.requests + AskedFor(callbacks, after.log, |s.log|)
            && forall i :: |s.log| <= i < |after.log| ==> after.log[i].cycle <= s.now
    decreases turns
  {
    hide Dispatch, State.Valid;
    if turns > 0 && s.Due() {
      var next := Dispatch(s, callbacks);
      DispatchKeepsValid(s, callbacks);
      TurnsGrantRequests(next, callbacks, turns - 1);
      var log := DispatchTurns(s, callbacks, turns).log;
      assert log[..|s.log| + 1] == next.log;
      assert log[|s.log|] == next.log[|s.log|];
    }
  }

  // ---------- order ----------

  /** Callbacks that schedule nothing earlier than the event being dispatched. */
  ghost predicate NotBackwards(callbacks: Callbacks)
  {
    forall log: seq<Event>, i: int {:trigger callbacks(log)[i]} :: log != [] && 0 <= i < |callbacks(log)| ==> callbacks(log)[i].cycle >= log[|log| - 1].cycle
  }

  lemma {:induction false} ScheduledAllAfter(s: State, requests: seq<Request>, e: Event)
    requires s.Valid() && e.sequence < |s.requests| && forall x :: x in s.events ==> Before(e, x)
    requires forall i :: 0 <= i < |requests| ==> requests[i].cycle >= e.cycle
    ensures forall x :: x in ScheduledAll(s, requests).events ==> Before(e, x)
    decreases |requests|
  {
    hide Inserted, Sorted;
    if requests != [] {
      ScheduledKeepsValid(s, requests[0]);
      ScheduledAllAfter(s.Scheduled(requests[0]), requests[1..], e);
    }
  }

  lemma DispatchGoesForward(s: State, callbacks: Callbacks)
    requires s.Valid() && s.events != [] && NotBackwards(callbacks)
    ensures forall x :: x in Dispatch(s, callbacks).events ==> Before(s.events[0], x)
  {
    hide ScheduledAll, Inserted;
    var e, log := s.events[0], s.log + [s.events[0]];
    var taken := s.(events := s.events[1..], log := log);
    assert s.events == [e] + s.events[1..];
    WasWanted(s, e);
    assert multiset(s.events) == multiset{e} + multiset(s.events[1..]);
    assert taken.Valid();
    forall x | x in taken.events
      ensures Before(e, x)
    {
      var i :| 0 <= i < |taken.events| && taken.events[i] == x;
      assert s.events[i + 1] == x;
    }
    ScheduledAllAfter(taken, callbacks(log), e);
  }

  lemma FirstBehind(log: seq<Event>, first: Event, all: seq<Event>)
    requires log + [first] <= all
    ensures log <= all && all[|log|..] == [first] + all[|log| + 1..]
  {
    assert all[..|log| + 1] == log + [first];
    assert all[|log|] == all[..|log| + 1][|log|];
    assert all[..|log|] == all[..|log| + 1][..|log|];
  }

  lemma FirstOfSorted(e: Event, first: Event, rest: seq<Event>)
    requires Before(e, first) && Sorted(rest) && forall i :: 0 <= i < |rest| ==> Before(first, rest[i])
    ensures var all := [first] + rest;
            Sorted(all) && forall i :: 0 <= i < |all| ==> Before(e, all[i])
  {}

  /** One turn more adds its event in front of what the other turns add. */
  lemma OneTurnAdds(s: State, callbacks: Callbacks, turns: nat)
    requires s.Valid() && turns > 0 && s.Due()
    ensures var next, all := Dispatch(s, callbacks), DispatchTurns(s, callbacks, turns).log;
            && next.Valid() && s.log <= all && next.log <= all == DispatchTurns(next, callbacks, turns - 1).log
            && all[|s.log|..] == [s.events[0]] + all[|next.log|..]
  {
    hide Dispatch;
    var next := Dispatch(s, callbacks);
    DispatchKeepsValid(s, callbacks);
    TurnsKeepValid(next, callbacks, turns - 1);
    FirstBehind(s.log, s.events[0], DispatchTurns(next, callbacks, turns - 1).log);
  }

  lemma NothingAdded(s: State, callbacks: Callbacks, turns: nat)
    requires turns == 0 || !s.Due()
    ensures DispatchTurns(s, callbacks, turns) == s && s.log[|s.log|..] == [] && Sorted([])
  {}

  lemma {:induction false} TurnsGoForward(s: State, callbacks: Callbacks, turns: nat, e: Event)
    requires s.Valid() && NotBackwards(callbacks) && forall x :: x in s.events ==> Before(e, x)
    ensures s.log <= DispatchTurns(s, callbacks, turns).log
    ensures var added := DispatchTurns(s, callbacks, turns).log[|s.log|..];
            Sorted(added) && forall i :: 0 <= i < |added| ==> Before(e, added[i])
    decreases turns
  {
    hide Dispatch, DispatchTurns, NotBackwards, Sorted, Before, State.Valid;
    if turns > 0 && s.Due() {
      OneTurnAdds(s, callbacks, turns);
      DispatchGoesForward(s, callbacks);
      TurnsGoForward(Dispatch(s, callbacks), callbacks, turns - 1, s.events[0]);
      FirstOfSorted(e, s.events[0], DispatchTurns(s, callbacks, turns).log[|Dispatch(s, callbacks).log|..]);
    } else {
      NothingAdded(s, callbacks, turns);
    }
  }

  /**
   If callbacks schedule nothing earlier than the event being dispatched, one call dispatches in
   strictly increasing order of cycle and sequence, so events of one cycle go first in, first out.
   */
  lemma DispatchIsOrdered(s: State, callbacks: Callbacks, turns: nat)
    requires s.Valid() && NotBackwards(callbacks)
    ensures var log := DispatchTurns(s, callbacks, turns).log;
            && s.log <= log
            && forall i, j :: |s.log| <= i < j < |log| ==>
                 log[i].cycle < log[j].cycle || (log[i].cycle == log[j].cycle && log[i].sequence < log[j].sequence)
  {
    AddedIsSorted(s, callbacks, turns);
    var log := DispatchTurns(s, callbacks, turns).log;
    hide Dispatch, DispatchTurns, NotBackwards, State.Valid;
    var added := log[|s.log|..];
    forall i, j | |s.log| <= i < j < |log|
      ensures Before(log[i], log[j])
    {
      assert Before(added[i - |s.log|], added[j - |s.log|]);
    }
  }

  lemma AddedIsSorted(s: State, callbacks: Callbacks, turns: nat)
    requires s.Valid() && NotBackwards(callbacks)
    ensures s.log <= DispatchTurns(s, callbacks, turns).log
    ensures Sorted(DispatchTurns(s, callbacks, turns).log[|s.log|..])
  {
    hide Dispatch, DispatchTurns, NotBackwards, Sorted, Before, State.Valid;
    if turns > 0 && s.Due() {
      OneTurnAdds(s, callbacks, turns);
      DispatchGoesForward(s, callbacks);
      TurnsGoForward(Dispatch(s, callbacks), callbacks, turns - 1, s.events[0]);
      FirstIsSorted(s.events[0], DispatchTurns(s, callbacks, turns).log[|Dispatch(s, callbacks).log|..]);
    } else {
      NothingAdded(s, callbacks, turns);
    }
  }

  lemma FirstIsSorted(first: Event, rest: seq<Event>)
    requires Sorted(rest) && forall i :: 0 <= i < |rest| ==> Before(first, rest[i])
    ensures Sorted([first] + rest)
  {}

  // ---------- termination ----------

  /** Callbacks that re-arm at most one event, strictly later. */
  ghost predicate Rearming(callbacks: Callbacks)
  {
    forall log: seq<Event> {:trigger callbacks(log)} :: log != [] ==>
      |callbacks(log)| <= 1 && (callbacks(log) != [] ==> callbacks(log)[0].cycle > log[|log| - 1].cycle)
  }

  function EventWeight(e: Event, now: nat): nat { if e.cycle <= now then now - e.cycle + 1 else 0 }

  /** How many turns are left at most: each due event counts the cycles it may still be re-armed in. */
  function Weight(events: seq<Event>, now: nat): nat
  {
    if events == [] then 0 else EventWeight(events[0], now) + Weight(events[1..], now)
  }

  lemma {:induction false} InsertedWeight(events: seq<Event>, e: Event, now: nat)
    ensures Weight(Inserted(events, e), now) == Weight(events, now) + EventWeight(e, now)
  {
    if events == [] || Before(e, events[0]) {
      assert ([e] + events)[1..] == events;
    } else {
      InsertedWeight(events[1..], e, now);
      assert Inserted(events, e)[1..] == Inserted(events[1..], e);
    }
  }

  lemma DispatchIsLighter(s: State, callbacks: Callbacks)
    requires s.Due() && Rearming(callbacks)
    ensures Weight(Dispatch(s, callbacks).events, s.now) < Weight(s.events, s.now)
  {
    hide Inserted;
    var log := s.log + [s.events[0]];
    var taken := s.(events := s.events[1..], log := log);
    var requests := callbacks(log);
    if requests != [] {
      assert requests[1..] == [];
      var e := Event(requests[0].cycle, |s.requests|, requests[0].callback, requests[0].name);
      assert ScheduledAll(taken, requests) == taken.Scheduled(requests[0]);
      InsertedWeight(taken.events, e, s.now);
    }
  }

  /** The loop ends within the weight of the queue, with nothing due left. */
  lemma {:induction false} DispatchEnds(s: State, callbacks: Callbacks, turns: nat)
    requires s.Valid() && Rearming(callbacks) && turns >= Weight(s.events, s.now)
    ensures !DispatchTurns(s, callbacks, turns).Due()
    ensures forall e :: e in DispatchTurns(s, callbacks, turns).events ==> e.cycle > s.now
    decreases turns
  {
    hide Dispatch, Rearming;
    TurnsKeepValid(s, callbacks, turns);
    if s.Due() {
      DispatchKeepsValid(s, callbacks);
      DispatchIsLighter(s, callbacks);
      DispatchEnds(Dispatch(s, callbacks), callbacks, turns - 1);
    } else {
      assert forall i :: 0 < i < |s.events| ==> Before(s.events[0], s.events[i]);
    }
  }

  /** The loop ends at all. */
  ghost predicate Ends(s: State, callbacks: Callbacks) { exists turns: nat :: !DispatchTurns(s, callbacks, turns).Due() }

  lemma RearmingEnds(s: State, callbacks: Callbacks)
    requires s.Valid() && Rearming(callbacks)
    ensures Ends(s, callbacks)
  {
    DispatchEnds(s, callbacks, Weight(s.events, s.now));
  }

  /** Callbacks that re-arm their event at the same cycle. */
  const ECHOING: Callbacks :=
    (log: seq<Event>) => if log == [] then [] else
             var last: Event := log[|log| - 1];
             [Request(last.cycle, last.callback, last.name)]

  /** Strictly later is needed: re-arming at the same cycle, the loop never ends once an event is due. */
  lemma {:induction false} SameCycleNeverEnds(s: State, turns: nat)
    requires s.Due()
    ensures DispatchTurns(s, ECHOING, turns).Due()
    decreases turns
  {
    hide Dispatch, ECHOING;
    if turns > 0 {
      EchoStaysDue(s);
      SameCycleNeverEnds(Dispatch(s, ECHOING), turns - 1);
    }
  }

  lemma EchoStaysDue(s: State)
    requires s.Due()
    ensures Dispatch(s, ECHOING).Due()
  {
    hide Inserted;
    var first, log := s.events[0], s.log + [s.events[0]];
    var taken := s.(events := s.events[1..], log := log);
    var request := Request(first.cycle, first.callback, first.name);
    assert ECHOING(log) == [request] && [request][1..] == [];
    assert ScheduledAll(taken, [request]) == ScheduledAll(taken.Scheduled(request), []);
    HeadIsNoLater(taken.events, Event(first.cycle, |s.requests|, first.callback, first.name));
  }

  lemma HeadIsNoLater(events: seq<Event>, e: Event)
    ensures Inserted(events, e)[0].cycle <= e.cycle
  {}

  // ---------- the list of pending events ----------

  datatype Line = Line(cycle: nat, remaining: nat, sequence: nat, name: Option<string>)

  function LineOf(e: Event, now: nat): Line
  {
    Line(e.cycle, if e.cycle >= now then e.cycle - now else 0, e.sequence, e.name)
  }

  const SILENT: Callbacks := log => []

  /** The list is the order in which time alone would dispatch the events, with callbacks that schedule nothing. */
  lemma {:induction false} PendingIsDispatchOrder(s: State, horizon: nat)
    requires s.Valid() && forall e :: e in s.events ==> e.cycle <= horizon
    ensures DispatchTurns(s.(now := horizon), SILENT, |s.events|).log == s.log + s.events
    decreases |s.events|
  {
    if s.events != [] {
      var later := s.(now := horizon);
      var next := Dispatch(later, SILENT);
      DispatchKeepsValid(later, SILENT);
      assert next == later.(events := s.events[1..], log := s.log + [s.events[0]]);
      PendingIsDispatchOrder(next, horizon);
      assert next.(now := horizon) == next;
      assert s.log + [s.events[0]] + s.events[1..] == s.log + s.events;
    }
  }

  // ---------- the scheduler itself ----------

  class MachineScheduler {
    const callbacks: Callbacks
    var events: seq<Event>
    var now: nat
    var nextSequence: nat
    var log: seq<Event>
    ghost var requests: seq<Request>

    ghost function View(): State
      reads this
    {
      State(now, events, log, requests)
    }

    ghost predicate Valid()
      reads this
    {
      View().Valid() && nextSequence == |requests|
    }

    constructor (callbacks: Callbacks)
      ensures Valid() && View() == State(0, [], [], []) && this.callbacks == callbacks
    {
      this.callbacks, events, now, nextSequence, log, requests := callbacks, [], 0, 0, [], [];
    }

    method Reset()
      modifies this
      ensures Valid() && View() == State(0, [], [], [])
    {
      events, now, nextSequence, log, requests := [], 0, 0, [], [];
    }

    method Schedule(cycle: nat, callback: nat, name: Option<string>)
      requires Valid()
      modifies this`events, this`nextSequence, this`requests
      ensures Valid() && View() == old(View()).Scheduled(Request(cycle, callback, name))
      ensures multiset(events) == multiset(old(events)) + multiset{Event(cycle, old(nextSequence), callback, name)}
      ensures requests == old(requests) + [Request(cycle, callback, name)]
    {
      ScheduledKeepsValid(View(), Request(cycle, callback, name));
      var e := Event(cycle, nextSequence, callback, name);
      events := Inserted(events, e);
      nextSequence := nextSequence + 1;
      requests := requests + [Request(cycle, callback, name)];
    }

    method PendingEvents() returns (lines: seq<Line>)
      ensures |lines| == |events|
      ensures forall i :: 0 <= i < |events| ==>
                && lines[i].cycle == events[i].cycle && lines[i].sequence == events[i].sequence
                && lines[i].name == events[i].name
                && lines[i].remaining == if events[i].cycle >= now then events[i].cycle - now else 0
    {
      lines := [];
      var copy := events;
      while copy != []
        invariant |lines| + |copy| == |events| && copy == events[|lines|..]
        invariant forall i :: 0 <= i < |lines| ==> lines[i] == LineOf(events[i], now)
        decreases |copy|
      {
        lines := lines + [LineOf(copy[0], now)];
        copy := copy[1..];
      }
    }

    method Advance(cycles: nat) returns (ghost turns: nat)
      requires Valid() && Ends(View().(now := now + cycles), callbacks)
      modifies this
      ensures Valid()
      ensures View() == DispatchTurns(old(View()).(now := old(now) + cycles), callbacks, turns) && !View().Due()
    {
      now := now + cycles;
      turns := DispatchDue();
    }

    /** Runs until nothing is due, for any callbacks with which that ever happens. */
    method DispatchDue() returns (ghost turns: nat)
      requires Valid() && Ends(View(), callbacks)
      modifies this`events, this`nextSequence, this`log, this`requests
      ensures Valid()
      ensures View() == DispatchTurns(old(View()), callbacks, turns) && !View().Due()
    {
      hide Dispatch, Sorted;
      turns :| !DispatchTurns(View(), callbacks, turns).Due();
      ghost var left := turns;
      ghost var result := DispatchTurns(View(), callbacks, turns);
      while events != [] && events[0].cycle <= now
        invariant Valid() && result == DispatchTurns(View(), callbacks, left)
        decreases left
      {
        DispatchOne();
        left := left - 1;
      }
    }

    /** Takes the next event off the queue and runs its callback. */
    method DispatchOne()
      requires Valid() && events != []
      modifies this`events, this`nextSequence, this`log, this`requests
      ensures Valid() && View() == Dispatch(old(View()), callbacks)
    {
      hide Inserted, State.Valid, ScheduledAll;
      TakenIsValid(View());
      log := log + [events[0]];
      events := events[1..];
      ScheduleAll(callbacks(log));
    }

    /** What a callback does. */
    method ScheduleAll(requests: seq<Request>)
      requires Valid()
      modifies this`events, this`nextSequence, this`requests
      ensures Valid() && View() == ScheduledAll(old(View()), requests)
    {
      hide Inserted, State.Valid, State.Scheduled;
      ghost var result := ScheduledAll(View(), requests);
      assert requests[0..] == requests;
      for i := 0 to |requests|
        invariant Valid() && result == ScheduledAll(View(), requests[i..])
      {
        assert requests[i..][1..] == requests[i + 1..];
        Schedule(requests[i].cycle, requests[i].callback, requests[i].name);
      }
    }
  }

  lemma TakenIsValid(s: State)
    requires s.Valid() && s.events != []
    ensures s.(events := s.events[1..], log := s.log + [s.events[0]]).Valid()
  {
    assert s.events == [s.events[0]] + s.events[1..];
    assert multiset(s.events) == multiset{s.events[0]} + multiset(s.events[1..]);
  }
}
