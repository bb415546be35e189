/**
 * The idle greeting of a mobile NPC. Each frame it greets if it is not in
 * cooldown, has not greeted during this idle spell, is near the player and is
 * idle; leaving range or idleness re-arms the greeting. A greeting starts a
 * wait of 8 seconds during which no greeting plays.
 */
module NpcGreeting {

  datatype GreeterState = GreeterState(saidGreetingOnIdle: bool, cooldown: bool)

  /**
   * What the greeter sees: a frame, with `near` for a distance to the player
   * of at most 2.5 units and `idle` for the NPC standing idle, or the end of
   * the pending cooldown wait.
   */
  datatype Event = Frame(near: bool, idle: bool) | Elapsed

  /** The condition under which a frame plays the greeting. */
  predicate GreetsOn(s: GreeterState, near: bool, idle: bool) {
    !s.cooldown && !s.saidGreetingOnIdle && near && idle
  }

  /**
   * The state after one frame: only a greeting turns the cooldown on, a frame
   * never turns it off, and the greeted flag is cleared exactly by a frame out
   * of range or not idle.
   */
  function AfterFrame(s: GreeterState, near: bool, idle: bool): (r: GreeterState)
    ensures r.cooldown <==> s.cooldown || GreetsOn(s, near, idle)
    ensures r.saidGreetingOnIdle <==> GreetsOn(s, near, idle) || (s.saidGreetingOnIdle && near && idle)
  {
    if GreetsOn(s, near, idle) then GreeterState(true, true)
    else if !near || !idle then s.(saidGreetingOnIdle := false)
    else s
  }

  /**
   * One event: a greeting sets both flags, a leaving frame clears the greeted
   * flag, and only the end of the wait clears the cooldown.
   */
  function Step(s: GreeterState, e: Event): (r: GreeterState)
    ensures Plays(s, e) ==> r.cooldown && r.saidGreetingOnIdle
    ensures Leaves(e) ==> !r.saidGreetingOnIdle && r.cooldown == s.cooldown
    ensures e.Elapsed? ==> !r.cooldown && r.saidGreetingOnIdle == s.saidGreetingOnIdle
    ensures e.Frame? && !Plays(s, e) && !Leaves(e) ==> r == s
  {
    match e
    case Frame(near, idle) => AfterFrame(s, near, idle)
    case Elapsed => s.(cooldown := false)
  }

  predicate Plays(s: GreeterState, e: Event) {
    e.Frame? && GreetsOn(s, e.near, e.idle)
  }

  /** A frame on which the NPC is out of range or not idle. */
  predicate Leaves(e: Event) {
    e.Frame? && (!e.near || !e.idle)
  }

  /** The state after a sequence of events. */
  function Run(s: GreeterState, events: seq<Event>): GreeterState
    decreases |events|
  {
    if events == [] then s else Run(Step(s, events[0]), events[1..])
  }

  /** Whether the greeting plays on event `i` of a run from `s0`. */
  predicate PlaysAt(s0: GreeterState, events: seq<Event>, i: nat)
    requires i < |events|
  {
    Plays(Run(s0, events[..i]), events[i])
  }

  lemma {:induction false} RunAppend(s: GreeterState, a: seq<Event>, b: seq<Event>)
    ensures Run(s, a + b) == Run(Run(s, a), b)
    decreases |a|
  {
    if a != [] {
      assert (a + b)[1..] == a[1..] + b;
      RunAppend(Step(s, a[0]), a[1..], b);
    } else {
      assert a + b == b;
    }
  }

  /** The state before event `j` is the state after event `i` followed by the events in between. */
  lemma RunSplit(s0: GreeterState, events: seq<Event>, i: nat, j: nat)
    requires i < j <= |events|
    ensures Run(s0, events[..j]) == Run(Step(Run(s0, events[..i]), events[i]), events[i + 1..j])
  {
    assert events[..j] == events[..i] + ([events[i]] + events[i + 1..j]);
    RunAppend(s0, events[..i], [events[i]] + events[i + 1..j]);
    RunAppend(Run(s0, events[..i]), [events[i]], events[i + 1..j]);
  }

  /**
   * Without an Elapsed event the cooldown stays on and nothing plays: only the
   * end of the wait clears it.
   */
  lemma {:induction false} CooldownHolds(s: GreeterState, events: seq<Event>)
    requires s.cooldown
    requires forall k :: 0 <= k < |events| ==> !events[k].Elapsed?
    ensures Run(s, events).cooldown
    ensures forall k :: 0 <= k < |events| ==> !Plays(Run(s, events[..k]), events[k])
    decreases |events|
  {
    if events != [] {
      var rest := events[1..];
      CooldownHolds(Step(s, events[0]), rest);
      forall k | 0 <= k < |events|
        ensures !Plays(Run(s, events[..k]), events[k])
      {
        if k > 0 {
          assert events[..k] == [events[0]] + rest[..k - 1];
          RunAppend(s, [events[0]], rest[..k - 1]);
          assert events[k] == rest[k - 1];
        }
      }
    }
  }

  /** Without a frame that leaves range or idleness the greeted flag stays set. */
  lemma {:induction false} GreetedHolds(s: GreeterState, events: seq<Event>)
    requires s.saidGreetingOnIdle
    requires forall k :: 0 <= k < |events| ==> !Leaves(events[k])
    ensures Run(s, events).saidGreetingOnIdle
    decreases |events|
  {
    if events != [] {
      GreetedHolds(Step(s, events[0]), events[1..]);
    }
  }

  /**
   * Between any two greetings of a run there is at least one end of a
   * cooldown and at least one frame out of range or not idle.
   */
  lemma GreetingsSeparated(s0: GreeterState, events: seq<Event>, i: nat, j: nat)
    requires i < j < |events|
    requires PlaysAt(s0, events, i) && PlaysAt(s0, events, j)
    ensures exists k :: i < k < j && events[k].Elapsed?
    ensures exists k :: i < k < j && Leaves(events[k])
  {
    var after := Step(Run(s0, events[..i]), events[i]);
    assert after.cooldown && after.saidGreetingOnIdle;
    var between := events[i + 1..j];
    RunSplit(s0, events, i, j);
    assert !Run(after, between).cooldown && !Run(after, between).saidGreetingOnIdle;
    if forall k :: 0 <= k < |between| ==> !between[k].Elapsed? {
      CooldownHolds(after, between);
    }
    if forall k :: 0 <= k < |between| ==> !Leaves(between[k]) {
      GreetedHolds(after, between);
    }
    var k1 :| 0 <= k1 < |between| && between[k1].Elapsed?;
    assert events[i + 1 + k1] == between[k1];
    var k2 :| 0 <= k2 < |between| && Leaves(between[k2]);
    assert events[i + 1 + k2] == between[k2];
  }

  /**
   * An idle approach greets once; a second idle frame in cooldown does not;
   * after leaving, and once the cooldown has ended, the next idle approach
   * greets again.
   */
  lemma IdleApproachScenario()
    ensures var s0 := GreeterState(false, false);
      var events := [Frame(true, true), Frame(true, true), Frame(false, true), Elapsed, Frame(true, true)];
      && PlaysAt(s0, events, 0) && !PlaysAt(s0, events, 1) && !PlaysAt(s0, events, 2)
      && !PlaysAt(s0, events, 3) && PlaysAt(s0, events, 4)
  {
    var s0 := GreeterState(false, false);
    var events := [Frame(true, true), Frame(true, true), Frame(false, true), Elapsed, Frame(true, true)];
    assert events[..1] == [events[0]];
    assert events[..2] == events[..1] + [events[1]];
    assert events[..3] == events[..2] + [events[2]];
    assert events[..4] == events[..3] + [events[3]];
    RunAppend(s0, events[..1], [events[1]]);
    RunAppend(s0, events[..2], [events[2]]);
    RunAppend(s0, events[..3], [events[3]]);
  }

  /**
   * The component's two flags. `pendingWaits` counts the cooldown waits that
   * have started and not yet ended; there is one exactly while `cooldown` is set.
   */
  class MobileNPCSound {
    var saidGreetingOnIdle: bool
    var cooldown: bool
    ghost var pendingWaits: nat

    ghost predicate Valid()
      reads this
    {
      pendingWaits == if cooldown then 1 else 0
    }

    function State(): GreeterState
      reads this
    {
      GreeterState(saidGreetingOnIdle, cooldown)
    }

    constructor ()
      ensures Valid()
      ensures !saidGreetingOnIdle && !cooldown
    {
      saidGreetingOnIdle := false;
      cooldown := false;
      pendingWaits := 0;
    }

    /** One frame; `played` says whether the greeting sound was played. */
    method Tick(near: bool, idle: bool) returns (played: bool)
      requires Valid()
      modifies this
      ensures Valid()
      ensures State() == AfterFrame(old(State()), near, idle)
      ensures played <==> !old(cooldown) && !old(saidGreetingOnIdle) && near && idle
      ensures played ==> saidGreetingOnIdle && cooldown
      ensures old(cooldown) ==> !played && cooldown
      ensures !near || !idle ==> !played && !saidGreetingOnIdle && cooldown == old(cooldown)
      ensures near && idle && (old(cooldown) || old(saidGreetingOnIdle)) ==>
        !played && State() == old(State()) && pendingWaits == old(pendingWaits)
    {
      if !cooldown && !saidGreetingOnIdle && near && idle {
        played := true;
        saidGreetingOnIdle := true;
        StartCooldown();
      } else {
        played := false;
        if !near || !idle {
          saidGreetingOnIdle := false;
        }
      }
    }

    /** The start of the cooldown coroutine, which runs up to its wait at once. */
    method StartCooldown()
      requires Valid() && !cooldown
      modifies this
      ensures Valid()
      ensures cooldown && pendingWaits == 1
      ensures saidGreetingOnIdle == old(saidGreetingOnIdle)
    {
      cooldown := true;
      pendingWaits := pendingWaits + 1;
    }

    /** The pending wait of 8 seconds (`cooldownTime`) has ended. */
    method CooldownElapsed()
      requires Valid() && pendingWaits > 0
      modifies this
      ensures Valid()
      ensures State() == Step(old(State()), Elapsed)
      ensures !cooldown && pendingWaits == 0
      ensures saidGreetingOnIdle == old(saidGreetingOnIdle)
    {
      cooldown := false;
      pendingWaits := pendingWaits - 1;
    }
  }
}
