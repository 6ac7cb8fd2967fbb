/** The alert gate: a cooldown, then a sliding-window throttle (alerting.py, gate). Times are whole microseconds. */
module AlertGate {
  import opened Wrappers

  /** At most `count` in any period. */
  datatype Throttle = Throttle(count: nat, period: nat)

  /** cooldown 0: none. */
  datatype Rule = Rule(cooldown: nat, throttle: Option<Throttle>)

  datatype State = State(lastFired: Option<int>, recent: seq<int>)

  datatype Reason = Ok | Cooldown | Throttled

  datatype Result = Result(allowed: bool, reason: Reason, nextAllowed: Option<int>, state: State)

  predicate ValidRule(r: Rule) {
    r.throttle.Some? ==> r.throttle.value.count >= 1 && r.throttle.value.period >= 1
  }

  function After(times: seq<int>, t: int): seq<int> {
    if times == [] then []
    else (if times[0] > t then [times[0]] else []) + After(times[1..], t)
  }

  function Recent(rule: Rule, state: State, now: int): seq<int> {
    if rule.throttle.Some? then After(state.recent, now - rule.throttle.value.period) else []
  }

  /** A subject without a state has fired nothing. */
  function Gate(rule: Rule, stored: Option<State>, now: int): Result
    requires ValidRule(rule)
  {
    GateOn(rule, if stored.Some? then stored.value else State(None, []), now)
  }

  function GateOn(rule: Rule, state: State, now: int): Result
    requires ValidRule(rule)
  {
    var recent := Recent(rule, state, now);
    var kept := State(state.lastFired, recent);
    if rule.cooldown > 0 && state.lastFired.Some? && now < state.lastFired.value + rule.cooldown then
      Result(false, Cooldown, Some(state.lastFired.value + rule.cooldown), kept)
    else if rule.throttle.Some? && |recent| >= rule.throttle.value.count then
      Result(false, Throttled, Some(recent[0] + rule.throttle.value.period), kept)
    else
      Result(true, Ok, None, State(Some(now), if rule.throttle.Some? then recent + [now] else []))
  }

  // ---- Runs of one rule ------------------------------------------------------------------------------------------

  ghost predicate Nondecreasing(times: seq<int>) {
    forall i, j :: 0 <= i <= j < |times| ==> times[i] <= times[j]
  }

  /** The state kept after the gate was asked at each of these times. */
  function StateAfter(rule: Rule, times: seq<int>): Option<State>
    requires ValidRule(rule)
  {
    if times == [] then None
    else Some(Gate(rule, StateAfter(rule, times[..|times| - 1]), times[|times| - 1]).state)
  }

  /** The times let through. */
  function Fired(rule: Rule, times: seq<int>): seq<int>
    requires ValidRule(rule)
  {
    if times == [] then []
    else
      var n := |times| - 1;
      Fired(rule, times[..n]) + if Gate(rule, StateAfter(rule, times[..n]), times[n]).allowed then [times[n]] else []
  }

  function CurrentState(rule: Rule, times: seq<int>): State
    requires ValidRule(rule)
  {
    var s := StateAfter(rule, times);
    if s.Some? then s.value else State(None, [])
  }

  // ---- Filtering by time -----------------------------------------------------------------------------------------

  lemma {:induction false} AfterAppend(a: seq<int>, b: seq<int>, t: int)
    ensures After(a + b, t) == After(a, t) + After(b, t)
  {
    if a == [] {
      assert a + b == b;
    } else {
      assert (a + b)[1..] == a[1..] + b;
      AfterAppend(a[1..], b, t);
    }
  }

  lemma {:induction false} AfterTwice(times: seq<int>, s: int, t: int)
    requires s <= t
    ensures After(After(times, s), t) == After(times, t)
  {
    if times != [] {
      AfterTwice(times[1..], s, t);
      AfterAppend(if times[0] > s then [times[0]] else [], After(times[1..], s), t);
      AfterOne(times[0], t);
    }
  }

  lemma AfterOne(x: int, t: int)
    ensures After([x], t) == if x > t then [x] else []
  {
    assert [x][1..] == [];
  }

  lemma {:induction false} AllAfter(times: seq<int>, t: int)
    requires forall i :: 0 <= i < |times| ==> times[i] > t
    ensures After(times, t) == times
  {
    if times != [] {
      AllAfter(times[1..], t);
      assert [times[0]] + times[1..] == times;
    }
  }

  /** In order, what is after t is a tail. */
  lemma {:induction false} AfterTail(times: seq<int>, t: int) returns (k: nat)
    requires Nondecreasing(times)
    ensures k <= |times| && After(times, t) == times[k..]
    ensures (forall i :: 0 <= i < k ==> times[i] <= t) && forall i :: k <= i < |times| ==> times[i] > t
  {
    hide After, Nondecreasing;
    RestOrdered(times);
    if times == [] || times[0] > t {
      k := 0;
      AllAfter(times, t);
      assert times[0..] == times;
    } else {
      var rest := times[1..];
      var m := AfterTail(rest, t);
      k := m + 1;
      AfterSkips(times, t);
      assert times[k..] == rest[m..];
      assert forall i :: 0 < i < |times| ==> times[i] == rest[i - 1];
    }
  }

  lemma RestOrdered(times: seq<int>)
    requires Nondecreasing(times)
    ensures times != [] ==> Nondecreasing(times[1..])
    ensures forall i :: 0 <= i < |times| ==> times[0] <= times[i]
  {
  }

  lemma AfterSkips(times: seq<int>, t: int)
    requires times != [] && times[0] <= t
    ensures After(times, t) == After(times[1..], t)
  {
  }

  // ---- What the state remembers ----------------------------------------------------------------------------------

  lemma PrefixOrdered(times: seq<int>, n: nat)
    requires Nondecreasing(times) && n <= |times|
    ensures Nondecreasing(times[..n])
    ensures 0 < n < |times| ==> times[..n][n - 1] <= times[n]
  {
  }

  lemma {:induction false} FiredBefore(rule: Rule, times: seq<int>)
    requires ValidRule(rule) && Nondecreasing(times)
    ensures Nondecreasing(Fired(rule, times))
    ensures forall t :: t in Fired(rule, times) ==> t in times
    ensures times != [] ==> forall i :: 0 <= i < |Fired(rule, times)| ==> Fired(rule, times)[i] <= times[|times| - 1]
  {
    NothingFired(rule, 0);
    hide Gate, GateOn, StateAfter, CurrentState, Fired, After, Nondecreasing;
    if times != [] {
      var n := |times| - 1;
      PrefixOrdered(times, n);
      FiredBefore(rule, times[..n]);
      OneMore(rule, times);
      LastComesLast(Fired(rule, times[..n]), times);
    }
  }

  lemma LastComesLast(fired: seq<int>, times: seq<int>)
    requires times != [] && Nondecreasing(times) && Nondecreasing(fired)
    requires forall t :: t in fired ==> t in times[..|times| - 1]
    ensures forall i :: 0 <= i < |fired| ==> fired[i] in times && fired[i] <= times[|times| - 1]
    ensures Nondecreasing(fired + [times[|times| - 1]])
  {
    forall i | 0 <= i < |fired|
      ensures fired[i] in times && fired[i] <= times[|times| - 1]
    {
      assert fired[i] in fired && fired[i] in times[..|times| - 1];
      var k: nat :| k < |times| - 1 && times[k] == fired[i];
    }
  }

  /** One more time asked. */
  lemma OneMore(rule: Rule, times: seq<int>)
    requires ValidRule(rule) && times != []
    ensures var n := |times| - 1; var g := GateOn(rule, CurrentState(rule, times[..n]), times[n]);
            && CurrentState(rule, times) == g.state && Gate(rule, StateAfter(rule, times[..n]), times[n]) == g
            && Fired(rule, times) == if g.allowed then Fired(rule, times[..n]) + [times[n]] else Fired(rule, times[..n])
  {
    hide GateOn;
  }

  /** The last alert let through, and those of the throttle's period as of the last time asked. */
  ghost predicate Remembers(rule: Rule, times: seq<int>, s: State)
    requires ValidRule(rule)
  {
    var fired := Fired(rule, times);
    && s.lastFired == (if fired == [] then None else Some(fired[|fired| - 1]))
    && s.recent == (if times == [] || rule.throttle.None? then []
                    else After(fired, times[|times| - 1] - rule.throttle.value.period))
    && (rule.throttle.Some? ==> |s.recent| <= rule.throttle.value.count)
  }

  lemma RecentAt(rule: Rule, times: seq<int>, s: State, now: int)
    requires ValidRule(rule) && Remembers(rule, times, s) && rule.throttle.Some?
    requires times != [] ==> times[|times| - 1] <= now
    ensures Recent(rule, s, now) == After(Fired(rule, times), now - rule.throttle.value.period)
    ensures |Recent(rule, s, now)| <= rule.throttle.value.count
  {
    hide Fired, After, CurrentState, Remembers;
    var p := rule.throttle.value.period;
    KeptIs(rule, times, s);
    assert Recent(rule, s, now) == After(s.recent, now - p);
    hide Recent;
    RecentShrinks(s.recent, now - p);
    if times == [] {
      NothingFired(rule, now - p);
    } else {
      AfterTwice(Fired(rule, times), times[|times| - 1] - p, now - p);
    }
  }

  lemma KeptIs(rule: Rule, times: seq<int>, s: State)
    requires ValidRule(rule) && Remembers(rule, times, s) && rule.throttle.Some?
    ensures |s.recent| <= rule.throttle.value.count
    ensures times == [] ==> s.recent == []
    ensures times != [] ==> s.recent == After(Fired(rule, times), times[|times| - 1] - rule.throttle.value.period)
  {
    hide Fired, After;
  }

  lemma NothingFired(rule: Rule, t: int)
    requires ValidRule(rule)
    ensures Fired(rule, []) == [] && CurrentState(rule, []) == State(None, []) && After([], t) == []
  {
  }

  lemma {:induction false} StateRemembers(rule: Rule, times: seq<int>)
    requires ValidRule(rule) && Nondecreasing(times)
    ensures Remembers(rule, times, CurrentState(rule, times))
  {
    NothingFired(rule, 0);
    hide Fired, StateAfter, CurrentState, After;
    if times != [] {
      var n := |times| - 1;
      PrefixOrdered(times, n);
      StateRemembers(rule, times[..n]);
      OneMore(rule, times);
      if n > 0 { assert times[..n][n - 1] == times[n - 1] <= times[n]; }
      RemembersMore(rule, times[..n], CurrentState(rule, times[..n]), times[n]);
      assert times[..n] + [times[n]] == times;
      hide GateOn;
    }
  }

  /** One more time asked, in terms of the state. */
  lemma RemembersMore(rule: Rule, times: seq<int>, s: State, now: int)
    requires ValidRule(rule) && Remembers(rule, times, s) && (times != [] ==> times[|times| - 1] <= now)
    requires var all := times + [now];
             Fired(rule, all) == if GateOn(rule, s, now).allowed then Fired(rule, times) + [now] else Fired(rule, times)
    ensures Remembers(rule, times + [now], GateOn(rule, s, now).state)
  {
    hide Fired, After;
    assert (times + [now])[|times + [now]| - 1] == now;
    if rule.throttle.Some? {
      var p := rule.throttle.value.period;
      RecentAt(rule, times, s, now);
      AfterAppend(Fired(rule, times), [now], now - p);
      AfterOne(now, now - p);
    }
  }

  lemma {:induction false} RecentShrinks(times: seq<int>, t: int)
    ensures |After(times, t)| <= |times|
  {
    if times != [] {
      RecentShrinks(times[1..], t);
    }
  }

  /** What the gate reads at a time: the alerts of its period, of all that were let through. */
  lemma RecentIs(rule: Rule, times: seq<int>, now: int)
    requires ValidRule(rule) && Nondecreasing(times) && rule.throttle.Some?
    requires times != [] ==> times[|times| - 1] <= now
    ensures Recent(rule, CurrentState(rule, times), now) == After(Fired(rule, times), now - rule.throttle.value.period)
    ensures |Recent(rule, CurrentState(rule, times), now)| <= rule.throttle.value.count
  {
    StateRemembers(rule, times);
    RecentAt(rule, times, CurrentState(rule, times), now);
  }

  // ---- Spacing and throttling over whole runs --------------------------------------------------------------------

  /** Alerts are at least the cooldown apart. */
  lemma {:induction false} CooldownHolds(rule: Rule, times: seq<int>)
    requires ValidRule(rule) && Nondecreasing(times)
    ensures var fired := Fired(rule, times);
            forall i, j :: 0 <= i < j < |fired| ==> fired[j] - fired[i] >= rule.cooldown
  {
    if times != [] {
      var n := |times| - 1;
      PrefixOrdered(times, n);
      CooldownHolds(rule, times[..n]);
      StateRemembers(rule, times[..n]);
      FiredBefore(rule, times[..n]);
      FiredBefore(rule, times);
      OneMore(rule, times);
      var fired := Fired(rule, times[..n]);
      hide Fired, StateAfter, CurrentState, Recent;
      if fired != [] && GateOn(rule, CurrentState(rule, times[..n]), times[n]).allowed {
        assert times[n] - fired[|fired| - 1] >= rule.cooldown;
        assert forall i :: 0 <= i < |fired| ==> fired[i] <= fired[|fired| - 1];
      }
    }
  }

  /** How many of the times lie in (s, s + period]. */
  ghost function Between(times: seq<int>, s: int, period: nat): nat {
    if times == [] then 0
    else Between(times[..|times| - 1], s, period) + if s < times[|times| - 1] <= s + period then 1 else 0
  }

  lemma {:induction false} BetweenIsAfter(times: seq<int>, s: int, period: nat)
    ensures Between(times, s, period) <= |After(times, s)|
  {
    if times != [] {
      var n := |times| - 1;
      BetweenIsAfter(times[..n], s, period);
      assert times == times[..n] + [times[n]];
      AfterAppend(times[..n], [times[n]], s);
      AfterOne(times[n], s);
    }
  }

  lemma {:induction false} LaterIsLess(times: seq<int>, s: int, t: int)
    requires s <= t
    ensures |After(times, t)| <= |After(times, s)|
  {
    AfterTwice(times, s, t);
    RecentShrinks(After(times, s), t);
  }

  /** No window of the period, wherever it starts, holds more than `count` alerts. */
  lemma {:induction false} ThrottleHolds(rule: Rule, times: seq<int>, s: int)
    requires ValidRule(rule) && Nondecreasing(times) && rule.throttle.Some?
    ensures Between(Fired(rule, times), s, rule.throttle.value.period) <= rule.throttle.value.count
  {
    NothingFired(rule, 0);
    NothingBetween(s, rule.throttle.value.period);
    hide Fired, StateAfter, CurrentState, After, Recent, Between, Gate, GateOn, Nondecreasing;
    if times != [] {
      PrefixOrdered(times, |times| - 1);
      ThrottleHolds(rule, times[..|times| - 1], s);
      OneMore(rule, times);
      if GateOn(rule, CurrentState(rule, times[..|times| - 1]), times[|times| - 1]).allowed {
        ThrottleStep(rule, times[..|times| - 1], times[|times| - 1], s);
      }
    }
  }

  lemma ThrottleStep(rule: Rule, times: seq<int>, now: int, s: int)
    requires ValidRule(rule) && Nondecreasing(times) && (times != [] ==> times[|times| - 1] <= now)
    requires rule.throttle.Some?
    requires Between(Fired(rule, times), s, rule.throttle.value.period) <= rule.throttle.value.count
    requires GateOn(rule, CurrentState(rule, times), now).allowed
    ensures Between(Fired(rule, times) + [now], s, rule.throttle.value.period) <= rule.throttle.value.count
  {
    hide Fired, StateAfter, CurrentState, After, Recent, Between, Gate, GateOn, Nondecreasing;
    RecentIs(rule, times, now);
    UnderTheLimit(rule, CurrentState(rule, times), now);
    OneMoreBetween(Fired(rule, times), now, s, rule.throttle.value.period, rule.throttle.value.count);
  }

  lemma NothingBetween(s: int, period: nat)
    ensures Between([], s, period) == 0
  {
  }

  lemma UnderTheLimit(rule: Rule, s: State, now: int)
    requires ValidRule(rule) && rule.throttle.Some? && GateOn(rule, s, now).allowed
    ensures |Recent(rule, s, now)| < rule.throttle.value.count
  {
    hide Recent;
  }

  lemma OneMoreBetween(fired: seq<int>, now: int, s: int, period: nat, count: nat)
    requires Between(fired, s, period) <= count && |After(fired, now - period)| < count
    ensures Between(fired + [now], s, period) <= count
  {
    assert (fired + [now])[..|fired + [now]| - 1] == fired;
    hide After;
    if s < now <= s + period {
      LaterIsLess(fired, now - period, s);
      BetweenIsAfter(fired, s, period);
    }
  }

  // ---- next_allowed_at -------------------------------------------------------------------------------------------

  lemma RecentOrdered(rule: Rule, times: seq<int>, now: int)
    requires ValidRule(rule) && Nondecreasing(times) && (times != [] ==> times[|times| - 1] <= now)
    requires rule.throttle.Some?
    ensures var recent := Recent(rule, CurrentState(rule, times), now);
            Nondecreasing(recent) && forall i :: 0 <= i < |recent| ==> recent[i] > now - rule.throttle.value.period
  {
    hide Fired, CurrentState, Recent, After;
    RecentIs(rule, times, now);
    FiredBefore(rule, times);
    var k := AfterTail(Fired(rule, times), now - rule.throttle.value.period);
  }

  lemma FirstGoes(times: seq<int>, t: int)
    requires times != [] && times[0] <= t
    ensures |After(times, t)| < |times|
  {
    RecentShrinks(times[1..], t);
  }

  /** After a refusal: until the time it named the gate refuses for the same reason and names the same time; then, if
      the throttle refused, it allows. */
  lemma Refused(rule: Rule, times: seq<int>, now: int, t: int)
    requires ValidRule(rule) && Nondecreasing(times) && (times != [] ==> times[|times| - 1] <= now) && now <= t
    requires !Gate(rule, StateAfter(rule, times), now).allowed
    ensures var r := Gate(rule, StateAfter(rule, times), now);
            && now < r.nextAllowed.value
            && (t < r.nextAllowed.value ==> SameRefusal(GateOn(rule, r.state, t), r))
            && (r.reason == Throttled && t == r.nextAllowed.value ==> GateOn(rule, r.state, t).allowed)
  {
    var s := CurrentState(rule, times);
    assert Gate(rule, StateAfter(rule, times), now) == GateOn(rule, s, now);
    if rule.throttle.Some? {
      RecentOrdered(rule, times, now);
      RecentIs(rule, times, now);
    }
    hide Fired, StateAfter, CurrentState, Gate;
    RefusedState(rule, s, now, t);
  }

  predicate SameRefusal(g: Result, r: Result) {
    !g.allowed && g.reason == r.reason && g.nextAllowed == r.nextAllowed
  }

  lemma RefusedState(rule: Rule, s: State, now: int, t: int)
    requires ValidRule(rule) && now <= t && !GateOn(rule, s, now).allowed
    requires rule.throttle.Some? ==>
               var recent := Recent(rule, s, now);
               Nondecreasing(recent) && |recent| <= rule.throttle.value.count
               && forall i :: 0 <= i < |recent| ==> recent[i] > now - rule.throttle.value.period
    ensures var r := GateOn(rule, s, now);
            && now < r.nextAllowed.value
            && (t < r.nextAllowed.value ==> SameRefusal(GateOn(rule, r.state, t), r))
            && (r.reason == Throttled && t == r.nextAllowed.value ==> GateOn(rule, r.state, t).allowed)
  {
    hide After;
    var r := GateOn(rule, s, now);
    if r.reason == Throttled {
      var period := rule.throttle.value.period;
      var recent := r.state.recent;
      assert recent == Recent(rule, s, now) && Recent(rule, r.state, t) == After(recent, t - period);
      hide Recent, Nondecreasing;
      if t < r.nextAllowed.value {
        NoneGoes(recent, t - period);
      } else if t == r.nextAllowed.value {
        FirstGoes(recent, t - period);
      }
    }
  }

  lemma NoneGoes(times: seq<int>, t: int)
    requires Nondecreasing(times) && times != [] && times[0] > t
    ensures After(times, t) == times
  {
    assert forall i :: 0 <= i < |times| ==> times[0] <= times[i];
    AllAfter(times, t);
  }

  lemma AskedLast(rule: Rule, times: seq<int>, now: int)
    requires ValidRule(rule)
    ensures StateAfter(rule, times + [now]) == Some(Gate(rule, StateAfter(rule, times), now).state)
    ensures Fired(rule, times + [now]) ==
            if Gate(rule, StateAfter(rule, times), now).allowed then Fired(rule, times) + [now] else Fired(rule, times)
  {
    assert (times + [now])[..|times + [now]| - 1] == times;
    hide Gate;
  }

  lemma LastIsLatest(times: seq<int>, now: int)
    requires Nondecreasing(times + [now])
    ensures Nondecreasing(times) && (times != [] ==> times[|times| - 1] <= now)
  {
    var all := times + [now];
    assert forall i :: 0 <= i < |times| ==> all[i] == times[i];
    assert times != [] ==> all[|times| - 1] <= all[|times|];
  }

  /** However often it is asked in between, until the time a refusal named the gate refuses, for the same reason and
      naming the same time, and lets nothing through. */
  lemma {:induction false} RefusesUntilThen(rule: Rule, times: seq<int>, now: int, asks: seq<int>, t: int)
    requires ValidRule(rule) && Nondecreasing(times + [now] + asks + [t])
    requires var r := Gate(rule, StateAfter(rule, times), now); !r.allowed && t < r.nextAllowed.value
    ensures SameRefusal(Gate(rule, StateAfter(rule, times + [now] + asks), t), Gate(rule, StateAfter(rule, times), now))
    ensures Fired(rule, times + [now] + asks) == Fired(rule, times)
    decreases |asks|
  {
    hide Gate, Fired, StateAfter, Nondecreasing;
    LastIsLatest(times + [now] + asks, t);
    if asks == [] {
      assert times + [now] + asks == times + [now];
      LastIsLatest(times, now);
      AskedLast(rule, times, now);
      AskedAgain(rule, times, now, t);
    } else {
      var before, a := asks[..|asks| - 1], asks[|asks| - 1];
      var run := times + [now] + before;
      assert times + [now] + asks == run + [a];
      RefusesUntilThen(rule, times, now, before, a);
      LastIsLatest(run, a);
      AskedLast(rule, run, a);
      AskedAgain(rule, run, a, t);
    }
  }

  lemma AskedAgain(rule: Rule, times: seq<int>, now: int, t: int)
    requires ValidRule(rule) && Nondecreasing(times) && (times != [] ==> times[|times| - 1] <= now) && now <= t
    requires var r := Gate(rule, StateAfter(rule, times), now); !r.allowed
    requires var r := Gate(rule, StateAfter(rule, times), now); StateAfter(rule, times + [now]) == Some(r.state)
    ensures var r := Gate(rule, StateAfter(rule, times), now); var g := Gate(rule, StateAfter(rule, times + [now]), t);
            && now < r.nextAllowed.value
            && (t < r.nextAllowed.value ==> SameRefusal(g, r))
            && (r.reason == Throttled && t == r.nextAllowed.value ==> g.allowed)
  {
    hide GateOn, StateAfter;
    Refused(rule, times, now, t);
  }

  lemma RefusalNames(rule: Rule, stored: Option<State>, now: int)
    requires ValidRule(rule)
    ensures !Gate(rule, stored, now).allowed ==> Gate(rule, stored, now).nextAllowed.Some?
  {
  }

  /** However often it is asked in between, after the throttle refused it allows exactly at the time it named. */
  lemma AllowsExactlyThen(rule: Rule, times: seq<int>, now: int, asks: seq<int>)
    requires ValidRule(rule)
    requires var r := Gate(rule, StateAfter(rule, times), now);
             && !r.allowed && r.reason == Throttled
             && Nondecreasing(times + [now] + asks + [r.nextAllowed.value])
             && (asks != [] ==> asks[|asks| - 1] < r.nextAllowed.value)
    ensures var r := Gate(rule, StateAfter(rule, times), now);
            Gate(rule, StateAfter(rule, times + [now] + asks), r.nextAllowed.value).allowed
  {
    hide Gate, Fired, StateAfter, Nondecreasing;
    RefusalNames(rule, StateAfter(rule, times), now);
    var named := Gate(rule, StateAfter(rule, times), now).nextAllowed.value;
    LastIsLatest(times + [now] + asks, named);
    if asks == [] {
      assert times + [now] + asks == times + [now];
      LastIsLatest(times, now);
      AskedLast(rule, times, now);
      AskedAgain(rule, times, now, named);
    } else {
      var before, a := asks[..|asks| - 1], asks[|asks| - 1];
      var run := times + [now] + before;
      assert times + [now] + asks == run + [a];
      RefusesUntilThen(rule, times, now, before, a);
      LastIsLatest(run, a);
      AskedLast(rule, run, a);
      AskedAgain(rule, run, a, named);
    }
  }
}
