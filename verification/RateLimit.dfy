/** The outbound request budget: a token bucket shared by threads (rate_limit.py). Times and tokens are reals. */
module RateLimit {
  import opened Wrappers

  datatype Bucket = Bucket(tokens: real, last: real, capacity: int, perSecond: real)

  function PerSecond(perMinute: int): real { perMinute as real / 60.0 }

  function DefaultBurst(perMinute: int): int {
    if perMinute / 6 > 1 then perMinute / 6 else 1
  }

  function Least(x: real, y: real): real { if x < y then x else y }

  /** What a time brings at a rate. */
  function Earned(time: real, perSecond: real): real { time * perSecond }

  function Refill(b: Bucket, now: real): Bucket {
    b.(tokens := Least(b.capacity as real, b.tokens + Earned(now - b.last, b.perSecond)), last := now)
  }

  /** The section acquire runs under the lock: refill, then take a token if there is one. */
  function Take(b: Bucket, now: real): (Bucket, bool) {
    var r := Refill(b, now);
    if r.tokens >= 1.0 then (r.(tokens := r.tokens - 1.0), true) else (r, false)
  }

  function Rerate(b: Bucket, now: real, perMinute: int): Bucket {
    var r := Refill(b, now);
    var capacity := DefaultBurst(perMinute);
    Bucket(Least(r.tokens, capacity as real), now, capacity, PerSecond(perMinute))
  }

  /** How long acquire sleeps after it found no token. */
  function Wait(b: Bucket): real
    requires b.perSecond > 0.0
  {
    (1.0 - b.tokens) / b.perSecond
  }

  // ---- The object ------------------------------------------------------------------------------------------------

  class RateLimiter {
    var perMinute: int
    var perSecond: real
    var capacity: int
    var tokens: real
    var lastRefill: real

    function Contents(): Bucket
      reads this
    {
      Bucket(tokens, lastRefill, capacity, perSecond)
    }

    constructor (perMinute: int, burst: Option<int>, now: real)
      requires perMinute >= 1
      ensures this.perMinute == perMinute
      ensures var c := if burst.Some? then burst.value else DefaultBurst(perMinute);
              Contents() == Bucket(c as real, now, c, PerSecond(perMinute))
    {
      this.perMinute := perMinute;
      perSecond := perMinute as real / 60.0;
      var c := if burst.Some? then burst.value else DefaultBurst(perMinute);
      capacity := c;
      tokens := c as real;
      lastRefill := now;
    }

    method RefillLocked(now: real)
      modifies this`tokens, this`lastRefill
      ensures Contents() == Refill(old(Contents()), now)
    {
      tokens := Least(capacity as real, tokens + Earned(now - lastRefill, perSecond));
      lastRefill := now;
    }

    /** A rate below 1 is refused. */
    method SetRate(perMinute: int, now: real) returns (ok: bool)
      modifies this
      ensures ok == (perMinute >= 1)
      ensures Contents() == if ok then Rerate(old(Contents()), now, perMinute) else old(Contents())
      ensures this.perMinute == if ok then perMinute else old(this.perMinute)
    {
      if perMinute < 1 {
        return false;
      }
      RefillLocked(now);
      this.perMinute := perMinute;
      perSecond := perMinute as real / 60.0;
      capacity := DefaultBurst(perMinute);
      tokens := Least(tokens, capacity as real);
      return true;
    }

    /** One round of acquire's loop, under the lock: whether it was granted, and else how long to wait. */
    method TryAcquire(now: real) returns (granted: bool, wait: real)
      requires perSecond > 0.0
      modifies this`tokens, this`lastRefill
      ensures (Contents(), granted) == Take(old(Contents()), now)
      ensures !granted ==> wait == Wait(Contents())
    {
      RefillLocked(now);
      if tokens >= 1.0 {
        tokens := tokens - 1.0;
        return true, 0.0;
      }
      return false, (1.0 - tokens) / perSecond;
    }

    /** What other threads do in the meantime. */
    method Others(steps: seq<Step>)
      requires perSecond > 0.0 && Rates(steps)
      modifies this
      ensures Contents() == Run(old(Contents()), steps).0 && perSecond > 0.0
    {
      assert steps[..0] == [];
      for i := 0 to |steps|
        invariant Contents() == Run(old(Contents()), steps[..i]).0 && perSecond > 0.0
      {
        assert steps[..i + 1] == steps[..i] + [steps[i]];
        RunMore(old(Contents()), steps[..i], steps[i]);
        match steps[i]
        case Try(now) =>
          var granted, wait := TryAcquire(now);
        case NewRate(now, perMinute) =>
          var ok := SetRate(perMinute, now);
      }
      assert steps[..|steps|] == steps;
    }

    /** acquire, called at `start`: a round tries, looks at the clock, and sleeps while others go on. Waiting: the
        rounds given end while it sleeps. */
    method Acquire(timeout: real, start: real, rounds: seq<Round>) returns (outcome: Outcome, ghost used: nat)
      requires perSecond > 0.0 && forall i :: 0 <= i < |rounds| ==> Rates(rounds[i].others)
      modifies this
      ensures used <= |rounds| && (outcome == Waiting <==> used == |rounds|)
      ensures Contents() == Run(old(Contents()), StepsOf(rounds[..used]) + LastTry(rounds, used)).0
      ensures forall k :: 0 <= k < used ==> !GrantedIn(old(Contents()), rounds, k)
      ensures outcome == Granted ==> GrantedIn(old(Contents()), rounds, used)
      ensures outcome == Refused ==>
                !GrantedIn(old(Contents()), rounds, used) && (timeout <= 0.0 || rounds[used].check >= start + timeout)
      ensures outcome != Refused ==> forall k :: 0 <= k < used ==> timeout > 0.0 && rounds[k].check < start + timeout
    {
      hide Run, Take;
      var deadline := start + timeout;
      ghost var b := Contents();
      assert rounds[..0] == [];
      RunNone(b);
      used := 0;
      for i := 0 to |rounds|
        invariant used == i && Contents() == Run(b, StepsOf(rounds[..i])).0 && perSecond > 0.0
        invariant forall k :: 0 <= k < i ==> !GrantedIn(b, rounds, k) && timeout > 0.0 && rounds[k].check < deadline
      {
        var r := rounds[i];
        RunMore(b, StepsOf(rounds[..i]), Try(r.enter));
        var granted, wait := TryAcquire(r.enter);
        if granted {
          return Granted, i;
        }
        var remaining := deadline - r.check;
        if timeout <= 0.0 || remaining <= 0.0 {
          return Refused, i;
        }
        Others(r.others);
        RunOn(b, StepsOf(rounds[..i]) + [Try(r.enter)], r.others);
        assert rounds[..i + 1][..i] == rounds[..i];
        used := i + 1;
      }
      assert StepsOf(rounds[..used]) + [] == StepsOf(rounds[..used]);
      return Waiting, |rounds|;
    }
  }

  /** The clock when a thread has the lock, the clock when it looks whether to go on, and what others do while it
      sleeps. */
  datatype Round = Round(enter: real, check: real, others: seq<Step>)

  datatype Outcome = Granted | Refused | Waiting

  ghost predicate Rates(steps: seq<Step>) {
    forall i :: 0 <= i < |steps| && steps[i].NewRate? ==> steps[i].perMinute >= 1
  }

  /** All that happens under the lock in these rounds. */
  ghost function StepsOf(rounds: seq<Round>): seq<Step> {
    if rounds == [] then []
    else StepsOf(rounds[..|rounds| - 1]) + [Try(rounds[|rounds| - 1].enter)] + rounds[|rounds| - 1].others
  }

  ghost function LastTry(rounds: seq<Round>, used: nat): seq<Step>
    requires used <= |rounds|
  {
    if used < |rounds| then [Try(rounds[used].enter)] else []
  }

  /** Whether the k-th round found a token. */
  ghost predicate GrantedIn(b: Bucket, rounds: seq<Round>, k: nat)
    requires k < |rounds|
  {
    Take(Run(b, StepsOf(rounds[..k])).0, rounds[k].enter).1
  }

  lemma RunNone(b: Bucket)
    ensures Run(b, []) == (b, 0) && StepsOf([]) == []
  {
  }

  lemma {:induction false} RunOn(b: Bucket, x: seq<Step>, y: seq<Step>)
    ensures var m := Run(b, x); Run(b, x + y) == (Run(m.0, y).0, m.1 + Run(m.0, y).1)
    decreases |x|
  {
    hide After;
    if x == [] {
      assert x + y == y;
    } else {
      assert (x + y)[0] == x[0] && (x + y)[1..] == x[1..] + y;
      RunOn(After(b, x[0]).0, x[1..], y);
    }
  }

  lemma RunMore(b: Bucket, x: seq<Step>, s: Step)
    ensures Run(b, x + [s]) == (After(Run(b, x).0, s).0, Run(b, x).1 + After(Run(b, x).0, s).1)
    ensures s.Try? ==>
              After(Run(b, x).0, s) == (Take(Run(b, x).0, s.now).0, if Take(Run(b, x).0, s.now).1 then 1 else 0)
  {
    hide Take, Rerate;
    RunOn(b, x, [s]);
    var c := Run(b, x).0;
    assert [s][1..] == [];
    assert Run(After(c, s).0, []) == (After(c, s).0, 0);
    assert Run(c, [s]) == (After(c, s).0, After(c, s).1);
  }

  // ---- Every run of every interleaving ---------------------------------------------------------------------------

  /** What any thread does under the lock, with the clock it reads there. */
  datatype Step = Try(now: real) | NewRate(now: real, perMinute: int)

  ghost predicate Sound(b: Bucket) {
    0.0 <= b.tokens <= b.capacity as real && b.perSecond > 0.0
  }

  /** The clock does not go back; a rate is at least 1. */
  ghost predicate Forward(b: Bucket, steps: seq<Step>)
    decreases |steps|
  {
    steps != [] ==>
      && b.last <= steps[0].now && (steps[0].NewRate? ==> steps[0].perMinute >= 1)
      && Forward(After(b, steps[0]).0, steps[1..])
  }

  function After(b: Bucket, s: Step): (Bucket, nat) {
    match s
    case Try(now) => (Take(b, now).0, if Take(b, now).1 then 1 else 0)
    case NewRate(now, perMinute) => (Rerate(b, now, perMinute), 0)
  }

  /** The bucket after the steps, and how many were granted. */
  function Run(b: Bucket, steps: seq<Step>): (Bucket, nat)
    decreases |steps|
  {
    if steps == [] then (b, 0)
    else
      var first := After(b, steps[0]);
      var rest := Run(first.0, steps[1..]);
      (rest.0, first.1 + rest.1)
  }

  /** Sum over the pieces of the rate in force times the time. */
  function Budget(b: Bucket, steps: seq<Step>): real
    decreases |steps|
  {
    if steps == [] then 0.0
    else Earned(steps[0].now - b.last, b.perSecond) + Budget(After(b, steps[0]).0, steps[1..])
  }

  lemma NotNegative(time: real, rate: real)
    requires time >= 0.0 && rate >= 0.0
    ensures Earned(time, rate) >= 0.0
  {
  }

  lemma Distributes(x: real, y: real, rate: real)
    ensures Earned(x + y, rate) == Earned(x, rate) + Earned(y, rate)
  {
  }

  lemma RefillSound(b: Bucket, now: real)
    requires Sound(b) && b.last <= now
    ensures Sound(Refill(b, now)) && b.tokens <= Refill(b, now).tokens
    ensures Refill(b, now).tokens <= b.tokens + Earned(now - b.last, b.perSecond)
  {
    hide Earned;
    NotNegative(now - b.last, b.perSecond);
  }

  lemma AfterSound(b: Bucket, s: Step)
    requires Sound(b) && b.last <= s.now && (s.NewRate? ==> s.perMinute >= 1)
    ensures Sound(After(b, s).0) && After(b, s).0.last == s.now
    ensures After(b, s).0.tokens + After(b, s).1 as real <= Refill(b, s.now).tokens
  {
    RefillSound(b, s.now);
  }

  /** Tokens stay between 0 and the capacity; grants are paid for by the tokens at the start and the time since, each
      piece at the rate in force. */
  lemma {:induction false} GrantsArePaid(b: Bucket, steps: seq<Step>)
    requires Sound(b) && Forward(b, steps)
    ensures Sound(Run(b, steps).0)
    ensures Run(b, steps).0.tokens + Run(b, steps).1 as real <= b.tokens + Budget(b, steps)
    decreases |steps|
  {
    hide Earned;
    if steps != [] {
      var s := steps[0];
      AfterSound(b, s);
      RefillSound(b, s.now);
      GrantsArePaid(After(b, s).0, steps[1..]);
    }
  }

  ghost predicate NoNewRate(steps: seq<Step>) {
    forall i :: 0 <= i < |steps| ==> steps[i].Try?
  }

  /** All the steps are no later than an instant. */
  ghost predicate Until(steps: seq<Step>, end: real) {
    forall i :: 0 <= i < |steps| ==> steps[i].now <= end
  }

  lemma {:induction false} SameRate(b: Bucket, steps: seq<Step>, end: real)
    requires Sound(b) && Forward(b, steps) && NoNewRate(steps) && Until(steps, end) && b.last <= end
    ensures Budget(b, steps) <= Earned(end - b.last, b.perSecond)
    decreases |steps|
  {
    hide Earned;
    if steps == [] {
      NotNegative(end - b.last, b.perSecond);
    } else {
      var s := steps[0];
      assert s.Try?;
      AfterSound(b, s);
      var c := After(b, s).0;
      assert c.perSecond == b.perSecond;
      RestTries(steps);
      assert Until(steps[1..], end);
      SameRate(c, steps[1..], end);
      Distributes(s.now - b.last, end - s.now, b.perSecond);
      assert (s.now - b.last) + (end - s.now) == end - b.last;
    }
  }

  /** At one rate, whatever happened before: in any interval at most the capacity plus the rate times its length is
      granted. */
  lemma GrantsInAnyInterval(b: Bucket, steps: seq<Step>, start: real, end: real)
    requires Sound(b) && Forward(b, steps) && NoNewRate(steps)
    requires steps != [] && start <= steps[0].now && Until(steps, end)
    ensures Run(b, steps).1 as real <= b.capacity as real + Earned(end - start, b.perSecond)
  {
    var first := steps[0].now;
    var c := Refill(b, first);
    RefillSound(b, first);
    RefillTwice(b, steps);
    UntilFirst(steps, end);
    hide Run, Budget, Forward, Refill, NoNewRate, Until, Earned;
    assert c.perSecond == b.perSecond && c.last == first && c.tokens <= b.capacity as real by { Refilled(b, first); }
    GrantsArePaid(c, steps);
    SameRate(c, steps, end);
    Wider(start, first, end, b.perSecond);
    AddUp(Run(c, steps).0.tokens, Run(c, steps).1 as real, c.tokens, Budget(c, steps), Earned(end - first, b.perSecond),
          Earned(end - start, b.perSecond), b.capacity as real);
  }

  lemma AddUp(left: real, grants: real, tokens: real, budget: real, earned: real, most: real, capacity: real)
    requires left >= 0.0 && left + grants <= tokens + budget && tokens <= capacity && budget <= earned <= most
    ensures grants <= capacity + most
  {
  }

  lemma UntilFirst(steps: seq<Step>, end: real)
    requires steps != [] && Until(steps, end)
    ensures steps[0].now <= end
  {
  }

  lemma Refilled(b: Bucket, now: real)
    ensures var c := Refill(b, now);
            c.perSecond == b.perSecond && c.last == now && c.capacity == b.capacity && c.tokens <= b.capacity as real
  {
  }

  lemma Wider(start: real, first: real, end: real, rate: real)
    requires start <= first <= end && rate > 0.0
    ensures Earned(end - first, rate) <= Earned(end - start, rate)
  {
    hide Earned;
    Distributes(end - first, first - start, rate);
    assert (end - first) + (first - start) == end - start;
    NotNegative(first - start, rate);
  }

  /** Refilling at the clock of the first step changes nothing of the run. */
  lemma RefillTwice(b: Bucket, steps: seq<Step>)
    requires Sound(b) && steps != [] && Forward(b, steps)
    ensures var c := Refill(b, steps[0].now); Forward(c, steps) && Run(c, steps) == Run(b, steps)
  {
    var c := Refill(b, steps[0].now);
    RefillSound(b, steps[0].now);
    assert Earned(0.0, c.perSecond) == 0.0;
    assert Refill(c, steps[0].now) == c;
    assert After(c, steps[0]) == After(b, steps[0]);
  }

  lemma {:induction false} LaterPart(b: Bucket, before: seq<Step>, steps: seq<Step>)
    requires Sound(b) && Forward(b, before + steps)
    ensures Sound(Run(b, before).0) && Forward(Run(b, before).0, steps)
    decreases |before|
  {
    if before == [] {
      assert before + steps == steps;
    } else {
      var all := before + steps;
      assert all[0] == before[0] && all[1..] == before[1..] + steps;
      AfterSound(b, before[0]);
      hide After;
      LaterPart(After(b, before[0]).0, before[1..], steps);
    }
  }

  /** Any part of any run, whatever came before it: its grants are paid by the tokens it starts with and its own budget;
      and if the rate does not change in it, they are at most the capacity plus the rate times the length of its
      interval. */
  lemma PartOfARun(b: Bucket, before: seq<Step>, steps: seq<Step>, start: real, end: real)
    requires Sound(b) && Forward(b, before + steps)
    requires steps != [] && start <= steps[0].now && Until(steps, end)
    ensures var m := Run(b, before).0;
            && Run(b, before + steps).1 == Run(b, before).1 + Run(m, steps).1
            && Run(m, steps).1 as real <= m.tokens + Budget(m, steps)
            && (NoNewRate(steps) ==> Run(m, steps).1 as real <= m.capacity as real + Earned(end - start, m.perSecond))
  {
    hide Run, Budget, Forward, Earned;
    var m := Run(b, before).0;
    RunOn(b, before, steps);
    LaterPart(b, before, steps);
    GrantsArePaid(m, steps);
    if NoNewRate(steps) { GrantsInAnyInterval(m, steps, start, end); }
  }

  lemma RestTries(steps: seq<Step>)
    requires steps != [] && NoNewRate(steps)
    ensures steps[0].Try? && NoNewRate(steps[1..])
  {
    forall i | 0 <= i < |steps[1..]|
      ensures steps[1..][i].Try?
    {
      assert steps[1..][i] == steps[i + 1];
    }
  }

  /** A refused thread sleeps exactly as long as it takes: left alone, it is granted from then on and not before. */
  lemma WaitIsExact(b: Bucket, t: real)
    requires Sound(b) && b.tokens < 1.0 && b.capacity >= 1 && b.last <= t
    ensures Take(b, t).1 <==> t >= b.last + Wait(b)
  {
    var r := b.perSecond;
    assert Wait(b) * r == 1.0 - b.tokens;
    var d := t - b.last;
    if d >= Wait(b) {
      assert (d - Wait(b)) * r >= 0.0;
      assert d * r == (d - Wait(b)) * r + Wait(b) * r;
    } else {
      assert (Wait(b) - d) * r > 0.0;
      assert Wait(b) * r == (Wait(b) - d) * r + d * r;
    }
  }

  /** A new limiter is sound exactly when its burst is not negative; the constructor does not check one given to it. */
  lemma NewIsSound(perMinute: int, burst: Option<int>, now: real)
    requires perMinute >= 1
    ensures var c := if burst.Some? then burst.value else DefaultBurst(perMinute);
            Sound(Bucket(c as real, now, c, PerSecond(perMinute))) <==> (burst.Some? ==> burst.value >= 0)
  {
  }
}
