/** Rule schedules: whether a target should be enabled, and when that next changes (rule_schedule.py). Instants are
    whole microseconds of UTC; a zone is its offset at every instant and the instants of every wall-clock time. */
module Schedule {
  import opened Wrappers
  import opened Durations

  const NEXT_DAYS := 8

  /** Days are numbered from Monday 0; start and end are minutes of the day. */
  datatype Weekly = Weekly(days: set<nat>, start: nat, end: nat, enableInWindow: bool)

  datatype Plan = InWindows(w: Weekly) | Expiry(at: int)

  datatype State = Enabled | Disabled | Expired

  predicate ValidWeekly(w: Weekly) {
    w.days != {} && (forall d :: d in w.days ==> d < 7) && w.start < 1440 && w.end < 1440 && w.start != w.end
  }

  /** off: minutes ahead of UTC; wall: the instant of a wall-clock time, read before or after a repeated hour. */
  datatype Zone = Zone(off: int -> int, wall: (int, bool) -> int)

  function Local(z: Zone, t: int): int { t + z.off(t) * MINUTE }

  function DayOf(local: int): int { local / DAY }

  function MinuteOf(local: int): int { local % DAY / MINUTE }

  function FloorMinute(t: int): int { t - t % MINUTE }

  /** 1970-01-01 was a Thursday. */
  function Weekday(day: int): int { (day + 3) % 7 }

  predicate InWindowAt(w: Weekly, day: int, minute: int) {
    if w.start < w.end then Weekday(day) in w.days && w.start <= minute < w.end
    else (Weekday(day) in w.days && minute >= w.start) || (Weekday(day - 1) in w.days && minute < w.end)
  }

  predicate InWindow(w: Weekly, z: Zone, now: int) {
    InWindowAt(w, DayOf(Local(z, now)), MinuteOf(Local(z, now)))
  }

  function Desired(p: Plan, z: Zone, now: int): State {
    match p
    case Expiry(at) => if now >= at then Expired else Enabled
    case InWindows(w) => if InWindow(w, z, now) == w.enableInWindow then Enabled else Disabled
  }

  // ---- A window is a union of day intervals ----------------------------------------------------------------------

  /** The interval that starts on this day, past midnight when it ends earlier than it starts. */
  predicate DayInterval(w: Weekly, day: int, local: int) {
    day * DAY + w.start * MINUTE <= local < day * DAY + w.end * MINUTE + (if w.start < w.end then 0 else DAY)
  }

  lemma Parts(local: int)
    ensures local == DayOf(local) * DAY + local % DAY && 0 <= local % DAY < DAY
    ensures 0 <= MinuteOf(local) < 1440 && MinuteOf(local) * MINUTE <= local % DAY < MinuteOf(local) * MINUTE + MINUTE
  {
  }

  lemma OtherDay(w: Weekly, local: int, day: int)
    requires ValidWeekly(w) && DayInterval(w, day, local)
    ensures day == DayOf(local) || (w.start > w.end && day == DayOf(local) - 1)
  {
    Parts(local);
  }

  /** The rule by weekday and time of day holds exactly in the intervals of the listed days, across midnight too. */
  lemma WindowIsUnion(w: Weekly, z: Zone, now: int)
    requires ValidWeekly(w)
    ensures InWindow(w, z, now) <==> exists day :: Weekday(day) in w.days && DayInterval(w, day, Local(z, now))
  {
    var local := Local(z, now);
    var today := DayOf(local);
    Parts(local);
    assert DayInterval(w, today, local) <==>
             w.start <= MinuteOf(local) && (w.start < w.end ==> MinuteOf(local) < w.end);
    assert w.start > w.end ==> (DayInterval(w, today - 1, local) <==> MinuteOf(local) < w.end);
    if day :| Weekday(day) in w.days && DayInterval(w, day, local) {
      OtherDay(w, local, day);
    }
    if InWindow(w, z, now) {
      assert (Weekday(today) in w.days && DayInterval(w, today, local))
          || (Weekday(today - 1) in w.days && DayInterval(w, today - 1, local));
    }
  }

  // ---- Zones -----------------------------------------------------------------------------------------------------

  /** Offsets change on whole minutes, at most once in any hour, by at most a day. */
  ghost predicate Steady(z: Zone) {
    && (forall t :: z.off(t) == z.off(FloorMinute(t)))
    && (forall a, b, c :: a <= b <= c <= a + HOUR ==> z.off(a) == z.off(b) || z.off(b) == z.off(c))
    && (forall s, t :: z.off(s) - z.off(t) <= 1440)
  }

  /** Every instant is one of the two readings of its wall-clock time; whole minutes read as whole minutes. */
  ghost predicate Reads(z: Zone) {
    && (forall t :: z.wall(Local(z, t), false) == t || z.wall(Local(z, t), true) == t)
    && (forall local, fold :: local % MINUTE == 0 ==> z.wall(local, fold) % MINUTE == 0)
  }

  function FixedZone(minutes: int): Zone {
    Zone(_ => minutes, (local, fold) => local - minutes * MINUTE)
  }

  lemma FixedIsSteady(minutes: int)
    ensures Steady(FixedZone(minutes)) && Reads(FixedZone(minutes))
  {
  }

  /** The offset is another than just before. */
  predicate Jumps(z: Zone, t: int) { z.off(t) != z.off(t - 1) }

  lemma JumpOnMinute(z: Zone, t: int)
    requires Steady(z) && Jumps(z, t)
    ensures t % MINUTE == 0
  {
    assert t % MINUTE != 0 ==> FloorMinute(t) == FloorMinute(t - 1);
  }

  /** Nothing jumps between two instants of one offset, within an hour. */
  lemma NoJumpWithin(z: Zone, a: int, b: int, t: int)
    requires Steady(z) && a < t <= b <= a + HOUR && z.off(a) == z.off(b)
    ensures !Jumps(z, t)
  {
    assert z.off(a) == z.off(t) || z.off(t) == z.off(b);
    assert z.off(a) == z.off(t - 1) || z.off(t - 1) == z.off(b);
  }

  /** One jump, in the hour after t, between lo and hi. */
  lemma JumpBetween(z: Zone, lo: int, hi: int, t: int)
    requires Steady(z) && hi <= lo + HOUR && z.off(lo) != z.off(hi) && lo < t <= hi && Jumps(z, t)
    ensures forall x :: lo <= x < t ==> z.off(x) == z.off(lo)
    ensures forall x :: t <= x <= hi ==> z.off(x) == z.off(hi)
  {
    assert z.off(lo) == z.off(t) || z.off(t) == z.off(hi);
    assert z.off(lo) == z.off(t - 1) || z.off(t - 1) == z.off(hi);
    forall x | lo <= x < t
      ensures z.off(x) == z.off(lo)
    {
      assert z.off(lo) == z.off(x) || z.off(x) == z.off(t);
      assert z.off(x) == z.off(t - 1) || z.off(t - 1) == z.off(hi);
      assert z.off(lo) == z.off(x) || z.off(x) == z.off(hi);
    }
    forall x | t <= x <= hi
      ensures z.off(x) == z.off(hi)
    {
      assert z.off(t) == z.off(x) || z.off(x) == z.off(hi);
      assert z.off(lo) == z.off(t - 1) || z.off(t - 1) == z.off(x);
      assert z.off(lo) == z.off(x) || z.off(x) == z.off(hi);
    }
  }

  lemma {:induction false} SomeJump(z: Zone, lo: int, hi: int) returns (t: int)
    requires lo < hi && z.off(lo) != z.off(hi)
    ensures lo < t <= hi && Jumps(z, t)
    decreases hi - lo
  {
    if Jumps(z, hi) {
      t := hi;
    } else {
      t := SomeJump(z, lo, hi - 1);
    }
  }

  /** hi.replace(second=0, microsecond=0) once the search has narrowed the jump to a minute. */
  method FindJump(z: Zone, a: int, b: int) returns (t: int)
    requires Steady(z) && a < b == a + HOUR && z.off(a) != z.off(b)
    ensures a < t <= b && Jumps(z, t) && forall x :: a < x <= b && Jumps(z, x) ==> x == t
  {
    ghost var at := SomeJump(z, a, b);
    JumpBetween(z, a, b, at);
    JumpOnMinute(z, at);
    var lo, hi := a, b;
    hide Steady;
    while hi - lo > MINUTE
      invariant a <= lo < at <= hi <= b
      decreases hi - lo
    {
      var mid := lo + HalfOf(hi - lo);
      if z.off(mid) == z.off(lo) { lo := mid; } else { hi := mid; }
    }
    t := FloorMinute(hi);
    assert t == at;
  }

  /** The instants the offset changes, hour by hour. */
  method Transitions(z: Zone, start: int, end: int) returns (out: set<int>)
    requires Steady(z)
    ensures forall t :: start < t <= end && Jumps(z, t) ==> t in out
    ensures forall t :: t in out ==> start < t && Jumps(z, t)
  {
    out := {};
    var t := start;
    while t < end
      invariant start <= t
      invariant forall x :: start < x <= t && Jumps(z, x) ==> x in out
      invariant forall x :: x in out ==> start < x && Jumps(z, x)
      decreases end - t
    {
      var nxt := t + HOUR;
      if z.off(t) != z.off(nxt) {
        var jump := FindJump(z, t, nxt);
        out := out + {jump};
      } else {
        forall x | t < x <= nxt
          ensures !Jumps(z, x)
        {
          NoJumpWithin(z, t, nxt, x);
        }
      }
      t := nxt;
    }
  }

  // ---- When the state changes ------------------------------------------------------------------------------------

  ghost predicate Flips(w: Weekly, z: Zone, t: int) {
    InWindow(w, z, t) != InWindow(w, z, t - SECOND)
  }

  lemma SameMinute(w: Weekly, z: Zone, t: int)
    requires Steady(z)
    ensures InWindow(w, z, t) == InWindow(w, z, FloorMinute(t))
  {
    MinuteParts(t, z.off(t));
  }

  lemma OfMinutes(q: int, r: int)
    requires 0 <= r < MINUTE
    ensures DayOf(q * MINUTE + r) == q / 1440 && MinuteOf(q * MINUTE + r) == q % 1440
  {
    var d, k := q / 1440, q % 1440;
    var local := q * MINUTE + r;
    assert local == d * DAY + (k * MINUTE + r) && 0 <= k * MINUTE + r < DAY;
    assert local / DAY == d && local % DAY == k * MINUTE + r;
  }

  lemma MinuteParts(t: int, off: int)
    ensures var a, b := t + off * MINUTE, FloorMinute(t) + off * MINUTE;
            DayOf(a) == DayOf(b) && MinuteOf(a) == MinuteOf(b)
  {
    var q, r := t / MINUTE, t % MINUTE;
    assert t == q * MINUTE + r;
    OfMinutes(q + off, r);
    OfMinutes(q + off, 0);
    assert (q + off) * MINUTE == q * MINUTE + off * MINUTE;
    hide DayOf, MinuteOf;
  }

  /** The minute before, on the wall. */
  lemma WallBefore(local: int)
    requires local % MINUTE == 0
    ensures local == DayOf(local) * DAY + MinuteOf(local) * MINUTE
    ensures MinuteOf(local) > 0 ==>
              DayOf(local - SECOND) == DayOf(local) && MinuteOf(local - SECOND) == MinuteOf(local) - 1
    ensures MinuteOf(local) == 0 ==> DayOf(local - SECOND) == DayOf(local) - 1 && MinuteOf(local - SECOND) == 1439
  {
    Parts(local);
    var q := local / MINUTE;
    assert local == q * MINUTE && local - SECOND == (q - 1) * MINUTE + (MINUTE - SECOND);
    OfMinutes(q, 0);
    OfMinutes(q - 1, MINUTE - SECOND);
    hide DayOf, MinuteOf;
    OneLess(q);
    assert q == q / 1440 * 1440 + q % 1440;
  }

  lemma OneLess(q: int)
    ensures if q % 1440 > 0 then (q - 1) / 1440 == q / 1440 && (q - 1) % 1440 == q % 1440 - 1
            else (q - 1) / 1440 == q / 1440 - 1 && (q - 1) % 1440 == 1439
  {
  }

  /** Away from the start and the end, the rule does not change from one minute to the next. */
  lemma BetweenBounds(w: Weekly, day: int, minute: int)
    requires ValidWeekly(w) && 0 <= minute < 1440 && minute != w.start && minute != w.end
    ensures InWindowAt(w, day, minute) ==
            if minute > 0 then InWindowAt(w, day, minute - 1) else InWindowAt(w, day - 1, 1439)
  {
  }

  /** Each listed day's start is a change. */
  lemma StartFlips(w: Weekly, day: int)
    requires ValidWeekly(w) && Weekday(day) in w.days
    ensures InWindowAt(w, day, w.start)
    ensures !(if w.start > 0 then InWindowAt(w, day, w.start - 1) else InWindowAt(w, day - 1, 1439))
  {
  }

  lemma Floors(s: int, t: int)
    ensures FloorMinute(t) % MINUTE == 0 && FloorMinute(t) <= t < FloorMinute(t) + MINUTE
    ensures FloorMinute(t) <= s <= t ==> FloorMinute(s) == FloorMinute(t)
  {
  }

  /** Without a change on any minute up to t, nothing changes up to t. */
  lemma {:induction false} ConstantUntil(w: Weekly, z: Zone, now: int, t: int)
    requires Steady(z) && now <= t
    requires forall x :: now < x <= t && x % MINUTE == 0 ==> !Flips(w, z, x)
    ensures InWindow(w, z, t) == InWindow(w, z, now)
    decreases t - now
  {
    var m := FloorMinute(t);
    SameMinute(w, z, t);
    SameMinute(w, z, now);
    Floors(now, t);
    hide Steady, InWindow, FloorMinute;
    if m > now {
      assert !Flips(w, z, m);
      if m - SECOND >= now {
        ConstantUntil(w, z, now, m - SECOND);
      } else {
        JustBefore(w, z, now, m);
      }
    }
  }

  /** Less than a second before a minute is the minute before. */
  lemma JustBefore(w: Weekly, z: Zone, now: int, m: int)
    requires Steady(z) && m % MINUTE == 0 && m - SECOND < now < m
    ensures InWindow(w, z, m - SECOND) == InWindow(w, z, now)
  {
    SameMinute(w, z, m - SECOND);
    SameMinute(w, z, now);
    hide Steady, InWindow;
    FloorBefore(m, m - SECOND);
    FloorBefore(m, now);
  }

  lemma FloorBefore(m: int, x: int)
    requires m % MINUTE == 0 && m - MINUTE <= x < m
    ensures FloorMinute(x) == m - MINUTE
  {
  }

  /** A change is a jump of the zone, or falls on the wall-clock start or end. */
  lemma FlipIsCandidate(w: Weekly, z: Zone, t: int)
    requires ValidWeekly(w) && Steady(z) && t % MINUTE == 0 && Flips(w, z, t)
    ensures Jumps(z, t)
            || exists k :: (k == w.start || k == w.end) && Local(z, t) == DayOf(Local(z, t)) * DAY + k * MINUTE
  {
    if !Jumps(z, t) {
      LocalBefore(z, t);
      var local := Local(z, t);
      WallBefore(local);
      Parts(local);
      hide Steady, Jumps, Local, DayOf, MinuteOf;
      var minute := MinuteOf(local);
      if minute != w.start && minute != w.end {
        BetweenBounds(w, DayOf(local), minute);
        assert false;
      }
    }
  }

  lemma LocalBefore(z: Zone, t: int)
    requires Steady(z) && t % MINUTE == 0 && !Jumps(z, t)
    ensures Local(z, t) % MINUTE == 0 && Local(z, t - SECOND) == Local(z, t) - SECOND
  {
    hide Steady, FloorMinute;
    MinuteBefore(t);
    OffOfMinute(z, t - 1);
    OffOfMinute(z, t - SECOND);
  }

  lemma MinuteBefore(t: int)
    requires t % MINUTE == 0
    ensures FloorMinute(t - 1) == t - MINUTE == FloorMinute(t - SECOND)
  {
  }

  lemma OffOfMinute(z: Zone, t: int)
    requires Steady(z)
    ensures z.off(t) == z.off(FloorMinute(t))
  {
  }

  // ---- next_change -----------------------------------------------------------------------------------------------

  function FirstDay(z: Zone, now: int): int { DayOf(Local(z, now)) - 1 }

  /** That wall-clock time on that day as instants: both readings. */
  function WallsOf(z: Zone, day: int, minute: nat): set<int> {
    {z.wall(day * DAY + minute * MINUTE, false), z.wall(day * DAY + minute * MINUTE, true)}
  }

  ghost predicate HasWalls(w: Weekly, z: Zone, day: int, out: set<int>) {
    WallsOf(z, day, w.start) <= out && WallsOf(z, day, w.end) <= out
  }

  lemma Multiple(q: int)
    ensures q * MINUTE % MINUTE == 0
  {
  }

  lemma OnMinutes(z: Zone, day: int, minute: nat)
    requires Reads(z)
    ensures forall t :: t in WallsOf(z, day, minute) ==> t % MINUTE == 0
  {
    Multiple(day * 1440 + minute);
    assert (day * 1440 + minute) * MINUTE == day * DAY + minute * MINUTE;
  }

  method Walls(w: Weekly, z: Zone, now: int) returns (out: set<int>)
    requires Reads(z)
    ensures forall day :: 0 <= day - FirstDay(z, now) < NEXT_DAYS + 2 ==> HasWalls(w, z, day, out)
    ensures forall t :: t in out ==> t % MINUTE == 0
  {
    hide Reads, WallsOf;
    out := {};
    var first := FirstDay(z, now);
    for i := 0 to NEXT_DAYS + 2
      invariant forall day :: 0 <= day - first < i ==> HasWalls(w, z, day, out)
      invariant forall t :: t in out ==> t % MINUTE == 0
    {
      OnMinutes(z, first + i, w.start);
      OnMinutes(z, first + i, w.end);
      ghost var was := out;
      out := out + WallsOf(z, first + i, w.start) + WallsOf(z, first + i, w.end);
      forall day | 0 <= day - first < i + 1
        ensures HasWalls(w, z, day, out)
      {
        assert day == first + i || HasWalls(w, z, day, was);
      }
    }
  }

  function Horizon(now: int): int { now + (NEXT_DAYS + 1) * DAY }

  /** The days whose walls are candidates. */
  ghost predicate Searched(z: Zone, now: int, t: int) {
    now < t <= Horizon(now) && FirstDay(z, now) <= DayOf(Local(z, t)) < FirstDay(z, now) + NEXT_DAYS + 2
  }

  /** The answer: a change, and the first of those searched. */
  ghost predicate First(w: Weekly, z: Zone, now: int, c: Option<int>) {
    && (c.Some? ==> now < c.value <= Horizon(now) && c.value % MINUTE == 0 && Flips(w, z, c.value))
    && (forall t :: Searched(z, now, t) && t % MINUTE == 0 && Flips(w, z, t) ==> c.Some? && c.value <= t)
  }

  method NextWeekly(w: Weekly, z: Zone, now: int) returns (c: Option<int>)
    requires ValidWeekly(w) && Steady(z) && Reads(z)
    ensures First(w, z, now, c)
  {
    var jumps := Transitions(z, now, Horizon(now));
    var walls := Walls(w, z, now);
    forall t | Searched(z, now, t) && t % MINUTE == 0 && Flips(w, z, t)
      ensures t in jumps + walls
    {
      AllCandidates(w, z, now, t, jumps, walls);
    }
    OnMinute(z, jumps);
    hide Steady, Reads, Flips, HasWalls;
    SearchedAhead(z, now);
    hide Searched;
    c := LeastFlip(w, z, now, jumps + walls);
  }

  lemma OnMinute(z: Zone, jumps: set<int>)
    requires Steady(z) && forall t :: t in jumps ==> Jumps(z, t)
    ensures forall t :: t in jumps ==> t % MINUTE == 0
  {
    forall t | t in jumps
      ensures t % MINUTE == 0
    {
      JumpOnMinute(z, t);
    }
  }

  /** The first of the candidates that change something: sorted(...)[0]. */
  method LeastFlip(w: Weekly, z: Zone, now: int, candidates: set<int>) returns (c: Option<int>)
    ensures c.Some? ==> c.value in candidates && now < c.value <= Horizon(now) && Flips(w, z, c.value)
    ensures forall t :: t in candidates && now < t <= Horizon(now) && Flips(w, z, t) ==> c.Some? && c.value <= t
  {
    hide InWindow, Horizon;
    c := None;
    var rest := candidates;
    while rest != {}
      invariant rest <= candidates
      invariant c.Some? ==> c.value in candidates && now < c.value <= Horizon(now) && Flips(w, z, c.value)
      invariant forall t :: t in candidates && t !in rest && now < t <= Horizon(now) && Flips(w, z, t) ==>
                  c.Some? && c.value <= t
      decreases rest
    {
      ghost var one := OneOf(rest);
      var t :| t in rest;
      rest := rest - {t};
      if now < t <= Horizon(now) && InWindow(w, z, t) != InWindow(w, z, t - SECOND) && (c.None? || t < c.value) {
        c := Some(t);
      }
    }
  }

  lemma OneOf<T>(s: set<T>) returns (x: T)
    requires s != {}
    ensures x in s
  {
    x :| x in s;
  }

  lemma SearchedAhead(z: Zone, now: int)
    ensures forall t :: Searched(z, now, t) ==> now < t <= Horizon(now)
  {
  }

  lemma AllCandidates(w: Weekly, z: Zone, now: int, t: int, jumps: set<int>, walls: set<int>)
    requires ValidWeekly(w) && Steady(z) && Reads(z)
    requires Searched(z, now, t) && t % MINUTE == 0 && Flips(w, z, t)
    requires forall x :: now < x <= Horizon(now) && Jumps(z, x) ==> x in jumps
    requires forall day :: 0 <= day - FirstDay(z, now) < NEXT_DAYS + 2 ==> HasWalls(w, z, day, walls)
    ensures t in jumps + walls
  {
    FlipIsCandidate(w, z, t);
    hide Steady, Flips, InWindow;
    if !Jumps(z, t) {
      var k :| (k == w.start || k == w.end) && Local(z, t) == DayOf(Local(z, t)) * DAY + k * MINUTE;
      var day := DayOf(Local(z, t));
      assert HasWalls(w, z, day, walls);
      assert t in WallsOf(z, day, k);
    }
  }

  method NextChange(p: Plan, z: Zone, now: int) returns (c: Option<int>)
    requires p.InWindows? ==> ValidWeekly(p.w)
    requires Steady(z) && Reads(z)
    ensures p.InWindows? ==> First(p.w, z, now, c)
    ensures p.Expiry? ==> (c.Some? <==> Desired(p, z, now) == Enabled)
    ensures p.Expiry? && c.Some? ==> forall t :: Desired(p, z, t) == Expired <==> t >= c.value
  {
    match p
    case Expiry(at) =>
      c := if at > now then Some(at) else None;
    case InWindows(w) =>
      c := NextWeekly(w, z, now);
  }

  /** The local day of an instant at most seven days ahead is searched, whatever the zone does. */
  lemma WeekIsSearched(z: Zone, now: int, t: int)
    requires Steady(z) && now < t <= now + 7 * DAY
    ensures Searched(z, now, t)
  {
    assert z.off(t) - z.off(now) <= 1440 && z.off(now) - z.off(t) <= 1440;
    var a, b := Local(z, now), Local(z, t);
    assert a - DAY < b <= a + 8 * DAY;
    Parts(a);
    Parts(b);
    DayBounds(a, b);
  }

  lemma DayBounds(a: int, b: int)
    requires a - DAY <= b <= a + 8 * DAY
    ensures DayOf(a) - 1 <= DayOf(b) <= DayOf(a) + 8
  {
  }

  lemma SameState(w: Weekly, z: Zone, s: int, t: int)
    ensures Desired(InWindows(w), z, s) == Desired(InWindows(w), z, t) <==> InWindow(w, z, s) == InWindow(w, z, t)
  {
  }

  /** Whatever the zone does: up to seven days ahead the answer is exact. The state stays what it is until the answer,
      and is another then; without an answer in that week it does not change in it. */
  lemma ExactForAWeek(w: Weekly, z: Zone, now: int, c: Option<int>, t: int)
    requires ValidWeekly(w) && Steady(z) && First(w, z, now, c) && now <= t <= now + 7 * DAY
    ensures c.None? || t < c.value ==> Desired(InWindows(w), z, t) == Desired(InWindows(w), z, now)
    ensures c == Some(t) ==> Desired(InWindows(w), z, t) != Desired(InWindows(w), z, now)
  {
    SameState(w, z, t, now);
    forall x | now < x <= t && x % MINUTE == 0 && Flips(w, z, x)
      ensures c.Some? && c.value <= x
    {
      WeekIsSearched(z, now, x);
    }
    hide Flips, InWindow, Steady, Desired;
    if c.None? || t < c.value {
      ConstantUntil(w, z, now, t);
    } else if c == Some(t) {
      ChangesAt(w, z, now, t);
    }
  }

  /** The first change is a change from what holds now. */
  lemma ChangesAt(w: Weekly, z: Zone, now: int, t: int)
    requires Steady(z) && now < t && t % MINUTE == 0 && Flips(w, z, t)
    requires forall x :: now < x < t && x % MINUTE == 0 ==> !Flips(w, z, x)
    ensures InWindow(w, z, t) != InWindow(w, z, now)
  {
    hide Steady, InWindow;
    if t - SECOND >= now {
      ConstantUntil(w, z, now, t - SECOND);
    } else {
      JustBefore(w, z, now, t);
    }
  }

  // ---- A zone of one offset --------------------------------------------------------------------------------------

  /** The next listed day, one to seven days from this one. */
  lemma NextListed(w: Weekly, today: int) returns (day: int)
    requires ValidWeekly(w)
    ensures today < day <= today + 7 && Weekday(day) in w.days
  {
    var d :| d in w.days;
    var k := (d - Weekday(today)) % 7;
    day := today + if k == 0 then 7 else k;
  }

  /** It starts within eight days, and that is a change. */
  lemma ChangeAhead(w: Weekly, minutes: int, now: int) returns (t: int)
    requires ValidWeekly(w)
    ensures now < t <= now + 8 * DAY && t % MINUTE == 0 && Flips(w, FixedZone(minutes), t)
  {
    hide DayOf, MinuteOf, Weekday, InWindowAt;
    var z := FixedZone(minutes);
    var local := Local(z, now);
    Parts(local);
    var day := NextListed(w, DayOf(local));
    var start := day * DAY + w.start * MINUTE;
    t := start - minutes * MINUTE;
    assert t == (day * 1440 + w.start - minutes) * MINUTE;
    Multiple(day * 1440 + w.start - minutes);
    StartWall(day, w.start);
    StartIsFlip(w, z, day, t);
  }

  lemma StartIsFlip(w: Weekly, z: Zone, day: int, t: int)
    requires ValidWeekly(w) && Weekday(day) in w.days
    requires Local(z, t) == day * DAY + w.start * MINUTE && Local(z, t - SECOND) == Local(z, t) - SECOND
    ensures Flips(w, z, t)
  {
    hide DayOf, MinuteOf, Weekday, InWindowAt, Local;
    StartWall(day, w.start);
    WallBefore(day * DAY + w.start * MINUTE);
    StartFlips(w, day);
  }

  lemma StartWall(day: int, minute: nat)
    requires minute < 1440
    ensures var local := day * DAY + minute * MINUTE;
            local % MINUTE == 0 && DayOf(local) == day && MinuteOf(local) == minute
  {
    Parts(day * DAY + minute * MINUTE);
  }

  lemma FixedIsSearched(minutes: int, now: int, t: int)
    requires now < t <= now + 8 * DAY
    ensures Searched(FixedZone(minutes), now, t)
  {
    var z := FixedZone(minutes);
    DayBounds(Local(z, now), Local(z, t));
  }

  /** In a zone of one offset a weekly plan always has a next change. It is the earliest later instant the state
      changes: until then the state is what it is now, and then it is the other. */
  lemma AlwaysANextChange(w: Weekly, minutes: int, now: int, c: Option<int>)
    requires ValidWeekly(w) && First(w, FixedZone(minutes), now, c)
    ensures c.Some? && now < c.value <= now + 8 * DAY
    ensures forall t :: now <= t < c.value ==>
              Desired(InWindows(w), FixedZone(minutes), t) == Desired(InWindows(w), FixedZone(minutes), now)
    ensures Desired(InWindows(w), FixedZone(minutes), c.value) != Desired(InWindows(w), FixedZone(minutes), now)
  {
    var z := FixedZone(minutes);
    FixedIsSteady(minutes);
    var ahead := ChangeAhead(w, minutes, now);
    FixedIsSearched(minutes, now, ahead);
    var at := c.value;
    forall x | now < x < at && x % MINUTE == 0
      ensures !Flips(w, z, x)
    {
      FixedIsSearched(minutes, now, x);
    }
    hide Flips, InWindow, Steady, Desired, Searched;
    forall t | now <= t < at
      ensures Desired(InWindows(w), z, t) == Desired(InWindows(w), z, now)
    {
      ConstantUntil(w, z, now, t);
      SameState(w, z, t, now);
    }
    ChangesAt(w, z, now, at);
    SameState(w, z, at, now);
  }
}
