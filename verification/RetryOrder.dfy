/**
 Ordering a campaign and ordering it again. The numbers of an order are
 normalised, checked and stored; a retry writes the stored campaign out as an
 order once more. Numbers are Go ints; a deadline passes through a duration of
 64-bit nanoseconds.
 */
module RetryOrder {
  import opened Optional

  const MAX_WAVE_SIZE := 500
  const MAX_CONCURRENCY := 200
  const DEFAULT_DEADLINE := 1440
  const DEFAULT_REBOOT := 900
  const MINUTE := 60_000_000_000
  const TWO_63 := 0x8000_0000_0000_0000
  const TWO_64 := 0x1_0000_0000_0000_0000
  /** The longest whole number of minutes a duration holds. */
  const MAX_MINUTES := 153_722_867

  /** What the registry knows of an operation: its pace and its timeout. */
  datatype Action = Action(wave: int, concurrent: int, timeout: int) {
    ghost predicate Paced() {
      (wave, concurrent) in {(50, 5), (10, 2), (10, 5)}
    }
  }

  datatype Order = Order(
    canarySize: Option<int>,
    waveSize: Option<int>,
    maxConcurrent: Option<int>,
    failurePercent: Option<int>,
    failureAbsolute: Option<int>,
    windowStart: Option<int>,
    windowEnd: Option<int>,
    jobTimeout: Option<int>,
    rebootTimeout: Option<int>,
    deadlineMinutes: Option<int>,
    manualGate: Option<bool>,
    connectivityLost: Option<int>
  )

  datatype Spec = Spec(
    canarySize: int,
    waveSize: int,
    maxConcurrent: int,
    failurePercent: int,
    failureAbsolute: int,
    windowStart: Option<int>,
    windowEnd: Option<int>,
    jobTimeout: int,
    rebootTimeout: int,
    deadlineMinutes: int,
    manualGate: bool,
    connectivityLost: int
  )

  /** A stored campaign; the deadline is the time from its creation in nanoseconds. */
  datatype Stored = Stored(
    canarySize: int,
    waveSize: int,
    maxConcurrent: int,
    failurePercent: int,
    failureAbsolute: int,
    windowStart: Option<int>,
    windowEnd: Option<int>,
    jobTimeout: int,
    rebootTimeout: int,
    deadline: Option<int>,
    manualGate: bool,
    connectivityLost: int
  )

  // ----- the three readings of a number -----

  function ValueOrDefault(value: Option<int>, fallback: int): int {
    if value.None? || value.value < 0 then fallback else value.value
  }

  function ValueOr(value: Option<int>, fallback: int): int {
    if value.None? || value.value <= 0 then fallback else value.value
  }

  function ValueAsGiven(value: Option<int>): int {
    if value.None? then 0 else value.value
  }

  function Min(a: int, b: int): int {
    if a < b then a else b
  }

  // ----- placing an order -----

  function Normalized(o: Order, a: Action): Spec {
    Spec(
      ValueOrDefault(o.canarySize, 1),
      Min(ValueOr(o.waveSize, a.wave), MAX_WAVE_SIZE),
      Min(ValueOr(o.maxConcurrent, a.concurrent), MAX_CONCURRENCY),
      ValueOrDefault(o.failurePercent, 20),
      ValueOr(o.failureAbsolute, 0),
      o.windowStart,
      o.windowEnd,
      ValueOr(o.jobTimeout, a.timeout),
      ValueAsGiven(o.rebootTimeout),
      ValueOr(o.deadlineMinutes, DEFAULT_DEADLINE),
      o.manualGate == Some(true),
      ValueOr(o.connectivityLost, 0))
  }

  predicate Valid(s: Spec) {
    && s.waveSize > 0
    && s.maxConcurrent > 0
    && s.canarySize >= 0
    && 0 <= s.failurePercent <= 100
    && (s.windowStart.Some? && s.windowEnd.Some? ==> s.windowEnd.value > s.windowStart.value)
    && (s.rebootTimeout != 0 ==> 60 <= s.rebootTimeout <= 7200)
    && s.deadlineMinutes >= 0
    && s.connectivityLost >= 0
    && (s.manualGate ==> s.canarySize > 0)
  }

  /** A product of 64-bit integers: it wraps around. */
  function Wrapped(x: int): int {
    (x + TWO_63) % TWO_64 - TWO_63
  }

  /** Division towards zero. */
  function Quotient(x: int, y: int): int
    requires y > 0
  {
    if x >= 0 then x / y else -((-x) / y)
  }

  function DeadlineOf(minutes: int): int {
    if minutes <= 0 then DEFAULT_DEADLINE * MINUTE else Wrapped(minutes * MINUTE)
  }

  function Created(s: Spec): Option<Stored> {
    if !Valid(s) then None
    else
      Some(Stored(
        s.canarySize, s.waveSize, s.maxConcurrent, s.failurePercent, s.failureAbsolute,
        s.windowStart, s.windowEnd, s.jobTimeout,
        if s.rebootTimeout <= 0 then DEFAULT_REBOOT else s.rebootTimeout,
        Some(Quotient(DeadlineOf(s.deadlineMinutes), MINUTE) * MINUTE),
        s.manualGate, s.connectivityLost))
  }

  function Placed(o: Order, a: Action): Option<Stored> {
    Created(Normalized(o, a))
  }

  // ----- writing a stored campaign out again -----

  /** The difference of two times is a duration; one that does not fit is the longest or the shortest. */
  function Saturated(x: int): int {
    if x >= TWO_63 then TWO_63 - 1 else if x < -TWO_63 then -TWO_63 else x
  }

  function MinutesAgain(deadline: Option<int>): Option<int> {
    if deadline.None? then None
    else
      var minutes := Quotient(Saturated(deadline.value), MINUTE);
      if minutes > 0 then Some(minutes) else None
  }

  function Again(c: Stored, now: int): Order {
    var open := c.windowEnd.None? || c.windowEnd.value > now;
    Order(
      Some(c.canarySize), Some(c.waveSize), Some(c.maxConcurrent), Some(c.failurePercent), Some(c.failureAbsolute),
      if open then c.windowStart else None,
      if open then c.windowEnd else None,
      Some(c.jobTimeout), Some(c.rebootTimeout),
      MinutesAgain(c.deadline),
      Some(c.manualGate), Some(c.connectivityLost))
  }

  /** One retry: None when the order is refused. */
  function Retried(c: Stored, a: Action, now: int): Option<Stored> {
    Placed(Again(c, now), a)
  }

  function Chain(c: Stored, a: Action, nows: seq<int>): Option<Stored>
    decreases |nows|
  {
    if nows == [] then Some(c)
    else
      var next := Retried(c, a, nows[0]);
      if next.None? then None else Chain(next.value, a, nows[1..])
  }

  // ----- the rollout policy is carried -----

  /** The same rollout policy; the window is a matter of its own. */
  predicate SamePolicy(c: Stored, d: Stored) {
    c == d.(windowStart := c.windowStart, windowEnd := c.windowEnd)
  }

  /** Whether a stored deadline is a whole, positive number of minutes that a duration holds. */
  predicate WholeMinutes(deadline: Option<int>) {
    deadline.Some? && deadline.value % MINUTE == 0 && 1 <= deadline.value / MINUTE <= MAX_MINUTES
  }

  /** What a stored campaign must look like to be ordered again as it is. */
  predicate Carriable(c: Stored, a: Action) {
    && c.canarySize >= 0
    && 0 < c.waveSize <= MAX_WAVE_SIZE
    && 0 < c.maxConcurrent <= MAX_CONCURRENCY
    && 0 <= c.failurePercent <= 100
    && c.failureAbsolute >= 0
    && (c.jobTimeout > 0 || c.jobTimeout == a.timeout)
    && 60 <= c.rebootTimeout <= 7200
    && WholeMinutes(c.deadline)
    && (c.manualGate ==> c.canarySize > 0)
    && c.connectivityLost >= 0
  }

  /** A window that is still open, and so carried, ends after it starts. */
  predicate WindowHolds(c: Stored, now: int) {
    c.windowStart.Some? && c.windowEnd.Some? && c.windowEnd.value > now ==> c.windowEnd.value > c.windowStart.value
  }

  /** Minutes survive the duration exactly when they fit in it. */
  lemma MinutesFit(minutes: int)
    requires minutes > 0
    ensures minutes <= MAX_MINUTES ==> DeadlineOf(minutes) == minutes * MINUTE
    ensures Quotient(DeadlineOf(minutes), MINUTE) <= MAX_MINUTES
  {
    var product := minutes * MINUTE;
    if minutes <= MAX_MINUTES {
      assert product <= MAX_MINUTES * MINUTE < TWO_63;
      Unwrapped(product);
    }
    var x := Wrapped(product);
    assert x < TWO_63;
    if x >= 0 {
      assert x / MINUTE <= (TWO_63 - 1) / MINUTE == MAX_MINUTES;
    } else {
      assert (-x) / MINUTE >= 0;
    }
  }

  lemma Unwrapped(x: int)
    requires 0 <= x < TWO_63
    ensures Wrapped(x) == x
  {
    assert 0 <= x + TWO_63 < TWO_64;
  }

  lemma DivisionBack(m: int)
    ensures m * MINUTE / MINUTE == m && m * MINUTE % MINUTE == 0
  {
  }

  /** A stored deadline comes through a retry unchanged exactly when it is a whole number of minutes in range. */
  lemma DeadlineCarriedIff(deadline: Option<int>)
    ensures var minutes := ValueOr(MinutesAgain(deadline), DEFAULT_DEADLINE);
            && 1 <= minutes <= MAX_MINUTES
            && (WholeMinutes(deadline) <==> deadline == Some(Quotient(DeadlineOf(minutes), MINUTE) * MINUTE))
  {
    var minutes := ValueOr(MinutesAgain(deadline), DEFAULT_DEADLINE);
    if deadline.Some? {
      var d := Saturated(deadline.value);
      assert d < TWO_63;
      if d >= 0 {
        assert d / MINUTE <= (TWO_63 - 1) / MINUTE == MAX_MINUTES;
      } else {
        assert (-d) / MINUTE >= 0;
      }
    }
    assert 1 <= minutes <= MAX_MINUTES;
    MinutesFit(minutes);
    DivisionBack(minutes);
    assert Quotient(DeadlineOf(minutes), MINUTE) == minutes;
    if WholeMinutes(deadline) {
      var m := deadline.value / MINUTE;
      assert deadline.value == m * MINUTE;
      assert deadline.value <= MAX_MINUTES * MINUTE < TWO_63;
      assert minutes == m;
    }
    if deadline == Some(minutes * MINUTE) {
      assert deadline.value % MINUTE == 0 && deadline.value / MINUTE == minutes;
    }
  }

  /**
   One retry of any stored campaign: it carries the whole policy exactly when the
   campaign is one that can be ordered as it is.
   */
  lemma RetryIff(c: Stored, a: Action, now: int)
    requires a.Paced()
    ensures (Retried(c, a, now).Some? && SamePolicy(c, Retried(c, a, now).value))
            <==> Carriable(c, a) && WindowHolds(c, now)
  {
    hide DeadlineOf, Quotient, MinutesAgain, WholeMinutes;
    DeadlineCarriedIff(c.deadline);
  }

  /** Number by number: which ones an accepted retry carries unchanged. */
  lemma FieldsCarriedIff(c: Stored, a: Action, now: int)
    requires a.Paced() && Retried(c, a, now).Some?
    ensures var d := Retried(c, a, now).value;
            && (d.canarySize == c.canarySize <==> c.canarySize >= 0)
            && (d.waveSize == c.waveSize <==> 0 < c.waveSize <= MAX_WAVE_SIZE)
            && (d.maxConcurrent == c.maxConcurrent <==> 0 < c.maxConcurrent <= MAX_CONCURRENCY)
            && (d.failurePercent == c.failurePercent <==> c.failurePercent >= 0)
            && (d.failureAbsolute == c.failureAbsolute <==> c.failureAbsolute >= 0)
            && (d.jobTimeout == c.jobTimeout <==> c.jobTimeout > 0 || c.jobTimeout == a.timeout)
            && (d.rebootTimeout == c.rebootTimeout <==> c.rebootTimeout != 0)
            && (d.deadline == c.deadline <==> WholeMinutes(c.deadline))
            && d.manualGate == c.manualGate
            && (d.connectivityLost == c.connectivityLost <==> c.connectivityLost >= 0)
            && (if c.windowEnd.None? || c.windowEnd.value > now
                then d.windowStart == c.windowStart && d.windowEnd == c.windowEnd
                else d.windowStart.None? && d.windowEnd.None?)
  {
    hide DeadlineOf, Quotient, MinutesAgain, WholeMinutes;
    DeadlineCarriedIff(c.deadline);
  }

  /** What any order ends in can be ordered again as it is, unless its deadline did not survive. */
  lemma PlacedIsCarriable(o: Order, a: Action)
    requires a.Paced() && Placed(o, a).Some?
    ensures var c := Placed(o, a).value;
            && (Carriable(c, a) <==> c.deadline.value >= MINUTE)
            && (ValueOr(o.deadlineMinutes, DEFAULT_DEADLINE) <= MAX_MINUTES ==> Carriable(c, a))
            && (c.windowStart.Some? && c.windowEnd.Some? ==> c.windowEnd.value > c.windowStart.value)
  {
    var minutes := ValueOr(o.deadlineMinutes, DEFAULT_DEADLINE);
    MinutesFit(minutes);
    var stored := Quotient(DeadlineOf(minutes), MINUTE);
    DivisionBack(stored);
    DivisionBack(minutes);
    hide DeadlineOf, Quotient;
  }

  /** A retry that is accepted is always one that can be retried as it is. */
  lemma RetryIsCarriable(c: Stored, a: Action, now: int)
    requires a.Paced() && Retried(c, a, now).Some?
    ensures var d := Retried(c, a, now).value;
            && Carriable(d, a)
            && (d.windowStart.Some? && d.windowEnd.Some? ==> d.windowEnd.value > d.windowStart.value)
  {
    DeadlineCarriedIff(c.deadline);
    PlacedIsCarriable(Again(c, now), a);
  }

  /** However long the chain of retries, the policy is the one of the campaign it began with. */
  lemma {:induction false} ChainCarries(c: Stored, a: Action, nows: seq<int>)
    requires a.Paced() && Carriable(c, a)
    requires c.windowStart.Some? && c.windowEnd.Some? ==> c.windowEnd.value > c.windowStart.value
    ensures Chain(c, a, nows).Some? && SamePolicy(c, Chain(c, a, nows).value)
    decreases |nows|
  {
    hide Retried, Carriable;
    if nows != [] {
      RetryIff(c, a, nows[0]);
      RetryIsCarriable(c, a, nows[0]);
      ChainCarries(Retried(c, a, nows[0]).value, a, nows[1..]);
    }
  }

  /** Orders placed with a deadline a duration holds are carried by every chain of retries. */
  lemma OrderedOnceCarriedForEver(o: Order, a: Action, nows: seq<int>)
    requires a.Paced() && Placed(o, a).Some?
    requires o.deadlineMinutes.Some? ==> o.deadlineMinutes.value <= MAX_MINUTES
    ensures var c := Placed(o, a).value;
            Chain(c, a, nows).Some? && SamePolicy(c, Chain(c, a, nows).value)
  {
    hide Placed, Chain, Carriable;
    PlacedIsCarriable(o, a);
    ChainCarries(Placed(o, a).value, a, nows);
  }

  /** Any stored campaign settles after one retry: every later one carries what the first one made of it. */
  lemma SettlesAtOnce(c: Stored, a: Action, now: int, nows: seq<int>)
    requires a.Paced() && Retried(c, a, now).Some?
    ensures Chain(c, a, [now] + nows).Some?
    ensures SamePolicy(Retried(c, a, now).value, Chain(c, a, [now] + nows).value)
  {
    hide Retried, Carriable;
    RetryIsCarriable(c, a, now);
    ChainCarries(Retried(c, a, now).value, a, nows);
    assert ([now] + nows)[1..] == nows;
  }

  /** The first number of minutes that does not survive: the campaign is stored with a deadline in the past. */
  lemma DeadlineWraps()
    ensures Quotient(DeadlineOf(MAX_MINUTES + 1), MINUTE) < 0
  {
  }

  function Explicit(value: Option<int>, low: int, fallback: int): Option<int> {
    if value.None? || value.value < low then Some(fallback) else value
  }

  /** The order with every number it leaves out, or gives out of range, written out: 1, the pace, 20, 0, the timeout, 900, a day, no gate. */
  function Spelled(o: Order, a: Action): Order {
    Order(
      Explicit(o.canarySize, 0, 1), Explicit(o.waveSize, 1, a.wave), Explicit(o.maxConcurrent, 1, a.concurrent),
      Explicit(o.failurePercent, 0, 20), Explicit(o.failureAbsolute, 1, 0), o.windowStart, o.windowEnd,
      Explicit(o.jobTimeout, 1, a.timeout),
      if o.rebootTimeout.None? || o.rebootTimeout.value == 0 then Some(900) else o.rebootTimeout,
      Explicit(o.deadlineMinutes, 1, 1440), Some(o.manualGate == Some(true)), Explicit(o.connectivityLost, 1, 0))
  }

  /** Leaving a number out and writing its default are one order. */
  lemma DefaultsSpelled(o: Order, a: Action)
    requires a.Paced()
    ensures Placed(o, a) == Placed(Spelled(o, a), a)
  {
    hide DeadlineOf, Quotient;
  }

  /** The quotient is rounded towards zero, whatever the sign. */
  lemma QuotientIs(x: int, y: int)
    requires y > 0
    ensures var q := Quotient(x, y);
            && (x >= 0 ==> q * y <= x < q * y + y)
            && (x <= 0 ==> q * y - y < x <= q * y)
  {
  }
}
