/**
 The write-ahead trail of a change that cannot be undone: its beginning is
 committed before anything happens, its outcome after. Any number of requests on
 any number of replicas run concurrently, crash between any two statements and
 lose the answers of the database; reconcilers close what was left open, and the
 retention sweep removes old rows.
 */
module ChangeTrail {
  import opened Optional
  import opened Text

  /** A change is known by its action and the key the caller repeats it with. */
  datatype Change = Change(action: string, key: string)

  type Request = nat
  type Reconciler = nat

  datatype Author = ByRequest(r: Request) | ByReconciler(k: Reconciler)

  datatype Row =
    | Started(change: Change, r: Request)
    | Outcome(change: Change, author: Author)

  datatype Phase =
    | Asked(change: Change)
    | Began(change: Change)
    | Made(change: Change)

  /** What happened, in order. Kept for the statements below; no step reads it. */
  datatype Event =
    | IntentWritten(change: Change, r: Request)
    | BodyRan(change: Change, r: Request)
    | OutcomeWritten(change: Change, author: Author)
    | IntentExpired(change: Change)
    | OutcomeExpired(change: Change)

  datatype State = State(
    trail: set<Row>,
    requests: map<Request, Phase>,
    arrived: set<Request>,
    listed: map<Reconciler, set<Change>>,
    events: seq<Event>
  )

  const INITIAL := State({}, map[], {}, map[], [])

  /** The key of a request: the header's, or else the body's. */
  function KeyOf(header: string, body: string): string {
    if TrimSpace(header) != [] then TrimSpace(header) else TrimSpace(body)
  }

  predicate HasIntent(trail: set<Row>, c: Change) {
    exists row | row in trail :: row.Started? && row.change == c
  }

  predicate HasOutcome(trail: set<Row>, c: Change) {
    exists row | row in trail :: row.Outcome? && row.change == c
  }

  /**
   `acked` says whether the answer of the database reached the panel; a write
   whose answer is lost is durable all the same, and reads as a failure.
   */
  datatype Step =
    | Arrive(r: Request, action: string, header: string, body: string)
    | RecordIntent(r: Request, acked: bool)
    | MakeChange(r: Request)
    | RecordOutcome(r: Request)
    | End(r: Request)
    | ListUnfinished(k: Reconciler)
    | Reconcile(k: Reconciler, change: Change)
    | Expire(row: Row)

  function Next(s: State, step: Step): Option<State> {
    match step
    case Arrive(r, action, header, body) =>
      // A request without a key is refused before it is one.
      if r in s.arrived || KeyOf(header, body) == [] then None
      else Some(s.(arrived := s.arrived + {r},
                   requests := s.requests[r := Asked(Change(action, KeyOf(header, body)))]))
    case RecordIntent(r, acked) =>
      if r !in s.requests || !s.requests[r].Asked? then None
      else
        var c := s.requests[r].change;
        if HasIntent(s.trail, c) then Some(s.(requests := s.requests - {r}))
        else
          Some(s.(trail := s.trail + {Started(c, r)},
                  events := s.events + [IntentWritten(c, r)],
                  requests := if acked then s.requests[r := Began(c)] else s.requests - {r}))
    case MakeChange(r) =>
      if r !in s.requests || !s.requests[r].Began? then None
      else
        var c := s.requests[r].change;
        Some(s.(events := s.events + [BodyRan(c, r)], requests := s.requests[r := Made(c)]))
    case RecordOutcome(r) =>
      if r !in s.requests || !s.requests[r].Made? then None
      else Some(Closed(s.(requests := s.requests - {r}), s.requests[r].change, ByRequest(r)))
    case End(r) =>
      // A crash, a write that failed, a client that went away: at any statement.
      if r !in s.requests then None else Some(s.(requests := s.requests - {r}))
    case ListUnfinished(k) =>
      Some(s.(listed := s.listed[k := set row | row in s.trail && row.Started? && !HasOutcome(s.trail, row.change) :: row.change]))
    case Reconcile(k, c) =>
      if k !in s.listed || c !in s.listed[k] then None
      else Some(Closed(s.(listed := s.listed[k := s.listed[k] - {c}]), c, ByReconciler(k)))
    case Expire(row) =>
      // The sweep deletes rows of one statement's snapshot; intents first, it is row by row.
      if row !in s.trail || (row.Started? && !HasOutcome(s.trail, row.change)) then None
      else
        var gone := if row.Started? then IntentExpired(row.change) else OutcomeExpired(row.change);
        Some(s.(trail := s.trail - {row}, events := s.events + [gone]))
  }

  /** Writing an outcome; the second one is told that somebody was first, and nothing changes. */
  function Closed(s: State, c: Change, author: Author): State {
    if HasOutcome(s.trail, c) then s
    else s.(trail := s.trail + {Outcome(c, author)}, events := s.events + [OutcomeWritten(c, author)])
  }

  function Run(s: State, steps: seq<Step>): Option<State>
    decreases |steps|
  {
    if steps == [] then Some(s)
    else
      var next := Next(s, steps[0]);
      if next.None? then None else Run(next.value, steps[1..])
  }

  // ----- counting what happened -----

  datatype Kind = Intents | Bodies | Outcomes | GoneIntents | GoneOutcomes

  predicate Is(e: Event, kind: Kind, c: Change) {
    && e.change == c
    && match kind
       case Intents => e.IntentWritten?
       case Bodies => e.BodyRan?
       case Outcomes => e.OutcomeWritten?
       case GoneIntents => e.IntentExpired?
       case GoneOutcomes => e.OutcomeExpired?
  }

  function Count(events: seq<Event>, kind: Kind, c: Change): nat {
    if events == [] then 0
    else
      var last := |events| - 1;
      Count(events[..last], kind, c) + if Is(events[last], kind, c) then 1 else 0
  }

  lemma CountSnoc(events: seq<Event>, e: Event, kind: Kind, c: Change)
    ensures Count(events + [e], kind, c) == Count(events, kind, c) + if Is(e, kind, c) then 1 else 0
  {
    assert (events + [e])[..|events|] == events;
  }

  // ----- what every step keeps -----

  /** The trail holds at most one beginning and at most one outcome of a change. */
  ghost predicate Unique(trail: set<Row>) {
    && (forall a, b | a in trail && b in trail :: a.Started? && b.Started? && a.change == b.change ==> a == b)
    && (forall a, b | a in trail && b in trail :: a.Outcome? && b.Outcome? && a.change == b.change ==> a == b)
  }

  /** Rows are conserved: what was written is there, or was removed by the sweep. */
  ghost predicate Balanced(trail: set<Row>, events: seq<Event>, c: Change) {
    && Count(events, Intents, c) == Count(events, GoneIntents, c) + (if HasIntent(trail, c) then 1 else 0)
    && Count(events, Outcomes, c) == Count(events, GoneOutcomes, c) + (if HasOutcome(trail, c) then 1 else 0)
  }

  function Waiting(requests: map<Request, Phase>, c: Change): set<Request> {
    set r | r in requests && requests[r] == Began(c)
  }

  ghost predicate WriteAhead(s: State) {
    && (forall r | r in s.requests :: !s.requests[r].Asked? ==> IntentWritten(s.requests[r].change, r) in s.events)
    && (forall i | 0 <= i < |s.events| :: s.events[i].BodyRan? ==>
         IntentWritten(s.events[i].change, s.events[i].r) in s.events[..i])
  }

  /** A beginning stays on the trail until an outcome was written under its key. */
  ghost predicate Kept(trail: set<Row>, events: seq<Event>) {
    forall e | e in events :: e.IntentWritten? ==>
      Started(e.change, e.r) in trail || Count(events, Outcomes, e.change) > 0
  }

  /** A request writes its beginning once: it has arrived, and is no longer asking. */
  ghost predicate Once(s: State) {
    forall e | e in s.events :: e.IntentWritten? ==>
      e.r in s.arrived && (e.r in s.requests ==> !s.requests[e.r].Asked?)
  }

  /** A beginning is on the trail exactly as long as none of its key was swept after it was written. */
  ghost predicate Tracked(trail: set<Row>, events: seq<Event>) {
    forall i | 0 <= i < |events| :: events[i].IntentWritten? ==>
      (Started(events[i].change, events[i].r) in trail <==> IntentExpired(events[i].change) !in events[i + 1..])
  }

  /** How many outcomes of a change the trail holds after these events. */
  ghost function Standing(events: seq<Event>, c: Change): int {
    Count(events, Outcomes, c) - Count(events, GoneOutcomes, c)
  }

  /** A beginning is swept only while an outcome of its key stands on the trail. */
  ghost predicate SweptAnswered(events: seq<Event>) {
    forall i | 0 <= i < |events| :: events[i].IntentExpired? ==> Standing(events[..i], events[i].change) == 1
  }

  ghost predicate Counted(s: State, c: Change) {
    && Balanced(s.trail, s.events, c)
    && Count(s.events, Bodies, c) + |Waiting(s.requests, c)| <= Count(s.events, Intents, c)
  }

  ghost predicate Inv(s: State) {
    && Unique(s.trail)
    && (forall r | r in s.requests :: r in s.arrived && s.requests[r].change.key != [])
    && WriteAhead(s)
    && Kept(s.trail, s.events)
    && Once(s)
    && Tracked(s.trail, s.events)
    && SweptAnswered(s.events)
    && (forall c :: Counted(s, c))
  }

  lemma KeepsUnique(s: State, step: Step)
    requires Unique(s.trail) && Next(s, step).Some?
    ensures Unique(Next(s, step).value.trail)
  {
  }

  /** The events a step adds: none, or one. */
  lemma EventsGrow(s: State, step: Step)
    requires Next(s, step).Some?
    ensures var t := Next(s, step).value;
            t.events == s.events || (|t.events| == |s.events| + 1 && t.events == s.events + [t.events[|s.events|]])
  {
  }

  lemma KeepsBodiesBehind(s: State, step: Step)
    requires WriteAhead(s) && Next(s, step).Some?
    ensures var t := Next(s, step).value;
            forall i | 0 <= i < |t.events| :: t.events[i].BodyRan? ==>
              IntentWritten(t.events[i].change, t.events[i].r) in t.events[..i]
  {
    var t := Next(s, step).value;
    EventsGrow(s, step);
    forall i | 0 <= i < |t.events| && t.events[i].BodyRan?
      ensures IntentWritten(t.events[i].change, t.events[i].r) in t.events[..i]
    {
      if i < |s.events| {
        assert s.events[i] == t.events[i] && s.events[..i] == t.events[..i];
      } else {
        assert t.events[..i] == s.events;
      }
    }
  }

  lemma KeepsRequests(s: State, step: Step)
    requires Inv(s) && Next(s, step).Some?
    ensures var t := Next(s, step).value;
            && (forall r | r in t.requests :: r in t.arrived && t.requests[r].change.key != [])
            && (forall r | r in t.requests :: !t.requests[r].Asked? ==>
                 IntentWritten(t.requests[r].change, r) in t.events)
  {
    hide Count, Unique, Kept, Counted, HasIntent, HasOutcome;
    var t := Next(s, step).value;
    EventsGrow(s, step);
    forall r | r in t.requests && !t.requests[r].Asked?
      ensures IntentWritten(t.requests[r].change, r) in t.events
    {
      if r in s.requests && !s.requests[r].Asked? {
        assert IntentWritten(s.requests[r].change, r) in s.events;
      } else {
        assert t.events[|s.events|] == IntentWritten(t.requests[r].change, r);
      }
    }
  }

  lemma OutcomesNeverShrink(s: State, step: Step, c: Change)
    requires Next(s, step).Some?
    ensures Count(Next(s, step).value.events, Outcomes, c) >= Count(s.events, Outcomes, c)
  {
    var t := Next(s, step).value;
    EventsGrow(s, step);
    if t.events != s.events {
      CountSnoc(s.events, t.events[|s.events|], Outcomes, c);
    }
  }

  lemma KeepsKept(s: State, step: Step)
    requires Inv(s) && Next(s, step).Some?
    ensures Kept(Next(s, step).value.trail, Next(s, step).value.events)
  {
    hide Count, Unique, WriteAhead;
    var t := Next(s, step).value;
    EventsGrow(s, step);
    forall e | e in t.events && e.IntentWritten?
      ensures Started(e.change, e.r) in t.trail || Count(t.events, Outcomes, e.change) > 0
    {
      OutcomesNeverShrink(s, step, e.change);
      if e in s.events && Started(e.change, e.r) in s.trail && Started(e.change, e.r) !in t.trail {
        assert Counted(s, e.change);
      }
    }
  }

  lemma KeepsOnce(s: State, step: Step)
    requires Inv(s) && Next(s, step).Some?
    ensures Once(Next(s, step).value)
  {
    hide Count, Unique, Kept, Counted, Tracked, SweptAnswered, HasIntent, HasOutcome;
    var t := Next(s, step).value;
    EventsGrow(s, step);
    forall e | e in t.events && e.IntentWritten?
      ensures e.r in t.arrived && (e.r in t.requests ==> !t.requests[e.r].Asked?)
    {
      if e !in s.events {
        assert t.events[|s.events|] == e;
      }
    }
  }

  lemma KeepsSweptAnswered(s: State, step: Step)
    requires Inv(s) && Next(s, step).Some?
    ensures SweptAnswered(Next(s, step).value.events)
  {
    hide Count, Unique, Kept, Once, Tracked, WriteAhead;
    var t := Next(s, step).value;
    EventsGrow(s, step);
    forall i | 0 <= i < |t.events| && t.events[i].IntentExpired?
      ensures Standing(t.events[..i], t.events[i].change) == 1
    {
      if i < |s.events| {
        assert s.events[i] == t.events[i] && s.events[..i] == t.events[..i];
      } else {
        assert t.events[..i] == s.events;
        assert Counted(s, t.events[i].change);
      }
    }
  }

  /** The events after a given one, when one more is added. */
  lemma AfterGrows(events: seq<Event>, e: Event, i: nat)
    requires i < |events|
    ensures (events + [e])[i + 1..] == events[i + 1..] + [e] && (events + [e])[i] == events[i]
    ensures (events + [e])[|events| + 1..] == []
  {
  }

  lemma TrackedIntent(trail: set<Row>, events: seq<Event>, c: Change, r: Request)
    requires Tracked(trail, events) && forall e | e in events :: e.IntentWritten? ==> e.r != r
    ensures Tracked(trail + {Started(c, r)}, events + [IntentWritten(c, r)])
  {
    var e := IntentWritten(c, r);
    var grown := events + [e];
    forall i | 0 <= i < |grown| && grown[i].IntentWritten?
      ensures Started(grown[i].change, grown[i].r) in trail + {Started(c, r)}
              <==> IntentExpired(grown[i].change) !in grown[i + 1..]
    {
      if i < |events| {
        AfterGrows(events, e, i);
        assert events[i] in events;
      }
    }
  }

  lemma TrackedSweep(trail: set<Row>, events: seq<Event>, row: Row)
    requires Tracked(trail, events) && Unique(trail) && row in trail && row.Started?
    ensures Tracked(trail - {row}, events + [IntentExpired(row.change)])
  {
    var e := IntentExpired(row.change);
    var grown := events + [e];
    forall i | 0 <= i < |grown| && grown[i].IntentWritten?
      ensures Started(grown[i].change, grown[i].r) in trail - {row} <==> IntentExpired(grown[i].change) !in grown[i + 1..]
    {
      AfterGrows(events, e, i);
    }
  }

  /** Any other event, and any other row, leave the beginnings as they are. */
  lemma TrackedOther(trail: set<Row>, trail': set<Row>, events: seq<Event>, e: Event)
    requires Tracked(trail, events) && !e.IntentWritten? && !e.IntentExpired?
    requires forall c, r :: Started(c, r) in trail <==> Started(c, r) in trail'
    ensures Tracked(trail', events + [e]) && Tracked(trail', events)
  {
    var grown := events + [e];
    forall i | 0 <= i < |grown| && grown[i].IntentWritten?
      ensures Started(grown[i].change, grown[i].r) in trail' <==> IntentExpired(grown[i].change) !in grown[i + 1..]
    {
      AfterGrows(events, e, i);
    }
  }

  lemma KeepsTracked(s: State, step: Step)
    requires Inv(s) && Next(s, step).Some?
    ensures Tracked(Next(s, step).value.trail, Next(s, step).value.events)
  {
    hide Count, Counted, Kept, WriteAhead, SweptAnswered, Tracked, Unique, HasIntent, HasOutcome;
    match step
    case RecordIntent(r, acked) =>
      var c := s.requests[r].change;
      if !HasIntent(s.trail, c) {
        TrackedIntent(s.trail, s.events, c, r);
      }
    case MakeChange(r) => TrackedOther(s.trail, s.trail, s.events, BodyRan(s.requests[r].change, r));
    case RecordOutcome(r) =>
      var c := s.requests[r].change;
      TrackedOther(s.trail, s.trail + {Outcome(c, ByRequest(r))}, s.events, OutcomeWritten(c, ByRequest(r)));
    case Reconcile(k, c) =>
      TrackedOther(s.trail, s.trail + {Outcome(c, ByReconciler(k))}, s.events, OutcomeWritten(c, ByReconciler(k)));
    case Expire(row) =>
      if row.Started? {
        TrackedSweep(s.trail, s.events, row);
      } else {
        TrackedOther(s.trail, s.trail - {row}, s.events, OutcomeExpired(row.change));
      }
    case _ =>
  }

  lemma WaitingGrows(requests: map<Request, Phase>, r: Request, c: Change)
    requires r in requests && requests[r] == Asked(c)
    ensures |Waiting(requests[r := Began(c)], c)| == |Waiting(requests, c)| + 1
  {
    assert Waiting(requests[r := Began(c)], c) == Waiting(requests, c) + {r};
  }

  lemma WaitingShrinks(requests: map<Request, Phase>, r: Request, c: Change)
    requires r in requests && requests[r] == Began(c)
    ensures |Waiting(requests[r := Made(c)], c)| == |Waiting(requests, c)| - 1
  {
    assert Waiting(requests[r := Made(c)], c) == Waiting(requests, c) - {r};
  }

  lemma WaitingEnds(requests: map<Request, Phase>, r: Request, c: Change)
    requires r in requests
    ensures |Waiting(requests - {r}, c)| <= |Waiting(requests, c)|
  {
    assert Waiting(requests - {r}, c) == Waiting(requests, c) - {r};
  }

  /** Moving a request that neither was nor becomes one waiting for `c`. */
  lemma WaitingOther(requests: map<Request, Phase>, r: Request, p: Phase, c: Change)
    requires r in requests ==> requests[r] != Began(c)
    requires p != Began(c)
    ensures Waiting(requests[r := p], c) == Waiting(requests, c)
  {
  }

  lemma HasIntentAfter(trail: set<Row>, row: Row, c: Change)
    requires row.Started?
    ensures HasIntent(trail + {row}, c) == (HasIntent(trail, c) || row.change == c)
    ensures HasOutcome(trail + {row}, c) == HasOutcome(trail, c)
  {
    assert row in trail + {row};
  }

  lemma HasOutcomeAfter(trail: set<Row>, row: Row, c: Change)
    requires row.Outcome?
    ensures HasOutcome(trail + {row}, c) == (HasOutcome(trail, c) || row.change == c)
    ensures HasIntent(trail + {row}, c) == HasIntent(trail, c)
  {
    assert row in trail + {row};
  }

  lemma HasWithout(trail: set<Row>, row: Row, c: Change)
    requires Unique(trail) && row in trail
    ensures HasIntent(trail - {row}, c) == (HasIntent(trail, c) && !(row.Started? && row.change == c))
    ensures HasOutcome(trail - {row}, c) == (HasOutcome(trail, c) && !(row.Outcome? && row.change == c))
  {
    if HasIntent(trail, c) && !(row.Started? && row.change == c) {
      var kept :| kept in trail && kept.Started? && kept.change == c;
      assert kept in trail - {row};
    }
    if HasOutcome(trail, c) && !(row.Outcome? && row.change == c) {
      var kept :| kept in trail && kept.Outcome? && kept.change == c;
      assert kept in trail - {row};
    }
  }

  lemma CountAll(events: seq<Event>, e: Event, c: Change)
    ensures forall kind :: Count(events + [e], kind, c) == Count(events, kind, c) + if Is(e, kind, c) then 1 else 0
  {
    forall kind ensures Count(events + [e], kind, c) == Count(events, kind, c) + if Is(e, kind, c) then 1 else 0 {
      CountSnoc(events, e, kind, c);
    }
  }

  lemma IntentCounted(s: State, step: Step, c: Change)
    requires step.RecordIntent? && Counted(s, c) && Next(s, step).Some?
    ensures Counted(Next(s, step).value, c)
  {
    hide Count;
    var d := s.requests[step.r].change;
    WaitingEnds(s.requests, step.r, c);
    if !HasIntent(s.trail, d) {
      CountAll(s.events, IntentWritten(d, step.r), c);
      HasIntentAfter(s.trail, Started(d, step.r), c);
      if d == c {
        WaitingGrows(s.requests, step.r, c);
      } else {
        WaitingOther(s.requests, step.r, Began(d), c);
      }
    }
  }

  lemma BodyCounted(s: State, step: Step, c: Change)
    requires step.MakeChange? && Counted(s, c) && Next(s, step).Some?
    ensures Counted(Next(s, step).value, c)
  {
    hide Count;
    var d := s.requests[step.r].change;
    CountAll(s.events, BodyRan(d, step.r), c);
    if d == c {
      WaitingShrinks(s.requests, step.r, c);
    } else {
      WaitingOther(s.requests, step.r, Made(d), c);
    }
  }

  lemma OutcomeCounted(s: State, d: Change, author: Author, c: Change)
    requires Counted(s, c)
    ensures Counted(Closed(s, d, author), c)
  {
    hide Count;
    CountAll(s.events, OutcomeWritten(d, author), c);
    HasOutcomeAfter(s.trail, Outcome(d, author), c);
  }

  lemma ExpiryCounted(s: State, step: Step, c: Change)
    requires step.Expire? && Unique(s.trail) && Counted(s, c) && Next(s, step).Some?
    ensures Counted(Next(s, step).value, c)
  {
    hide Count, Unique;
    var d := step.row.change;
    CountAll(s.events, if step.row.Started? then IntentExpired(d) else OutcomeExpired(d), c);
    HasWithout(s.trail, step.row, c);
    if step.row.Started? && d == c {
      assert HasIntent(s.trail, c);
    }
    if step.row.Outcome? && d == c {
      assert HasOutcome(s.trail, c);
    }
  }

  lemma KeepsCounted(s: State, step: Step, c: Change)
    requires Inv(s) && Next(s, step).Some?
    ensures Counted(Next(s, step).value, c)
  {
    hide Count, Unique, WriteAhead, Kept;
    assert Counted(s, c);
    match step
    case Arrive(r, action, header, body) =>
      WaitingOther(s.requests, r, Asked(Change(action, KeyOf(header, body))), c);
    case RecordIntent(r, acked) => IntentCounted(s, step, c);
    case MakeChange(r) => BodyCounted(s, step, c);
    case RecordOutcome(r) =>
      WaitingEnds(s.requests, r, c);
      OutcomeCounted(s.(requests := s.requests - {r}), s.requests[r].change, ByRequest(r), c);
    case End(r) => WaitingEnds(s.requests, r, c);
    case ListUnfinished(k) =>
    case Reconcile(k, d) =>
      OutcomeCounted(s.(listed := s.listed[k := s.listed[k] - {d}]), d, ByReconciler(k), c);
    case Expire(row) => ExpiryCounted(s, step, c);
  }

  lemma NextKeeps(s: State, step: Step)
    requires Inv(s) && Next(s, step).Some?
    ensures Inv(Next(s, step).value)
  {
    KeepsUnique(s, step);
    KeepsBodiesBehind(s, step);
    KeepsRequests(s, step);
    KeepsKept(s, step);
    KeepsOnce(s, step);
    KeepsTracked(s, step);
    KeepsSweptAnswered(s, step);
    forall c ensures Counted(Next(s, step).value, c) {
      KeepsCounted(s, step, c);
    }
  }

  lemma {:induction false} RunKeeps(s: State, steps: seq<Step>)
    requires Inv(s) && Run(s, steps).Some?
    ensures Inv(Run(s, steps).value)
    decreases |steps|
  {
    hide Inv;
    if steps != [] {
      NextKeeps(s, steps[0]);
      RunKeeps(Next(s, steps[0]).value, steps[1..]);
    }
  }

  lemma InitiallyInv()
    ensures Inv(INITIAL)
  {
    forall c ensures Counted(INITIAL, c) {
      assert Waiting(INITIAL.requests, c) == {};
    }
  }

  ghost predicate Reachable(s: State, steps: seq<Step>) {
    Run(INITIAL, steps) == Some(s)
  }

  lemma ReachableInv(s: State, steps: seq<Step>)
    requires Reachable(s, steps)
    ensures Inv(s)
  {
    InitiallyInv();
    RunKeeps(INITIAL, steps);
  }

  // ----- what it is for -----

  /** No body runs before the beginning that its own request wrote was durable. */
  lemma NoBodyBeforeIntent(s: State, steps: seq<Step>, i: nat)
    requires Reachable(s, steps) && i < |s.events| && s.events[i].BodyRan?
    ensures IntentWritten(s.events[i].change, s.events[i].r) in s.events[..i]
  {
    ReachableInv(s, steps);
  }

  /** The trail answers a beginning at most once, whoever writes the answer. */
  lemma OneOutcome(s: State, steps: seq<Step>, a: Row, b: Row)
    requires Reachable(s, steps) && a in s.trail && b in s.trail
    requires a.change == b.change && a.Outcome? == b.Outcome?
    ensures a == b
  {
    ReachableInv(s, steps);
  }

  /**
   A key makes one change, and one more each time the sweep removed its
   beginning; likewise for outcomes. Without the sweep a key is spent for good.
   */
  lemma ChangesPerKey(s: State, steps: seq<Step>, c: Change)
    requires Reachable(s, steps)
    ensures Count(s.events, Bodies, c) <= Count(s.events, GoneIntents, c) + 1
    ensures Count(s.events, Outcomes, c) <= Count(s.events, GoneOutcomes, c) + 1
    ensures Count(s.events, GoneIntents, c) == 0 ==> Count(s.events, Bodies, c) <= 1
  {
    ReachableInv(s, steps);
    assert Counted(s, c);
  }

  /**
   A request's beginning is on the trail exactly as long as the sweep took no
   beginning of its key after it was written, and every one it takes has an
   outcome of its key standing on the trail at that moment.
   */
  lemma OnTheTrailIff(s: State, steps: seq<Step>, i: nat)
    requires Reachable(s, steps) && i < |s.events| && s.events[i].IntentWritten?
    ensures var e := s.events[i];
            && (Started(e.change, e.r) in s.trail <==> IntentExpired(e.change) !in s.events[i + 1..])
            && forall j | i < j < |s.events| :: s.events[j] == IntentExpired(e.change) ==>
                 Standing(s.events[..j], e.change) == 1
  {
    ReachableInv(s, steps);
  }

  /** A beginning that is gone was swept at some moment, while an outcome of its key stood on the trail. */
  lemma SweptAt(s: State, steps: seq<Step>, i: nat) returns (j: nat)
    requires Reachable(s, steps) && i < |s.events| && s.events[i].IntentWritten?
    requires Started(s.events[i].change, s.events[i].r) !in s.trail
    ensures i < j < |s.events| && Standing(s.events[..j], s.events[i].change) == 1
  {
    OnTheTrailIff(s, steps, i);
    hide *;
    var gone := IntentExpired(s.events[i].change);
    var k :| 0 <= k < |s.events[i + 1..]| && s.events[i + 1..][k] == gone;
    j := i + 1 + k;
    assert s.events[j] == gone;
  }

  /** A beginning stays on the trail at least until an outcome of its key stands beside it. */
  lemma KeptUntilAnswered(s: State, steps: seq<Step>, i: nat)
    requires Reachable(s, steps) && i < |s.events| && s.events[i].IntentWritten?
    requires forall j | i < j < |s.events| :: Standing(s.events[..j], s.events[i].change) == 0
    ensures Started(s.events[i].change, s.events[i].r) in s.trail
  {
    hide *;
    if Started(s.events[i].change, s.events[i].r) !in s.trail {
      var j := SweptAt(s, steps, i);
      assert false;
    }
  }

  /** In particular until one was written at all. */
  lemma KeptUntilWritten(s: State, steps: seq<Step>, i: nat)
    requires Reachable(s, steps) && i < |s.events| && s.events[i].IntentWritten?
    requires Count(s.events, Outcomes, s.events[i].change) == 0
    ensures Started(s.events[i].change, s.events[i].r) in s.trail
  {
    hide Count, Reachable;
    if Started(s.events[i].change, s.events[i].r) !in s.trail {
      var j := SweptAt(s, steps, i);
      CountPrefix(s.events, j, Outcomes, s.events[i].change);
      assert false;
    }
  }

  /**
   A change made whose key had no outcome standing on the trail since its
   beginning still has that beginning on the trail - on first use and on every
   reuse of the key, whatever the sweep did.
   */
  lemma UnansweredStaysOnTheTrail(s: State, steps: seq<Step>, c: Change, r: Request)
    requires Reachable(s, steps) && BodyRan(c, r) in s.events
    ensures exists i | 0 <= i < |s.events| ::
              && s.events[i] == IntentWritten(c, r)
              && (Started(c, r) in s.trail <==> IntentExpired(c) !in s.events[i + 1..])
              && ((forall j | i < j < |s.events| :: Standing(s.events[..j], c) == 0) ==> Started(c, r) in s.trail)
    ensures Count(s.events, Outcomes, c) == 0 ==> Started(c, r) in s.trail
  {
    hide Count, Inv, Reachable, Standing;
    var k :| 0 <= k < |s.events| && s.events[k] == BodyRan(c, r);
    NoBodyBeforeIntent(s, steps, k);
    var i :| 0 <= i < k && s.events[i] == IntentWritten(c, r);
    OnTheTrailIff(s, steps, i);
    if forall j | i < j < |s.events| :: Standing(s.events[..j], c) == 0 {
      KeptUntilAnswered(s, steps, i);
    }
    if Count(s.events, Outcomes, c) == 0 {
      KeptUntilWritten(s, steps, i);
    }
  }

  lemma {:induction false} CountPrefix(events: seq<Event>, n: nat, kind: Kind, c: Change)
    requires n <= |events|
    ensures Count(events[..n], kind, c) <= Count(events, kind, c)
  {
    if n < |events| {
      CountPrefix(events[..|events| - 1], n, kind, c);
      assert events[..|events| - 1][..n] == events[..n];
    } else {
      assert events[..n] == events;
    }
  }

  /** A request that ended, at whatever statement, leaves the trail as it is and does nothing more. */
  lemma EndedDoesNothing(s: State, r: Request)
    requires r in s.requests
    ensures var t := Next(s, End(r));
            && t.Some? && t.value.trail == s.trail && t.value.events == s.events
            && Next(t.value, RecordIntent(r, true)).None? && Next(t.value, MakeChange(r)).None?
            && Next(t.value, RecordOutcome(r)).None?
  {
  }

  // ----- what a reconciler does -----

  /**
   A reconciler lists a change exactly when it began and nothing answers it, and
   then closes it with an outcome of its own; a second one finds it closed.
   */
  lemma ReconcilesIff(s: State, k: Reconciler, c: Change)
    ensures var t := Run(s, [ListUnfinished(k)] + ([Reconcile(k, c)] + []));
            && (t.Some? <==> HasIntent(s.trail, c) && !HasOutcome(s.trail, c))
            && (t.Some? ==> t.value.trail == s.trail + {Outcome(c, ByReconciler(k))} && t.value.requests == s.requests)
  {
    hide Run;
    var a := Next(s, ListUnfinished(k)).value;
    RunStep(s, ListUnfinished(k), [Reconcile(k, c)] + []);
    RunStep(a, Reconcile(k, c), []);
    if Next(a, Reconcile(k, c)).Some? {
      RunNothing(Next(a, Reconcile(k, c)).value);
    }
  }

  // ----- when a key can be used again -----

  lemma RunStep(s: State, step: Step, rest: seq<Step>)
    ensures Run(s, [step] + rest) == if Next(s, step).None? then None else Run(Next(s, step).value, rest)
  {
    assert ([step] + rest)[1..] == rest;
  }

  lemma {:induction false} RunConcat(s: State, steps: seq<Step>, more: seq<Step>)
    requires Run(s, steps).Some?
    ensures Run(s, steps + more) == Run(Run(s, steps).value, more)
    decreases |steps|
  {
    hide Next;
    if steps == [] {
      assert steps + more == more;
    } else {
      RunConcat(Next(s, steps[0]).value, steps[1..], more);
      assert (steps + more)[1..] == steps[1..] + more;
    }
  }

  function Attempt(r: Request, action: string, header: string, body: string): seq<Step> {
    [Arrive(r, action, header, body)] + ([RecordIntent(r, true)] + ([MakeChange(r)] + []))
  }

  /**
   A new request gets as far as its body exactly when every beginning ever written
   under its key was removed by the sweep - for a fresh key, when there was none.
   */
  lemma AdmittedIff(s: State, steps: seq<Step>, r: Request, action: string, header: string, body: string)
    requires Reachable(s, steps) && r !in s.arrived && KeyOf(header, body) != []
    ensures var c := Change(action, KeyOf(header, body));
            Run(s, Attempt(r, action, header, body)).Some?
            <==> Count(s.events, Intents, c) == Count(s.events, GoneIntents, c)
  {
    var c := Change(action, KeyOf(header, body));
    ReachableInv(s, steps);
    assert Counted(s, c);
    hide Count, Run, Inv;
    var a := Next(s, Arrive(r, action, header, body)).value;
    RunStep(s, Arrive(r, action, header, body), [RecordIntent(r, true)] + ([MakeChange(r)] + []));
    RunStep(a, RecordIntent(r, true), [MakeChange(r)] + []);
    var b := Next(a, RecordIntent(r, true)).value;
    RunStep(b, MakeChange(r), []);
    if !HasIntent(s.trail, c) {
      RunNothing(Next(b, MakeChange(r)).value);
    }
  }

  lemma RunNothing(s: State)
    ensures Run(s, []) == Some(s)
  {
  }

  /** One request under a fresh key, from its beginning to its outcome. */
  function Through(r: Request): seq<Step> {
    [RecordIntent(r, true)] + ([MakeChange(r)] + ([RecordOutcome(r)] + []))
  }

  /** A request that finds no beginning runs through; it leaves its outcome only where there is none. */
  lemma RunsThrough(s: State, c: Change, r: Request)
    requires r in s.requests && s.requests[r] == Asked(c) && !HasIntent(s.trail, c)
    ensures Run(s, Through(r)) ==
            Some(Closed(s.(trail := s.trail + {Started(c, r)}, requests := s.requests - {r},
                           events := s.events + [IntentWritten(c, r)] + [BodyRan(c, r)]), c, ByRequest(r)))
  {
    hide Run, HasIntent, HasOutcome;
    var a := Next(s, RecordIntent(r, true)).value;
    var b := Next(a, MakeChange(r)).value;
    RunStep(s, RecordIntent(r, true), [MakeChange(r)] + ([RecordOutcome(r)] + []));
    RunStep(a, MakeChange(r), [RecordOutcome(r)] + []);
    RunStep(b, RecordOutcome(r), []);
    RunNothing(Next(b, RecordOutcome(r)).value);
    assert s.requests[r := Began(c)][r := Made(c)] - {r} == s.requests - {r};
  }

  /** Two requests arrive under one key; the first runs through, the sweep takes its beginning, the second runs. */
  function TwiceSteps(c: Change): seq<Step> {
    [Arrive(0, c.action, c.key, [])] + ([Arrive(1, c.action, c.key, [])] +
    (Through(0) + ([Expire(Started(c, 0))] + Through(1))))
  }

  /**
   The sweep removes an answered beginning, and with it what made the key spent:
   under every key a second request then makes the change again, and the outcome
   it is told was written is the first one's.
   */
  lemma KeyUsedTwice(c: Change)
    requires c.key != [] && TrimSpace(c.key) == c.key
    ensures var t := Run(INITIAL, TwiceSteps(c));
            && t.Some?
            && Count(t.value.events, Bodies, c) == 2
            && Count(t.value.events, Outcomes, c) == 1
            && t.value.trail == {Started(c, 1), Outcome(c, ByRequest(0))}
  {
    hide Run, Count;
    TwiceEnds(c);
    TwiceCounted(c, TwiceLog(c));
  }

  function TwiceLog(c: Change): seq<Event> {
    [IntentWritten(c, 0)] + [BodyRan(c, 0)] + [OutcomeWritten(c, ByRequest(0))] + [IntentExpired(c)]
  }

  /** Where that run ends. */
  lemma TwiceEnds(c: Change)
    requires c.key != [] && TrimSpace(c.key) == c.key
    ensures var t := Run(INITIAL, TwiceSteps(c));
            && t.Some?
            && t.value.trail == {Started(c, 1), Outcome(c, ByRequest(0))}
            && t.value.events == TwiceLog(c) + [IntentWritten(c, 1)] + [BodyRan(c, 1)]
  {
    hide Run, Count;
    var a := Next(INITIAL, Arrive(0, c.action, c.key, [])).value;
    var b := Next(a, Arrive(1, c.action, c.key, [])).value;
    var rest := [Expire(Started(c, 0))] + Through(1);
    RunStep(INITIAL, Arrive(0, c.action, c.key, []), [Arrive(1, c.action, c.key, [])] + (Through(0) + rest));
    RunStep(a, Arrive(1, c.action, c.key, []), Through(0) + rest);
    assert b.trail == {} && b.events == [] && b.requests == map[0 := Asked(c), 1 := Asked(c)];
    RunsThrough(b, c, 0);
    RunConcat(b, Through(0), rest);
    var d := Run(b, Through(0)).value;
    assert d.requests == map[1 := Asked(c)];
    assert d.trail == {Started(c, 0), Outcome(c, ByRequest(0))};
    RunStep(d, Expire(Started(c, 0)), Through(1));
    var e := Next(d, Expire(Started(c, 0))).value;
    assert e.trail == {Outcome(c, ByRequest(0))};
    RunsThrough(e, c, 1);
    var t := Run(e, Through(1)).value;
    assert e.events == TwiceLog(c);
    assert t.events == TwiceLog(c) + [IntentWritten(c, 1)] + [BodyRan(c, 1)];
  }

  /**
   And then the sweep takes the second beginning too, answered as it seems, and the
   older outcome with it: the second change was made, no outcome of it was ever
   written, and nothing of it is left on the trail.
   */
  lemma SecondBeginningLost(c: Change)
    requires c.key != [] && TrimSpace(c.key) == c.key
    ensures var t := Run(INITIAL, TwiceSteps(c) + ([Expire(Started(c, 1))] + ([Expire(Outcome(c, ByRequest(0)))] + [])));
            && t.Some?
            && BodyRan(c, 1) in t.value.events
            && OutcomeWritten(c, ByRequest(1)) !in t.value.events
            && t.value.trail == {}
  {
    hide Run, Count;
    TwiceEnds(c);
    var s := Run(INITIAL, TwiceSteps(c)).value;
    var last := [Expire(Outcome(c, ByRequest(0)))] + [];
    RunConcat(INITIAL, TwiceSteps(c), [Expire(Started(c, 1))] + last);
    RunStep(s, Expire(Started(c, 1)), last);
    assert Outcome(c, ByRequest(0)) in s.trail;
    var t := Next(s, Expire(Started(c, 1))).value;
    assert t.trail == {Outcome(c, ByRequest(0))};
    RunStep(t, Expire(Outcome(c, ByRequest(0))), []);
    RunNothing(Next(t, Expire(Outcome(c, ByRequest(0)))).value);
  }

  lemma TwiceCounted(c: Change, log: seq<Event>)
    requires log == [IntentWritten(c, 0)] + [BodyRan(c, 0)] + [OutcomeWritten(c, ByRequest(0))] + [IntentExpired(c)]
    ensures var events := log + [IntentWritten(c, 1)] + [BodyRan(c, 1)];
            Count(events, Bodies, c) == 2 && Count(events, Outcomes, c) == 1
  {
    hide Count;
    var first: seq<Event> := [IntentWritten(c, 0)];
    CountNothing(c);
    CountAll([], IntentWritten(c, 0), c);
    assert [] + first == first;
    CountAll(first, BodyRan(c, 0), c);
    CountAll(first + [BodyRan(c, 0)], OutcomeWritten(c, ByRequest(0)), c);
    CountAll(first + [BodyRan(c, 0)] + [OutcomeWritten(c, ByRequest(0))], IntentExpired(c), c);
    CountAll(log, IntentWritten(c, 1), c);
    CountAll(log + [IntentWritten(c, 1)], BodyRan(c, 1), c);
  }

  lemma CountNothing(c: Change)
    ensures forall kind :: Count([], kind, c) == 0
  {
  }

  // ----- the two halves of a handler -----

  /** What becomes of one insert: it is written, or written and the answer lost, or not written. */
  datatype Database = Writes | LosesAnswer | Fails

  function BeganSteps(r: Request, action: string, header: string, body: string, db: Database): seq<Step> {
    [Arrive(r, action, header, body)] + ([if db.Fails? then End(r) else RecordIntent(r, db.Writes?)] + [])
  }

  function FinishedSteps(r: Request, db: Database): seq<Step> {
    [if db.Fails? then End(r) else RecordOutcome(r)] + []
  }

  class Trail {
    var rows: set<Row>

    /** The key under which the change may now be made, or None when it must not be. */
    method BeganChange(r: Request, action: string, header: string, body: string, db: Database, ghost s: State)
      returns (key: Option<string>)
      requires s.trail == rows && r !in s.arrived
      modifies this
      ensures KeyOf(header, body) == [] ==> key.None? && rows == old(rows)
      ensures KeyOf(header, body) != [] ==>
                var t := Run(s, BeganSteps(r, action, header, body, db));
                && t.Some?
                && rows == t.value.trail
                && (key.Some? <==> r in t.value.requests)
                && (key.Some? ==> t.value.requests[r] == Began(Change(action, key.value)))
      ensures key.Some? ==> Started(Change(action, key.value), r) in rows
      ensures key.Some? ==>
                && key.value != []
                && (key.value == TrimSpace(header) || (TrimSpace(header) == [] && key.value == TrimSpace(body)))
    {
      var k := KeyOf(header, body);
      if k == [] {
        return None;
      }
      var c := Change(action, k);
      ghost var a := Next(s, Arrive(r, action, header, body)).value;
      ghost var last := if db.Fails? then End(r) else RecordIntent(r, db.Writes?);
      RunStep(s, Arrive(r, action, header, body), [last] + []);
      RunStep(a, last, []);
      RunNothing(Next(a, last).value);
      hide Run;
      if db.Fails? {
        return None;
      }
      if HasIntent(rows, c) {
        return None;
      }
      rows := rows + {Started(c, r)};
      key := if db.Writes? then Some(k) else None;
    }

    /** Whether the trail is known to hold the outcome of the change. */
    method FinishedChange(r: Request, c: Change, db: Database, ghost s: State) returns (ok: bool)
      requires s.trail == rows && r in s.requests && s.requests[r] == Made(c)
      modifies this
      ensures var t := Run(s, FinishedSteps(r, db));
              t.Some? && rows == t.value.trail && r !in t.value.requests
      ensures ok ==> HasOutcome(rows, c)
      ensures ok <==> db.Writes?
    {
      ghost var last := if db.Fails? then End(r) else RecordOutcome(r);
      RunStep(s, last, []);
      RunNothing(Next(s, last).value);
      hide Run;
      if !db.Fails? && !HasOutcome(rows, c) {
        HasOutcomeAfter(rows, Outcome(c, ByRequest(r)), c);
        rows := rows + {Outcome(c, ByRequest(r))};
      }
      ok := db.Writes?;
    }
  }
}
