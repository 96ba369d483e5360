/**
 The transactions behind a screen's arrangement, statement by statement, under
 READ COMMITTED: any number of writers interleave at every statement, roll back
 or crash anywhere, and resets land between them. What a transaction wrote is
 seen by the others only once it commits; a row lock and the unique key of the
 table are what make one transaction wait for another.
 */
module LayoutTransactions {
  import opened Optional
  import opened ScreenLayout

  type Tx = nat

  /** How far a writer got. `keep` and `trimmed` are its uncommitted history changes. */
  datatype Phase =
    | Started(named: int, arrangement: Arrangement)
    | Selected(named: int, arrangement: Arrangement, current: nat)
    | Keeping(named: int, arrangement: Arrangement, keep: History)
    | Trimming(named: int, arrangement: Arrangement, keep: History, trimmed: set<nat>)
    | Upserted(named: int, arrangement: Arrangement, keep: History, trimmed: set<nat>, revision: nat)
    | Refused

  /**
   `row` and `history` are the committed tables; `locker` holds the lock of the
   committed row and `inserter` the unique key while its row is uncommitted. The
   log of committed changes is kept for the statements below; no step reads it.
   */
  datatype State = State(
    row: Option<Row>,
    history: History,
    locker: Option<Tx>,
    inserter: Option<Tx>,
    txs: map<Tx, Phase>,
    log: seq<Event>
  )

  const INITIAL := State(None, map[], None, None, map[], [])

  datatype Step =
    | Begin(tx: Tx, named: int, arrangement: Arrangement)
    | SelectForUpdate(tx: Tx)
    | Keep(tx: Tx)
    | Trim(tx: Tx)
    | Upsert(tx: Tx)
    | Commit(tx: Tx)
    | Rollback(tx: Tx)
    | ResetScreen

  function Freed(holder: Option<Tx>, tx: Tx): Option<Tx> {
    if holder == Some(tx) then None else holder
  }

  /** One statement of one transaction; None while the statement waits or is not the next one. */
  function Next(s: State, step: Step): Option<State> {
    match step
    case Begin(tx, named, arrangement) =>
      if tx in s.txs then None else Some(s.(txs := s.txs[tx := Started(named, arrangement)]))
    case SelectForUpdate(tx) => if tx in s.txs then NextSelect(s, tx, s.txs[tx]) else None
    case Keep(tx) => if tx in s.txs then NextKeep(s, tx, s.txs[tx]) else None
    case Trim(tx) => if tx in s.txs then NextTrim(s, tx, s.txs[tx]) else None
    case Upsert(tx) => if tx in s.txs then NextUpsert(s, tx, s.txs[tx]) else None
    case Commit(tx) => if tx in s.txs then NextCommit(s, tx, s.txs[tx]) else None
    case Rollback(tx) => if tx in s.txs then Some(Ended(s, tx)) else None
    case ResetScreen =>
      // Its delete waits for the row lock, so it runs only while nobody holds it.
      if s.row.None? || s.locker.Some? then None
      else Some(s.(row := None, history := Kept(Table(s.row, s.history)), log := s.log + [WasReset]))
  }

  function Ended(s: State, tx: Tx): State {
    s.(locker := Freed(s.locker, tx), inserter := Freed(s.inserter, tx), txs := s.txs - {tx})
  }

  /** An absent row is read without waiting and without a lock, also while somebody is inserting it. */
  function NextSelect(s: State, tx: Tx, p: Phase): Option<State> {
    if !p.Started? then None
    else if s.row.None? then Some(s.(txs := s.txs[tx := Selected(p.named, p.arrangement, 0)]))
    else if s.locker.Some? then None
    else Some(s.(locker := Some(tx), txs := s.txs[tx := Selected(p.named, p.arrangement, s.row.value.revision)]))
  }

  function NextKeep(s: State, tx: Tx, p: Phase): Option<State> {
    if !(p.Selected? && p.current == p.named && p.current > 0) then None
    else
      var keep := if s.row.None? || s.row.value.revision in s.history then map[]
                  else map[s.row.value.revision := s.row.value.arrangement];
      Some(s.(txs := s.txs[tx := Keeping(p.named, p.arrangement, keep)]))
  }

  function NextTrim(s: State, tx: Tx, p: Phase): Option<State> {
    if !p.Keeping? then None
    else Some(s.(txs := s.txs[tx := Trimming(p.named, p.arrangement, p.keep, StaleIn(s.history + p.keep))]))
  }

  /** Nothing is kept or trimmed by a writer that found no row. */
  function NextUpsert(s: State, tx: Tx, p: Phase): Option<State> {
    if p.Trimming? then Inserted(s, tx, p.named, p.arrangement, p.keep, p.trimmed)
    else if p.Selected? && p.current == p.named && p.current == 0 then
      Inserted(s, tx, p.named, p.arrangement, map[], {})
    else None
  }

  /**
   The guarded upsert. Without a committed row the insert waits for another
   uncommitted insert of the same key. With one, the conflict takes its lock and
   the guard compares the revision as committed by then; a guard that fails
   returns no row, which the handler answers as a conflict.
   */
  function Inserted(s: State, tx: Tx, named: int, a: Arrangement, keep: History, trimmed: set<nat>): Option<State> {
    if s.row.None? then
      if s.inserter.Some? then None
      else Some(s.(inserter := Some(tx), txs := s.txs[tx := Upserted(named, a, keep, trimmed, 1)]))
    else if s.locker.Some? && s.locker.value != tx then None
    else if s.row.value.revision == named then
      Some(s.(locker := Some(tx), txs := s.txs[tx := Upserted(named, a, keep, trimmed, s.row.value.revision + 1)]))
    else
      Some(s.(locker := Some(tx), txs := s.txs[tx := Refused]))
  }

  function NextCommit(s: State, tx: Tx, p: Phase): Option<State> {
    if !p.Upserted? then None
    else
      var ended := Ended(s, tx);
      Some(ended.(row := Some(Row(p.revision, p.arrangement)),
                  history := s.history + p.keep - p.trimmed,
                  log := s.log + [Wrote(p.named, p.arrangement)]))
  }

  function Run(s: State, steps: seq<Step>): Option<State> {
    if steps == [] then Some(s)
    else
      var before := Run(s, steps[..|steps| - 1]);
      if before.None? then None else Next(before.value, steps[|steps| - 1])
  }

  // ----- the invariant -----

  ghost predicate PhaseHolds(s: State, tx: Tx, p: Phase) {
    var table := Table(s.row, s.history);
    match p
    case Started(_, _) => s.locker != Some(tx) && s.inserter != Some(tx)
    case Selected(_, _, current) =>
      && s.inserter != Some(tx)
      && (s.locker == Some(tx) <==> current > 0)
      && (current > 0 ==> RevisionOf(s.row) == current)
    case Keeping(named, _, keep) =>
      && s.locker == Some(tx) && s.inserter != Some(tx)
      && 0 < named == RevisionOf(s.row)
      && s.history + keep == Kept(table)
    case Trimming(named, _, keep, trimmed) =>
      && s.locker == Some(tx) && s.inserter != Some(tx)
      && 0 < named == RevisionOf(s.row)
      && s.history + keep - trimmed == Trimmed(Kept(table))
    case Upserted(named, arrangement, keep, trimmed, revision) =>
      && (s.locker == Some(tx) || s.inserter == Some(tx))
      && Write(table, named, arrangement)
         == Some(Table(Some(Row(revision, arrangement)), s.history + keep - trimmed))
    case Refused => s.inserter != Some(tx)
  }

  /** Each lock has one living holder, and the log replays to the committed tables. */
  ghost predicate Inv(s: State) {
    && (s.row.Some? ==> s.row.value.revision > 0)
    && (s.locker.Some? ==> s.row.Some? && s.locker.value in s.txs)
    && (s.inserter.Some? ==> s.row.None? && s.inserter.value in s.txs)
    && (forall tx | tx in s.txs :: PhaseHolds(s, tx, s.txs[tx]))
    && Replay(s.log) == Some(Table(s.row, s.history))
  }

  lemma SelectKeeps(s: State, tx: Tx, s': State)
    requires Inv(s) && tx in s.txs && NextSelect(s, tx, s.txs[tx]) == Some(s')
    ensures Inv(s')
  {
  }

  lemma KeepKeeps(s: State, tx: Tx, s': State)
    requires Inv(s) && tx in s.txs && NextKeep(s, tx, s.txs[tx]) == Some(s')
    ensures Inv(s')
  {
  }

  lemma TrimKeeps(s: State, tx: Tx, s': State)
    requires Inv(s) && tx in s.txs && NextTrim(s, tx, s.txs[tx]) == Some(s')
    ensures Inv(s')
  {
  }

  lemma UpsertKeeps(s: State, tx: Tx, s': State)
    requires Inv(s) && tx in s.txs && NextUpsert(s, tx, s.txs[tx]) == Some(s')
    ensures Inv(s')
  {
    var p := s.txs[tx];
    if p.Trimming? {
      UpsertOverRow(s, tx, p, s');
    } else {
      UpsertFirst(s, tx, p, s');
    }
  }

  lemma UpsertOverRow(s: State, tx: Tx, p: Phase, s': State)
    requires Inv(s) && tx in s.txs && p == s.txs[tx] && p.Trimming?
    requires Inserted(s, tx, p.named, p.arrangement, p.keep, p.trimmed) == Some(s')
    ensures Inv(s')
  {
    assert s'.row == s.row && s'.history == s.history;
  }

  lemma UpsertFirst(s: State, tx: Tx, p: Phase, s': State)
    requires Inv(s) && tx in s.txs && p == s.txs[tx] && p.Selected? && p.named == p.current == 0
    requires Inserted(s, tx, p.named, p.arrangement, map[], {}) == Some(s')
    ensures Inv(s')
  {
    assert s.history + map[] - {} == s.history;
  }

  lemma CommitKeeps(s: State, tx: Tx, s': State)
    requires Inv(s) && tx in s.txs && NextCommit(s, tx, s.txs[tx]) == Some(s')
    ensures Inv(s')
  {
    ReplayStep(s.log, Wrote(s.txs[tx].named, s.txs[tx].arrangement));
  }

  lemma BeginKeeps(s: State, tx: Tx, named: int, arrangement: Arrangement)
    requires Inv(s) && tx !in s.txs
    ensures Inv(s.(txs := s.txs[tx := Started(named, arrangement)]))
  {
  }

  lemma RollbackKeeps(s: State, tx: Tx)
    requires Inv(s) && tx in s.txs
    ensures Inv(Ended(s, tx))
  {
  }

  lemma ResetKeeps(s: State)
    requires Inv(s) && Next(s, ResetScreen).Some?
    ensures Inv(Next(s, ResetScreen).value)
  {
    ReplayStep(s.log, WasReset);
  }

  lemma NextKeeps(s: State, step: Step)
    requires Inv(s) && Next(s, step).Some?
    ensures Inv(Next(s, step).value)
  {
    hide Inv, NextSelect, NextKeep, NextTrim, NextUpsert, NextCommit;
    var s' := Next(s, step).value;
    match step
    case Begin(tx, named, arrangement) => BeginKeeps(s, tx, named, arrangement);
    case SelectForUpdate(tx) => SelectKeeps(s, tx, s');
    case Keep(tx) => KeepKeeps(s, tx, s');
    case Trim(tx) => TrimKeeps(s, tx, s');
    case Upsert(tx) => UpsertKeeps(s, tx, s');
    case Commit(tx) => CommitKeeps(s, tx, s');
    case Rollback(tx) => RollbackKeeps(s, tx);
    case ResetScreen => ResetKeeps(s);
  }

  // ----- what every run keeps -----

  /** Every interleaving is serial: the committed tables are the log of committed changes, replayed one by one. */
  lemma {:induction false} RunIsSerial(steps: seq<Step>)
    requires Run(INITIAL, steps).Some?
    ensures Inv(Run(INITIAL, steps).value)
    ensures var s := Run(INITIAL, steps).value; Replay(s.log) == Some(Table(s.row, s.history))
  {
    if steps != [] {
      RunIsSerial(steps[..|steps| - 1]);
      NextKeeps(Run(INITIAL, steps[..|steps| - 1]).value, steps[|steps| - 1]);
    }
  }

  /** Nobody is overwritten unseen: two commits naming one revision have a reset between them. */
  lemma NobodyOverwrittenUnseen(steps: seq<Step>, i: nat, j: nat)
    requires Run(INITIAL, steps).Some?
    requires var log := Run(INITIAL, steps).value.log;
             i < j < |log| && log[i].Wrote? && log[j].Wrote? && log[i].named == log[j].named
    ensures exists k | i < k < j :: Run(INITIAL, steps).value.log[k].WasReset?
  {
    RunIsSerial(steps);
    OneCommitPerRevision(Run(INITIAL, steps).value.log, i, j);
  }

  /** While the row is at revision r, no transaction but the lock holder can commit a write naming r. */
  lemma OnlyTheHolderCommits(steps: seq<Step>, tx: Tx)
    requires Run(INITIAL, steps).Some?
    requires Next(Run(INITIAL, steps).value, Commit(tx)).Some?
    ensures var s := Run(INITIAL, steps).value;
            var s' := Next(s, Commit(tx)).value;
            && s.txs[tx].named == RevisionOf(s.row)
            && s'.row == Some(Row(RevisionOf(s.row) + 1, s.txs[tx].arrangement))
            && (s.row.Some? ==> s.locker == Some(tx))
            && (s.row.None? ==> s.inserter == Some(tx))
            && (forall other | other in s'.txs :: !s'.txs[other].Upserted? && s'.locker != Some(other))
  {
    RunIsSerial(steps);
    NextKeeps(Run(INITIAL, steps).value, Commit(tx));
  }

  /** Every run without a reset holds exactly the last ten replaced arrangements. */
  lemma RunHistory(steps: seq<Step>)
    requires Run(INITIAL, steps).Some? && ResetScreen !in steps
    ensures var s := Run(INITIAL, steps).value;
            && RevisionOf(s.row) == |s.log|
            && Window(s.history, |s.log|)
            && (forall r | r in s.history :: s.log[r - 1].Wrote? && s.history[r] == s.log[r - 1].arrangement)
  {
    RunIsSerial(steps);
    LogOfWrites(steps);
    HistoryWithoutReset(Run(INITIAL, steps).value.log);
  }

  lemma {:induction false} LogOfWrites(steps: seq<Step>)
    requires Run(INITIAL, steps).Some? && ResetScreen !in steps
    ensures forall e | e in Run(INITIAL, steps).value.log :: e.Wrote?
  {
    if steps != [] {
      LogOfWrites(steps[..|steps| - 1]);
    }
  }

  /** Every reachable state of every run, resets included, holds at most twelve history entries. */
  lemma RunBound(steps: seq<Step>)
    requires Run(INITIAL, steps).Some?
    ensures var s := Run(INITIAL, steps).value;
            && |s.history| <= HISTORY_KEPT + 2
            && (RevisionOf(s.row) >= 2 ==> |s.history| <= HISTORY_KEPT)
  {
    RunIsSerial(steps);
    HistoryBound(Run(INITIAL, steps).value.log);
  }

  lemma RunStep(steps: seq<Step>, step: Step)
    requires Run(INITIAL, steps).Some?
    ensures Run(INITIAL, steps + [step]) == Next(Run(INITIAL, steps).value, step)
  {
    assert (steps + [step])[..|steps|] == steps;
  }

  /** Two first writers both read "no row"; one becomes revision 1 and the other is refused by the guard. */
  lemma FirstWritersRace(a: Arrangement, b: Arrangement)
    ensures var steps := [Begin(1, 0, a)] + [Begin(2, 0, b)] + [SelectForUpdate(1)] + [SelectForUpdate(2)]
                         + [Upsert(1)] + [Commit(1)] + [Upsert(2)];
            && Run(INITIAL, steps).Some?
            && Run(INITIAL, steps).value.row == Some(Row(1, a))
            && 2 in Run(INITIAL, steps).value.txs
            && Run(INITIAL, steps).value.txs[2].Refused?
  {
    RunStep([], Begin(1, 0, a));
    var steps := [] + [Begin(1, 0, a)];
    RunStep(steps, Begin(2, 0, b));
    steps := steps + [Begin(2, 0, b)];
    RunStep(steps, SelectForUpdate(1));
    steps := steps + [SelectForUpdate(1)];
    RunStep(steps, SelectForUpdate(2));
    steps := steps + [SelectForUpdate(2)];
    assert Run(INITIAL, steps).value.txs == map[1 := Selected(0, a, 0), 2 := Selected(0, b, 0)];
    RunStep(steps, Upsert(1));
    steps := steps + [Upsert(1)];
    RunStep(steps, Commit(1));
    steps := steps + [Commit(1)];
    RunStep(steps, Upsert(2));
    assert [] + [Begin(1, 0, a)] == [Begin(1, 0, a)];
  }
}
