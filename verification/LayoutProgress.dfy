/**
 What the layout transactions are able to do: a writer left alone stores its
 arrangement exactly when it names the stored revision, and every serial log is
 the log of some run.
 */
module LayoutProgress {
  import opened Optional
  import opened ScreenLayout
  import opened LayoutTransactions

  /** Nobody holds the row or is inserting it; other transactions may be open. */
  ghost predicate Idle(s: State) {
    Inv(s) && s.locker.None? && s.inserter.None?
  }

  function Opening(tx: Tx, named: int, a: Arrangement): seq<Step> {
    [Begin(tx, named, a)] + [SelectForUpdate(tx)]
  }

  /** The statements of one write, in order; a first write keeps and trims nothing. */
  function WholeWrite(tx: Tx, named: int, a: Arrangement): seq<Step> {
    if named > 0 then Opening(tx, named, a) + [Keep(tx)] + [Trim(tx)] + [Upsert(tx)] + [Commit(tx)]
    else Opening(tx, named, a) + [Upsert(tx)] + [Commit(tx)]
  }

  /** The state with one write made and nothing else changed. */
  function Stored(s: State, t: Table, named: int, a: Arrangement): State {
    s.(row := t.row, history := t.history, log := s.log + [Wrote(named, a)])
  }

  lemma RunSnoc(s: State, steps: seq<Step>, step: Step)
    ensures Run(s, steps + [step])
            == if Run(s, steps).None? then None else Next(Run(s, steps).value, step)
  {
    assert (steps + [step])[..|steps|] == steps;
  }

  lemma {:induction false} RunConcat(s: State, a: seq<Step>, b: seq<Step>)
    requires Run(s, a).Some?
    ensures Run(s, a + b) == Run(Run(s, a).value, b)
    decreases |b|
  {
    hide Next;
    if b == [] {
      assert a + b == a;
    } else {
      var last := |b| - 1;
      RunConcat(s, a, b[..last]);
      assert (a + b)[..|a + b| - 1] == a + b[..last];
    }
  }

  /** What the opening reads: the stored revision, under the row's lock where there is a row. */
  lemma Opened(s: State, tx: Tx, named: int, a: Arrangement)
    requires Idle(s) && tx !in s.txs
    ensures Run(s, Opening(tx, named, a))
            == Some(s.(locker := if s.row.Some? then Some(tx) else None,
                       txs := s.txs[tx := Selected(named, a, RevisionOf(s.row))]))
  {
    var first: seq<Step> := [Begin(tx, named, a)];
    var begun := s.(txs := s.txs[tx := Started(named, a)]);
    assert Run(s, []) == Some(s);
    RunSnoc(s, [], Begin(tx, named, a));
    assert [] + first == first;
    RunSnoc(s, first, SelectForUpdate(tx));
    assert begun.txs[tx := Selected(named, a, RevisionOf(s.row))] == s.txs[tx := Selected(named, a, RevisionOf(s.row))];
  }

  lemma Back(txs: map<Tx, Phase>, tx: Tx, p: Phase)
    requires tx !in txs
    ensures txs[tx := p] - {tx} == txs
  {
  }

  lemma Onward(txs: map<Tx, Phase>, tx: Tx, p: Phase, q: Phase)
    ensures txs[tx := p][tx := q] == txs[tx := q]
  {
  }

  lemma FirstStores(s: State, tx: Tx, a: Arrangement)
    requires Idle(s) && tx !in s.txs && s.row.None?
    ensures Run(s, WholeWrite(tx, 0, a)) == Some(Stored(s, Table(Some(Row(1, a)), s.history), 0, a))
  {
    hide Run;
    var open := Opening(tx, 0, a);
    Opened(s, tx, 0, a);
    RunSnoc(s, open, Upsert(tx));
    RunSnoc(s, open + [Upsert(tx)], Commit(tx));
    var p := Upserted(0, a, map[], {}, 1);
    Onward(s.txs, tx, Selected(0, a, 0), p);
    var up := s.(inserter := Some(tx), txs := s.txs[tx := p]);
    assert Run(s, open + [Upsert(tx)]) == Some(up);
    Back(s.txs, tx, p);
    assert s.history + map[] - {} == s.history;
  }

  /** What the keep and the trim of the lock holder leave is the serial write's history. */
  lemma KeptAndTrimmed(s: State, keep: History)
    requires s.row.Some?
    requires keep == if s.row.value.revision in s.history then map[] else map[s.row.value.revision := s.row.value.arrangement]
    ensures s.history + keep - StaleIn(s.history + keep) == Trimmed(Kept(Table(s.row, s.history)))
  {
    assert s.history + keep == Kept(Table(s.row, s.history));
  }

  lemma OverwriteStores(s: State, tx: Tx, a: Arrangement)
    requires Idle(s) && tx !in s.txs && s.row.Some?
    ensures var named := s.row.value.revision;
            Run(s, WholeWrite(tx, named, a))
            == Some(Stored(s, Table(Some(Row(named + 1, a)), Trimmed(Kept(Table(s.row, s.history)))), named, a))
  {
    hide Run, Replay, Trimmed, StaleIn, PhaseHolds;
    var row := s.row.value;
    var named := row.revision;
    var keep: History := if named in s.history then map[] else map[named := row.arrangement];
    var trimmed := StaleIn(s.history + keep);
    var open := Opening(tx, named, a);
    Opened(s, tx, named, a);
    var locked := s.(locker := Some(tx));
    var p := Upserted(named, a, keep, trimmed, named + 1);
    Onward(s.txs, tx, Selected(named, a, named), Keeping(named, a, keep));
    Onward(s.txs, tx, Keeping(named, a, keep), Trimming(named, a, keep, trimmed));
    Onward(s.txs, tx, Trimming(named, a, keep, trimmed), p);
    RunSnoc(s, open, Keep(tx));
    assert Run(s, open + [Keep(tx)]) == Some(locked.(txs := s.txs[tx := Keeping(named, a, keep)]));
    RunSnoc(s, open + [Keep(tx)], Trim(tx));
    assert Run(s, open + [Keep(tx)] + [Trim(tx)]) == Some(locked.(txs := s.txs[tx := Trimming(named, a, keep, trimmed)]));
    RunSnoc(s, open + [Keep(tx)] + [Trim(tx)], Upsert(tx));
    assert Run(s, open + [Keep(tx)] + [Trim(tx)] + [Upsert(tx)]) == Some(locked.(txs := s.txs[tx := p]));
    RunSnoc(s, open + [Keep(tx)] + [Trim(tx)] + [Upsert(tx)], Commit(tx));
    Back(s.txs, tx, p);
    KeptAndTrimmed(s, keep);
  }

  /** A write naming another revision gets no further than its select. */
  lemma OtherRevisionRefused(s: State, tx: Tx, named: int, a: Arrangement)
    requires Idle(s) && tx !in s.txs && named != RevisionOf(s.row)
    ensures Run(s, WholeWrite(tx, named, a)).None?
  {
    hide Run;
    var open := Opening(tx, named, a);
    Opened(s, tx, named, a);
    if named > 0 {
      RunSnoc(s, open, Keep(tx));
      RunSnoc(s, open + [Keep(tx)], Trim(tx));
      RunSnoc(s, open + [Keep(tx)] + [Trim(tx)], Upsert(tx));
      RunSnoc(s, open + [Keep(tx)] + [Trim(tx)] + [Upsert(tx)], Commit(tx));
    } else {
      RunSnoc(s, open, Upsert(tx));
      RunSnoc(s, open + [Upsert(tx)], Commit(tx));
    }
  }

  /** A writer left alone is the serial write: it goes through exactly when that does, and leaves what that leaves. */
  lemma AloneIsSerial(s: State, tx: Tx, named: int, a: Arrangement)
    requires Idle(s) && tx !in s.txs
    ensures var serial := Write(Table(s.row, s.history), named, a);
            Run(s, WholeWrite(tx, named, a)) == if serial.None? then None else Some(Stored(s, serial.value, named, a))
  {
    hide Run, WholeWrite;
    if named != RevisionOf(s.row) {
      OtherRevisionRefused(s, tx, named, a);
    } else if s.row.None? {
      FirstStores(s, tx, a);
    } else {
      OverwriteStores(s, tx, a);
    }
  }

  /**
   From every reachable state in which nobody holds the row or its key, a write
   runs through if and only if it names the stored revision. It then stores the
   next one, and the replaced arrangement can be put back exactly when no kept
   revision is ten or more ahead and its own is not taken by another arrangement.
   */
  lemma AloneIff(before: seq<Step>, tx: Tx, named: int, a: Arrangement)
    requires Run(INITIAL, before).Some?
    requires var s := Run(INITIAL, before).value;
             s.locker.None? && s.inserter.None? && tx !in s.txs
    ensures var s := Run(INITIAL, before).value;
            var t := Run(s, WholeWrite(tx, named, a));
            && (t.Some? <==> named == RevisionOf(s.row))
            && (t.Some? ==>
                 && t.value.row == Some(Row(named + 1, a))
                 && t.value.log == s.log + [Wrote(named, a)]
                 && t.value.txs == s.txs && t.value.locker.None? && t.value.inserter.None?)
            && (t.Some? && s.row.Some? ==>
                 (Undoable(t.value.history, s.row.value) <==>
                   && (forall newest | newest in s.history :: newest < named + HISTORY_KEPT)
                   && (named in s.history ==> s.history[named] == s.row.value.arrangement)))
  {
    var s := Run(INITIAL, before).value;
    RunIsSerial(before);
    AloneIsSerial(s, tx, named, a);
    hide Run, WholeWrite, Undoable;
    if s.row.Some? {
      OverwriteKeepsIff(Table(s.row, s.history), a);
    }
  }

  // ----- every serial log is the log of a run -----

  function StepsOf(e: Event): seq<Step> {
    match e
    case Wrote(named, a) => WholeWrite(0, named, a)
    case WasReset => [ResetScreen]
  }

  /** The events of a log, one whole transaction after the other. */
  function Realised(log: seq<Event>): seq<Step> {
    if log == [] then [] else Realised(log[..|log| - 1]) + StepsOf(log[|log| - 1])
  }

  lemma ResetAlone(s: State)
    requires Idle(s) && s.row.Some?
    ensures Run(s, [ResetScreen])
            == Some(s.(row := None, history := Kept(Table(s.row, s.history)), log := s.log + [WasReset]))
  {
    assert Run(s, []) == Some(s);
    RunSnoc(s, [], ResetScreen);
    assert [] + [ResetScreen] == [ResetScreen];
  }

  /** The state with these tables and this log, and nothing open. */
  function Resting(t: Table, log: seq<Event>): State {
    State(t.row, t.history, None, None, map[], log)
  }

  /** The whole transaction of an event takes a resting state to the next. */
  lemma EventRuns(t: Table, log: seq<Event>, e: Event)
    requires Inv(Resting(t, log)) && After(t, e).Some?
    ensures Run(Resting(t, log), StepsOf(e)) == Some(Resting(After(t, e).value, log + [e]))
  {
    hide Run, Inv, Kept, Trimmed, WholeWrite;
    var s := Resting(t, log);
    match e {
      case Wrote(named, a) => AloneIsSerial(s, 0, named, a);
      case WasReset => ResetAlone(s);
    }
  }

  lemma {:induction false} RealisedGrows(log: seq<Event>)
    requires log != []
    ensures Realised(log) == Realised(log[..|log| - 1]) + StepsOf(log[|log| - 1])
    ensures log == log[..|log| - 1] + [log[|log| - 1]]
  {
    hide StepsOf;
  }

  /** The converse of the serial view: whatever log is legal, some run of the transactions commits exactly it. */
  lemma {:induction false} EveryLogIsRun(log: seq<Event>)
    requires Legal(log)
    ensures Run(INITIAL, Realised(log)) == Some(Resting(Replay(log).value, log))
  {
    if log == [] {
      NothingRun();
    } else {
      var shorter, e := log[..|log| - 1], log[|log| - 1];
      assert Legal(shorter) && Replay(log) == After(Replay(shorter).value, e);
      hide Run, Replay, After, Realised, StepsOf, Inv;
      EveryLogIsRun(shorter);
      RunIsSerial(Realised(shorter));
      RealisedGrows(log);
      EventRuns(Replay(shorter).value, shorter, e);
      RunConcat(INITIAL, Realised(shorter), StepsOf(e));
    }
  }

  lemma NothingRun()
    ensures Run(INITIAL, Realised([])) == Some(Resting(EMPTY, [])) && Replay([]) == Some(EMPTY)
  {
  }
}
