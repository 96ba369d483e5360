/**
 A reset, statement by statement, among the other changes of the screen. Its keep
 reads the stored row when the statement starts and inserts it into the history
 when the key is its turn; its delete takes whatever row is stored by then. What
 committed before, while the keep ran and after it is `log`, `during` and `after`;
 the other changes are whole events, which `LayoutTransactions` shows they amount to.
 */
module ResetStatements {
  import opened Optional
  import opened ScreenLayout

  /** What the keep inserts: the row it read, unless the revision is taken when it inserts. */
  function Inserted(saw: Table, mid: Table): History {
    if saw.row.None? || saw.row.value.revision in mid.history then map[]
    else map[saw.row.value.revision := saw.row.value.arrangement]
  }

  /** `saw` is the table the keep read, `mid` the one it inserted into, `t` the one the delete found. */
  function SplitReset(saw: Table, mid: Table, t: Table): Option<Table> {
    if t.row.None? then None else Some(Table(None, t.history + Inserted(saw, mid)))
  }

  /** With nothing committed in between, the two statements are the one-step reset. */
  lemma SplitResetAlone(t: Table)
    ensures SplitReset(t, t, t) == Reset(t)
  {
    if t.row.Some? {
      assert t.history + Inserted(t, t) == Kept(t);
    }
  }

  /** Exactly when the two statements keep the row they delete, for any three tables. */
  lemma SplitResetKeepsIff(saw: Table, mid: Table, t: Table)
    requires t.row.Some?
    ensures var row := t.row.value;
            var after := SplitReset(saw, mid, t);
            && after.Some?
            && (Undoable(after.value.history, row) <==>
                if row.revision in Inserted(saw, mid) then saw.row == Some(row)
                else row.revision in t.history && t.history[row.revision] == row.arrangement)
  {
  }

  // ----- what can commit in between -----

  /**
   Every change of a stored row keeps the row first, and an inserted, uncommitted
   key makes another insert of it wait: nothing commits over a row at that revision.
   */
  ghost predicate Unblocked(base: seq<Event>, after: seq<Event>, revision: nat) {
    forall i | 0 <= i < |after| ::
      Legal(base + after[..i]) && RevisionOf(Replay(base + after[..i]).value.row) != revision
  }

  /** The commits around a reset: legal, and after the keep none that would wait for its key. */
  ghost predicate Overtakes(log: seq<Event>, during: seq<Event>, after: seq<Event>) {
    && Legal(log) && Legal(log + during) && Legal(log + during + after)
    && (Inserted(Replay(log).value, Replay(log + during).value) != map[] ==>
         Unblocked(log + during, after, RevisionOf(Replay(log).value.row)))
  }

  ghost function Saw(log: seq<Event>): Table
    requires Legal(log)
  {
    Replay(log).value
  }

  /** The history a reset leaves behind, among these commits. */
  ghost function LeftBehind(log: seq<Event>, during: seq<Event>, after: seq<Event>): History
    requires Overtakes(log, during, after) && Saw(log + during + after).row.Some?
  {
    SplitReset(Saw(log), Saw(log + during), Saw(log + during + after)).value.history
  }

  /** A change of a row at another revision does not bring a revision into the history. */
  lemma StaysFree(t: Table, e: Event, revision: nat)
    requires After(t, e).Some? && revision !in t.history && RevisionOf(t.row) != revision
    ensures revision !in After(t, e).value.history
  {
  }

  lemma {:induction false} StillFree(base: seq<Event>, after: seq<Event>, revision: nat)
    requires Legal(base) && Legal(base + after) && revision !in Saw(base).history
    requires Unblocked(base, after, revision)
    ensures revision !in Saw(base + after).history
    decreases |after|
  {
    if after == [] {
      assert base + after == base;
    } else {
      var last := |after| - 1;
      assert (base + after)[..|base + after| - 1] == base + after[..last];
      assert forall i | 0 <= i < last :: after[..last][..i] == after[..i];
      StillFree(base, after[..last], revision);
      StaysFree(Saw(base + after[..last]), after[last], revision);
    }
  }

  /** A keep that inserted as it read lets nothing commit before the delete. */
  lemma InsertedExcludes(log: seq<Event>, after: seq<Event>)
    requires Overtakes(log, [], after) && Inserted(Saw(log), Saw(log)) != map[]
    ensures after == []
  {
    assert log + [] == log && log + after[..0] == log;
  }

  // ----- exactly when the deleted row is kept -----

  /**
   Over every log and everything that can commit around the two statements, resets
   included: the deleted row is kept exactly when its revision is already in the
   history with that arrangement, or it is free and the keep inserted that very row.
   */
  lemma SplitResetOverLogs(log: seq<Event>, during: seq<Event>, after: seq<Event>)
    requires Overtakes(log, during, after) && Saw(log + during + after).row.Some?
    ensures var t := Saw(log + during + after);
            var row := t.row.value;
            Undoable(LeftBehind(log, during, after), row) <==>
              if row.revision in t.history then t.history[row.revision] == row.arrangement
              else Saw(log).row == Some(row) && row.revision !in Saw(log + during).history
  {
    hide Legal, Unblocked;
    var saw, mid, t := Saw(log), Saw(log + during), Saw(log + during + after);
    SplitResetKeepsIff(saw, mid, t);
    if Inserted(saw, mid) != map[] {
      StillFree(log + during, after, saw.row.value.revision);
    }
  }

  /** When the keep inserts what it reads at once, a free revision is kept exactly when nothing committed before the delete. */
  lemma PromptKeepIff(log: seq<Event>, after: seq<Event>)
    requires Overtakes(log, [], after) && Saw(log + [] + after).row.Some?
    ensures var t := Saw(log + [] + after);
            var row := t.row.value;
            Undoable(LeftBehind(log, [], after), row) <==>
              if row.revision in t.history then t.history[row.revision] == row.arrangement else after == []
  {
    assert log + [] == log;
    SplitResetOverLogs(log, [], after);
    if Inserted(Saw(log), Saw(log)) != map[] {
      InsertedExcludes(log, after);
    }
    if after == [] {
      assert log + [] + after == log;
    }
  }

  /** The same for a keep that waited, as long as nobody else reset the screen. */
  lemma WithoutResetIff(log: seq<Event>, during: seq<Event>, after: seq<Event>)
    requires Overtakes(log, during, after) && Saw(log + during + after).row.Some?
    requires WasReset !in during + after
    ensures var t := Saw(log + during + after);
            var row := t.row.value;
            Undoable(LeftBehind(log, during, after), row) <==>
              if row.revision in t.history then t.history[row.revision] == row.arrangement else during + after == []
  {
    var whole := log + during + after;
    SplitResetOverLogs(log, during, after);
    RevisionsCount(log);
    RevisionsCount(whole);
    assert whole[..|log|] == log && whole[..|whole|] == whole;
    if during + after == [] {
      assert whole == log && log + during == log;
    } else {
      forall k | |log| <= k < |whole| ensures whole[k].Wrote? {
        assert whole[k] == (during + after)[k - |log|];
      }
      CountGrows(whole, |log|, |whole|);
    }
  }

  /** In a first epoch the row is lost by every write that overtakes the delete, the first one included. */
  lemma FirstEpochIff(log: seq<Event>, during: seq<Event>, after: seq<Event>)
    requires Overtakes(log, during, after) && log + during + after != []
    requires forall e | e in log + during + after :: e.Wrote?
    ensures Saw(log + during + after).row.Some?
    ensures Undoable(LeftBehind(log, during, after), Saw(log + during + after).row.value) <==> during + after == []
  {
    HistoryWithoutReset(log + during + after);
    assert forall e | e in during + after :: e in log + during + after;
    WithoutResetIff(log, during, after);
  }

  /** A write that commits while the keep runs is deleted without ever having been kept. */
  lemma SplitResetLosesTheWrite(log: seq<Event>, arrangement: Arrangement)
    requires Legal(log) && forall e | e in log :: e.Wrote?
    ensures var during := [Wrote(|log|, arrangement)];
            && Overtakes(log, during, [])
            && Saw(log + during + []).row == Some(Row(|log| + 1, arrangement))
            && |log| + 1 !in LeftBehind(log, during, [])
  {
    var during := [Wrote(|log|, arrangement)];
    HistoryWithoutReset(log);
    ReplayStep(log, Wrote(|log|, arrangement));
    HistoryWithoutReset(log + during);
    assert log + during + [] == log + during;
  }

  /** A first write after the keep found no row, on any log: it is kept only where an older epoch left its like at revision 1. */
  lemma FirstWriteIff(log: seq<Event>, arrangement: Arrangement)
    requires Legal(log) && Saw(log).row.None?
    ensures var after := [Wrote(0, arrangement)];
            && Overtakes(log, [], after)
            && Saw(log + [] + after) == Table(Some(Row(1, arrangement)), Saw(log).history)
            && (Undoable(LeftBehind(log, [], after), Row(1, arrangement)) <==>
                1 in Saw(log).history && Saw(log).history[1] == arrangement)
  {
    assert log + [] == log;
    ReplayStep(log, Wrote(0, arrangement));
    PromptKeepIff(log, [Wrote(0, arrangement)]);
  }

  // ----- a row that comes back -----

  /** Twelve writes, a reset and a first write: revision 1 is free and stale at once. */
  function Stale12(x: Arrangement, a: Arrangement): seq<Event> {
    Writes(12, x) + [WasReset] + [Wrote(0, a)]
  }

  lemma Stale12Table(x: Arrangement, a: Arrangement)
    ensures Legal(Stale12(x, a))
    ensures var t := Saw(Stale12(x, a));
            && t.row == Some(Row(1, a))
            && forall r: nat :: r in t.history <==> 2 <= r <= 12
  {
    var writes := Writes(12, x);
    WritesAreLegal(12, x);
    HistoryWithoutReset(writes);
    ReplayStep(writes, WasReset);
    ReplayStep(writes + [WasReset], Wrote(0, a));
  }

  /** An overwrite of such a row keeps revision 1 and trims it in the same transaction. */
  lemma OverwriteTrimsOne(t: Table, b: Arrangement)
    requires t.row.Some? && t.row.value.revision == 1 && forall r: nat :: r in t.history <==> 2 <= r <= 12
    ensures Write(t, 1, b).Some?
    ensures var after := Write(t, 1, b).value;
            after.row == Some(Row(2, b)) && forall r: nat :: r in after.history <==> 3 <= r <= 12
  {
    var kept := Kept(t);
    forall r | r in kept ensures Stale(kept, r) <==> r <= 2 {
      assert 12 in kept;
    }
  }

  /**
   Commits in between need not lose the row. The keep waits for an overwrite whose
   own undo entry is trimmed away again, inserts the revision it read, and a reset
   and a first write then bring the same row back before the delete.
   */
  lemma SameRowComesBack(x: Arrangement, a: Arrangement, b: Arrangement)
    ensures var log, during, after := Stale12(x, a), [Wrote(1, b)], [WasReset] + [Wrote(0, a)];
            && Overtakes(log, during, after)
            && Saw(log + during + after).row == Some(Row(1, a))
            && 1 !in Saw(log + during + after).history
            && Undoable(LeftBehind(log, during, after), Row(1, a))
  {
    hide Replay, Writes, Stale12;
    var log, during := Stale12(x, a), [Wrote(1, b)];
    Stale12Table(x, a);
    ReplayStep(log, Wrote(1, b));
    OverwriteTrimsOne(Saw(log), b);
    var base := log + during;
    var one := [WasReset];
    var two := one + [Wrote(0, a)];
    ReplayStep(base, WasReset);
    ReplayStep(base + one, Wrote(0, a));
    assert base + one + [Wrote(0, a)] == base + two;
    assert two[..0] == [] && base + [] == base && two[..1] == one;
    assert Unblocked(base, two, 1);
    SplitResetOverLogs(log, during, two);
  }
}
