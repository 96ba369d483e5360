/**
 The shared arrangement of one screen: a single row with a revision, an undo
 history keyed by revision, and the two changes the panel makes to them.

 This module is the serial view: what one write or one reset does when nothing
 runs beside it. `LayoutTransactions` shows that every interleaving of the real
 transactions amounts to some serial log of these.
 */
module ScreenLayout {
  import opened Optional
  import opened Widgets

  /** How many replaced arrangements the trim keeps. */
  const HISTORY_KEPT: nat := 10

  datatype Arrangement = Arrangement(widgets: seq<Widget>, author: string, reason: string)
  datatype Row = Row(revision: nat, arrangement: Arrangement)
  type History = map<nat, Arrangement>
  datatype Table = Table(row: Option<Row>, history: History)

  const EMPTY := Table(None, map[])

  /** The revision a reader is told; an absent row reads as 0. */
  function RevisionOf(row: Option<Row>): nat {
    if row.Some? then row.value.revision else 0
  }

  /** The keep statement: the stored row joins the history unless its revision is taken. */
  function Kept(t: Table): History {
    if t.row.None? || t.row.value.revision in t.history then t.history
    else t.history[t.row.value.revision := t.row.value.arrangement]
  }

  /** A revision at or below the newest kept one minus HISTORY_KEPT. */
  predicate Stale(h: History, r: nat) {
    exists newest | newest in h :: r + HISTORY_KEPT <= newest
  }

  function StaleIn(h: History): set<nat> {
    set r | r in h && Stale(h, r)
  }

  function Trimmed(h: History): History {
    h - StaleIn(h)
  }

  /** One write naming the revision it was decided on; None is the conflict answer. */
  function Write(t: Table, named: int, arrangement: Arrangement): Option<Table> {
    if RevisionOf(t.row) != named then None
    else if named == 0 then Some(Table(Some(Row(1, arrangement)), t.history))
    else Some(Table(Some(Row(named + 1, arrangement)), Trimmed(Kept(t))))
  }

  /** One reset; None is the answer for a screen with nothing stored. */
  function Reset(t: Table): Option<Table> {
    if t.row.None? then None else Some(Table(None, Kept(t)))
  }

  datatype Event = Wrote(named: int, arrangement: Arrangement) | WasReset

  function After(t: Table, e: Event): Option<Table> {
    match e
    case Wrote(named, arrangement) => Write(t, named, arrangement)
    case WasReset => Reset(t)
  }

  /** The table after a serial log, or None when some event of it would have been refused. */
  function Replay(log: seq<Event>): Option<Table> {
    if log == [] then Some(EMPTY)
    else
      var before := Replay(log[..|log| - 1]);
      if before.None? then None else After(before.value, log[|log| - 1])
  }

  predicate Legal(log: seq<Event>) {
    Replay(log).Some?
  }

  lemma {:induction false} PrefixLegal(log: seq<Event>, i: nat)
    requires Legal(log) && i <= |log|
    ensures Legal(log[..i])
  {
    if i == |log| {
      assert log[..i] == log;
    } else {
      PrefixLegal(log[..|log| - 1], i);
      assert log[..|log| - 1][..i] == log[..i];
    }
  }

  lemma ReplaySplits(log: seq<Event>, i: nat)
    requires Legal(log) && i < |log|
    ensures Legal(log[..i]) && Legal(log[..i + 1])
    ensures Replay(log[..i + 1]) == After(Replay(log[..i]).value, log[i])
  {
    PrefixLegal(log, i + 1);
    assert log[..i + 1][..i] == log[..i];
  }

  // ----- revisions -----

  /** How many writes the log holds since its last reset. */
  function WritesSinceReset(log: seq<Event>): nat {
    if log == [] || log[|log| - 1].WasReset? then 0
    else 1 + WritesSinceReset(log[..|log| - 1])
  }

  /** Committed revisions run 1, 2, 3, ... within an epoch, and the row holds the last write. */
  lemma {:induction false} RevisionsCount(log: seq<Event>)
    requires Legal(log)
    ensures var t := Replay(log).value;
            && RevisionOf(t.row) == WritesSinceReset(log)
            && (t.row.Some? <==> WritesSinceReset(log) > 0)
            && (t.row.Some? ==>
                  && log[|log| - 1].Wrote?
                  && log[|log| - 1].named == WritesSinceReset(log) - 1
                  && t.row.value.arrangement == log[|log| - 1].arrangement)
  {
    if log != [] {
      RevisionsCount(log[..|log| - 1]);
    }
  }

  /** The counter only grows until a reset, so a number that comes back has a reset behind it. */
  lemma {:induction false} CountGrows(log: seq<Event>, i: nat, j: nat)
    requires i <= j <= |log|
    requires forall k | i <= k < j :: log[k].Wrote?
    ensures WritesSinceReset(log[..j]) == WritesSinceReset(log[..i]) + (j - i)
  {
    if i < j {
      assert log[..j][..j - 1] == log[..j - 1];
      CountGrows(log, i, j - 1);
    }
  }

  /** Between two resets at most one of the writes naming the same revision is in the log. */
  lemma OneCommitPerRevision(log: seq<Event>, i: nat, j: nat)
    requires Legal(log) && i < j < |log|
    requires log[i].Wrote? && log[j].Wrote? && log[i].named == log[j].named
    ensures exists k | i < k < j :: log[k].WasReset?
  {
    if forall k | i < k < j :: log[k].Wrote? {
      ReplaySplits(log, i);
      ReplaySplits(log, j);
      RevisionsCount(log[..i]);
      RevisionsCount(log[..j]);
      CountGrows(log, i, j);
      assert false;
    }
    var k :| i < k < j && !log[k].Wrote?;
    assert log[k].WasReset?;
  }

  /** A write that names a revision above 0 replaces exactly what the event before it stored at that revision. */
  lemma ReplacesWhatItNamed(log: seq<Event>, i: nat)
    requires Legal(log) && i < |log| && log[i].Wrote?
    ensures Legal(log[..i]) && Legal(log[..i + 1])
    ensures log[i].named == WritesSinceReset(log[..i])
    ensures Replay(log[..i + 1]).value.row == Some(Row(log[i].named + 1, log[i].arrangement))
    ensures log[i].named == 0 ==> Replay(log[..i]).value.row == None
    ensures log[i].named > 0 ==>
              && i > 0 && log[i - 1].Wrote? && log[i - 1].named == log[i].named - 1
              && Replay(log[..i]).value.row == Some(Row(log[i].named, log[i - 1].arrangement))
  {
    ReplaySplits(log, i);
    RevisionsCount(log[..i]);
  }

  // ----- the history of a log without resets -----

  /** The history under a row at revision n when nothing but the last ten revisions was ever in it. */
  ghost predicate Window(h: History, n: nat) {
    forall r: nat :: r in h <==> 1 <= r < n && n <= r + HISTORY_KEPT
  }

  /** An overwrite moves the window by one and adds the replaced arrangement at its top. */
  lemma OverwriteMovesWindow(t: Table, arrangement: Arrangement)
    requires t.row.Some? && t.row.value.revision > 0 && Window(t.history, t.row.value.revision)
    ensures var row := t.row.value;
            var after := Write(t, row.revision, arrangement);
            && after.Some? && after.value.row == Some(Row(row.revision + 1, arrangement))
            && Window(after.value.history, row.revision + 1)
            && (forall r | r in after.value.history ::
                  after.value.history[r] == if r == row.revision then row.arrangement else t.history[r])
  {
    var n := t.row.value.revision;
    var kept := Kept(t);
    forall r | r in kept
      ensures Stale(kept, r) <==> r + HISTORY_KEPT <= n
    {
      assert n in kept;
    }
  }

  /** Without a reset the history is exactly the last ten replaced revisions, each as it was stored. */
  lemma {:induction false} HistoryWithoutReset(log: seq<Event>)
    requires Legal(log) && forall e | e in log :: e.Wrote?
    ensures RevisionOf(Replay(log).value.row) == |log|
    ensures log != [] ==> Replay(log).value.row == Some(Row(|log|, log[|log| - 1].arrangement))
    ensures Window(Replay(log).value.history, |log|)
    ensures forall r | r in Replay(log).value.history :: Replay(log).value.history[r] == log[r - 1].arrangement
  {
    if log != [] {
      var shorter := log[..|log| - 1];
      HistoryWithoutReset(shorter);
      if shorter != [] {
        OverwriteMovesWindow(Replay(shorter).value, log[|log| - 1].arrangement);
      }
    }
  }

  // ----- how large the history gets -----

  /** n consecutive revisions from lo. */
  ghost function Span(lo: nat, n: nat): (revisions: set<nat>)
    ensures |revisions| == n
    ensures forall x: nat :: x in revisions <==> lo <= x < lo + n
  {
    if n == 0 then {} else Span(lo, n - 1) + {lo + n - 1}
  }

  lemma KeyCount(h: History, lo: nat, n: nat)
    requires forall r: nat :: r in h <==> lo <= r < lo + n
    ensures |h| == n
  {
    assert h.Keys == Span(lo, n);
  }

  lemma SubsetSize<T>(small: set<T>, large: set<T>)
    requires small <= large
    ensures |small| <= |large|
  {
    assert large == small + (large - small);
  }

  lemma {:induction false} Least(s: set<nat>) returns (lo: nat)
    requires s != {}
    ensures lo in s && forall x | x in s :: lo <= x
  {
    var x :| x in s;
    if s == {x} {
      lo := x;
    } else {
      lo := Least(s - {x});
      assert forall y | y in s :: y == x || y in s - {x};
      lo := if x < lo then x else lo;
    }
  }

  /** A trimmed history spans fewer than ten revisions end to end, so it holds at most ten. */
  lemma TrimmedSize(h: History)
    ensures |Trimmed(h)| <= HISTORY_KEPT
  {
    var keys := Trimmed(h).Keys;
    if keys != {} {
      var lo := Least(keys);
      assert !Stale(h, lo);
      SubsetSize(keys, Span(lo, HISTORY_KEPT));
    }
  }

  ghost predicate Bounded(t: Table) {
    && (RevisionOf(t.row) >= 2 ==> |t.history| <= HISTORY_KEPT)
    && |t.history.Keys - {1}| <= HISTORY_KEPT + 1
  }

  lemma BoundedKeeps(t: Table, e: Event)
    requires Bounded(t) && After(t, e).Some?
    requires t.row.Some? ==> t.row.value.revision >= 1
    ensures Bounded(After(t, e).value)
  {
    var t' := After(t, e).value;
    match e
    case Wrote(named, _) =>
      if named > 0 {
        TrimmedSize(Kept(t));
        SubsetSize(t'.history.Keys - {1}, t'.history.Keys);
      }
    case WasReset =>
      var revision := t.row.value.revision;
      if revision == 1 {
        assert t'.history.Keys - {1} == t.history.Keys - {1};
      } else {
        SubsetSize(t'.history.Keys - {1}, t.history.Keys + {revision});
      }
  }

  /** Over every serial log the history holds at most ten entries after an overwrite and twelve ever. */
  lemma {:induction false} HistoryBound(log: seq<Event>)
    requires Legal(log)
    ensures Bounded(Replay(log).value)
    ensures |Replay(log).value.history| <= HISTORY_KEPT + 2
    ensures log != [] && log[|log| - 1].Wrote? && log[|log| - 1].named > 0 ==>
              |Replay(log).value.history| <= HISTORY_KEPT
  {
    RevisionsCount(log);
    if log == [] {
      assert EMPTY.history.Keys - {1} == {};
    } else {
      HistoryBound(log[..|log| - 1]);
      RevisionsCount(log[..|log| - 1]);
      BoundedKeeps(Replay(log[..|log| - 1]).value, log[|log| - 1]);
    }
    var keys := Replay(log).value.history.Keys;
    SubsetSize(keys, (keys - {1}) + {1});
  }

  // ----- is the arrangement being replaced really kept? -----

  /** The undo entry of revision r shows what the row held. */
  ghost predicate Undoable(h: History, row: Row) {
    row.revision in h && h[row.revision] == row.arrangement
  }

  /**
   The keep statement promises that what a write replaces is kept before it is
   gone. Exactly when that comes true: no kept revision is ten or more ahead, and
   the revision is not already taken by another arrangement.
   */
  lemma OverwriteKeepsIff(t: Table, arrangement: Arrangement)
    requires t.row.Some? && t.row.value.revision > 0
    ensures var row := t.row.value;
            var after := Write(t, row.revision, arrangement);
            && after.Some?
            && (Undoable(after.value.history, row) <==>
                && (forall newest | newest in t.history :: newest < row.revision + HISTORY_KEPT)
                && (row.revision in t.history ==> t.history[row.revision] == row.arrangement))
  {
    var row := t.row.value;
    var kept := Kept(t);
    if Stale(kept, row.revision) {
      var newest :| newest in kept && row.revision + HISTORY_KEPT <= newest;
      assert newest in t.history;
    }
    assert forall newest | newest in t.history :: newest in kept;
    assert kept[row.revision] == if row.revision in t.history then t.history[row.revision] else row.arrangement;
  }

  /** The same question for a reset, which never trims. */
  lemma ResetKeepsIff(t: Table)
    requires t.row.Some?
    ensures Reset(t).Some?
    ensures Undoable(Reset(t).value.history, t.row.value) <==>
              (t.row.value.revision in t.history ==> t.history[t.row.value.revision] == t.row.value.arrangement)
    ensures forall r | r in t.history :: r in Reset(t).value.history && Reset(t).value.history[r] == t.history[r]
  {
  }

  /** Within one epoch from an empty history every replaced arrangement is kept. */
  lemma OverwriteKeepsWithoutReset(log: seq<Event>, arrangement: Arrangement)
    requires Legal(log) && log != [] && forall e | e in log :: e.Wrote?
    ensures var t := Replay(log).value;
            && t.row.Some?
            && Write(t, t.row.value.revision, arrangement).Some?
            && Undoable(Write(t, t.row.value.revision, arrangement).value.history, t.row.value)
  {
    HistoryWithoutReset(log);
    OverwriteKeepsIff(Replay(log).value, arrangement);
  }

  // ----- the two places where resets show -----

  /** n writes in a row of the same arrangement, naming 0, 1, ..., n - 1. */
  function Writes(n: nat, arrangement: Arrangement): seq<Event> {
    seq(n, (i: nat) => Wrote(i, arrangement))
  }

  lemma {:induction false} WritesAreLegal(n: nat, arrangement: Arrangement)
    ensures Legal(Writes(n, arrangement))
  {
    if n > 0 {
      WritesAreLegal(n - 1, arrangement);
      var shorter := Writes(n - 1, arrangement);
      assert Writes(n, arrangement)[..n - 1] == shorter;
      HistoryWithoutReset(shorter);
    }
  }

  lemma ReplayStep(log: seq<Event>, e: Event)
    requires Legal(log)
    ensures Replay(log + [e]) == After(Replay(log).value, e)
  {
    assert (log + [e])[..|log|] == log;
  }

  /**
   The new epoch's first undo entry goes at once. Whenever the history a reset left
   behind reaches revision 11 or more, the second write after it trims what it kept.
   */
  lemma UndoLostAfterReset(t: Table, first: Arrangement, second: Arrangement)
    requires t.row.None? && exists newest | newest in t.history :: newest > HISTORY_KEPT
    ensures Write(t, 0, first).Some?
    ensures Write(Write(t, 0, first).value, 1, second).Some?
    ensures !Undoable(Write(Write(t, 0, first).value, 1, second).value.history, Row(1, first))
  {
    var newest :| newest in t.history && newest > HISTORY_KEPT;
    OverwriteKeepsIff(Write(t, 0, first).value, second);
  }

  /** Such a table is reached: eleven writes and a reset. */
  lemma ElevenWritesThenReset(a: Arrangement)
    ensures var log := Writes(11, a) + [WasReset];
            && Legal(log)
            && Replay(log).value.row.None?
            && 11 in Replay(log).value.history
  {
    WritesAreLegal(11, a);
    HistoryWithoutReset(Writes(11, a));
    ReplayStep(Writes(11, a), WasReset);
  }

  /** The bound of twelve is reached, so it cannot be lowered. */
  lemma TwelveIsReached(a: Arrangement)
    ensures var log := Writes(12, a) + [WasReset] + [Wrote(0, a)] + [WasReset];
            Legal(log) && |Replay(log).value.history| == HISTORY_KEPT + 2
  {
    var writes := Writes(12, a);
    WritesAreLegal(12, a);
    HistoryWithoutReset(writes);
    var t := Replay(writes).value;
    var reset := writes + [WasReset];
    var again := reset + [Wrote(0, a)];
    ReplayStep(writes, WasReset);
    ReplayStep(reset, Wrote(0, a));
    ReplayStep(again, WasReset);
    KeysAfterTwoResets(t, a);
  }

  /** Revisions 2 to 11 kept under a row at 12: two resets with one write between them make it twelve entries. */
  lemma KeysAfterTwoResets(t: Table, a: Arrangement)
    requires t.row.Some? && t.row.value.revision == 12
    requires forall r: nat :: r in t.history <==> 2 <= r < 12
    ensures Reset(t).Some? && Write(Reset(t).value, 0, a).Some?
    ensures Reset(Write(Reset(t).value, 0, a).value).Some?
    ensures |Reset(Write(Reset(t).value, 0, a).value).value.history| == HISTORY_KEPT + 2
  {
    KeyCount(Reset(Write(Reset(t).value, 0, a).value).value.history, 1, 12);
  }
}
