/**
 One change applied to a selection of hosts. On each host it is a chain of
 conditional writes, each on the facts the one before it read back; other writers
 may change the row before every single statement. `others` is what they do: it
 gives the row as the n-th statement finds it.
 */
module BulkEdit {
  import opened Optional
  import opened Order
  import opened Sorting
  import opened Lists
  import opened Tags

  /** What operators record about a host by hand; a write compares all of it. */
  datatype Facts = Facts(
    tags: seq<string>,
    owner: string,
    failureDomain: string,
    site: string,
    environment: string,
    address: string,
    addressSource: string,
    notes: string
  )

  datatype Window = Closed | Open(until: int, reason: string, author: string)

  datatype Row = Row(facts: Facts, window: Window)

  datatype Change = Change(
    tagsAdd: seq<string>,
    tagsRemove: seq<string>,
    owner: Option<string>,
    failureDomain: Option<string>,
    site: Option<string>,
    environment: Option<string>,
    maintenance: Option<Window>
  )

  datatype Write =
    | SetTags(tags: seq<string>)
    | SetOwner(owner: string)
    | SetFailureDomain(domain: string)
    | SetPlacement(site: string, environment: string)

  function Applied(w: Write, f: Facts): Facts {
    match w
    case SetTags(tags) => f.(tags := tags)
    case SetOwner(owner) => f.(owner := owner)
    case SetFailureDomain(domain) => f.(failureDomain := domain)
    case SetPlacement(site, environment) => f.(site := site, environment := environment)
  }

  function AllApplied(writes: seq<Write>, f: Facts): Facts {
    if writes == [] then f else AllApplied(writes[1..], Applied(writes[0], f))
  }

  // ----- what a change asks for -----

  predicate TouchesTags(c: Change) {
    c.tagsAdd != [] || c.tagsRemove != []
  }

  predicate TouchesPlacement(c: Change) {
    c.site.Some? || c.environment.Some?
  }

  function Or(given: Option<string>, else_: string): string {
    if given.Some? then given.value else else_
  }

  function Without(tags: seq<string>, removed: seq<string>): seq<string> {
    if tags == [] then []
    else (if tags[0] in removed then [] else [tags[0]]) + Without(tags[1..], removed)
  }

  function NewTags(c: Change, f: Facts, isTag: string -> bool): Option<seq<string>> {
    NormalTags(Without(f.tags, c.tagsRemove) + c.tagsAdd, isTag)
  }

  /** The facts with the change made, all of it at once. */
  function Requested(c: Change, f: Facts, tags: seq<string>): Facts {
    f.(tags := if TouchesTags(c) then tags else f.tags,
       owner := Or(c.owner, f.owner),
       failureDomain := Or(c.failureDomain, f.failureDomain),
       site := Or(c.site, f.site),
       environment := Or(c.environment, f.environment))
  }

  /** The writes behind a change, in the order of the single routes, worked out on the facts first read. */
  function Writes(c: Change, f: Facts, tags: seq<string>): seq<Write> {
    (if TouchesTags(c) then [SetTags(tags)] else []) +
    ((if c.owner.Some? then [SetOwner(c.owner.value)] else []) +
    ((if c.failureDomain.Some? then [SetFailureDomain(c.failureDomain.value)] else []) +
    (if TouchesPlacement(c) then [SetPlacement(Or(c.site, f.site), Or(c.environment, f.environment))] else [])))
  }

  lemma {:induction false} AppliedConcat(a: seq<Write>, b: seq<Write>, f: Facts)
    ensures AllApplied(a + b, f) == AllApplied(b, AllApplied(a, f))
    decreases |a|
  {
    if a == [] {
      assert a + b == b;
    } else {
      AppliedConcat(a[1..], b, Applied(a[0], f));
      assert (a + b)[1..] == a[1..] + b;
    }
  }

  lemma AppliedOne(w: Write, f: Facts)
    ensures AllApplied([w], f) == Applied(w, f)
  {
    assert [w][1..] == [];
  }

  /** One after the other, the writes make the whole change and nothing else. */
  lemma WritesMakeTheChange(c: Change, f: Facts, tags: seq<string>)
    ensures AllApplied(Writes(c, f, tags), f) == Requested(c, f, tags)
  {
    var a := if TouchesTags(c) then [SetTags(tags)] else [];
    var b := if c.owner.Some? then [SetOwner(c.owner.value)] else [];
    var d := if c.failureDomain.Some? then [SetFailureDomain(c.failureDomain.value)] else [];
    var e := if TouchesPlacement(c) then [SetPlacement(Or(c.site, f.site), Or(c.environment, f.environment))] else [];
    AppliedConcat(a, b + (d + e), f);
    var f1 := AllApplied(a, f);
    AppliedConcat(b, d + e, f1);
    var f2 := AllApplied(b, f1);
    AppliedConcat(d, e, f2);
    AppliedOne(SetTags(tags), f);
    AppliedOne(SetOwner(Or(c.owner, [])), f1);
    AppliedOne(SetFailureDomain(Or(c.failureDomain, [])), f2);
    AppliedOne(SetPlacement(Or(c.site, f.site), Or(c.environment, f.environment)), AllApplied(d, f2));
  }

  lemma {:induction false} WithoutMeans(tags: seq<string>, removed: seq<string>, t: string)
    ensures t in Without(tags, removed) <==> t in tags && t !in removed
  {
    if tags != [] {
      WithoutMeans(tags[1..], removed, t);
      assert tags == [tags[0]] + tags[1..];
    }
  }

  /** A host ends with a tag exactly when it was added, or was there and was not removed. */
  lemma TagRequested(c: Change, f: Facts, isTag: string -> bool, t: string)
    requires Pattern(isTag) && AllTags(f.tags, isTag) && AllTags(c.tagsAdd, isTag)
    requires NewTags(c, f, isTag).Some?
    ensures t in NewTags(c, f, isTag).value <==> t in c.tagsAdd || (t in f.tags && t !in c.tagsRemove)
  {
    var asked := Without(f.tags, c.tagsRemove) + c.tagsAdd;
    forall u | u in asked ensures isTag(u) {
      WithoutMeans(f.tags, c.tagsRemove, u);
    }
    WantedIdle(asked);
    NormalTagsMeans(asked, isTag);
    assert t in NewTags(c, f, isTag).value <==> t in TextsOf(NewTags(c, f, isTag).value);
    assert t in TextsOf(asked) <==> t in asked;
    WithoutMeans(f.tags, c.tagsRemove, t);
  }

  // ----- the chain, statement by statement -----

  type Others = (nat, Option<Row>) -> Option<Row>

  /** One write that landed: the facts it replaced and the facts it left. */
  datatype Landed = Landed(before: Facts, after: Facts)

  datatype End = Done(updated: Row) | ErrChanged | ErrNotFound | ErrInvalid

  /** Where a run is: the row, the number of statements made, the writes landed, and its end or the row last read. */
  datatype Run = Run(row: Option<Row>, clock: nat, landed: seq<Landed>, end: End)

  /**
   One conditional write and its read-back. The update compares the facts; a
   second statement reads the row back, or tells a row that is gone from one that
   changed.
   */
  function WriteOne(r: Run, w: Write, others: Others, accepts: Write -> bool): Run {
    if !r.end.Done? then r
    else if !accepts(w) then r.(end := ErrInvalid)
    else
      var found := others(r.clock, r.row);
      if found.None? || found.value.facts != r.end.updated.facts then
        var then_ := others(r.clock + 1, found);
        Run(then_, r.clock + 2, r.landed, if then_.None? then ErrNotFound else ErrChanged)
      else
        var written := Some(found.value.(facts := Applied(w, found.value.facts)));
        var back := others(r.clock + 1, written);
        Run(back, r.clock + 2, r.landed + [Landed(found.value.facts, written.value.facts)],
            if back.None? then ErrNotFound else Done(back.value))
  }

  function Chain(r: Run, writes: seq<Write>, others: Others, accepts: Write -> bool): Run
    decreases |writes|
  {
    if writes == [] then r else Chain(WriteOne(r, writes[0], others, accepts), writes[1..], others, accepts)
  }

  lemma {:induction false} ChainConcat(r: Run, a: seq<Write>, b: seq<Write>, others: Others, accepts: Write -> bool)
    ensures Chain(r, a + b, others, accepts) == Chain(Chain(r, a, others, accepts), b, others, accepts)
    decreases |a|
  {
    hide WriteOne;
    if a == [] {
      assert a + b == b;
    } else {
      ChainConcat(WriteOne(r, a[0], others, accepts), a[1..], b, others, accepts);
      assert (a + b)[1..] == a[1..] + b;
    }
  }

  /** The window is written last and unconditionally; its facts are left alone. */
  function WriteWindow(r: Run, window: Window, others: Others): Run {
    if !r.end.Done? then r
    else
      var found := others(r.clock, r.row);
      if found.None? then Run(found, r.clock + 1, r.landed, ErrNotFound)
      else
        var back := others(r.clock + 1, Some(found.value.(window := window)));
        Run(back, r.clock + 2, r.landed, if back.None? then ErrNotFound else Done(back.value))
  }

  /**
   What the window write does, whatever the others do: it hands on the row it
   found with nothing but the window changed, lands no fact, and fails exactly
   when the row is gone at one of its two statements.
   */
  lemma WindowMeans(r: Run, window: Window, others: Others)
    requires r.end.Done?
    ensures var t := WriteWindow(r, window, others);
            var found := others(r.clock, r.row);
            && t.landed == r.landed
            && (t.end.ErrNotFound? <==> found.None? || others(r.clock + 1, Some(Row(found.value.facts, window))).None?)
            && (t.end.Done? || t.end.ErrNotFound?)
            && (found.Some? ==> t.row == others(r.clock + 1, Some(Row(found.value.facts, window))))
            && (t.end.Done? ==> t.row == Some(t.end.updated))
  {
  }

  /** With quiet read-backs the facts it returns are the facts it found. */
  lemma QuietWindow(r: Run, window: Window, others: Others)
    requires r.end.Done? && QuietReadBacks(others) && r.clock % 2 == 1
    ensures var t := WriteWindow(r, window, others);
            t.end.Done? ==> others(r.clock, r.row).Some? && t.end.updated.facts == others(r.clock, r.row).value.facts
  {
    WindowMeans(r, window, others);
  }

  // ----- what every run keeps, whatever the others do -----

  /** The landed writes are the first ones of the chain, each applied to the facts it found. */
  ghost predicate Prefix(landed: seq<Landed>, writes: seq<Write>) {
    && |landed| <= |writes|
    && forall i | 0 <= i < |landed| :: landed[i].after == Applied(writes[i], landed[i].before)
  }

  lemma ChainStops(r: Run, writes: seq<Write>, others: Others, accepts: Write -> bool)
    requires !r.end.Done?
    ensures Chain(r, writes, others, accepts) == r
    decreases |writes|
  {
  }

  /**
   A run applies a prefix of its writes: all of them when it ends well, fewer
   when the row had changed or a value was refused, and the first on the facts
   that were read.
   */
  lemma {:induction false} ChainPrefix(r: Run, writes: seq<Write>, others: Others, accepts: Write -> bool)
    requires r.end.Done?
    ensures var t := Chain(r, writes, others, accepts);
            && r.landed <= t.landed
            && Prefix(t.landed[|r.landed|..], writes)
            && (|t.landed| > |r.landed| ==> t.landed[|r.landed|].before == r.end.updated.facts)
            && (t.end.Done? ==> |t.landed| == |r.landed| + |writes|)
            && (t.end.ErrChanged? || t.end.ErrInvalid? ==> |t.landed| < |r.landed| + |writes|)
    decreases |writes|
  {
    hide WriteOne, Prefix, Applied;
    if writes == [] {
      NothingLanded(r.landed);
    } else {
      var next := WriteOne(r, writes[0], others, accepts);
      OneLands(r, writes[0], others, accepts);
      if next.end.Done? {
        ChainPrefix(next, writes[1..], others, accepts);
        PrefixGrows(r.landed, Chain(next, writes[1..], others, accepts).landed, writes, next.landed[|r.landed|]);
      } else {
        ChainStops(next, writes[1..], others, accepts);
        FewLanded(r.landed, next.landed, writes);
      }
    }
  }

  /** What one write leaves: nothing landed, or one write on the facts last read. */
  lemma OneLands(r: Run, w: Write, others: Others, accepts: Write -> bool)
    requires r.end.Done?
    ensures var t := WriteOne(r, w, others, accepts);
            var f := r.end.updated.facts;
            && (t.landed == r.landed || t.landed == r.landed + [Landed(f, Applied(w, f))])
            && (t.end.Done? ==> t.landed == r.landed + [Landed(f, Applied(w, f))])
            && (t.end.ErrChanged? || t.end.ErrInvalid? ==> t.landed == r.landed)
  {
    hide Applied;
  }

  lemma NothingLanded(landed: seq<Landed>)
    ensures landed[|landed|..] == [] && Prefix([], [])
  {
  }

  lemma FewLanded(before: seq<Landed>, after: seq<Landed>, writes: seq<Write>)
    requires writes != [] && before <= after && |after| <= |before| + 1
    requires |after| > |before| ==> after[|before|].after == Applied(writes[0], after[|before|].before)
    ensures Prefix(after[|before|..], writes)
  {
  }

  lemma PrefixGrows(before: seq<Landed>, after: seq<Landed>, writes: seq<Write>, first: Landed)
    requires writes != [] && before + [first] <= after && first.after == Applied(writes[0], first.before)
    requires Prefix(after[|before| + 1..], writes[1..])
    ensures before <= after && Prefix(after[|before|..], writes)
  {
    var tail := after[|before| + 1..];
    assert after[|before|..] == [first] + tail;
    forall i | 0 <= i < |tail| + 1
      ensures ([first] + tail)[i].after == Applied(writes[i], ([first] + tail)[i].before)
    {
      if i > 0 {
        assert ([first] + tail)[i] == tail[i - 1] && writes[1..][i - 1] == writes[i];
      }
    }
  }

  /**
   What one accepted write answers: not-found exactly when the row is gone at the
   end, "changed" exactly when the row found was gone or held other facts than
   those last read and a row is there at the second statement, and success exactly
   when the facts matched and the row could be read back.
   */
  lemma OneAnswers(r: Run, w: Write, others: Others, accepts: Write -> bool)
    requires r.end.Done?
    ensures var t := WriteOne(r, w, others, accepts);
            var found := others(r.clock, r.row);
            var matched := found.Some? && found.value.facts == r.end.updated.facts;
            && (t.end.ErrInvalid? <==> !accepts(w))
            && (!accepts(w) ==> t == r.(end := ErrInvalid))
            && (accepts(w) ==>
                 && (t.end.ErrNotFound? <==> t.row.None?)
                 && (t.end.ErrChanged? <==> !matched && t.row.Some?)
                 && (t.end.Done? <==> matched && t.row.Some?)
                 && (|t.landed| > |r.landed| <==> matched))
  {
  }

  lemma ChainCounts(r: Run, writes: seq<Write>, others: Others, accepts: Write -> bool)
    requires r.end.Done?
    ensures var t := Chain(r, writes, others, accepts);
            && (t.end.Done? ==> |t.landed| == |r.landed| + |writes|)
            && (t.end.ErrChanged? || t.end.ErrInvalid? ==> |t.landed| < |r.landed| + |writes|)
  {
    hide Chain;
    ChainPrefix(r, writes, others, accepts);
  }

  /** The write a run came to its end with: the first that did not land, on the run of those that did. */
  ghost predicate EndedAt(r: Run, writes: seq<Write>, n: nat, t: Run, others: Others, accepts: Write -> bool) {
    && n < |writes|
    && var p := Chain(r, writes[..n], others, accepts);
       p.end.Done? && t == WriteOne(p, writes[n], others, accepts)
  }

  /**
   The same for a whole chain on a stored row. Not-found means the row is gone,
   success that every write landed and the row was read back, and any other end is
   the answer to one write after a successful run of those before it.
   */
  lemma {:induction false} ChainEnds(r: Run, writes: seq<Write>, others: Others, accepts: Write -> bool)
    requires r.end.Done? && r.row.Some?
    ensures var t := Chain(r, writes, others, accepts);
            && (t.end.ErrNotFound? <==> t.row.None?)
            && (t.end.Done? <==> t.row.Some? && |t.landed| == |r.landed| + |writes|)
            && (!t.end.Done? ==> exists n: nat :: EndedAt(r, writes, n, t, others, accepts))
    decreases |writes|
  {
    hide WriteOne;
    if writes != [] {
      ChainCounts(r, writes, others, accepts);
      var next := WriteOne(r, writes[0], others, accepts);
      var t := Chain(r, writes, others, accepts);
      OneAnswers(r, writes[0], others, accepts);
      if next.end.Done? {
        ChainEnds(next, writes[1..], others, accepts);
        OneLands(r, writes[0], others, accepts);
        if !t.end.Done? {
          var n: nat :| EndedAt(next, writes[1..], n, t, others, accepts);
          assert writes[..n + 1] == [writes[0]] + writes[1..][..n];
          assert writes[..n + 1][1..] == writes[1..][..n];
          assert EndedAt(r, writes, n + 1, t, others, accepts);
        }
      } else {
        ChainStops(next, writes[1..], others, accepts);
        assert writes[..0] == [] && Chain(r, writes[..0], others, accepts) == r;
        assert EndedAt(r, writes, 0, t, others, accepts);
      }
    }
  }

  // ----- when the read-backs are quiet -----

  /** The first read is statement 0; the updates are the odd statements and the read-backs the even ones. */
  ghost predicate QuietReadBacks(others: Others) {
    forall k: nat, row: Option<Row> :: k % 2 == 0 && row.Some? && others(k, row).Some? ==>
      others(k, row).value.facts == row.value.facts
  }

  /** Each write landed on exactly what the ones before it left. */
  ghost predicate Exactly(landed: seq<Landed>, writes: seq<Write>, first: Facts) {
    && |landed| <= |writes|
    && forall n | 0 <= n < |landed| :: landed[n].after == AllApplied(writes[..n + 1], first)
  }

  lemma AppliedSnoc(writes: seq<Write>, n: nat, f: Facts)
    requires n < |writes|
    ensures AllApplied(writes[..n + 1], f) == Applied(writes[n], AllApplied(writes[..n], f))
  {
    assert writes[..n + 1] == writes[..n] + [writes[n]];
    AppliedConcat(writes[..n], [writes[n]], f);
    AppliedOne(writes[n], AllApplied(writes[..n], f));
  }

  /**
   With quiet read-backs the chain is exact under any interference before its
   updates: whether it succeeds or stops with "changed", after its last write the
   facts are those first read with a prefix of the change made, all of it on success.
   */
  lemma {:induction false} QuietChain(r: Run, writes: seq<Write>, n: nat, first: Facts, others: Others, accepts: Write -> bool)
    requires QuietReadBacks(others) && n <= |writes| && r.clock % 2 == 1
    requires |r.landed| == n && Exactly(r.landed, writes, first)
    requires r.end.Done? && r.end.updated.facts == AllApplied(writes[..n], first)
    ensures var t := Chain(r, writes[n..], others, accepts);
            && Exactly(t.landed, writes, first)
            && (t.end.Done? ==> t.end.updated.facts == AllApplied(writes, first) && t.clock % 2 == 1)
    decreases |writes| - n
  {
    if n == |writes| {
      assert writes[..n] == writes;
    } else {
      var next := WriteOne(r, writes[n], others, accepts);
      assert writes[n..][1..] == writes[n + 1..];
      AppliedSnoc(writes, n, first);
      if next.end.Done? {
        QuietChain(next, writes, n + 1, first, others, accepts);
      } else {
        ChainStops(next, writes[n + 1..], others, accepts);
      }
    }
  }

  /** The run of a change on a host: its writes, from the row first read. */
  function Edited(row: Option<Row>, host: Row, writes: seq<Write>, others: Others, accepts: Write -> bool): Run {
    Chain(Run(row, 1, [], Done(host)), writes, others, accepts)
  }

  lemma QuietEdit(row: Option<Row>, host: Row, c: Change, tags: seq<string>, others: Others, accepts: Write -> bool)
    requires QuietReadBacks(others)
    ensures var writes := Writes(c, host.facts, tags);
            var t := Edited(row, host, writes, others, accepts);
            && Exactly(t.landed, writes, host.facts)
            && (t.end.Done? && writes != [] ==>
                 |t.landed| == |writes| && t.landed[|writes| - 1].after == Requested(c, host.facts, tags))
            && (t.end.ErrChanged? ==> |t.landed| < |writes|)
            && (t.end.Done? ==> t.end.updated.facts == Requested(c, host.facts, tags) && t.clock % 2 == 1)
  {
    hide Writes, Requested, Chain, WriteOne;
    var writes := Writes(c, host.facts, tags);
    var start := Run(row, 1, [], Done(host));
    assert writes[..0] == [] && writes[0..] == writes && writes[..|writes|] == writes;
    assert AllApplied(writes[..0], host.facts) == host.facts;
    QuietChain(start, writes, 0, host.facts, others, accepts);
    ChainPrefix(start, writes, others, accepts);
    WritesMakeTheChange(c, host.facts, tags);
  }

  // ----- and when they are not -----

  /** A run that succeeded left, after its last write, the facts first read with all its writes made. */
  ghost predicate Exact(row: Option<Row>, host: Row, writes: seq<Write>, others: Others, accepts: Write -> bool) {
    var t := Edited(row, host, writes, others, accepts);
    t.end.Done? && t.landed != [] ==> t.landed[|t.landed| - 1].after == AllApplied(writes, host.facts)
  }

  /** Somebody edits the notes between the first write and its read-back. */
  function Meddled(facts: Facts): Facts {
    facts.(notes := facts.notes + "!")
  }

  function Meddler(): Others {
    (k: nat, row: Option<Row>) =>
      if k == 2 && row.Some? then Some(row.value.(facts := Meddled(row.value.facts))) else row
  }

  lemma {:induction false} NotesStay(writes: seq<Write>, f: Facts)
    ensures AllApplied(writes, f).notes == f.notes
    decreases |writes|
  {
    if writes != [] {
      NotesStay(writes[1..], Applied(writes[0], f));
    }
  }

  /** Nobody interferes after the second statement: the rest of the chain lands as it stands. */
  lemma {:induction false} CalmChain(r: Run, writes: seq<Write>, accepts: Write -> bool)
    requires r.end.Done? && r.row == Some(r.end.updated) && r.clock > 2
    requires forall w | w in writes :: accepts(w)
    requires writes == [] ==> r.landed != [] && r.landed[|r.landed| - 1].after.notes == r.end.updated.facts.notes
    ensures var t := Chain(r, writes, Meddler(), accepts);
            && t.end.Done? && t.landed != []
            && t.landed[|t.landed| - 1].after.notes == r.end.updated.facts.notes
    decreases |writes|
  {
    if writes != [] {
      assert writes[0] in writes;
      var next := WriteOne(r, writes[0], Meddler(), accepts);
      CalmChain(next, writes[1..], accepts);
    }
  }

  /** With two writes or more an edit can slip in unseen, and the change succeeds on other facts. */
  lemma MeddledEdit(host: Row, writes: seq<Write>, accepts: Write -> bool)
    requires |writes| >= 2 && forall w | w in writes :: accepts(w)
    ensures !Exact(Some(host), host, writes, Meddler(), accepts)
  {
    var start := Run(Some(host), 1, [], Done(host));
    assert writes[0] in writes;
    var next := WriteOne(start, writes[0], Meddler(), accepts);
    assert next.end.Done? && next.end.updated.facts.notes == host.facts.notes + "!";
    CalmChain(next, writes[1..], accepts);
    NotesStay(writes, host.facts);
    assert |host.facts.notes + "!"| != |host.facts.notes|;
  }

  lemma OneWriteExact(row: Option<Row>, host: Row, writes: seq<Write>, others: Others, accepts: Write -> bool)
    requires |writes| <= 1
    ensures Exact(row, host, writes, others, accepts)
  {
    if writes != [] {
      var next := WriteOne(Run(row, 1, [], Done(host)), writes[0], others, accepts);
      assert writes[1..] == [] && writes == [writes[0]];
      assert Chain(next, writes[1..], others, accepts) == next;
      AppliedOne(writes[0], host.facts);
    }
  }

  /**
   A success is exact whatever the others do if and only if the change is a
   single write: the read-back is a statement of its own, so from the second
   write on the comparison is with facts somebody else may have left.
   */
  lemma ExactIff(host: Row, writes: seq<Write>, accepts: Write -> bool)
    requires forall w | w in writes :: accepts(w)
    ensures |writes| <= 1 <==> forall others: Others :: Exact(Some(host), host, writes, others, accepts)
  {
    hide Exact;
    if |writes| <= 1 {
      forall others: Others ensures Exact(Some(host), host, writes, others, accepts) {
        OneWriteExact(Some(host), host, writes, others, accepts);
      }
    } else {
      MeddledEdit(host, writes, accepts);
    }
  }

  // ----- the code that runs it -----

  /** The row of one host in the store, and the number of statements this run has made. */
  class HostRow {
    var row: Option<Row>
    var clock: nat
    ghost var landed: seq<Landed>

    ghost function Now(end: End): Run
      reads this
    {
      Run(row, clock, landed, end)
    }

    /** One conditional write of the facts, on the facts of `updated`. */
    method WriteFacts(updated: Row, w: Write, others: Others, accepts: Write -> bool) returns (end: End)
      modifies this
      ensures Now(end) == WriteOne(old(Now(Done(updated))), w, others, accepts)
      ensures end.ErrInvalid? <==> !accepts(w)
      ensures accepts(w) ==>
                var found := others(old(clock), old(row));
                var matched := found.Some? && found.value.facts == updated.facts;
                && (end.ErrNotFound? <==> row.None?)
                && (end.ErrChanged? <==> !matched && row.Some?)
                && (end.Done? <==> matched && row.Some?)
                && (matched ==> row == others(old(clock) + 1, Some(Row(Applied(w, updated.facts), found.value.window))))
    {
      if !accepts(w) {
        return ErrInvalid;
      }
      row, clock := others(clock, row), clock + 1;
      if row.None? || row.value.facts != updated.facts {
        row, clock := others(clock, row), clock + 1;
        return if row.None? then ErrNotFound else ErrChanged;
      }
      landed := landed + [Landed(row.value.facts, Applied(w, row.value.facts))];
      row := Some(row.value.(facts := Applied(w, row.value.facts)));
      row, clock := others(clock, row), clock + 1;
      end := if row.None? then ErrNotFound else Done(row.value);
    }

    /** The window is written unconditionally: the facts go on as they were found, and no fact lands. */
    method SetMaintenanceWindow(ghost updated: Row, window: Window, others: Others) returns (end: End)
      modifies this
      ensures Now(end) == WriteWindow(old(Now(Done(updated))), window, others)
      ensures landed == old(landed)
      ensures var found := others(old(clock), old(row));
              && (found.Some? ==> row == others(old(clock) + 1, Some(Row(found.value.facts, window))))
              && (found.None? ==> row.None?)
              && (end.ErrNotFound? <==> found.None? || row.None?)
              && (!end.ErrNotFound? ==> row.Some? && end == Done(row.value))
    {
      row, clock := others(clock, row), clock + 1;
      if row.None? {
        return ErrNotFound;
      }
      row := Some(row.value.(window := window));
      row, clock := others(clock, row), clock + 1;
      end := if row.None? then ErrNotFound else Done(row.value);
    }

    /** The tags a host keeps and gains, before they are normalised. */
    static method KeptTags(tags: seq<string>, removed: seq<string>, added: seq<string>) returns (asked: seq<string>)
      ensures asked == Without(tags, removed) + added
    {
      asked := [];
      for i := 0 to |tags|
        invariant asked == Without(tags[..i], removed)
      {
        WithoutSnoc(tags[..i], tags[i], removed);
        assert tags[..i + 1] == tags[..i] + [tags[i]];
        if tags[i] !in removed {
          asked := asked + [tags[i]];
        }
      }
      assert tags[..|tags|] == tags;
      asked := asked + added;
    }

    /**
     The change on one host, fact by fact in the order of the single routes: the
     same run as the chain of its writes, followed by the window.
     */
    method WriteBulkChange(host: Row, c: Change, isTag: string -> bool, others: Others, accepts: Write -> bool)
      returns (end: End)
      modifies this
      ensures TouchesTags(c) && NewTags(c, host.facts, isTag).None? ==>
                end == ErrInvalid && Now(end) == old(Now(ErrInvalid))
      ensures !(TouchesTags(c) && NewTags(c, host.facts, isTag).None?) && old(row).Some? ==>
                (end.ErrNotFound? <==> row.None?)
      ensures !(TouchesTags(c) && NewTags(c, host.facts, isTag).None?) ==>
                Now(end) == Finished(old(Now(Done(host))), c, host.facts, AskedTags(c, host.facts, isTag), others, accepts)
    {
      hide Chain, WriteOne, WriteWindow, NewTags;
      ghost var start := Now(Done(host));
      var tags := host.facts.tags;
      if TouchesTags(c) {
        var asked := KeptTags(host.facts.tags, c.tagsRemove, c.tagsAdd);
        var normal := NormalizeTags(asked, isTag);
        assert normal == NewTags(c, host.facts, isTag) by {
          NewTagsAre(c, host.facts, isTag);
        }
        if normal.None? {
          return ErrInvalid;
        }
        tags := normal.value;
      }
      end := WriteAll(host, c, tags, others, accepts);
      if start.row.Some? {
        ChainEnds(start, Writes(c, host.facts, tags), others, accepts);
      }
      if !end.Done? {
        return;
      }
      if c.maintenance.Some? {
        end := SetMaintenanceWindow(end.updated, c.maintenance.value, others);
      }
    }

    method WriteAll(host: Row, c: Change, tags: seq<string>, others: Others, accepts: Write -> bool) returns (end: End)
      modifies this
      ensures Now(end) == Chain(old(Now(Done(host))), Writes(c, host.facts, tags), others, accepts)
    {
      hide Chain, WriteOne;
      ghost var start := Now(Done(host));
      ghost var a := if TouchesTags(c) then [SetTags(tags)] else [];
      ghost var b := if c.owner.Some? then [SetOwner(c.owner.value)] else [];
      ghost var d := if c.failureDomain.Some? then [SetFailureDomain(c.failureDomain.value)] else [];
      ghost var e := if TouchesPlacement(c) then
        [SetPlacement(Or(c.site, host.facts.site), Or(c.environment, host.facts.environment))] else [];
      end := Done(host);
      ChainConcat(start, a, b + (d + e), others, accepts);
      ChainShort(start, a, others, accepts);
      if TouchesTags(c) {
        end := WriteFacts(end.updated, SetTags(tags), others, accepts);
      }
      ghost var r1 := Now(end);
      assert r1 == Chain(start, a, others, accepts);
      ChainConcat(r1, b, d + e, others, accepts);
      ChainShort(r1, b, others, accepts);
      if !end.Done? {
        ChainStops(r1, b + (d + e), others, accepts);
        return;
      }
      if c.owner.Some? {
        end := WriteFacts(end.updated, SetOwner(c.owner.value), others, accepts);
      }
      ghost var r2 := Now(end);
      assert r2 == Chain(r1, b, others, accepts);
      ChainConcat(r2, d, e, others, accepts);
      ChainShort(r2, d, others, accepts);
      if !end.Done? {
        ChainStops(r2, d + e, others, accepts);
        return;
      }
      if c.failureDomain.Some? {
        end := WriteFacts(end.updated, SetFailureDomain(c.failureDomain.value), others, accepts);
      }
      ghost var r3 := Now(end);
      assert r3 == Chain(r2, d, others, accepts);
      ChainShort(r3, e, others, accepts);
      if !end.Done? {
        ChainStops(r3, e, others, accepts);
        return;
      }
      if TouchesPlacement(c) {
        end := WriteFacts(end.updated,
          SetPlacement(Or(c.site, host.facts.site), Or(c.environment, host.facts.environment)), others, accepts);
      }
    }
  }

  lemma NewTagsAre(c: Change, f: Facts, isTag: string -> bool)
    ensures NewTags(c, f, isTag) == NormalTags(Without(f.tags, c.tagsRemove) + c.tagsAdd, isTag)
  {
  }

  function AskedTags(c: Change, f: Facts, isTag: string -> bool): seq<string> {
    if TouchesTags(c) && NewTags(c, f, isTag).Some? then NewTags(c, f, isTag).value else f.tags
  }

  function Finished(r: Run, c: Change, f: Facts, tags: seq<string>, others: Others, accepts: Write -> bool): Run {
    var t := Chain(r, Writes(c, f, tags), others, accepts);
    if t.end.Done? && c.maintenance.Some? then WriteWindow(t, c.maintenance.value, others) else t
  }

  // ----- the theorems, for what the whole edit returns -----

  /** The whole edit of a host whose row was just read: its writes, then the window. */
  function WholeEdit(row: Option<Row>, host: Row, c: Change, tags: seq<string>, others: Others, accepts: Write -> bool): Run {
    Finished(Run(row, 1, [], Done(host)), c, host.facts, tags, others, accepts)
  }

  /** The window step adds no write and hides no refusal: the facts landed are those of the chain. */
  lemma WholeEditLands(row: Option<Row>, host: Row, c: Change, tags: seq<string>, others: Others, accepts: Write -> bool)
    ensures var t := WholeEdit(row, host, c, tags, others, accepts);
            var chain := Edited(row, host, Writes(c, host.facts, tags), others, accepts);
            && t.landed == chain.landed
            && (!chain.end.Done? ==> t == chain)
            && (t.end.Done? ==> chain.end.Done?)
            && (t.end.ErrChanged? || t.end.ErrInvalid? ==> t == chain)
            && (chain.end.Done? && c.maintenance.None? ==> t == chain)
            && (chain.end.Done? && c.maintenance.Some? && others(chain.clock, chain.row).Some? ==>
                 t.row == others(chain.clock + 1, Some(Row(others(chain.clock, chain.row).value.facts, c.maintenance.value))))
  {
    hide Chain, Writes;
    var chain := Edited(row, host, Writes(c, host.facts, tags), others, accepts);
    if chain.end.Done? && c.maintenance.Some? {
      WindowMeans(chain, c.maintenance.value, others);
    }
  }

  /**
   The answers of the whole edit of a stored host: not-found exactly when the row
   is gone, "changed" only from a fact write that found other facts than those last
   read, and success exactly when every write landed and the row was read back.
   */
  lemma WholeEditEnds(host: Row, row: Row, c: Change, tags: seq<string>, others: Others, accepts: Write -> bool)
    ensures var writes := Writes(c, host.facts, tags);
            var t := WholeEdit(Some(row), host, c, tags, others, accepts);
            && (t.end.ErrNotFound? <==> t.row.None?)
            && (t.end.Done? ==> t.row.Some? && |t.landed| == |writes|)
            && (t.end.ErrChanged? || t.end.ErrInvalid? ==>
                 exists n: nat :: EndedAt(Run(Some(row), 1, [], Done(host)), writes, n, t, others, accepts))
  {
    hide Writes, Chain, WriteWindow, EndedAt;
    var writes := Writes(c, host.facts, tags);
    WholeEditLands(Some(row), host, c, tags, others, accepts);
    ChainEnds(Run(Some(row), 1, [], Done(host)), writes, others, accepts);
    var chain := Edited(Some(row), host, writes, others, accepts);
    if chain.end.Done? && c.maintenance.Some? {
      WindowMeans(chain, c.maintenance.value, others);
      WindowGone(chain, c.maintenance.value, others);
    }
  }

  lemma WindowGone(r: Run, window: Window, others: Others)
    requires r.end.Done?
    ensures WriteWindow(r, window, others).end.ErrNotFound? <==> WriteWindow(r, window, others).row.None?
  {
  }

  /**
   With quiet read-backs the edit as a whole is exact: a success landed the whole
   change on the facts first read and returns a row with those facts - or, where a
   window was set, with the facts the window was set on. One that ends in "changed"
   landed a proper prefix of the change and left the window alone.
   */
  lemma QuietWholeEdit(row: Option<Row>, host: Row, c: Change, tags: seq<string>, others: Others, accepts: Write -> bool)
    requires QuietReadBacks(others)
    ensures var writes := Writes(c, host.facts, tags);
            var t := WholeEdit(row, host, c, tags, others, accepts);
            && Exactly(t.landed, writes, host.facts)
            && (t.end.Done? && writes != [] ==>
                 |t.landed| == |writes| && t.landed[|writes| - 1].after == Requested(c, host.facts, tags))
            && (t.end.ErrChanged? ==> |t.landed| < |writes| && t == Edited(row, host, writes, others, accepts))
            && (t.end.Done? && c.maintenance.None? ==> t.end.updated.facts == Requested(c, host.facts, tags))
            && (t.end.Done? && c.maintenance.Some? ==>
                 var chain := Edited(row, host, writes, others, accepts);
                 var found := others(chain.clock, chain.row);
                 found.Some? && t.end.updated.facts == found.value.facts)
  {
    hide Chain, Writes, Requested, Exactly, WriteWindow;
    QuietEdit(row, host, c, tags, others, accepts);
    WholeEditLands(row, host, c, tags, others, accepts);
    var chain := Edited(row, host, Writes(c, host.facts, tags), others, accepts);
    if chain.end.Done? && c.maintenance.Some? {
      QuietWindow(chain, c.maintenance.value, others);
    }
  }

  ghost predicate WholeExact(host: Row, c: Change, tags: seq<string>, others: Others, accepts: Write -> bool) {
    var t := WholeEdit(Some(host), host, c, tags, others, accepts);
    t.end.Done? && t.landed != [] ==> t.landed[|t.landed| - 1].after == Requested(c, host.facts, tags)
  }

  /** Whatever the others do, a success of the whole edit is exact if and only if the change writes at most one fact. */
  lemma WholeExactIff(host: Row, c: Change, tags: seq<string>, accepts: Write -> bool)
    requires forall w | w in Writes(c, host.facts, tags) :: accepts(w)
    ensures |Writes(c, host.facts, tags)| <= 1 <==> forall others: Others :: WholeExact(host, c, tags, others, accepts)
  {
    hide Writes, Requested, WholeEdit, Edited;
    var writes := Writes(c, host.facts, tags);
    WritesMakeTheChange(c, host.facts, tags);
    if |writes| <= 1 {
      forall others: Others ensures WholeExact(host, c, tags, others, accepts) {
        OneWriteExact(Some(host), host, writes, others, accepts);
        WholeEditLands(Some(host), host, c, tags, others, accepts);
      }
    } else {
      MeddledEdit(host, writes, accepts);
      WholeEditLands(Some(host), host, c, tags, Meddler(), accepts);
      MeddledWindow(host, c, tags, accepts);
      assert !WholeExact(host, c, tags, Meddler(), accepts);
    }
  }

  /** Nobody interferes with the window there: the edit as a whole succeeds. */
  lemma MeddledWindow(host: Row, c: Change, tags: seq<string>, accepts: Write -> bool)
    requires |Writes(c, host.facts, tags)| >= 2
    requires Edited(Some(host), host, Writes(c, host.facts, tags), Meddler(), accepts).end.Done?
    ensures WholeEdit(Some(host), host, c, tags, Meddler(), accepts).end.Done?
  {
    hide Writes;
    var writes := Writes(c, host.facts, tags);
    var start := Run(Some(host), 1, [], Done(host));
    var t := Edited(Some(host), host, writes, Meddler(), accepts);
    DoneHasRow(start, writes, Meddler(), accepts);
    hide Chain;
    if c.maintenance.Some? {
      WindowMeans(t, c.maintenance.value, Meddler());
    }
  }

  /** A chain that ends well holds the row it returns, two statements later for every write. */
  lemma {:induction false} DoneHasRow(r: Run, writes: seq<Write>, others: Others, accepts: Write -> bool)
    requires r.end.Done? && r.row.Some?
    requires Chain(r, writes, others, accepts).end.Done?
    ensures Chain(r, writes, others, accepts).row.Some?
    ensures Chain(r, writes, others, accepts).clock == r.clock + 2 * |writes|
    decreases |writes|
  {
    if writes != [] {
      var next := WriteOne(r, writes[0], others, accepts);
      if next.end.Done? {
        DoneHasRow(next, writes[1..], others, accepts);
      } else {
        ChainStops(next, writes[1..], others, accepts);
      }
    }
  }

  lemma ChainShort(r: Run, writes: seq<Write>, others: Others, accepts: Write -> bool)
    requires |writes| <= 1
    ensures Chain(r, writes, others, accepts) == if writes == [] then r else WriteOne(r, writes[0], others, accepts)
  {
    hide WriteOne;
    if writes != [] {
      assert writes[1..] == [];
      assert Chain(WriteOne(r, writes[0], others, accepts), [], others, accepts) == WriteOne(r, writes[0], others, accepts);
    }
  }

  lemma {:induction false} WithoutSnoc(tags: seq<string>, tag: string, removed: seq<string>)
    ensures Without(tags + [tag], removed)
            == if tag in removed then Without(tags, removed) else Without(tags, removed) + [tag]
  {
    if tags == [] {
      assert tags + [tag] == [tag] && [tag][1..] == [];
      assert Without([], removed) == [];
    } else {
      WithoutSnoc(tags[1..], tag, removed);
      WithoutHead(tags, removed);
      WithoutHead(tags + [tag], removed);
      assert (tags + [tag])[0] == tags[0] && (tags + [tag])[1..] == tags[1..] + [tag];
      hide Without;
      Regroup(if tags[0] in removed then [] else [tags[0]], Without(tags[1..], removed), [tag]);
    }
  }

  lemma WithoutHead(tags: seq<string>, removed: seq<string>)
    requires tags != []
    ensures Without(tags, removed) == (if tags[0] in removed then [] else [tags[0]]) + Without(tags[1..], removed)
  {
  }

  // ----- the selection -----

  const MAX_HOSTS: nat := 1000

  datatype Answer = HostsRequired | TooManyHosts | Answered(results: seq<(string, bool)>, applied: nat, failed: nat)

  function Compact(s: seq<string>): seq<string> {
    if s == [] then []
    else
      var last := |s| - 1;
      if last > 0 && s[last] == s[last - 1] then Compact(s[..last]) else Compact(s[..last]) + [s[last]]
  }

  /** Sorted and compacted, each text stands once and in order. */
  lemma {:induction false} CompactMeans(s: seq<string>)
    requires Sorted(s)
    ensures Increasing(Compact(s)) && TextsOf(Compact(s)) == TextsOf(s)
    ensures s != [] ==> Compact(s) != [] && Compact(s)[|Compact(s)| - 1] == s[|s| - 1]
  {
    hide Less;
    if s != [] {
      var last := |s| - 1;
      var rest := s[..last];
      var c := Compact(rest);
      CompactMeans(rest);
      assert s == rest + [s[last]];
      assert TextsOf(s) == TextsOf(rest) + {s[last]};
      if last > 0 && s[last] == s[last - 1] {
        assert s[last - 1] == rest[last - 1] && rest[last - 1] in rest;
      } else {
        assert TextsOf(c + [s[last]]) == TextsOf(c) + {s[last]};
        forall i | 0 <= i < |c| ensures Less(c[i], s[last]) {
          LastIsLess(s, c, i);
        }
      }
    }
  }

  lemma LastIsLess(s: seq<string>, c: seq<string>, i: nat)
    requires Sorted(s) && |s| >= 2 && s[|s| - 1] != s[|s| - 2]
    requires Increasing(c) && i < |c| && c[|c| - 1] == s[|s| - 2]
    ensures Less(c[i], s[|s| - 1])
  {
    assert AtMost(s[|s| - 2], s[|s| - 1]);
    if i < |c| - 1 {
      Transitive(c[i], c[|c| - 1], s[|s| - 1]);
    }
  }

  function Applying(apply: string -> bool, ids: seq<string>): set<string> {
    set id | id in ids && apply(id)
  }

  function Failing(apply: string -> bool, ids: seq<string>): set<string> {
    set id | id in ids && !apply(id)
  }

  /** What a selection is answered with; `apply` is the outcome of the one application to the host a text names. */
  function Answers(hostIDs: seq<string>, apply: string -> bool): Answer {
    if hostIDs == [] then HostsRequired
    else if |hostIDs| > MAX_HOSTS then TooManyHosts
    else
      var ids := Compact(Sort(hostIDs));
      Answered(seq(|ids|, i requires 0 <= i < |ids| => (ids[i], apply(ids[i]))),
               |Applying(apply, ids)|, |Failing(apply, ids)|)
  }

  /**
   The loop over the selection: every distinct text is answered once, in order,
   and the two counters add up to the number of distinct texts.
   */
  method EditHosts(hostIDs: seq<string>, apply: string -> bool) returns (answer: Answer)
    ensures answer == Answers(hostIDs, apply)
    ensures answer.HostsRequired? <==> hostIDs == []
    ensures answer.TooManyHosts? <==> |hostIDs| > MAX_HOSTS
    ensures answer.Answered? ==>
              && answer.applied + answer.failed == |TextsOf(hostIDs)| == |answer.results|
              && answer.applied == |Applying(apply, hostIDs)|
    ensures answer.Answered? ==>
              && (forall i, j | 0 <= i < j < |answer.results| :: Less(answer.results[i].0, answer.results[j].0))
              && (forall i | 0 <= i < |answer.results| ::
                   answer.results[i].0 in hostIDs && answer.results[i].1 == apply(answer.results[i].0))
  {
    if |hostIDs| == 0 {
      return HostsRequired;
    }
    if |hostIDs| > MAX_HOSTS {
      return TooManyHosts;
    }
    var ids := Compact(Sort(hostIDs));
    SelectionMeans(hostIDs);
    AnswersMean(hostIDs, apply);
    hide Less, Sort, Compact, TextsOf, Increasing, Applying, Failing, NoRepeats;
    var results, applied, failed := AnswerEach(ids, apply);
    assert results == seq(|ids|, i requires 0 <= i < |ids| => (ids[i], apply(ids[i])));
    answer := Answered(results, applied, failed);
  }

  /** The loop itself, over texts none of which is repeated. */
  method AnswerEach(ids: seq<string>, apply: string -> bool)
    returns (results: seq<(string, bool)>, applied: nat, failed: nat)
    requires NoRepeats(ids)
    ensures |results| == |ids| && forall k | 0 <= k < |ids| :: results[k] == (ids[k], apply(ids[k]))
    ensures applied == |Applying(apply, ids)| && failed == |Failing(apply, ids)|
  {
    hide Applying, Failing, NoRepeats;
    NobodyApplies(apply);
    assert ids[..0] == [];
    results, applied, failed := [], 0, 0;
    for i := 0 to |ids|
      invariant |results| == i
      invariant forall k | 0 <= k < i :: results[k] == (ids[k], apply(ids[k]))
      invariant applied == |Applying(apply, ids[..i])| && failed == |Failing(apply, ids[..i])|
    {
      ApplyingSnoc(apply, ids, i);
      if apply(ids[i]) {
        applied := applied + 1;
      } else {
        failed := failed + 1;
      }
      results := results + [(ids[i], apply(ids[i]))];
    }
    assert ids[..|ids|] == ids;
  }

  lemma NobodyApplies(apply: string -> bool)
    ensures |Applying(apply, [])| == 0 && |Failing(apply, [])| == 0
  {
    assert Applying(apply, []) == {} && Failing(apply, []) == {};
  }

  /** What an answer says: each distinct text once, in order, and the counters add up to them. */
  lemma AnswersMean(hostIDs: seq<string>, apply: string -> bool)
    requires 0 < |hostIDs| <= MAX_HOSTS
    ensures var answer := Answers(hostIDs, apply);
            && answer.Answered?
            && answer.applied + answer.failed == |TextsOf(hostIDs)| == |answer.results|
            && answer.applied == |Applying(apply, hostIDs)|
            && (forall i, j | 0 <= i < j < |answer.results| :: Less(answer.results[i].0, answer.results[j].0))
            && (forall i | 0 <= i < |answer.results| ::
                 answer.results[i].0 in hostIDs && answer.results[i].1 == apply(answer.results[i].0))
  {
    var ids := Compact(Sort(hostIDs));
    SelectionMeans(hostIDs);
    hide Sort, Compact, Less;
    var all, yes, no := TextsOf(ids), Applying(apply, ids), Failing(apply, ids);
    assert all == yes + no && yes !! no;
    assert yes == Applying(apply, hostIDs);
    NoRepeatsCount(ids);
  }

  lemma SelectionMeans(hostIDs: seq<string>)
    ensures var ids := Compact(Sort(hostIDs));
            && Increasing(ids) && NoRepeats(ids)
            && |ids| == |TextsOf(hostIDs)|
            && forall id :: id in ids <==> id in hostIDs
  {
    hide Less;
    var ids := Compact(Sort(hostIDs));
    SortSorted(hostIDs);
    CompactMeans(Sort(hostIDs));
    forall i, j | 0 <= i < j < |ids| ensures ids[i] != ids[j] {
      Asymmetric(ids[i], ids[j]);
    }
    NoRepeatsCount(ids);
    forall id ensures id in ids <==> id in hostIDs {
      SortMembers(hostIDs, id);
      assert id in ids <==> id in TextsOf(ids);
      assert id in Sort(hostIDs) <==> id in TextsOf(Sort(hostIDs));
    }
    assert TextsOf(ids) == TextsOf(hostIDs);
  }

  lemma ApplyingSnoc(apply: string -> bool, ids: seq<string>, i: nat)
    requires NoRepeats(ids) && i < |ids|
    ensures |Applying(apply, ids[..i + 1])| == |Applying(apply, ids[..i])| + if apply(ids[i]) then 1 else 0
    ensures |Failing(apply, ids[..i + 1])| == |Failing(apply, ids[..i])| + if apply(ids[i]) then 0 else 1
  {
    assert ids[..i + 1] == ids[..i] + [ids[i]];
    assert ids[i] !in ids[..i];
    if apply(ids[i]) {
      assert Applying(apply, ids[..i + 1]) == Applying(apply, ids[..i]) + {ids[i]};
      assert Failing(apply, ids[..i + 1]) == Failing(apply, ids[..i]);
    } else {
      assert Applying(apply, ids[..i + 1]) == Applying(apply, ids[..i]);
      assert Failing(apply, ids[..i + 1]) == Failing(apply, ids[..i]) + {ids[i]};
    }
  }

  lemma {:induction false} ImageSize(texts: set<string>, host: string -> string)
    ensures |Hosts(texts, host)| <= |texts|
    ensures |Hosts(texts, host)| == |texts| <==>
              forall a, b | a in texts && b in texts :: host(a) == host(b) ==> a == b
  {
    if texts != {} {
      var t :| t in texts;
      var rest := texts - {t};
      ImageSize(rest, host);
      assert texts == rest + {t};
      assert Hosts(texts, host) == Hosts(rest, host) + {host(t)};
      if host(t) in Hosts(rest, host) {
        var u :| u in rest && host(u) == host(t);
        assert Hosts(texts, host) == Hosts(rest, host);
      }
    }
  }

  function Hosts(texts: set<string>, host: string -> string): set<string> {
    set t | t in texts :: host(t)
  }

  /**
   The counters count hosts exactly when no host is named by two spellings: a text
   is compared as it was written, so a host named twice in different spellings is
   answered twice. `host` gives the host a text names.
   */
  lemma AnsweredPerHostIff(hostIDs: seq<string>, apply: string -> bool, host: string -> string)
    requires 0 < |hostIDs| <= MAX_HOSTS
    ensures var answer := Answers(hostIDs, apply);
            && answer.Answered?
            && (answer.applied + answer.failed == |Hosts(TextsOf(hostIDs), host)| <==>
                forall a, b | a in hostIDs && b in hostIDs :: host(a) == host(b) ==> a == b)
  {
    AnswersMean(hostIDs, apply);
    hide Answers;
    ImageSize(TextsOf(hostIDs), host);
    assert forall t :: t in hostIDs <==> t in TextsOf(hostIDs);
  }

  /** The identifier of the witness below, and the same in capitals. */
  const ONE_HOST := "00000000-0000-0000-0000-00000000000a"
  const CAPITALS := "00000000-0000-0000-0000-00000000000A"

  /** One host in two spellings is answered twice. */
  lemma TwoSpellingsAnsweredTwice(apply: string -> bool, host: string -> string)
    requires host(ONE_HOST) == host(CAPITALS)
    ensures var answer := Answers([ONE_HOST, CAPITALS], apply);
            && answer.Answered? && |answer.results| == 2 && answer.applied + answer.failed == 2
            && |Hosts(TextsOf([ONE_HOST, CAPITALS]), host)| == 1
  {
    AnswersMean([ONE_HOST, CAPITALS], apply);
    hide Answers;
    assert ONE_HOST[35] != CAPITALS[35];
    assert TextsOf([ONE_HOST, CAPITALS]) == {ONE_HOST, CAPITALS};
    assert Hosts({ONE_HOST, CAPITALS}, host) == {host(ONE_HOST)};
  }
}
