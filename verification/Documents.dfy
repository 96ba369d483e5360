/**
 The structured files of the support bundle as values: what a declared key
 addresses in a parsed document, and what dropping it leaves.
 */
module Documents {
  import opened Optional
  import opened Text

  datatype Value = Null | Flag(flag: bool) | Number(digits: string) | Word(text: string)

  /** JSON has string keys only; a YAML mapping may have others, which no path names. */
  datatype Key = Named(name: string) | Unnamed(value: Value)

  datatype Doc =
    | Scalar(value: Value)
    | Items(items: seq<Doc>)
    | Fields(fields: map<Key, Doc>)

  const HIDDEN := Scalar(Word("[redacted]"))

  /** One segment of a declared path; `list` is the "[]" suffix. */
  datatype Segment = Segment(name: string, list: bool)

  type Path = seq<Segment>

  function SegmentOf(text: string): Segment {
    if |text| >= 2 && text[|text| - 2..] == "[]" then Segment(text[..|text| - 2], true) else Segment(text, false)
  }

  /** A declared key, split at its dots. */
  function PathOf(key: string): (path: Path)
    ensures path != []
  {
    var parts := Split(key, '.');
    seq(|parts|, i requires 0 <= i < |parts| => SegmentOf(parts[i]))
  }

  // ----- positions -----

  datatype Step = Field(key: Key) | Index(index: nat)

  type Position = seq<Step>

  /** What stands at a position, if the document reaches that far. */
  function At(d: Doc, pos: Position): Option<Doc> {
    if pos == [] then Some(d)
    else
      match pos[0]
      case Field(key) => if d.Fields? && key in d.fields then At(d.fields[key], pos[1..]) else None
      case Index(i) => if d.Items? && i < |d.items| then At(d.items[i], pos[1..]) else None
  }

  /** How many steps a position a path describes has. */
  function Width(path: Path): nat {
    if path == [] then 0 else (if path[0].list then 2 else 1) + Width(path[1..])
  }

  /** The positions a path describes: each segment a field, a list segment also any element of it. */
  predicate Fits(path: Path, pos: Position) {
    if path == [] then pos == []
    else if path[0].list then
      |pos| >= 2 && pos[0] == Field(Named(path[0].name)) && pos[1].Index? && Fits(path[1..], pos[2..])
    else
      |pos| >= 1 && pos[0] == Field(Named(path[0].name)) && Fits(path[1..], pos[1..])
  }

  /** A path addresses the positions it describes that the document has. */
  predicate Addressed(d: Doc, path: Path, pos: Position) {
    path != [] && Fits(path, pos) && At(d, pos).Some?
  }

  /** At or below an addressed position. */
  predicate Covered(d: Doc, path: Path, pos: Position) {
    |pos| >= Width(path) && Addressed(d, path, pos[..Width(path)])
  }

  lemma {:induction false} FitsWidth(path: Path, pos: Position)
    requires Fits(path, pos)
    ensures |pos| == Width(path)
  {
    if path != [] {
      FitsWidth(path[1..], pos[if path[0].list then 2 else 1..]);
    }
  }

  // ----- dropping -----

  /** What dropping a path leaves of a document. */
  function Drop(d: Doc, path: Path): Doc
    decreases |path|, 1
  {
    if path == [] || !d.Fields? || Named(path[0].name) !in d.fields then d
    else
      var key := Named(path[0].name);
      Fields(d.fields[key := DropEntry(d.fields[key], path)])
  }

  function DropEntry(entry: Doc, path: Path): Doc
    requires path != []
    decreases |path|, 0
  {
    if path[0].list then
      if !entry.Items? then entry
      else if |path| == 1 then Items(seq(|entry.items|, _ => HIDDEN))
      else Items(seq(|entry.items|, i requires 0 <= i < |entry.items| => Drop(entry.items[i], path[1..])))
    else if |path| == 1 then HIDDEN
    else Drop(entry, path[1..])
  }

  /** How many values the drop says it replaced. */
  function Count(d: Doc, path: Path): nat
    decreases |path|, 1, 0
  {
    if path == [] || !d.Fields? || Named(path[0].name) !in d.fields then 0
    else CountEntry(d.fields[Named(path[0].name)], path)
  }

  function CountEntry(entry: Doc, path: Path): nat
    requires path != []
    decreases |path|, 0, 0
  {
    if path[0].list then
      if !entry.Items? then 0
      else if |path| == 1 then |entry.items|
      else CountItems(entry.items, path[1..])
    else if |path| == 1 then 1
    else Count(entry, path[1..])
  }

  function CountItems(items: seq<Doc>, path: Path): nat
    decreases |path|, 2, |items|
  {
    if items == [] then 0
    else CountItems(items[..|items| - 1], path) + Count(items[|items| - 1], path)
  }

  /** What of a value shows at its own position: the scalar, the length or the keys. */
  datatype Shell = OfScalar(value: Value) | OfItems(length: nat) | OfFields(keys: set<Key>)

  function ShellOf(d: Doc): Shell {
    match d
    case Scalar(value) => OfScalar(value)
    case Items(items) => OfItems(|items|)
    case Fields(fields) => OfFields(fields.Keys)
  }

  lemma WidthStep(path: Path)
    requires path != []
    ensures Width(path) == (if path[0].list then 2 else 1) + Width(path[1..])
    ensures |path| == 1 ==> path[1..] == [] && Width(path[1..]) == 0
  {
  }

  /** One plain segment of cover: the field has to be there. */
  lemma CoveredField(d: Doc, path: Path, pos: Position)
    requires path != [] && !path[0].list
    ensures Covered(d, path, pos) <==>
              && pos != [] && pos[0] == Field(Named(path[0].name)) && d.Fields? && pos[0].key in d.fields
              && (|path| == 1 || Covered(d.fields[pos[0].key], path[1..], pos[1..]))
  {
    WidthStep(path);
    var w := Width(path);
    if |pos| >= w {
      assert pos[..w][1..] == pos[1..][..w - 1];
      assert pos[..w][0] == pos[0];
      if |path| == 1 {
        assert pos[..w][1..] == [];
        assert Fits(path[1..], pos[..w][1..]);
        if pos[0].Field? && d.Fields? && pos[0].key in d.fields {
          assert At(d, pos[..w]) == At(d.fields[pos[0].key], pos[..w][1..]) == Some(d.fields[pos[0].key]);
        }
      }
    }
  }

  /** One list segment of cover: the field has to hold a list with that element. */
  lemma CoveredItem(d: Doc, path: Path, pos: Position)
    requires path != [] && path[0].list
    ensures Covered(d, path, pos) <==>
              && |pos| >= 2 && pos[0] == Field(Named(path[0].name)) && d.Fields? && pos[0].key in d.fields
              && var entry := d.fields[pos[0].key];
                 && pos[1].Index? && entry.Items? && pos[1].index < |entry.items|
                 && (|path| == 1 || Covered(entry.items[pos[1].index], path[1..], pos[2..]))
  {
    WidthStep(path);
    var w := Width(path);
    if |pos| >= w {
      var head := pos[..w];
      assert head[2..] == pos[2..][..w - 2];
      assert head[0] == pos[0] && head[1] == pos[1];
      if |path| == 1 {
        assert head[2..] == [];
        assert Fits(path[1..], head[2..]);
      }
      if head[0].Field? && head[1].Index? {
        AtTwo(d, head);
      }
    }
  }

  lemma AtTwo(d: Doc, pos: Position)
    requires |pos| >= 2 && pos[0].Field? && pos[1].Index?
    ensures At(d, pos) ==
              if d.Fields? && pos[0].key in d.fields && d.fields[pos[0].key].Items?
                 && pos[1].index < |d.fields[pos[0].key].items|
              then At(d.fields[pos[0].key].items[pos[1].index], pos[2..]) else None
  {
    assert pos[1..][0] == pos[1];
    assert pos[1..][1..] == pos[2..];
  }

  /** What a drop does to one position, given whether the position is covered and is the hit itself. */
  ghost predicate Exact(covered: bool, hit: bool, was: Option<Doc>, now: Option<Doc>) {
    if covered then now == if hit then Some(HIDDEN) else None
    else
      && (now.Some? <==> was.Some?)
      && (was.Some? ==> ShellOf(now.value) == ShellOf(was.value))
  }

  /**
   Dropping is exact. At every addressed position stands the redacted value and
   nothing below it; every other position is there as before with the same
   scalar, length or keys.
   */
  lemma {:induction false} AtDrop(d: Doc, path: Path, pos: Position)
    requires path != []
    ensures Exact(Covered(d, path, pos), |pos| == Width(path), At(d, pos), At(Drop(d, path), pos))
    decreases |path|
  {
    WidthStep(path);
    if path[0].list {
      CoveredItem(d, path, pos);
    } else {
      CoveredField(d, path, pos);
    }
    if d.Fields? && pos != [] && pos[0] == Field(Named(path[0].name)) && pos[0].key in d.fields {
      var entry := d.fields[pos[0].key];
      if !path[0].list {
        if |path| > 1 {
          AtDrop(entry, path[1..], pos[1..]);
        }
      } else if |pos| >= 2 && pos[1].Index? && entry.Items? && pos[1].index < |entry.items| {
        AtTwo(d, pos);
        AtTwo(Drop(d, path), pos);
        if |path| > 1 {
          AtDrop(entry.items[pos[1].index], path[1..], pos[2..]);
        }
      }
    }
  }

  // ----- several keys -----

  /** The loop over the declared keys, as a fold. */
  function DropAll(d: Doc, paths: seq<Path>): Doc {
    if paths == [] then d else Drop(DropAll(d, paths[..|paths| - 1]), paths[|paths| - 1])
  }

  /** Two drops of one entry, in either order, also where one path is a prefix of the other. */
  lemma {:induction false} EntryCommutes(entry: Doc, p: Path, q: Path)
    requires p != [] && q != [] && p[0].name == q[0].name
    ensures DropEntry(DropEntry(entry, p), q) == DropEntry(DropEntry(entry, q), p)
    decreases |p|, 0
  {
    if p[0].list && q[0].list {
      if entry.Items? && |p| > 1 && |q| > 1 {
        forall i | 0 <= i < |entry.items| {
          DropCommutes(entry.items[i], p[1..], q[1..]);
        }
      }
    } else if !p[0].list && !q[0].list && |p| > 1 && |q| > 1 {
      DropCommutes(entry, p[1..], q[1..]);
    }
  }

  /** Drops commute. */
  lemma {:induction false} DropCommutes(d: Doc, p: Path, q: Path)
    ensures Drop(Drop(d, p), q) == Drop(Drop(d, q), p)
    decreases |p|, 1
  {
    if p != [] && q != [] && d.Fields? {
      if p[0].name == q[0].name {
        EntryCommutes(if Named(p[0].name) in d.fields then d.fields[Named(p[0].name)] else d, p, q);
      }
    }
  }

  /** A path dropped once addresses nothing more to drop. */
  lemma {:induction false} DropIdempotent(d: Doc, p: Path)
    ensures Drop(Drop(d, p), p) == Drop(d, p)
    decreases |p|
  {
    if p != [] && d.Fields? && Named(p[0].name) in d.fields {
      var entry := d.fields[Named(p[0].name)];
      if |p| > 1 {
        if !p[0].list {
          DropIdempotent(entry, p[1..]);
        } else if entry.Items? {
          forall i | 0 <= i < |entry.items| {
            DropIdempotent(entry.items[i], p[1..]);
          }
          assert DropEntry(DropEntry(entry, p), p).items == DropEntry(entry, p).items;
        }
      }
    }
  }

  lemma {:induction false} DropPastAll(d: Doc, paths: seq<Path>, p: Path)
    ensures Drop(DropAll(d, paths), p) == DropAll(Drop(d, p), paths)
  {
    if paths != [] {
      var rest, last := paths[..|paths| - 1], paths[|paths| - 1];
      DropCommutes(DropAll(d, rest), last, p);
      DropPastAll(d, rest, p);
    }
  }

  lemma {:induction false} AllPastAll(d: Doc, ps: seq<Path>, qs: seq<Path>)
    ensures DropAll(DropAll(d, ps), qs) == DropAll(DropAll(d, qs), ps)
  {
    if qs != [] {
      var rest, last := qs[..|qs| - 1], qs[|qs| - 1];
      AllPastAll(d, ps, rest);
      DropPastAll(DropAll(d, rest), ps, last);
    }
  }

  /** After the loop, dropping any of its keys again changes nothing. */
  lemma {:induction false} AllAbsorbs(d: Doc, paths: seq<Path>, p: Path)
    requires p in paths
    ensures Drop(DropAll(d, paths), p) == DropAll(d, paths)
  {
    var rest, last := paths[..|paths| - 1], paths[|paths| - 1];
    if p == last {
      DropIdempotent(DropAll(d, rest), p);
    } else {
      AllAbsorbs(d, rest, p);
      DropCommutes(DropAll(d, rest), last, p);
    }
  }

  lemma {:induction false} AllAbsorbsAll(d: Doc, ps: seq<Path>, qs: seq<Path>)
    requires forall q | q in qs :: q in ps
    ensures DropAll(DropAll(d, ps), qs) == DropAll(d, ps)
  {
    if qs != [] {
      AllAbsorbsAll(d, ps, qs[..|qs| - 1]);
      AllAbsorbs(d, ps, qs[|qs| - 1]);
    }
  }

  /** The document depends only on which keys are declared, not on their order or repetition. */
  lemma OrderDoesNotMatter(d: Doc, ps: seq<Path>, qs: seq<Path>)
    requires forall p :: p in ps <==> p in qs
    ensures DropAll(d, ps) == DropAll(d, qs)
  {
    AllAbsorbsAll(d, ps, qs);
    AllAbsorbsAll(d, qs, ps);
    AllPastAll(d, ps, qs);
  }

  /** After the loop no position any key addresses holds anything but the redacted value. */
  lemma NothingSecretLeft(d: Doc, paths: seq<Path>, p: Path, pos: Position)
    requires p in paths && p != []
    ensures Addressed(DropAll(d, paths), p, pos) ==> At(DropAll(d, paths), pos) == Some(HIDDEN)
    ensures Addressed(d, p, pos) ==>
              At(DropAll(d, paths), pos) == Some(HIDDEN) || At(DropAll(d, paths), pos) == None
  {
    var after := DropAll(d, paths);
    AllAbsorbs(d, paths, p);
    if Addressed(after, p, pos) {
      FitsWidth(p, pos);
      assert pos[..Width(p)] == pos;
      AtDrop(after, p, pos);
    }
  }

  /** Dropping never makes a position, so it never makes a position covered. */
  lemma CoverShrinks(d: Doc, p: Path, q: Path, pos: Position)
    requires p != [] && Covered(Drop(d, p), q, pos)
    ensures Covered(d, q, pos)
  {
    var head := pos[..Width(q)];
    AtDrop(d, p, head);
    assert |head| == Width(p) ==> head[..Width(p)] == head;
  }

  /** Every position no key covers shows after the loop what it showed before. */
  lemma {:induction false} RestUntouched(d: Doc, paths: seq<Path>, pos: Position)
    requires [] !in paths
    requires forall p | p in paths :: !Covered(d, p, pos)
    ensures Exact(false, false, At(d, pos), At(DropAll(d, paths), pos))
    ensures forall q | !Covered(d, q, pos) :: !Covered(DropAll(d, paths), q, pos)
  {
    if paths != [] {
      var rest, last := paths[..|paths| - 1], paths[|paths| - 1];
      RestUntouched(d, rest, pos);
      AtDrop(DropAll(d, rest), last, pos);
      forall q | !Covered(d, q, pos)
        ensures !Covered(DropAll(d, paths), q, pos)
      {
        if Covered(DropAll(d, paths), q, pos) {
          CoverShrinks(DropAll(d, rest), last, q, pos);
        }
      }
    }
  }

  // ----- what the drop counts -----

  function Prefixed(steps: Position, tails: set<Position>): set<Position> {
    set tail | tail in tails :: steps + tail
  }

  lemma {:induction false} PrefixedSize(steps: Position, tails: set<Position>)
    ensures |Prefixed(steps, tails)| == |tails|
    decreases |tails|
  {
    if tails != {} {
      var tail :| tail in tails;
      var rest := tails - {tail};
      PrefixedSize(steps, rest);
      assert steps + tail !in Prefixed(steps, rest) by {
        forall other | other in rest
          ensures steps + other != steps + tail
        {
          assert (steps + other)[|steps|..] == other;
          assert (steps + tail)[|steps|..] == tail;
        }
      }
      assert Prefixed(steps, tails) == Prefixed(steps, rest) + {steps + tail};
    }
  }

  lemma PrefixedMember(steps: Position, tails: set<Position>, pos: Position)
    ensures pos in Prefixed(steps, tails) <==> steps <= pos && pos[|steps|..] in tails
  {
    if pos in Prefixed(steps, tails) {
      var tail :| tail in tails && pos == steps + tail;
      assert pos[|steps|..] == tail;
    }
    if steps <= pos {
      assert steps + pos[|steps|..] == pos;
    }
  }

  /** The positions a path addresses, collected. The empty path stands for the value itself. */
  function Targets(d: Doc, path: Path): set<Position>
    decreases |path|, 1, 0
  {
    if path == [] then {[]}
    else if !d.Fields? || Named(path[0].name) !in d.fields then {}
    else
      var key := Named(path[0].name);
      var entry := d.fields[key];
      if !path[0].list then Prefixed([Field(key)], Targets(entry, path[1..]))
      else if entry.Items? then TargetsIn(key, entry.items, path[1..])
      else {}
  }

  function TargetsIn(key: Key, items: seq<Doc>, path: Path): set<Position>
    decreases |path|, 2, |items|
  {
    if items == [] then {}
    else
      var n := |items| - 1;
      TargetsIn(key, items[..n], path) + Prefixed([Field(key), Index(n)], Targets(items[n], path))
  }

  lemma {:induction false} TargetsInIff(key: Key, items: seq<Doc>, path: Path, pos: Position)
    ensures pos in TargetsIn(key, items, path) <==>
              && |pos| >= 2 && pos[0] == Field(key) && pos[1].Index? && pos[1].index < |items|
              && pos[2..] in Targets(items[pos[1].index], path)
    decreases |items|
  {
    if items != [] {
      var n := |items| - 1;
      TargetsInIff(key, items[..n], path, pos);
      PrefixedMember([Field(key), Index(n)], Targets(items[n], path), pos);
      if |pos| >= 2 && pos[0] == Field(key) && pos[1] == Index(n) {
        assert pos[..2] == [Field(key), Index(n)];
      }
    }
  }

  /** The collection is exactly the addressed positions. */
  lemma {:induction false} TargetsIff(d: Doc, path: Path, pos: Position)
    ensures pos in Targets(d, path) <==> Fits(path, pos) && At(d, pos).Some?
    decreases |path|
  {
    if path != [] && d.Fields? && Named(path[0].name) in d.fields {
      var key := Named(path[0].name);
      var entry := d.fields[key];
      if !path[0].list {
        PrefixedMember([Field(key)], Targets(entry, path[1..]), pos);
        if pos != [] && pos[0] == Field(key) {
          assert pos[..1] == [Field(key)];
          TargetsIff(entry, path[1..], pos[1..]);
        }
      } else if |pos| >= 2 && pos[0] == Field(key) && pos[1].Index? {
        AtTwo(d, pos);
        if entry.Items? {
          TargetsInIff(key, entry.items, path[1..], pos);
          if pos[1].index < |entry.items| {
            TargetsIff(entry.items[pos[1].index], path[1..], pos[2..]);
          }
        }
      } else if entry.Items? {
        TargetsInIff(key, entry.items, path[1..], pos);
      }
    }
  }

  lemma {:induction false} TargetsInSize(key: Key, items: seq<Doc>, path: Path)
    ensures |TargetsIn(key, items, path)| == if path == [] then |items| else CountItems(items, path)
    decreases |path|, 2, |items|
  {
    hide Prefixed, Targets, Count;
    if items != [] {
      var n := |items| - 1;
      var last := Prefixed([Field(key), Index(n)], Targets(items[n], path));
      TargetsInSize(key, items[..n], path);
      TargetsSize(items[n], path);
      PrefixedSize([Field(key), Index(n)], Targets(items[n], path));
      forall pos | pos in last
        ensures pos !in TargetsIn(key, items[..n], path)
      {
        PrefixedMember([Field(key), Index(n)], Targets(items[n], path), pos);
        TargetsInIff(key, items[..n], path, pos);
      }
    }
  }

  /** The count a drop returns is the number of positions its path addresses. */
  lemma {:induction false} TargetsSize(d: Doc, path: Path)
    ensures |Targets(d, path)| == if path == [] then 1 else Count(d, path)
    decreases |path|, 1, 0
  {
    if path != [] && d.Fields? && Named(path[0].name) in d.fields {
      var key := Named(path[0].name);
      var entry := d.fields[key];
      if !path[0].list {
        TargetsSize(entry, path[1..]);
        PrefixedSize([Field(key)], Targets(entry, path[1..]));
      } else if entry.Items? {
        TargetsInSize(key, entry.items, path[1..]);
      }
    }
  }

  lemma {:induction false} AtPrefix(d: Doc, pos: Position, k: nat)
    requires k <= |pos| && At(d, pos).Some?
    ensures At(d, pos[..k]).Some?
    decreases k
  {
    if k > 0 {
      assert pos[..k][1..] == pos[1..][..k - 1];
      match pos[0]
      case Field(key) => AtPrefix(d.fields[key], pos[1..], k - 1);
      case Index(i) => AtPrefix(d.items[i], pos[1..], k - 1);
    }
  }

  /** The position lies properly below one the path describes. */
  predicate Under(path: Path, pos: Position) {
    |pos| > Width(path) && Fits(path, pos[..Width(path)])
  }

  /** What survives the drops of some keys: every position not below one of them. */
  lemma {:induction false} SurvivesIff(d: Doc, paths: seq<Path>, pos: Position)
    requires [] !in paths
    ensures At(DropAll(d, paths), pos).Some? <==>
              At(d, pos).Some? && forall p | p in paths :: !Under(p, pos)
  {
    if paths != [] {
      var rest, last := paths[..|paths| - 1], paths[|paths| - 1];
      SurvivesIff(d, rest, pos);
      SurvivesOne(DropAll(d, rest), last, pos);
      assert last in paths;
      assert forall p | p in rest :: p in paths;
      assert forall p | p in paths :: p in rest || p == last;
    }
  }

  lemma SurvivesOne(d: Doc, path: Path, pos: Position)
    requires path != []
    ensures At(Drop(d, path), pos).Some? <==> At(d, pos).Some? && !Under(path, pos)
  {
    AtDrop(d, path, pos);
    if At(d, pos).Some? && |pos| >= Width(path) {
      AtPrefix(d, pos, Width(path));
    }
    assert |pos| == Width(path) ==> pos[..Width(path)] == pos;
  }

  /** The positions a path addresses that lie below none of the earlier paths. */
  function TargetsPast(d: Doc, earlier: seq<Path>, path: Path): set<Position> {
    set pos | pos in Targets(d, path) && forall p | p in earlier :: !Under(p, pos)
  }

  /**
   The accounting of the manifest. A key reached after others counts exactly the
   positions it addresses in the collected document that lie below none of them.
   */
  lemma CountAfter(d: Doc, earlier: seq<Path>, path: Path)
    requires [] !in earlier && path != []
    ensures Count(DropAll(d, earlier), path) == |TargetsPast(d, earlier, path)|
  {
    var counted := TargetsPast(d, earlier, path);
    forall pos
      ensures pos in Targets(DropAll(d, earlier), path) <==> pos in counted
    {
      TargetsIff(DropAll(d, earlier), path, pos);
      TargetsIff(d, path, pos);
      SurvivesIff(d, earlier, pos);
    }
    assert Targets(DropAll(d, earlier), path) == counted;
    TargetsSize(DropAll(d, earlier), path);
  }

  lemma {:induction false} SmallerSet(part: set<Position>, whole: set<Position>)
    requires part <= whole
    ensures |part| <= |whole|
    ensures |part| == |whole| ==> part == whole
  {
    if part != {} {
      var pos :| pos in part;
      SmallerSet(part - {pos}, whole - {pos});
      assert part == (part - {pos}) + {pos} && whole == (whole - {pos}) + {pos};
    }
  }

  /** Keys dropped earlier leave a key its full count exactly when none of its positions lies below one of theirs. */
  lemma FullCountIff(d: Doc, earlier: seq<Path>, path: Path)
    requires [] !in earlier && path != []
    ensures Count(DropAll(d, earlier), path) <= Count(d, path)
    ensures Count(DropAll(d, earlier), path) == Count(d, path) <==>
              forall p, pos | p in earlier && pos in Targets(d, path) :: !Under(p, pos)
  {
    hide Count, DropAll, Targets, Under;
    CountAfter(d, earlier, path);
    TargetsSize(d, path);
    SmallerSet(TargetsPast(d, earlier, path), Targets(d, path));
    if TargetsPast(d, earlier, path) == Targets(d, path) {
      forall p, pos | p in earlier && pos in Targets(d, path) ensures !Under(p, pos) {
        assert pos in TargetsPast(d, earlier, path);
      }
    }
    if forall p, pos | p in earlier && pos in Targets(d, path) :: !Under(p, pos) {
      assert TargetsPast(d, earlier, path) == Targets(d, path);
    }
  }

  /** The counts, unlike the document, do depend on the order: a key below an earlier one is never reported. */
  lemma OrderShowsInTheCounts(d: Doc, a: string, b: string)
    requires var p, q := [Segment(a, false)], [Segment(a, false), Segment(b, false)];
             Count(d, q) > 0
    ensures var p, q := [Segment(a, false)], [Segment(a, false), Segment(b, false)];
            && Drop(Drop(d, p), q) == Drop(Drop(d, q), p)
            && Count(d, q) == 1 && Count(Drop(d, q), p) == 1
            && Count(d, p) == 1 && Count(Drop(d, p), q) == 0
  {
    var p, q := [Segment(a, false)], [Segment(a, false), Segment(b, false)];
    DropCommutes(d, p, q);
    assert q[1..] == [Segment(b, false)];
    var entry := d.fields[Named(a)];
    assert Count(d, q) == CountEntry(entry, q) == Count(entry, q[1..]);
    assert Count(entry, q[1..]) == CountEntry(entry.fields[Named(b)], q[1..]) == 1;
    assert Count(d, p) == CountEntry(entry, p) == 1;
    assert Count(Drop(d, q), p) == CountEntry(Drop(d, q).fields[Named(a)], p) == 1;
    assert Count(Drop(d, p), q) == CountEntry(HIDDEN, q) == Count(HIDDEN, q[1..]) == 0;
  }

  /** A drop that counts nothing changes nothing. */
  lemma {:induction false} CountZero(d: Doc, path: Path)
    ensures Count(d, path) == 0 ==> Drop(d, path) == d
    decreases |path|
  {
    if path != [] && d.Fields? && Named(path[0].name) in d.fields && Count(d, path) == 0 {
      var entry := d.fields[Named(path[0].name)];
      assert CountEntry(entry, path) == 0;
      if !path[0].list {
        CountZero(entry, path[1..]);
      } else if entry.Items? && |path| > 1 {
        forall i | 0 <= i < |entry.items|
          ensures Drop(entry.items[i], path[1..]) == entry.items[i]
        {
          CountItemsZero(entry.items, path[1..], i);
          CountZero(entry.items[i], path[1..]);
        }
        assert DropEntry(entry, path).items == entry.items;
      }
    }
  }

  lemma {:induction false} CountItemsZero(items: seq<Doc>, path: Path, i: nat)
    requires CountItems(items, path) == 0 && i < |items|
    ensures Count(items[i], path) == 0
  {
    if i < |items| - 1 {
      CountItemsZero(items[..|items| - 1], path, i);
    }
  }

  /** The total the loop counts. */
  function CountAll(d: Doc, paths: seq<Path>): nat {
    if paths == [] then 0
    else
      var rest := paths[..|paths| - 1];
      CountAll(d, rest) + Count(DropAll(d, rest), paths[|paths| - 1])
  }

  /** The loop counts nothing exactly when no key addresses anything, and then the document is untouched. */
  lemma {:induction false} NothingDroppedIff(d: Doc, paths: seq<Path>)
    requires [] !in paths
    ensures CountAll(d, paths) == 0 <==> forall p | p in paths :: Targets(d, p) == {}
    ensures CountAll(d, paths) == 0 ==> DropAll(d, paths) == d
  {
    if paths != [] {
      var rest, last := paths[..|paths| - 1], paths[|paths| - 1];
      NothingDroppedIff(d, rest);
      assert forall p :: p in paths <==> p in rest || p == last;
      if CountAll(d, rest) == 0 {
        CountZero(d, last);
        TargetsSize(d, last);
      }
    }
  }
}
