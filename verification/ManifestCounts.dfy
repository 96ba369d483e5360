/** The counts a manifest reports for the declared keys of a document, and when their order shows in them. */
module ManifestCounts {
  import opened Documents
  import opened DocumentHeap
  import opened Lists

  lemma {:induction false} ReportedAbsent(d: Doc, keys: seq<string>, key: string)
    requires key !in keys
    ensures Reported(d, keys, key) == 0
  {
    if keys != [] {
      ReportedAbsent(d, keys[..|keys| - 1], key);
    }
  }

  /** A key declared once reports what it counts after the keys before it. */
  lemma {:induction false} ReportedAt(d: Doc, keys: seq<string>, i: nat)
    requires NoRepeats(keys) && i < |keys|
    ensures Reported(d, keys, keys[i]) == Count(DropAll(d, Paths(keys[..i])), PathOf(keys[i]))
  {
    hide Count, DropAll, Paths, PathOf;
    var last := |keys| - 1;
    if i < last {
      ReportedAt(d, keys[..last], i);
      assert keys[..last][..i] == keys[..i];
    } else {
      ReportedAbsent(d, keys[..last], keys[last]);
    }
  }

  /** No position a declared key addresses lies below one another declared key describes. */
  ghost predicate Apart(d: Doc, keys: seq<string>) {
    forall p, q, pos | p in keys && q in keys && pos in Targets(d, PathOf(p)) :: !Under(PathOf(q), pos)
  }

  ghost predicate SameCounts(d: Doc, keys: seq<string>, other: seq<string>) {
    forall key: string :: Reported(d, keys, key) == Reported(d, other, key)
  }

  lemma PathsOf(keys: seq<string>, path: Path)
    requires path in Paths(keys)
    ensures exists key | key in keys :: PathOf(key) == path
  {
    hide PathOf;
    var i :| 0 <= i < |keys| && Paths(keys)[i] == path;
    assert keys[i] in keys;
  }

  /** Keys that are apart each report every position they address, in whatever order they are declared. */
  lemma ApartReports(d: Doc, keys: seq<string>, key: string)
    requires NoRepeats(keys) && Apart(d, keys) && key in keys
    ensures Reported(d, keys, key) == Count(d, PathOf(key))
  {
    hide Count, DropAll, PathOf, Targets, Under, Reported, Paths;
    var i :| 0 <= i < |keys| && keys[i] == key;
    ReportedAt(d, keys, i);
    forall p, pos | p in Paths(keys[..i]) && pos in Targets(d, PathOf(key)) ensures !Under(p, pos) {
      PathsOf(keys[..i], p);
      var q :| q in keys[..i] && PathOf(q) == p;
      assert q in keys;
    }
    FullCountIff(d, Paths(keys[..i]), PathOf(key));
  }

  /** A key addressing a position below another one reports less behind it than before it. */
  lemma BelowReportsLess(d: Doc, p: string, q: string, rest: seq<string>, tail: seq<string>, pos: Position)
    requires NoRepeats([p] + rest) && NoRepeats([q] + ([p] + tail))
    requires pos in Targets(d, PathOf(p)) && Under(PathOf(q), pos)
    ensures Reported(d, [q] + ([p] + tail), p) < Reported(d, [p] + rest, p)
  {
    hide Count, DropAll, PathOf, Targets, Under, Reported, Paths;
    ReportedAt(d, [p] + rest, 0);
    assert ([p] + rest)[..0] == [];
    FullCountIff(d, Paths([]), PathOf(p));
    NoPaths();
    var behind := [q] + ([p] + tail);
    ReportedAt(d, behind, 1);
    assert behind[..1] == [q] && behind[1] == p;
    OnePath(q);
    FullCountIff(d, Paths([q]), PathOf(p));
  }

  lemma NoPaths()
    ensures Paths([]) == []
  {
  }

  lemma OnePath(key: string)
    ensures Paths([key]) == [PathOf(key)] && PathOf(key) in Paths([key])
  {
    hide PathOf;
    assert Paths([key])[0] == PathOf(key);
  }

  /** A position of a key is not below that key. */
  lemma NotBelowItself(d: Doc, key: string, pos: Position)
    requires pos in Targets(d, PathOf(key))
    ensures !Under(PathOf(key), pos)
  {
    TargetsIff(d, PathOf(key), pos);
    FitsWidth(PathOf(key), pos);
  }

  /**
   The manifest does not depend on the order the keys are declared in exactly when
   no key addresses a position below another one.
   */
  lemma CountsCanonicalIff(d: Doc, keys: seq<string>)
    requires NoRepeats(keys)
    ensures Apart(d, keys) <==>
              forall other: seq<string> | multiset(other) == multiset(keys) :: SameCounts(d, keys, other)
  {
    hide Count, DropAll, PathOf, Targets, Under, Reported, Paths;
    if Apart(d, keys) {
      forall other: seq<string> | multiset(other) == multiset(keys) ensures SameCounts(d, keys, other) {
        ApartPermuted(d, keys, other);
      }
    } else {
      var p, q, pos :| p in keys && q in keys && pos in Targets(d, PathOf(p)) && Under(PathOf(q), pos);
      OrderShows(d, keys, p, q, pos);
    }
  }

  lemma SameMembers(keys: seq<string>, other: seq<string>, key: string)
    requires multiset(other) == multiset(keys)
    ensures key in keys <==> key in other
  {
    assert key in keys <==> key in multiset(keys);
    assert key in other <==> key in multiset(other);
  }

  lemma ApartPermuted(d: Doc, keys: seq<string>, other: seq<string>)
    requires NoRepeats(keys) && Apart(d, keys) && multiset(other) == multiset(keys)
    ensures SameCounts(d, keys, other)
  {
    hide Count, DropAll, PathOf, Targets, Under, Reported, Paths;
    NoRepeatsPermuted(keys, other);
    forall p ensures p in keys <==> p in other {
      SameMembers(keys, other, p);
    }
    assert Apart(d, other);
    forall key: string ensures Reported(d, keys, key) == Reported(d, other, key) {
      if key in keys {
        ApartReports(d, keys, key);
        ApartReports(d, other, key);
      } else {
        ReportedAbsent(d, keys, key);
        ReportedAbsent(d, other, key);
      }
    }
  }

  /** Otherwise two orders of the keys report different counts, so one of them differs from any given one. */
  lemma OrderShows(d: Doc, keys: seq<string>, p: string, q: string, pos: Position)
    requires NoRepeats(keys) && p in keys && q in keys
    requires pos in Targets(d, PathOf(p)) && Under(PathOf(q), pos)
    ensures exists other: seq<string> :: multiset(other) == multiset(keys) && !SameCounts(d, keys, other)
  {
    hide Count, DropAll, PathOf, Targets, Under, Reported, Paths;
    if p == q {
      NotBelowItself(d, p, pos);
      assert false;
    }
    var rest := MovedFirst(keys, p);
    SameMembers([p] + rest, keys, q);
    var tail := MovedFirst(rest, q);
    var before, behind := [p] + rest, [q] + ([p] + tail);
    Swapped(p, q, tail, rest);
    NoRepeatsPermuted(keys, before);
    NoRepeatsPermuted(keys, behind);
    BelowReportsLess(d, p, q, rest, tail, pos);
    assert !SameCounts(d, keys, before) || !SameCounts(d, keys, behind);
  }

  lemma Swapped(p: string, q: string, tail: seq<string>, rest: seq<string>)
    requires multiset([q] + tail) == multiset(rest)
    ensures multiset([q] + ([p] + tail)) == multiset([p] + rest)
  {
    assert multiset([q] + tail) == multiset{q} + multiset(tail);
    assert multiset([p] + rest) == multiset{p} + multiset(rest);
    assert multiset([q] + ([p] + tail)) == multiset{q} + multiset([p] + tail);
    assert multiset([p] + tail) == multiset{p} + multiset(tail);
  }
}
