/**
 The host query narrowed to identifiers: what it returns, in which order, and
 how many. Identifiers reach the query as text; `canon` stands for the parsing of
 one, with the canonical text of what it names or None.
 */
module HostFilter {
  import opened Optional
  import opened FleetPaging

  type Canon = string -> Option<string>

  /** The host table: in key order, each host once, under its canonical identifier. */
  ghost predicate Registered(fleet: seq<Host>, canon: Canon) {
    && Ordered(fleet)
    && Identified(fleet)
    && Distinct(fleet)
    && forall h | h in fleet :: canon(h.id) == Some(h.id)
  }

  ghost predicate Distinct(fleet: seq<Host>) {
    forall i, j | 0 <= i < j < |fleet| :: fleet[i].id != fleet[j].id
  }

  function IdsOf(fleet: seq<Host>): set<string> {
    set h | h in fleet :: h.id
  }

  function Matching(fleet: seq<Host>, ids: set<string>): seq<Host> {
    if fleet == [] then []
    else (if fleet[0].id in ids then [fleet[0]] else []) + Matching(fleet[1..], ids)
  }

  lemma {:induction false} MatchingIff(fleet: seq<Host>, ids: set<string>, h: Host)
    ensures h in Matching(fleet, ids) <==> h in fleet && h.id in ids
  {
    if fleet != [] {
      MatchingIff(fleet[1..], ids, h);
      assert fleet == [fleet[0]] + fleet[1..];
    }
  }

  /** Narrowing keeps the order of the key and never repeats a host. */
  lemma {:induction false} MatchingOrdered(fleet: seq<Host>, ids: set<string>)
    requires Ordered(fleet) && Identified(fleet) && Distinct(fleet)
    ensures Ordered(Matching(fleet, ids)) && Identified(Matching(fleet, ids)) && Distinct(Matching(fleet, ids))
  {
    if fleet != [] {
      var rest := Matching(fleet[1..], ids);
      MatchingOrdered(fleet[1..], ids);
      forall i | 0 <= i < |rest|
        ensures KeyLess(fleet[0], rest[i]) && fleet[0].id != rest[i].id
      {
        MatchingIff(fleet[1..], ids, rest[i]);
        var k :| 0 <= k < |fleet[1..]| && fleet[1..][k] == rest[i];
        assert fleet[k + 1] == rest[i];
      }
    }
  }

  lemma MatchingIds(fleet: seq<Host>, ids: set<string>)
    ensures IdsOf(Matching(fleet, ids)) == IdsOf(fleet) * ids
  {
    forall t ensures t in IdsOf(Matching(fleet, ids)) <==> t in IdsOf(fleet) * ids {
      if t in IdsOf(fleet) * ids {
        var h :| h in fleet && h.id == t;
        MatchingIff(fleet, ids, h);
      }
      if t in IdsOf(Matching(fleet, ids)) {
        var h :| h in Matching(fleet, ids) && h.id == t;
        MatchingIff(fleet, ids, h);
      }
    }
  }

  lemma {:induction false} DistinctCount(fleet: seq<Host>)
    requires Distinct(fleet)
    ensures |IdsOf(fleet)| == |fleet|
  {
    if fleet != [] {
      var rest := fleet[1..];
      assert fleet == [fleet[0]] + rest;
      DistinctCount(rest);
      assert fleet[0].id !in IdsOf(rest);
      assert IdsOf(fleet) == {fleet[0].id} + IdsOf(rest);
    }
  }

  /** A set no larger than the part of it one can see is seen whole. */
  lemma Pigeonhole<T>(part: set<T>, whole: set<T>)
    requires part <= whole && |part| >= |whole|
    ensures part == whole
  {
    if whole - part != {} {
      var x :| x in whole - part;
      Smaller(part, whole - {x});
    }
  }

  lemma {:induction false} Smaller<T>(part: set<T>, whole: set<T>)
    requires part <= whole
    ensures |part| <= |whole|
  {
    if part != {} {
      var x :| x in part;
      Smaller(part - {x}, whole - {x});
    }
  }

  /** The identifiers a list of texts casts to. */
  function Cast(texts: seq<string>, canon: Canon): set<string> {
    set t | t in texts && canon(t).Some? :: canon(t).value
  }

  lemma {:induction false} CastCount(texts: seq<string>, canon: Canon)
    ensures |Cast(texts, canon)| <= |texts|
  {
    if texts != [] {
      var rest := texts[1..];
      CastCount(rest, canon);
      assert texts == [texts[0]] + rest;
      if canon(texts[0]).Some? {
        assert Cast(texts, canon) == Cast(rest, canon) + {canon(texts[0]).value};
      } else {
        assert Cast(texts, canon) == Cast(rest, canon);
      }
    }
  }

  /** The loop over the pages starts over, and never ends: the last host of its first page has no name. */
  predicate Stuck(fleet: seq<Host>) {
    |fleet| >= PAGE_SIZE && fleet[PAGE_SIZE - 1].hostname == []
  }

  /** A list within the bound of one campaign is too broad only when the loop cannot leave its first page. */
  lemma MatchingFits(fleet: seq<Host>, texts: seq<string>, scope: set<string>, canon: Canon)
    requires Distinct(Matching(fleet, Cast(texts, canon) * scope)) && |texts| <= MAX_SNAPSHOT
    ensures |Matching(fleet, Cast(texts, canon) * scope)| < MAX_SNAPSHOT + PAGE_SIZE
  {
    var found := Matching(fleet, Cast(texts, canon) * scope);
    DistinctCount(found);
    MatchingIds(fleet, Cast(texts, canon) * scope);
    Smaller(IdsOf(found), Cast(texts, canon));
    CastCount(texts, canon);
  }

  /** Which texts are seen: the canonical identifiers of hosts in scope. */
  lemma SeenIff(texts: seq<string>, fleet: seq<Host>, scope: set<string>, canon: Canon, t: string)
    requires Registered(fleet, canon) && t in texts
    ensures t in IdsOf(Matching(fleet, Cast(texts, canon) * scope)) <==> t in IdsOf(fleet) * scope
  {
    MatchingIds(fleet, Cast(texts, canon) * scope);
    if t in IdsOf(fleet) {
      var h :| h in fleet && h.id == t;
      assert t in Cast(texts, canon);
    }
  }
}
