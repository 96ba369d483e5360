/**
 Replacing the member list of a host group. The list is replaced whole, so a
 writer must see every member it may remove: the checks of one request, and the
 protocol that keeps them true until the write lands among other writers.
 */
module GroupMembers {
  import opened Optional
  import opened Text
  import opened Lists
  import opened FleetPaging
  import opened HostFilter

  const MAX_MEMBERS: nat := 10000
  const SAMPLE_SIZE: nat := 12

  // ----- the hosts a request names -----

  datatype Visible =
    | Seen(hosts: seq<Host>)
    | TooMany
    | NotAnIdentifier(text: string)
    | UnknownHosts(sample: seq<string>)
    | Failed

  function FirstInvalid(texts: seq<string>, canon: Canon): Option<string> {
    if texts == [] then None
    else if canon(texts[0]).None? then Some(texts[0])
    else FirstInvalid(texts[1..], canon)
  }

  lemma {:induction false} FirstInvalidSnoc(texts: seq<string>, text: string, canon: Canon)
    requires FirstInvalid(texts, canon).None?
    ensures FirstInvalid(texts + [text], canon) == if canon(text).None? then Some(text) else None
  {
    if texts == [] {
      assert texts + [text] == [text] && [text][1..] == [];
      assert FirstInvalid([], canon) == None;
    } else {
      FirstInvalidSnoc(texts[1..], text, canon);
      assert (texts + [text])[1..] == texts[1..] + [text];
    }
  }

  lemma {:induction false} FirstInvalidPrefix(texts: seq<string>, more: seq<string>, canon: Canon)
    requires FirstInvalid(texts, canon).Some?
    ensures FirstInvalid(texts + more, canon) == FirstInvalid(texts, canon)
  {
    if canon(texts[0]).Some? {
      FirstInvalidPrefix(texts[1..], more, canon);
      assert (texts + more)[1..] == texts[1..] + more;
    }
  }

  /** A text refused on the way is the first invalid one of the whole request. */
  lemma InvalidStays(ids: seq<string>, n: nat, canon: Canon)
    requires n <= |ids| && FirstInvalid(Wanted(ids[..n]), canon).Some?
    ensures FirstInvalid(Wanted(ids), canon) == FirstInvalid(Wanted(ids[..n]), canon)
  {
    WantedConcat(ids[..n], ids[n..]);
    assert ids[..n] + ids[n..] == ids;
    FirstInvalidPrefix(Wanted(ids[..n]), Wanted(ids[n..]), canon);
  }

  function Absent(texts: seq<string>, seen: set<string>): seq<string> {
    if texts == [] then []
    else (if texts[0] in seen then [] else [texts[0]]) + Absent(texts[1..], seen)
  }

  lemma {:induction false} AbsentSnoc(texts: seq<string>, text: string, seen: set<string>)
    ensures Absent(texts + [text], seen) == Absent(texts, seen) + if text in seen then [] else [text]
  {
    if texts == [] {
      assert texts + [text] == [text] && [text][1..] == [];
      assert Absent([], seen) == [];
    } else {
      AbsentSnoc(texts[1..], text, seen);
      assert (texts + [text])[1..] == texts[1..] + [text];
    }
  }

  lemma {:induction false} AbsentNone(texts: seq<string>, seen: set<string>)
    ensures Absent(texts, seen) == [] <==> TextsOf(texts) <= seen
  {
    if texts != [] {
      AbsentNone(texts[1..], seen);
      assert texts == [texts[0]] + texts[1..];
      assert TextsOf(texts) == {texts[0]} + TextsOf(texts[1..]);
    }
  }

  lemma {:induction false} AbsentSame(texts: seq<string>, seen: set<string>, there: set<string>)
    requires forall t | t in texts :: t in seen <==> t in there
    ensures Absent(texts, seen) == Absent(texts, there)
  {
    if texts != [] {
      assert texts[0] in texts;
      AbsentSame(texts[1..], seen, there);
    }
  }

  function Sample(texts: seq<string>): seq<string> {
    if |texts| > SAMPLE_SIZE then texts[..SAMPLE_SIZE] else texts
  }

  /** Everything a text names that is canonical is a text: the cast adds no other. */
  lemma CastOfCanonical(texts: seq<string>, fleet: seq<Host>, scope: set<string>, canon: Canon)
    requires Registered(fleet, canon)
    requires TextsOf(texts) <= IdsOf(Matching(fleet, Cast(texts, canon) * scope))
    ensures IdsOf(Matching(fleet, Cast(texts, canon) * scope)) == TextsOf(texts)
  {
    MatchingIds(fleet, Cast(texts, canon) * scope);
    forall t | t in Cast(texts, canon) ensures t in TextsOf(texts) {
      var text :| text in texts && canon(text) == Some(t);
      assert text in TextsOf(texts);
      var h :| h in fleet && h.id == text;
    }
  }

  /** The texts of a request as they are looked up, or the first that is no identifier. */
  method ReadTexts(ids: seq<string>, canon: Canon) returns (wanted: seq<string>, invalid: Option<string>)
    ensures invalid == FirstInvalid(Wanted(ids), canon)
    ensures invalid.None? ==> wanted == Wanted(ids) && |wanted| <= |ids|
  {
    hide TrimSpace;
    wanted := [];
    for i := 0 to |ids|
      invariant wanted == Wanted(ids[..i]) && |wanted| <= i && FirstInvalid(wanted, canon).None?
    {
      var id := TrimSpace(ids[i]);
      WantedSnoc(ids, i);
      if id == [] {
        continue;
      }
      FirstInvalidSnoc(wanted, id, canon);
      if canon(id).None? {
        InvalidStays(ids, i + 1, canon);
        return wanted, Some(id);
      }
      wanted := wanted + [id];
    }
    assert ids[..|ids|] == ids;
    invalid := None;
  }

  /** The first texts that were not found, enough of them for an answer. */
  method MissingTexts(wanted: seq<string>, found: seq<Host>) returns (missing: seq<string>)
    ensures missing == Sample(Absent(wanted, IdsOf(found)))
  {
    var seen := IdsOf(found);
    missing := [];
    for i := 0 to |wanted|
      invariant missing == Sample(Absent(wanted[..i], seen))
    {
      AbsentSnoc(wanted[..i], wanted[i], seen);
      assert wanted[..i + 1] == wanted[..i] + [wanted[i]];
      if wanted[i] !in seen && |missing| < SAMPLE_SIZE {
        missing := missing + [wanted[i]];
      }
    }
    assert wanted[..|wanted|] == wanted;
  }

  /** Nothing missing is exactly every text seen, and then the hosts found are the texts. */
  lemma MissingMeans(wanted: seq<string>, fleet: seq<Host>, scope: set<string>, canon: Canon)
    requires Registered(fleet, canon)
    ensures var found := Matching(fleet, Cast(wanted, canon) * scope);
            && Absent(wanted, IdsOf(found)) == Absent(wanted, IdsOf(fleet) * scope)
            && (Absent(wanted, IdsOf(found)) == [] ==> IdsOf(found) == TextsOf(wanted) <= IdsOf(fleet) * scope)
            && (forall h | h in found :: h in fleet)
  {
    hide Ordered, Identified, Distinct;
    var found := Matching(fleet, Cast(wanted, canon) * scope);
    forall t | t in wanted ensures t in IdsOf(found) <==> t in IdsOf(fleet) * scope {
      SeenIff(wanted, fleet, scope, canon, t);
    }
    AbsentSame(wanted, IdsOf(found), IdsOf(fleet) * scope);
    AbsentNone(wanted, IdsOf(found));
    AbsentNone(wanted, IdsOf(fleet) * scope);
    if Absent(wanted, IdsOf(found)) == [] {
      CastOfCanonical(wanted, fleet, scope, canon);
    }
    forall h | h in found ensures h in fleet {
      MatchingIff(fleet, Cast(wanted, canon) * scope, h);
    }
  }

  lemma NothingMatches(fleet: seq<Host>, scope: set<string>, canon: Canon)
    ensures Matching(fleet, Cast([], canon) * scope) == []
  {
    var found := Matching(fleet, Cast([], canon) * scope);
    if found != [] {
      MatchingIff(fleet, Cast([], canon) * scope, found[0]);
    }
  }

  /**
   The hosts a request names. They are handed on only when every text is the
   canonical identifier of a host in scope, and then they are exactly those hosts.
   */
  method VisibleHosts(fleet: seq<Host>, scope: set<string>, ids: seq<string>, canon: Canon) returns (r: Visible)
    requires Registered(fleet, canon)
    ensures r.TooMany? <==> |ids| > MAX_MEMBERS
    ensures |ids| <= MAX_MEMBERS ==>
              (r.NotAnIdentifier? <==> FirstInvalid(Wanted(ids), canon).Some?)
    ensures r.NotAnIdentifier? ==> FirstInvalid(Wanted(ids), canon) == Some(r.text)
    ensures |ids| <= MAX_MEMBERS && FirstInvalid(Wanted(ids), canon).None? ==>
              (r.Failed? <==> Stuck(Matching(fleet, Cast(Wanted(ids), canon) * scope)))
    ensures r.Seen? ==> IdsOf(r.hosts) == TextsOf(Wanted(ids)) <= IdsOf(fleet) * scope
    ensures r.Seen? ==> Ordered(r.hosts) && Distinct(r.hosts) && forall h | h in r.hosts :: h in fleet
    ensures r.UnknownHosts? ==> r.sample != [] && r.sample == Sample(Absent(Wanted(ids), IdsOf(fleet) * scope))
  {
    if |ids| > MAX_MEMBERS {
      return TooMany;
    }
    var wanted, invalid := ReadTexts(ids, canon);
    if invalid.Some? {
      return NotAnIdentifier(invalid.value);
    }
    if wanted == [] {
      NothingMatches(fleet, scope, canon);
      return Seen([]);
    }
    var filtered := Matching(fleet, Cast(wanted, canon) * scope);
    MissingMeans(wanted, fleet, scope, canon);
    MatchingOrdered(fleet, Cast(wanted, canon) * scope);
    MatchingFits(fleet, wanted, scope, canon);
    hide Matching, Ordered, Identified, Distinct, Wanted, Cast, Absent, FirstInvalid, IdsOf, TextsOf;
    var collected := PageHosts(filtered);
    if collected.TooBroad? {
      return Failed;
    }
    var missing := MissingTexts(wanted, collected.hosts);
    if |missing| > 0 {
      return UnknownHosts(missing);
    }
    return Seen(collected.hosts);
  }

  // ----- the members a request would replace -----

  /**
   Whether the caller sees every current member. Only the number of hosts found
   is compared with the number of members; by the pigeonhole principle that
   decides whether every member is seen. None: the read failed.
   */
  method RequireMembersInScope(fleet: seq<Host>, scope: set<string>, current: seq<string>, canon: Canon)
    returns (allowed: Option<bool>)
    requires Registered(fleet, canon) && |current| <= MAX_MEMBERS
    requires NoRepeats(current)
    requires forall id | id in current :: canon(id) == Some(id)
    ensures allowed.Some? ==> (allowed.value <==> TextsOf(current) <= IdsOf(fleet) * scope)
    ensures allowed.None? ==> Stuck(Matching(fleet, TextsOf(current) * scope))
  {
    if |current| == 0 {
      return Some(true);
    }
    assert Cast(current, canon) == TextsOf(current) by {
      CastCanonical(current, canon);
    }
    var seen := Matching(fleet, TextsOf(current) * scope);
    MatchingOrdered(fleet, TextsOf(current) * scope);
    MatchingFits(fleet, current, scope, canon);
    CountDecides(fleet, scope, current);
    hide Matching, Ordered, Identified, Distinct, Cast, IdsOf, TextsOf;
    var collected := PageHosts(seen);
    if collected.TooBroad? {
      return None;
    }
    return Some(|collected.hosts| >= |current|);
  }

  lemma CastCanonical(texts: seq<string>, canon: Canon)
    requires forall id | id in texts :: canon(id) == Some(id)
    ensures Cast(texts, canon) == TextsOf(texts)
  {
    forall t ensures t in Cast(texts, canon) <==> t in TextsOf(texts) {
      if t in texts {
        assert canon(t).Some? && canon(t).value == t;
      }
    }
  }

  /** Comparing two numbers decides whether every member is a host in scope. */
  lemma CountDecides(fleet: seq<Host>, scope: set<string>, current: seq<string>)
    requires Ordered(fleet) && Identified(fleet) && Distinct(fleet)
    requires NoRepeats(current)
    ensures |Matching(fleet, TextsOf(current) * scope)| >= |current|
            <==> TextsOf(current) <= IdsOf(fleet) * scope
  {
    var seen := Matching(fleet, TextsOf(current) * scope);
    MatchingOrdered(fleet, TextsOf(current) * scope);
    DistinctCount(seen);
    NoRepeatsCount(current);
    MatchingIds(fleet, TextsOf(current) * scope);
    if |seen| >= |current| {
      Pigeonhole(IdsOf(seen), TextsOf(current));
    }
    if TextsOf(current) <= IdsOf(fleet) * scope {
      assert IdsOf(seen) == TextsOf(current);
    }
  }
}
