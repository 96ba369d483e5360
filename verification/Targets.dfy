/**
 The hosts a campaign is ordered for: an explicit list, which is carried whole
 or refused with a reason for every text that is not, and the exclusion list of
 the other selectors.
 */
module Targets {
  import opened Optional
  import opened Text
  import opened Lists
  import opened FleetPaging
  import opened HostFilter

  datatype Reason = InvalidHostID | UnknownHost | OutOfScope | ExcludedAndListed

  datatype Refusal = Refusal(text: string, reason: Reason)

  datatype Verdict = Carried | Refused(reason: Reason)

  datatype Resolved = Resolved(hosts: seq<Host>) | Invalid(refusals: seq<Refusal>) | SelectorTooBroad

  /** What a list is judged against. */
  datatype Query = Query(fleet: seq<Host>, scope: set<string>, exclude: seq<string>, canon: Canon) {
    ghost predicate Valid() {
      Registered(fleet, canon)
    }
  }

  /** The verdict on a text that names an identifier. */
  function JudgedHost(q: Query, t: string): Verdict
    requires q.canon(t).Some?
  {
    if t !in IdsOf(q.fleet) * q.scope then
      if q.canon(t).value in IdsOf(q.fleet) then Refused(OutOfScope) else Refused(UnknownHost)
    else if t in q.exclude then Refused(ExcludedAndListed)
    else Carried
  }

  function Judged(q: Query, t: string): Verdict {
    if q.canon(t).None? then Refused(InvalidHostID) else JudgedHost(q, t)
  }

  /** The distinct, non-blank texts of a list, in the order they were first named. */
  function Named(listed: seq<string>): seq<string> {
    FirstMentions(Wanted(listed))
  }

  function Identifiers(q: Query, texts: seq<string>): seq<string> {
    if texts == [] then []
    else
      var last := |texts| - 1;
      Identifiers(q, texts[..last]) + if q.canon(texts[last]).Some? then [texts[last]] else []
  }

  function Invalids(q: Query, texts: seq<string>): seq<Refusal> {
    if texts == [] then []
    else
      var last := |texts| - 1;
      Invalids(q, texts[..last]) + if q.canon(texts[last]).Some? then [] else [Refusal(texts[last], InvalidHostID)]
  }

  function Others(q: Query, texts: seq<string>): seq<Refusal>
    requires forall t | t in texts :: q.canon(t).Some?
  {
    if texts == [] then []
    else
      var last := |texts| - 1;
      var v := JudgedHost(q, texts[last]);
      Others(q, texts[..last]) + if v.Carried? then [] else [Refusal(texts[last], v.reason)]
  }

  /** The refusals in the order they are reported: the texts that are no identifiers first. */
  function Refusals(q: Query, texts: seq<string>): seq<Refusal> {
    IdentifiersMeans(q, texts);
    Invalids(q, texts) + Others(q, Identifiers(q, texts))
  }

  function CarriedTexts(q: Query, texts: seq<string>): seq<string>
    requires forall t | t in texts :: q.canon(t).Some?
  {
    if texts == [] then []
    else
      var last := |texts| - 1;
      CarriedTexts(q, texts[..last]) + if JudgedHost(q, texts[last]).Carried? then [texts[last]] else []
  }

  lemma {:induction false} IdentifiersMeans(q: Query, texts: seq<string>)
    ensures forall t :: t in Identifiers(q, texts) <==> t in texts && q.canon(t).Some?
    ensures |Identifiers(q, texts)| <= |texts|
    ensures NoRepeats(texts) ==> NoRepeats(Identifiers(q, texts))
  {
    if texts != [] {
      var last := |texts| - 1;
      IdentifiersMeans(q, texts[..last]);
      assert texts == texts[..last] + [texts[last]];
    }
  }

  // ----- every text is carried or refused, once -----

  lemma {:induction false} InvalidsMeans(q: Query, texts: seq<string>, r: Refusal)
    ensures r in Invalids(q, texts) <==> r.text in texts && q.canon(r.text).None? && r.reason == InvalidHostID
  {
    if texts != [] {
      var last := |texts| - 1;
      InvalidsMeans(q, texts[..last], r);
      assert texts == texts[..last] + [texts[last]];
    }
  }

  lemma {:induction false} OthersMeans(q: Query, texts: seq<string>, r: Refusal)
    requires forall t | t in texts :: q.canon(t).Some?
    ensures r in Others(q, texts) <==> r.text in texts && JudgedHost(q, r.text) == Refused(r.reason)
  {
    if texts != [] {
      var last := |texts| - 1;
      OthersMeans(q, texts[..last], r);
      assert texts == texts[..last] + [texts[last]];
    }
  }

  /** The reasons given are exactly the verdicts: one refusal for each text that is not carried. */
  lemma RefusalsMean(q: Query, texts: seq<string>, r: Refusal)
    ensures r in Refusals(q, texts) <==> r.text in texts && Judged(q, r.text) == Refused(r.reason)
  {
    IdentifiersMeans(q, texts);
    InvalidsMeans(q, texts, r);
    OthersMeans(q, Identifiers(q, texts), r);
  }

  ghost predicate OnePerText(refusals: seq<Refusal>) {
    forall i, j | 0 <= i < j < |refusals| :: refusals[i].text != refusals[j].text
  }

  lemma {:induction false} InvalidsOnce(q: Query, texts: seq<string>)
    requires NoRepeats(texts)
    ensures OnePerText(Invalids(q, texts))
  {
    if texts != [] {
      var last := |texts| - 1;
      InvalidsOnce(q, texts[..last]);
      assert texts == texts[..last] + [texts[last]];
      forall r | r in Invalids(q, texts[..last]) ensures r.text != texts[last] {
        InvalidsMeans(q, texts[..last], r);
      }
    }
  }

  lemma {:induction false} OthersOnce(q: Query, texts: seq<string>)
    requires NoRepeats(texts) && forall t | t in texts :: q.canon(t).Some?
    ensures OnePerText(Others(q, texts))
  {
    if texts != [] {
      var last := |texts| - 1;
      OthersOnce(q, texts[..last]);
      assert texts == texts[..last] + [texts[last]];
      forall r | r in Others(q, texts[..last]) ensures r.text != texts[last] {
        OthersMeans(q, texts[..last], r);
      }
    }
  }

  /** No text is refused twice. */
  lemma RefusedOnce(q: Query, texts: seq<string>)
    requires NoRepeats(texts)
    ensures OnePerText(Refusals(q, texts))
  {
    var ids := Identifiers(q, texts);
    IdentifiersMeans(q, texts);
    InvalidsOnce(q, texts);
    OthersOnce(q, ids);
    var a, b := Invalids(q, texts), Others(q, ids);
    forall i, j | 0 <= i < |a| && 0 <= j < |b| ensures a[i].text != b[j].text {
      InvalidsMeans(q, texts, a[i]);
      OthersMeans(q, ids, b[j]);
      assert a[i] in a && b[j] in b;
    }
  }

  /** The partition: a text named is carried, or refused with exactly one reason. */
  lemma CarriedOrRefused(q: Query, listed: seq<string>, t: string)
    requires t in Named(listed)
    ensures Judged(q, t).Carried? <==> forall r | r in Refusals(q, Named(listed)) :: r.text != t
    ensures forall r, s | r in Refusals(q, Named(listed)) && s in Refusals(q, Named(listed)) ::
              r.text == t && s.text == t ==> r == s
  {
    var texts := Named(listed);
    if Judged(q, t).Refused? {
      RefusalsMean(q, texts, Refusal(t, Judged(q, t).reason));
    }
    forall r | r in Refusals(q, texts) && r.text == t ensures Judged(q, t) == Refused(r.reason) {
      RefusalsMean(q, texts, r);
    }
  }

  /** Which reason a text gets, in terms of the hosts it names. */
  lemma ReasonIff(q: Query, t: string)
    requires q.Valid()
    ensures Judged(q, t) == Refused(InvalidHostID) <==> q.canon(t).None?
    ensures Judged(q, t) == Refused(UnknownHost) <==> q.canon(t).Some? && q.canon(t).value !in IdsOf(q.fleet)
    ensures Judged(q, t) == Refused(OutOfScope) <==>
              q.canon(t).Some? && q.canon(t).value in IdsOf(q.fleet) && (q.canon(t).value !in q.scope || q.canon(t).value != t)
    ensures Judged(q, t) == Refused(ExcludedAndListed) <==> t in IdsOf(q.fleet) && t in q.scope && t in q.exclude
    ensures Judged(q, t) == Carried <==> t in IdsOf(q.fleet) && t in q.scope && t !in q.exclude
  {
    if t in IdsOf(q.fleet) {
      var h :| h in q.fleet && h.id == t;
      assert q.canon(t) == Some(t);
    }
  }

  /** The identifier of the witness below, and the same in capitals. */
  const ONE_HOST := "00000000-0000-0000-0000-00000000000a"
  const CAPITALS := "00000000-0000-0000-0000-00000000000A"

  /** A parser that reads the two spellings alike and knows no other identifier. */
  function Reads(t: string): Option<string> {
    if t == ONE_HOST || t == CAPITALS then Some(ONE_HOST) else None
  }

  /** A host in scope, named by another spelling of its identifier, is refused as out of scope. */
  lemma OtherSpellingRefused()
    ensures var q := Query([Host("web", ONE_HOST)], {ONE_HOST}, [], Reads);
            && q.Valid()
            && Judged(q, ONE_HOST) == Carried
            && Judged(q, CAPITALS) == Refused(OutOfScope)
  {
    var q := Query([Host("web", ONE_HOST)], {ONE_HOST}, [], Reads);
    assert ONE_HOST[35] != CAPITALS[35];
    assert q.fleet[0] in q.fleet && q.fleet[0].id == ONE_HOST;
    assert IdsOf(q.fleet) == {ONE_HOST};
  }

  lemma {:induction false} AllCarried(q: Query, texts: seq<string>)
    requires forall t | t in texts :: q.canon(t).Some?
    requires Others(q, texts) == []
    ensures CarriedTexts(q, texts) == texts
    ensures forall t | t in texts :: JudgedHost(q, t).Carried?
  {
    if texts != [] {
      var last := |texts| - 1;
      AllCarried(q, texts[..last]);
      assert texts == texts[..last] + [texts[last]];
    }
  }

  lemma {:induction false} NoneInvalid(q: Query, texts: seq<string>)
    requires Invalids(q, texts) == []
    ensures Identifiers(q, texts) == texts
  {
    if texts != [] {
      var last := |texts| - 1;
      NoneInvalid(q, texts[..last]);
      assert texts == texts[..last] + [texts[last]];
    }
  }

  // ----- the loops -----

  /** The texts named: those that are identifiers, and a refusal for each of the rest. */
  method ReadList(q: Query, listed: seq<string>) returns (ids: seq<string>, refusals: seq<Refusal>)
    ensures ids == Identifiers(q, Named(listed)) && refusals == Invalids(q, Named(listed))
  {
    hide TrimSpace, Wanted, FirstMentions;
    var seen: set<string> := {};
    ids, refusals := [], [];
    ghost var named: seq<string> := [];
    assert Named(listed[..0]) == [] by {
      NothingNamed(listed);
    }
    for i := 0 to |listed|
      invariant named == Named(listed[..i]) && seen == TextsOf(named)
      invariant ids == Identifiers(q, named) && refusals == Invalids(q, named)
    {
      var text := TrimSpace(listed[i]);
      WantedSnoc(listed, i);
      if text == [] || text in seen {
        FirstMentionsSnoc(Wanted(listed[..i]), text);
        continue;
      }
      FirstMentionsSnoc(Wanted(listed[..i]), text);
      assert (named + [text])[..|named|] == named;
      seen := seen + {text};
      named := named + [text];
      if q.canon(text).None? {
        refusals := refusals + [Refusal(text, InvalidHostID)];
        continue;
      }
      ids := ids + [text];
    }
    assert listed[..|listed|] == listed;
  }

  lemma NothingNamed(listed: seq<string>)
    ensures Named(listed[..0]) == []
  {
    NothingWanted();
    assert listed[..0] == [];
  }

  /** The hosts of a page by identifier. */
  method ByID(found: seq<Host>) returns (byID: map<string, Host>)
    requires Distinct(found)
    ensures byID.Keys == IdsOf(found)
    ensures forall id | id in byID :: byID[id] in found && byID[id].id == id
  {
    byID := map[];
    for i := 0 to |found|
      invariant byID.Keys == IdsOf(found[..i])
      invariant forall id | id in byID :: byID[id] in found && byID[id].id == id
    {
      assert found[..i + 1] == found[..i] + [found[i]];
      byID := byID[found[i].id := found[i]];
    }
    assert found[..|found|] == found;
  }

  /**
   An explicit list of hosts, strictly: it is carried only when every distinct
   text is the identifier of a host in scope that is not excluded, and then in the
   order of first mention; otherwise every text that is not carried has its reason.
   */
  method ResolveListedHosts(q: Query, listed: seq<string>) returns (r: Resolved)
    requires q.Valid()
    ensures var ids := Identifiers(q, Named(listed));
            r.SelectorTooBroad? <==> |ids| > MAX_SNAPSHOT || Stuck(Matching(q.fleet, Cast(ids, q.canon) * q.scope))
    ensures r.Invalid? ==> r.refusals == Refusals(q, Named(listed)) && r.refusals != []
    ensures r.Resolved? ==>
              && Refusals(q, Named(listed)) == []
              && |r.hosts| == |Named(listed)|
              && forall i | 0 <= i < |r.hosts| :: r.hosts[i].id == Named(listed)[i] && r.hosts[i] in q.fleet
    ensures r.Resolved? ==> forall h | h in r.hosts :: h.id in q.scope && h.id !in q.exclude
  {
    var ids, refusals := ReadList(q, listed);
    if |ids| > MAX_SNAPSHOT {
      return SelectorTooBroad;
    }
    var filtered := Matching(q.fleet, Cast(ids, q.canon) * q.scope);
    MatchingOrdered(q.fleet, Cast(ids, q.canon) * q.scope);
    MatchingFits(q.fleet, ids, q.scope, q.canon);
    var collected := PageHosts(filtered);
    if collected.TooBroad? {
      return SelectorTooBroad;
    }
    IdentifiersMeans(q, Named(listed));
    var byID := ByID(collected.hosts);
    var hosts, more := JudgeAll(q, ids, byID);
    refusals := refusals + more;
    if |refusals| > 0 {
      return Invalid(refusals);
    }
    NoneInvalid(q, Named(listed));
    AllCarried(q, ids);
    return Resolved(hosts);
  }

  /** The second loop: each identifier is carried with its host or refused. */
  method JudgeAll(q: Query, ids: seq<string>, byID: map<string, Host>) returns (hosts: seq<Host>, refusals: seq<Refusal>)
    requires q.Valid() && forall t | t in ids :: q.canon(t).Some?
    requires byID.Keys == IdsOf(Matching(q.fleet, Cast(ids, q.canon) * q.scope))
    requires forall id | id in byID :: byID[id] in Matching(q.fleet, Cast(ids, q.canon) * q.scope) && byID[id].id == id
    ensures refusals == Others(q, ids)
    ensures |hosts| == |CarriedTexts(q, ids)|
    ensures forall i | 0 <= i < |hosts| :: hosts[i].id == CarriedTexts(q, ids)[i] && hosts[i] in q.fleet
    ensures forall h | h in hosts :: h.id in q.scope && h.id !in q.exclude
  {
    hide Matching, Cast, Ordered, Identified, Distinct;
    hosts, refusals := [], [];
    for i := 0 to |ids|
      invariant refusals == Others(q, ids[..i])
      invariant |hosts| == |CarriedTexts(q, ids[..i])|
      invariant forall k | 0 <= k < |hosts| :: hosts[k].id == CarriedTexts(q, ids[..i])[k] && hosts[k] in q.fleet
      invariant forall h | h in hosts :: h.id in q.scope && h.id !in q.exclude
    {
      var id := ids[i];
      assert ids[..i + 1][..i] == ids[..i] && ids[..i + 1][i] == id;
      SeenIff(ids, q.fleet, q.scope, q.canon, id);
      if id !in byID {
        if q.canon(id).value !in IdsOf(q.fleet) {
          refusals := refusals + [Refusal(id, UnknownHost)];
          continue;
        }
        refusals := refusals + [Refusal(id, OutOfScope)];
      } else if id in q.exclude {
        refusals := refusals + [Refusal(id, ExcludedAndListed)];
      } else {
        MatchingIff(q.fleet, Cast(ids, q.canon) * q.scope, byID[id]);
        hosts := hosts + [byID[id]];
      }
    }
    assert ids[..|ids|] == ids;
  }

  // ----- the exclusion list -----

  function Kept(candidates: seq<Host>, exclude: seq<string>): seq<Host> {
    if candidates == [] then []
    else
      var last := |candidates| - 1;
      Kept(candidates[..last], exclude) + if candidates[last].id in exclude then [] else [candidates[last]]
  }

  function Closed(candidates: seq<Host>, exclude: seq<string>): seq<Host> {
    if candidates == [] then []
    else
      var last := |candidates| - 1;
      Closed(candidates[..last], exclude) + if candidates[last].id in exclude then [candidates[last]] else []
  }

  /** `part` can be read off `whole` from left to right. */
  ghost predicate InOrder(part: seq<Host>, whole: seq<Host>) {
    if part == [] then true
    else if whole == [] then false
    else
      var p, w := |part| - 1, |whole| - 1;
      (part[p] == whole[w] && InOrder(part[..p], whole[..w])) || InOrder(part, whole[..w])
  }

  lemma InOrderSnoc(part: seq<Host>, whole: seq<Host>, h: Host)
    requires InOrder(part, whole)
    ensures InOrder(part + [h], whole + [h])
    ensures InOrder(part, whole + [h])
  {
    assert (part + [h])[..|part|] == part && (whole + [h])[..|whole|] == whole;
  }

  lemma {:induction false} SplitInOrder(candidates: seq<Host>, exclude: seq<string>)
    ensures InOrder(Kept(candidates, exclude), candidates)
    ensures InOrder(Closed(candidates, exclude), candidates)
  {
    hide InOrder;
    if candidates == [] {
      NothingInOrder();
    } else {
      var last := |candidates| - 1;
      var rest := candidates[..last];
      SplitInOrder(rest, exclude);
      assert candidates == rest + [candidates[last]];
      InOrderSnoc(Kept(rest, exclude), rest, candidates[last]);
      InOrderSnoc(Closed(rest, exclude), rest, candidates[last]);
      assert Kept(rest, exclude) + [] == Kept(rest, exclude) && Closed(rest, exclude) + [] == Closed(rest, exclude);
    }
  }

  lemma NothingInOrder()
    ensures InOrder([], [])
  {
  }

  /** Candidates are split, not lost: the two parts make up the whole, the excluded hosts in the one. */
  lemma {:induction false} SplitMeans(candidates: seq<Host>, exclude: seq<string>)
    ensures multiset(Kept(candidates, exclude)) + multiset(Closed(candidates, exclude)) == multiset(candidates)
    ensures forall h | h in Kept(candidates, exclude) :: h.id !in exclude
    ensures forall h | h in Closed(candidates, exclude) :: h.id in exclude
  {
    if candidates != [] {
      var last := |candidates| - 1;
      SplitMeans(candidates[..last], exclude);
      assert candidates == candidates[..last] + [candidates[last]];
    }
  }

  /** Hosts on the exclusion list are closed, the rest kept; an empty list hands the candidates on. */
  method ExcludeHosts(candidates: seq<Host>, exclude: seq<string>) returns (kept: seq<Host>, closed: seq<Host>)
    ensures InOrder(kept, candidates) && InOrder(closed, candidates)
    ensures multiset(kept) + multiset(closed) == multiset(candidates)
    ensures forall h | h in kept :: h.id !in exclude
    ensures forall h | h in closed :: h.id in exclude
  {
    if |exclude| == 0 {
      NothingExcluded(candidates);
      SplitMeans(candidates, []);
      SplitInOrder(candidates, []);
      assert exclude == [];
      return candidates, [];
    }
    kept, closed := [], [];
    for i := 0 to |candidates|
      invariant kept == Kept(candidates[..i], exclude) && closed == Closed(candidates[..i], exclude)
    {
      var host := candidates[i];
      assert candidates[..i + 1][..i] == candidates[..i];
      if host.id !in exclude {
        kept := kept + [host];
        continue;
      }
      closed := closed + [host];
    }
    assert candidates[..|candidates|] == candidates;
    SplitMeans(candidates, exclude);
    SplitInOrder(candidates, exclude);
  }

  lemma {:induction false} NothingExcluded(candidates: seq<Host>)
    ensures Kept(candidates, []) == candidates && Closed(candidates, []) == []
  {
    if candidates != [] {
      var last := |candidates| - 1;
      NothingExcluded(candidates[..last]);
      assert candidates == candidates[..last] + [candidates[last]];
    }
  }
}
