/** Lists of texts as requests carry them: trimmed, without blanks, each once. */
module Lists {
  import opened Text

  /** The texts of a list as they are looked up: trimmed, the blank ones left out. */
  function Wanted(texts: seq<string>): seq<string> {
    if texts == [] then []
    else Looked(texts[0]) + Wanted(texts[1..])
  }

  function Looked(text: string): seq<string> {
    if TrimSpace(text) == [] then [] else [TrimSpace(text)]
  }

  lemma WantedHead(texts: seq<string>)
    requires texts != []
    ensures Wanted(texts) == Looked(texts[0]) + Wanted(texts[1..])
  {
  }

  lemma {:induction false} WantedConcat(texts: seq<string>, more: seq<string>)
    ensures Wanted(texts + more) == Wanted(texts) + Wanted(more)
  {
    hide TrimSpace, Looked, Wanted;
    if texts == [] {
      assert texts + more == more;
      NothingWanted();
    } else {
      WantedConcat(texts[1..], more);
      WantedHead(texts);
      WantedHead(texts + more);
      assert (texts + more)[0] == texts[0] && (texts + more)[1..] == texts[1..] + more;
      Regroup(Looked(texts[0]), Wanted(texts[1..]), Wanted(more));
    }
  }

  lemma NothingWanted()
    ensures Wanted([]) == []
  {
  }

  lemma Regroup(a: seq<string>, b: seq<string>, c: seq<string>)
    ensures a + (b + c) == (a + b) + c
  {
  }

  lemma WantedSnoc(texts: seq<string>, i: nat)
    requires i < |texts|
    ensures var text := TrimSpace(texts[i]);
            Wanted(texts[..i + 1]) == if text == [] then Wanted(texts[..i]) else Wanted(texts[..i]) + [text]
  {
    hide TrimSpace;
    assert texts[..i + 1] == texts[..i] + [texts[i]];
    WantedConcat(texts[..i], [texts[i]]);
    assert [texts[i]][1..] == [] && Wanted([]) == [];
  }

  function TextsOf(texts: seq<string>): set<string> {
    set t | t in texts
  }

  ghost predicate NoRepeats(texts: seq<string>) {
    forall i, j | 0 <= i < j < |texts| :: texts[i] != texts[j]
  }

  /** Each text once, in the order of first mention. */
  function FirstMentions(texts: seq<string>): seq<string> {
    if texts == [] then []
    else
      var last := |texts| - 1;
      var before := FirstMentions(texts[..last]);
      if texts[last] in before then before else before + [texts[last]]
  }

  lemma {:induction false} FirstMentionsMeans(texts: seq<string>)
    ensures NoRepeats(FirstMentions(texts)) && TextsOf(FirstMentions(texts)) == TextsOf(texts)
    ensures |FirstMentions(texts)| <= |texts|
  {
    if texts != [] {
      var last := |texts| - 1;
      FirstMentionsMeans(texts[..last]);
      assert texts == texts[..last] + [texts[last]];
      assert TextsOf(texts) == TextsOf(texts[..last]) + {texts[last]};
      assert TextsOf(FirstMentions(texts[..last]) + [texts[last]])
          == TextsOf(FirstMentions(texts[..last])) + {texts[last]};
      assert texts[last] in FirstMentions(texts[..last]) <==> texts[last] in TextsOf(FirstMentions(texts[..last]));
    }
  }

  lemma FirstMentionsSnoc(texts: seq<string>, text: string)
    ensures FirstMentions(texts + [text])
            == if text in FirstMentions(texts) then FirstMentions(texts) else FirstMentions(texts) + [text]
  {
    assert (texts + [text])[..|texts|] == texts;
  }

  lemma {:induction false} FirstMentionsIdle(texts: seq<string>)
    requires NoRepeats(texts)
    ensures FirstMentions(texts) == texts
  {
    if texts != [] {
      var last := |texts| - 1;
      FirstMentionsIdle(texts[..last]);
      assert texts == texts[..last] + [texts[last]];
    }
  }

  /** Texts that are trimmed and not blank are looked up as they are. */
  lemma {:induction false} WantedIdle(texts: seq<string>)
    requires forall t | t in texts :: t != [] && TrimSpace(t) == t
    ensures Wanted(texts) == texts
  {
    hide TrimSpace;
    if texts != [] {
      assert texts[0] in texts && forall t | t in texts[1..] :: t in texts;
      WantedIdle(texts[1..]);
      assert texts == [texts[0]] + texts[1..];
    }
  }

  lemma {:induction false} NoRepeatsCount(texts: seq<string>)
    requires NoRepeats(texts)
    ensures |TextsOf(texts)| == |texts|
  {
    if texts != [] {
      var rest := texts[1..];
      NoRepeatsCount(rest);
      assert texts == [texts[0]] + rest;
      assert texts[0] !in rest;
      assert TextsOf(texts) == {texts[0]} + TextsOf(rest);
    }
  }

  lemma {:induction false} NoRepeatsOnce(s: seq<string>, x: string)
    requires NoRepeats(s)
    ensures multiset(s)[x] <= 1
  {
    if s != [] {
      assert s == [s[0]] + s[1..];
      NoRepeatsOnce(s[1..], x);
      if s[0] == x {
        assert x !in s[1..];
      }
    }
  }

  lemma TwiceCounts(s: seq<string>, i: nat, j: nat)
    requires i < j < |s| && s[i] == s[j]
    ensures multiset(s)[s[i]] >= 2
  {
    assert s == s[..j] + [s[j]] + s[j + 1..];
    assert s[i] in s[..j];
  }

  /** Rearranging a list repeats nothing. */
  lemma NoRepeatsPermuted(a: seq<string>, b: seq<string>)
    requires NoRepeats(a) && multiset(a) == multiset(b)
    ensures NoRepeats(b)
  {
    forall i, j | 0 <= i < j < |b| ensures b[i] != b[j] {
      NoRepeatsOnce(a, b[i]);
      if b[i] == b[j] {
        TwiceCounts(b, i, j);
      }
    }
  }

  /** One text of a list moved to its front. */
  lemma MovedFirst(s: seq<string>, x: string) returns (rest: seq<string>)
    requires x in s
    ensures multiset([x] + rest) == multiset(s)
  {
    var i :| 0 <= i < |s| && s[i] == x;
    rest := s[..i] + s[i + 1..];
    assert s == s[..i] + ([x] + s[i + 1..]);
    assert multiset(s) == multiset(s[..i]) + multiset([x] + s[i + 1..]);
  }

  /** The texts looked up are the trimmed ones that are not blank. */
  lemma {:induction false} WantedMeans(texts: seq<string>, t: string)
    ensures t in Wanted(texts) <==> t != [] && exists u | u in texts :: TrimSpace(u) == t
  {
    hide TrimSpace;
    if texts != [] {
      WantedMeans(texts[1..], t);
      assert texts == [texts[0]] + texts[1..];
    }
  }

  /** Where a text is first mentioned. */
  function FirstAt(texts: seq<string>, t: string): nat
    requires t in texts
  {
    if texts[0] == t then 0 else 1 + FirstAt(texts[1..], t)
  }

  lemma {:induction false} FirstAtPrefix(texts: seq<string>, more: seq<string>, t: string)
    requires t in texts
    ensures FirstAt(texts + more, t) == FirstAt(texts, t) < |texts|
  {
    if texts[0] != t {
      FirstAtPrefix(texts[1..], more, t);
      assert (texts + more)[1..] == texts[1..] + more;
    }
  }

  lemma {:induction false} FirstAtNew(texts: seq<string>, t: string)
    requires t !in texts
    ensures FirstAt(texts + [t], t) == |texts|
  {
    if texts != [] {
      FirstAtNew(texts[1..], t);
      assert (texts + [t])[1..] == texts[1..] + [t];
    }
  }

  lemma MentionsMember(texts: seq<string>, t: string)
    ensures t in FirstMentions(texts) <==> t in texts
  {
    FirstMentionsMeans(texts);
    assert t in TextsOf(FirstMentions(texts)) <==> t in TextsOf(texts);
  }

  /** The texts stand in the order in which they were first mentioned. */
  lemma {:induction false} FirstMentionsOrder(texts: seq<string>, i: nat, j: nat)
    requires i < j < |FirstMentions(texts)|
    ensures FirstMentions(texts)[i] in texts && FirstMentions(texts)[j] in texts
    ensures FirstAt(texts, FirstMentions(texts)[i]) < FirstAt(texts, FirstMentions(texts)[j])
  {
    hide FirstAt;
    var last := |texts| - 1;
    var rest, x := texts[..last], texts[last];
    var r, before := FirstMentions(texts), FirstMentions(rest);
    assert texts == rest + [x];
    MentionsMember(rest, x);
    MentionsMember(rest, r[i]);
    FirstAtPrefix(rest, [x], r[i]);
    if j < |before| {
      FirstMentionsOrder(rest, i, j);
      MentionsMember(rest, r[j]);
      FirstAtPrefix(rest, [x], r[j]);
    } else {
      FirstAtNew(rest, x);
    }
  }
}
