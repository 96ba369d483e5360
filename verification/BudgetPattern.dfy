/**
 Budget keys as patterns. A key with asterisks stands for every key of that
 shape; the database is asked about it with LIKE. The translation between the
 two is a small compiler, and the main result is that it preserves meaning.
 */
module BudgetPattern {
  import opened Optional
  import opened Text

  // ----- LIKE -----

  datatype Token = AnySequence | AnyCharacter | Literal(c: char)

  /** A LIKE pattern read with the backslash as escape; None is the error for one left dangling. */
  function Tokens(pattern: string): Option<seq<Token>> {
    if pattern == [] then Some([])
    else if pattern[0] == '\\' then
      if |pattern| == 1 then None else Headed(Literal(pattern[1]), Tokens(pattern[2..]))
    else
      var token := if pattern[0] == '%' then AnySequence else if pattern[0] == '_' then AnyCharacter
                   else Literal(pattern[0]);
      Headed(token, Tokens(pattern[1..]))
  }

  function Headed(token: Token, rest: Option<seq<Token>>): Option<seq<Token>> {
    if rest.None? then None else Some([token] + rest.value)
  }

  predicate Accepts(tokens: seq<Token>, s: string)
    decreases |tokens|
  {
    if tokens == [] then s == []
    else
      match tokens[0]
      case AnySequence => exists k | 0 <= k <= |s| :: Accepts(tokens[1..], s[k..])
      case AnyCharacter => s != [] && Accepts(tokens[1..], s[1..])
      case Literal(c) => s != [] && s[0] == c && Accepts(tokens[1..], s[1..])
  }

  predicate Like(s: string, pattern: string) {
    Tokens(pattern).Some? && Accepts(Tokens(pattern).value, s)
  }

  // ----- the compiler -----

  /** The replacer: each special character of LIKE gets the escape in front. */
  function Escaped(key: string): string {
    if key == [] then []
    else
      (if key[0] == '\\' || key[0] == '%' || key[0] == '_' then ['\\', key[0]] else [key[0]])
      + Escaped(key[1..])
  }

  function StarsReplaced(s: string): string {
    seq(|s|, i requires 0 <= i < |s| => if s[i] == '*' then '%' else s[i])
  }

  function LikeOfPattern(key: string): string {
    StarsReplaced(Escaped(key))
  }

  // ----- what a pattern key means -----

  function Stars(key: string): nat {
    if key == [] then 0 else (if key[0] == '*' then 1 else 0) + Stars(key[1..])
  }

  /** The key with its asterisks replaced, left to right. */
  function Filled(key: string, fills: seq<string>): string
    requires |fills| == Stars(key)
  {
    if key == [] then []
    else if key[0] == '*' then fills[0] + Filled(key[1..], fills[1..])
    else [key[0]] + Filled(key[1..], fills)
  }

  /** A key stands for every string its asterisks can be filled to make. */
  ghost predicate StandsFor(key: string, s: string) {
    exists fills: seq<string> :: |fills| == Stars(key) && Filled(key, fills) == s
  }

  // ----- the compiler preserves meaning -----

  function KeyTokens(key: string): seq<Token> {
    seq(|key|, i requires 0 <= i < |key| => if key[i] == '*' then AnySequence else Literal(key[i]))
  }

  function CompiledChar(c: char): string {
    if c == '\\' || c == '%' || c == '_' then ['\\', c] else if c == '*' then ['%'] else [c]
  }

  /** The two passes together, one character at a time. */
  lemma CompiledStep(key: string)
    requires key != []
    ensures LikeOfPattern(key) == CompiledChar(key[0]) + LikeOfPattern(key[1..])
  {
  }

  /** Whatever a compiled character opens, the pattern reads back as its token. */
  lemma CharTokens(c: char, rest: string)
    ensures Tokens(CompiledChar(c) + rest)
            == Headed(if c == '*' then AnySequence else Literal(c), Tokens(rest))
  {
    var pattern := CompiledChar(c) + rest;
    assert pattern[|CompiledChar(c)|..] == rest;
  }

  /** No pattern the compiler makes is an error, and each character reads back as itself. */
  lemma {:induction false} CompiledTokens(key: string)
    ensures Tokens(LikeOfPattern(key)) == Some(KeyTokens(key))
  {
    hide Tokens, LikeOfPattern, CompiledChar, KeyTokens;
    if key == [] {
      NothingCompiled();
    } else {
      CompiledTokens(key[1..]);
      CompiledStep(key);
      CharTokens(key[0], LikeOfPattern(key[1..]));
      KeyTokensStep(key);
    }
  }

  lemma NothingCompiled()
    ensures Tokens(LikeOfPattern("")) == Some([]) && KeyTokens("") == []
  {
  }

  lemma KeyTokensStep(key: string)
    requires key != []
    ensures KeyTokens(key) == [if key[0] == '*' then AnySequence else Literal(key[0])] + KeyTokens(key[1..])
  {
  }

  lemma {:induction false} AcceptsFilled(key: string, fills: seq<string>)
    requires |fills| == Stars(key)
    ensures Accepts(KeyTokens(key), Filled(key, fills))
    decreases |key|
  {
    if key != [] {
      var s := Filled(key, fills);
      assert KeyTokens(key)[1..] == KeyTokens(key[1..]);
      if key[0] == '*' {
        AcceptsFilled(key[1..], fills[1..]);
        assert s[|fills[0]|..] == Filled(key[1..], fills[1..]);
      } else {
        AcceptsFilled(key[1..], fills);
        assert s[1..] == Filled(key[1..], fills);
      }
    }
  }

  lemma {:induction false} FillsFor(key: string, s: string) returns (fills: seq<string>)
    requires Accepts(KeyTokens(key), s)
    ensures |fills| == Stars(key) && Filled(key, fills) == s
    decreases |key|
  {
    fills := [];
    if key != [] {
      assert KeyTokens(key)[1..] == KeyTokens(key[1..]);
      if key[0] == '*' {
        assert KeyTokens(key)[0].AnySequence?;
        var k :| 0 <= k <= |s| && Accepts(KeyTokens(key)[1..], s[k..]);
        var rest := FillsFor(key[1..], s[k..]);
        fills := [s[..k]] + rest;
        assert fills[1..] == rest;
      } else {
        fills := FillsFor(key[1..], s[1..]);
      }
    }
  }

  /** The compiled pattern matches exactly the strings the key stands for. */
  lemma CompilerPreservesMeaning(key: string, s: string)
    ensures Like(s, LikeOfPattern(key)) <==> StandsFor(key, s)
  {
    CompiledTokens(key);
    if Accepts(KeyTokens(key), s) {
      var fills := FillsFor(key, s);
    }
    if StandsFor(key, s) {
      var fills: seq<string> :| |fills| == Stars(key) && Filled(key, fills) == s;
      AcceptsFilled(key, fills);
    }
  }

  lemma {:induction false} NoStars(key: string)
    requires '*' !in key
    ensures Stars(key) == 0 && Filled(key, []) == key
  {
    if key != [] {
      NoStars(key[1..]);
    }
  }

  /** A key without an asterisk matches only itself, whatever else it is made of. */
  lemma ExactKey(key: string, s: string)
    requires '*' !in key
    ensures Like(s, LikeOfPattern(key)) <==> s == key
  {
    NoStars(key);
    CompilerPreservesMeaning(key, s);
    assert StandsFor(key, s) <==> Filled(key, []) == s;
  }

  lemma {:induction false} SelfFill(key: string) returns (fills: seq<string>)
    ensures |fills| == Stars(key) && Filled(key, fills) == key
  {
    fills := [];
    if key != [] {
      fills := SelfFill(key[1..]);
      if key[0] == '*' {
        var rest := fills;
        fills := [['*']] + rest;
        assert fills[1..] == rest;
      }
    }
  }

  /** Every key matches its own pattern, so the equality beside the LIKE adds nothing. */
  lemma KeyMatchesItself(key: string)
    ensures Like(key, LikeOfPattern(key))
  {
    var fills := SelfFill(key);
    CompilerPreservesMeaning(key, key);
  }

  /** The translation loses nothing: two keys with one pattern are one key. */
  lemma CompilerInjective(a: string, b: string)
    requires LikeOfPattern(a) == LikeOfPattern(b)
    ensures a == b
  {
    CompiledTokens(a);
    CompiledTokens(b);
    forall i | 0 <= i < |a|
      ensures a[i] == b[i]
    {
      assert KeyTokens(a)[i] == KeyTokens(b)[i];
    }
  }

  // ----- which limit a lease lives under -----

  /** The pattern of the default policy: the middle of a three-part key gives way to an asterisk. */
  function Pattern(key: string): Option<string> {
    var parts := Split(key, ':');
    if |parts| != 3 then None else Some(parts[0] + ":*:" + parts[2])
  }

  lemma StarsStep(key: string)
    requires key != []
    ensures Stars(key) == (if key[0] == '*' then 1 else 0) + Stars(key[1..])
  {
  }

  lemma FilledStep(key: string, fills: seq<string>)
    requires key != [] && |fills| == Stars(key)
    ensures key[0] == '*' ==> |fills| > 0 && |fills[1..]| == Stars(key[1..])
                              && Filled(key, fills) == fills[0] + Filled(key[1..], fills[1..])
    ensures key[0] != '*' ==> |fills| == Stars(key[1..]) && Filled(key, fills) == [key[0]] + Filled(key[1..], fills)
  {
  }

  lemma FilledNothing(b: string, more: seq<string>)
    requires |more| == Stars(b)
    ensures Stars("") == 0 && Filled("", []) == "" && "" + b == b && [] + more == more
  {
  }

  lemma {:induction false} FilledConcat(a: string, fills: seq<string>, b: string, more: seq<string>)
    requires |fills| == Stars(a) && |more| == Stars(b)
    ensures Stars(a + b) == |fills + more|
    ensures Filled(a + b, fills + more) == Filled(a, fills) + Filled(b, more)
    decreases |a|
  {
    hide Filled, Stars;
    var whole, all := a + b, fills + more;
    if a == [] {
      FilledNothing(b, more);
      assert fills == [] && "" + Filled(b, more) == Filled(b, more);
    } else {
      FilledStep(a, fills);
      StarsStep(whole);
      assert whole[0] == a[0] && whole[1..] == a[1..] + b;
      if a[0] == '*' {
        FilledConcat(a[1..], fills[1..], b, more);
        assert all[0] == fills[0] && all[1..] == fills[1..] + more;
        FilledStep(whole, all);
        Associates(fills[0], Filled(a[1..], fills[1..]), Filled(b, more));
      } else {
        FilledConcat(a[1..], fills, b, more);
        FilledStep(whole, all);
        Associates([a[0]], Filled(a[1..], fills), Filled(b, more));
      }
    }
  }

  lemma Associates(a: string, b: string, c: string)
    ensures a + (b + c) == (a + b) + c
  {
  }

  /** Whatever stands between the two colons, the pattern stands for the whole. */
  lemma MiddleStands(head: string, middle: string, tail: string)
    ensures StandsFor(head + ":*:" + tail, head + ":" + (middle + ":" + tail))
  {
    hide Filled, Stars;
    var front := SelfFill(head);
    var back := SelfFill(tail);
    MiddleFilled(middle, tail, back);
    FilledConcat(head, front, ":*:" + tail, [middle] + back);
    Associates(head, ":*:", tail);
    Associates(middle, ":", tail);
    Associates(head, ":", middle + (":" + tail));
    assert Filled(head + ":*:" + tail, front + ([middle] + back)) == head + ":" + (middle + ":" + tail);
  }

  /** A key lives under its pattern: the pattern stands for it. */
  lemma PatternStandsFor(key: string)
    requires Pattern(key).Some?
    ensures StandsFor(Pattern(key).value, key)
  {
    var parts := Split(key, ':');
    SplitFree(key, ':');
    assert Join(parts[1..], ':') == parts[1] + [':'] + Join(parts[2..], ':');
    MiddleStands(parts[0], parts[1], parts[2]);
  }

  lemma MiddleFilled(middle: string, last: string, tail: seq<string>)
    requires |tail| == Stars(last) && Filled(last, tail) == last
    ensures Stars(":*:" + last) == |[middle] + tail|
    ensures Filled(":*:" + last, [middle] + tail) == ":" + (middle + (":" + last))
  {
    var key := ":*:" + last;
    assert key[1..][0] == '*' && key[1..][1..][0] == ':' && key[1..][1..][1..] == last;
    assert ([middle] + tail)[1..] == tail;
    assert Stars(key[1..][1..]) == Stars(last);
    assert Filled(key[1..][1..], tail) == [':'] + Filled(last, tail);
    assert Filled(key[1..], [middle] + tail) == middle + Filled(key[1..][1..], tail);
  }

  datatype Lease = Lease(key: string, weight: nat, live: bool)

  /** A key is described when it has a limit of its own or its pattern has one. */
  ghost predicate Described(limits: map<string, nat>, key: string) {
    key in limits || (Pattern(key).Some? && Pattern(key).value in limits)
  }

  /** The sum the delete asks for. */
  function Held(leases: seq<Lease>, key: string): nat {
    if leases == [] then 0
    else
      var lease := leases[|leases| - 1];
      Held(leases[..|leases| - 1], key)
      + if lease.live && (lease.key == key || Like(lease.key, LikeOfPattern(key))) then lease.weight else 0
  }

  lemma {:induction false} HeldCovers(leases: seq<Lease>, key: string, i: nat)
    requires i < |leases| && leases[i].live && StandsFor(key, leases[i].key)
    ensures Held(leases, key) >= leases[i].weight
  {
    if i < |leases| - 1 {
      HeldCovers(leases[..|leases| - 1], key, i);
    } else {
      CompilerPreservesMeaning(key, leases[i].key);
    }
  }

  lemma {:induction false} HeldNothing(leases: seq<Lease>, key: string)
    requires forall i | 0 <= i < |leases| && leases[i].live && leases[i].weight > 0 :: !StandsFor(key, leases[i].key)
    ensures Held(leases, key) == 0
  {
    if leases != [] {
      var lease := leases[|leases| - 1];
      HeldNothing(leases[..|leases| - 1], key);
      CompilerPreservesMeaning(key, lease.key);
      KeyMatchesItself(key);
      assert lease.key == key ==> StandsFor(key, lease.key) by {
        CompilerPreservesMeaning(key, key);
      }
    }
  }

  function Total(weights: seq<nat>): nat {
    if weights == [] then 0 else Total(weights[..|weights| - 1]) + weights[|weights| - 1]
  }

  /** What each lease holds of a key: its weight while it is live and the key stands for it. */
  ghost function Shares(leases: seq<Lease>, key: string): seq<nat> {
    seq(|leases|, i requires 0 <= i < |leases| =>
      if leases[i].live && StandsFor(key, leases[i].key) then leases[i].weight else 0)
  }

  /** The sum asked for is the weight of the live leases the key stands for. */
  lemma {:induction false} HeldIsTotal(leases: seq<Lease>, key: string)
    ensures Held(leases, key) == Total(Shares(leases, key))
  {
    hide StandsFor, Like, LikeOfPattern;
    if leases != [] {
      var last := |leases| - 1;
      HeldIsTotal(leases[..last], key);
      assert Shares(leases, key)[..last] == Shares(leases[..last], key);
      CompilerPreservesMeaning(key, leases[last].key);
      KeyMatchesItself(key);
    }
  }

  datatype DeleteAnswer = Deleted | NotFound | InUse(held: nat)

  class BudgetStore {
    var limits: map<string, nat>
    var leases: seq<Lease>

    /** Weights are positive and no live lease is held under a key nothing describes. */
    ghost predicate Valid()
      reads this
    {
      forall i | 0 <= i < |leases| ::
        leases[i].weight > 0 && (leases[i].live ==> Described(limits, leases[i].key))
    }

    /** The delete, under the lock of its row: refused exactly while something live is held under the key. */
    method DeleteBudget(key: string) returns (answer: DeleteAnswer)
      requires Valid()
      modifies this`limits
      ensures Valid()
      ensures answer.NotFound? <==> key !in old(limits)
      ensures answer.InUse? <==>
                && key in old(limits)
                && exists i | 0 <= i < |leases| :: leases[i].live && StandsFor(key, leases[i].key)
      ensures answer.InUse? ==> answer.held == Total(Shares(leases, key)) > 0
      ensures answer.Deleted? ==> limits == old(limits) - {key}
      ensures !answer.Deleted? ==> limits == old(limits)
    {
      if key !in limits {
        return NotFound;
      }
      var held := Held(leases, key);
      if held > 0 {
        HeldIsTotal(leases, key);
        if forall i | 0 <= i < |leases| && leases[i].live :: !StandsFor(key, leases[i].key) {
          HeldNothing(leases, key);
        }
        return InUse(held);
      }
      forall i | 0 <= i < |leases| && leases[i].live
        ensures !StandsFor(key, leases[i].key) && Described(limits - {key}, leases[i].key)
      {
        if StandsFor(key, leases[i].key) {
          HeldCovers(leases, key, i);
        }
        StillDescribed(limits, key, leases[i].key);
      }
      limits := limits - {key};
      answer := Deleted;
    }
  }

  /** Taking a row away can only undescribe keys it stands for. */
  lemma StillDescribed(limits: map<string, nat>, key: string, lease: string)
    requires Described(limits, lease) && !StandsFor(key, lease)
    ensures Described(limits - {key}, lease)
  {
    KeyMatchesItself(key);
    CompilerPreservesMeaning(key, key);
    if Pattern(lease).Some? {
      PatternStandsFor(lease);
    }
  }

  lemma {:induction false} SplitConcat(a: string, b: string, sep: char)
    ensures Split(a + [sep] + b, sep) == Split(a, sep) + Split(b, sep)
  {
    var whole := a + [sep] + b;
    if a == [] {
      assert whole[1..] == b;
    } else {
      assert whole[1..] == a[1..] + [sep] + b;
      SplitConcat(a[1..], b, sep);
    }
  }

  lemma {:induction false} SplitCount(s: string, sep: char)
    ensures |Split(s, sep)| == 1 <==> sep !in s
  {
    if s != [] {
      SplitCount(s[1..], sep);
    }
  }

  /**
   The delete's check is wider than the policy it guards: the pattern stands for
   every middle, but governs only a middle without a colon.
   */
  lemma PatternIsWider(head: string, middle: string, tail: string)
    requires ':' !in head && ':' !in tail
    ensures var key := head + ":" + (middle + ":" + tail);
            && StandsFor(head + ":*:" + tail, key)
            && (Pattern(key) == Some(head + ":*:" + tail) <==> ':' !in middle)
  {
    MiddleStands(head, middle, tail);
    SplitPrefix(head, middle + ":" + tail, ':');
    SplitConcat(middle, tail, ':');
    SplitWhole(tail, ':');
    SplitCount(middle, ':');
  }
}
