/** Which tokens the scanner joins: the pairs, and nothing but the pairs. */
module MibJoining {
  import opened Basics
  import opened Tokens
  import opened MibScanner

  type Pairs = set<(string, string)>

  const PAIRS: Pairs := {
    ("OBJECT", "IDENTIFIER"), ("OCTET", "STRING"), ("SEQUENCE", "OF"),
    ("SET", "OF"), ("TYPE", "NOTATION"), ("VALUE", "NOTATION")
  }

  predicate OneWord(text: string) {
    text != "" && forall i :: 0 <= i < |text| ==> text[i] != ' '
  }

  /** Pairs of words, none of which is a second word here and a first word there. */
  ghost predicate Apart(pairs: Pairs) {
    && (forall a, b :: (a, b) in pairs ==> OneWord(a) && OneWord(b))
    && (forall a, b, c, d {:trigger (a, b) in pairs, (c, d) in pairs} :: (a, b) in pairs && (c, d) in pairs ==> b != c)
  }

  /** The scanner's special tokens are these pairs. */
  ghost predicate Special(pairs: Pairs) {
    forall a, b :: (a, b) in pairs <==> a + " " + b in SPECIAL_TOKENS
  }

  /** Only one way to cut a text in two words. */
  lemma SameWords(a: string, b: string, c: string, d: string)
    requires a + " " + b == c + " " + d && OneWord(c) && OneWord(d)
    ensures a == c && b == d
  {
    var whole := a + " " + b;
    assert whole[|a|] == ' ' && whole[|c|] == ' ';
    assert |a| == |c|;
    assert a == whole[..|a|] && b == whole[|a| + 1..];
  }

  lemma PairIs(a: string, b: string, c: string, d: string)
    requires OneWord(c) && OneWord(d)
    ensures a + " " + b == c + " " + d <==> a == c && b == d
  {
    if a + " " + b == c + " " + d {
      SameWords(a, b, c, d);
    }
  }

  lemma PairsIff(a: string, b: string)
    ensures (a, b) in PAIRS <==> a + " " + b in SPECIAL_TOKENS
  {
    PairIs(a, b, "OBJECT", "IDENTIFIER");
    PairIs(a, b, "OCTET", "STRING");
    PairIs(a, b, "SEQUENCE", "OF");
    PairIs(a, b, "SET", "OF");
    PairIs(a, b, "TYPE", "NOTATION");
    PairIs(a, b, "VALUE", "NOTATION");
    Spelled();
  }

  lemma Spelled()
    ensures "OBJECT" + " " + "IDENTIFIER" == "OBJECT IDENTIFIER"
    ensures "OCTET" + " " + "STRING" == "OCTET STRING"
    ensures "SEQUENCE" + " " + "OF" == "SEQUENCE OF"
    ensures "SET" + " " + "OF" == "SET OF"
    ensures "TYPE" + " " + "NOTATION" == "TYPE NOTATION"
    ensures "VALUE" + " " + "NOTATION" == "VALUE NOTATION"
  {
  }

  lemma PairsAreSpecial()
    ensures Special(PAIRS)
  {
    forall a, b
      ensures (a, b) in PAIRS <==> a + " " + b in SPECIAL_TOKENS
    {
      PairsIff(a, b);
    }
  }

  const FIRST_WORDS := {"OBJECT", "OCTET", "SEQUENCE", "SET", "TYPE", "VALUE"}
  const SECOND_WORDS := {"IDENTIFIER", "STRING", "OF", "NOTATION"}

  lemma WordsOfPair(a: string, b: string)
    requires (a, b) in PAIRS
    ensures a in FIRST_WORDS && b in SECOND_WORDS && OneWord(a) && OneWord(b)
  {
  }

  lemma NoSharedWord(word: string)
    requires word in SECOND_WORDS
    ensures word !in FIRST_WORDS
  {
  }

  lemma PairsAreApart()
    ensures Apart(PAIRS)
  {
    forall a, b | (a, b) in PAIRS
      ensures OneWord(a) && OneWord(b) && a in FIRST_WORDS && b !in FIRST_WORDS
    {
      WordsOfPair(a, b);
      NoSharedWord(b);
    }
  }

  // ---------------------------------------------------------------- taking tokens apart

  predicate Makes(pair: (string, string), token: string) {
    token == pair.0 + " " + pair.1
  }

  /** The texts that a token was made of. */
  ghost function Parts(pairs: Pairs, token: string): (r: seq<string>)
    ensures 1 <= |r| <= 2
  {
    if exists pair :: pair in pairs && Makes(pair, token) then
      var pair :| pair in pairs && Makes(pair, token);
      [pair.0, pair.1]
    else [token]
  }

  ghost function Unjoined(pairs: Pairs, tokens: seq<string>): seq<string> {
    if tokens == [] then []
    else Unjoined(pairs, tokens[..|tokens| - 1]) + Parts(pairs, tokens[|tokens| - 1])
  }

  /** No text is a special token already. */
  ghost predicate Single(pairs: Pairs, raw: seq<string>) {
    forall i :: 0 <= i < |raw| ==> Parts(pairs, raw[i]) == [raw[i]]
  }

  predicate NoPairLeft(pairs: Pairs, tokens: seq<string>) {
    forall i :: 0 < i < |tokens| ==> (tokens[i - 1], tokens[i]) !in pairs
  }

  lemma PairParts(pairs: Pairs, a: string, b: string)
    requires Apart(pairs) && (a, b) in pairs
    ensures Parts(pairs, a + " " + b) == [a, b] && Parts(pairs, a) == [a] && Parts(pairs, b) == [b]
  {
    assert Makes((a, b), a + " " + b);
    forall pair | pair in pairs && Makes(pair, a + " " + b)
      ensures pair == (a, b)
    {
      assert (pair.0, pair.1) in pairs;
      SameWords(a, b, pair.0, pair.1);
    }
    NoWordIsMade(pairs, a);
    NoWordIsMade(pairs, b);
  }

  lemma NoWordIsMade(pairs: Pairs, word: string)
    requires OneWord(word)
    ensures Parts(pairs, word) == [word]
  {
    if pair :| pair in pairs && Makes(pair, word) {
      HasSpace(pair, word);
    }
  }

  lemma HasSpace(pair: (string, string), token: string)
    requires Makes(pair, token)
    ensures !OneWord(token)
  {
    assert token[|pair.0|] == ' ';
  }

  /** A joined token is no word of a pair. */
  lemma JoinedIsNoWord(pairs: Pairs, a: string, b: string, other: string)
    requires Apart(pairs)
    ensures (a + " " + b, other) !in pairs && (other, a + " " + b) !in pairs
  {
    assert (a + " " + b)[|a|] == ' ';
  }

  lemma LastParts(pairs: Pairs, tokens: seq<string>)
    requires tokens != [] && NoPairLeft(pairs, tokens)
    ensures NoPairLeft(pairs, tokens[..|tokens| - 1])
    ensures Unjoined(pairs, tokens) == Unjoined(pairs, tokens[..|tokens| - 1]) + Parts(pairs, tokens[|tokens| - 1])
  {
    var front := tokens[..|tokens| - 1];
    assert forall i :: 0 <= i < |front| ==> front[i] == tokens[i];
  }

  lemma OneMoreToken(pairs: Pairs, tokens: seq<string>, token: string)
    requires NoPairLeft(pairs, tokens) && (tokens != [] ==> (tokens[|tokens| - 1], token) !in pairs)
    ensures NoPairLeft(pairs, tokens + [token])
    ensures Unjoined(pairs, tokens + [token]) == Unjoined(pairs, tokens) + Parts(pairs, token)
  {
    assert (tokens + [token])[..|tokens|] == tokens;
  }

  // ---------------------------------------------------------------- joining

  lemma AddIs(pairs: Pairs, front: seq<string>, text: string)
    requires Special(pairs)
    ensures Add(front, text) ==
            if front != [] && (front[|front| - 1], text) in pairs
            then front[..|front| - 1] + [front[|front| - 1] + " " + text]
            else front + [text]
  {
  }

  lemma JoinedKeeps(pairs: Pairs, init: seq<string>, last: string, text: string)
    requires Apart(pairs) && NoPairLeft(pairs, init) && (last, text) in pairs
    ensures Unjoined(pairs, init + [last + " " + text]) == Unjoined(pairs, init) + [last] + [text]
    ensures NoPairLeft(pairs, init + [last + " " + text]) && Parts(pairs, last) == [last]
  {
    PairParts(pairs, last, text);
    if init != [] {
      JoinedIsNoWord(pairs, last, text, init[|init| - 1]);
    }
    OneMoreToken(pairs, init, last + " " + text);
    assert Unjoined(pairs, init) + [last, text] == Unjoined(pairs, init) + [last] + [text];
  }

  lemma AddKeeps(pairs: Pairs, front: seq<string>, text: string, all: seq<string>)
    requires Apart(pairs) && NoPairLeft(pairs, front) && Parts(pairs, text) == [text]
    requires all == if front != [] && (front[|front| - 1], text) in pairs
                    then front[..|front| - 1] + [front[|front| - 1] + " " + text]
                    else front + [text]
    ensures Unjoined(pairs, all) == Unjoined(pairs, front) + [text] && NoPairLeft(pairs, all)
  {
    if front != [] && (front[|front| - 1], text) in pairs {
      LastParts(pairs, front);
      JoinedKeeps(pairs, front[..|front| - 1], front[|front| - 1], text);
    } else {
      OneMoreToken(pairs, front, text);
    }
  }

  lemma InFront(a: seq<string>, b: string, raw: seq<string>)
    requires raw != [] && raw[0] == b
    ensures a + [b] + raw[1..] == a + raw
  {
  }

  lemma SingleRest(pairs: Pairs, raw: seq<string>)
    requires Single(pairs, raw) && raw != []
    ensures Single(pairs, raw[1..]) && Parts(pairs, raw[0]) == [raw[0]]
  {
  }

  /** Joining loses nothing, and leaves no pair. */
  lemma {:induction false} JoinKeeps(pairs: Pairs, front: seq<string>, raw: seq<string>, all: seq<string>)
    requires Apart(pairs) && Special(pairs) && NoPairLeft(pairs, front) && Single(pairs, raw) && all == Join(front, raw)
    ensures Unjoined(pairs, all) == Unjoined(pairs, front) + raw && NoPairLeft(pairs, all)
    decreases raw
  {
    if raw == [] {
      return;
    }
    var more := Add(front, raw[0]);
    AddIs(pairs, front, raw[0]);
    SingleRest(pairs, raw);
    AddKeeps(pairs, front, raw[0], more);
    InFront(Unjoined(pairs, front), raw[0], raw);
    JoinKeeps(pairs, more, raw[1..], all);
  }

  lemma EndsPaired(pairs: Pairs, tokens: seq<string>)
    requires tokens != [] && NoPairLeft(pairs, tokens) && |Parts(pairs, tokens[|tokens| - 1])| == 2
    ensures var words := Unjoined(pairs, tokens); |words| >= 2 && (words[|words| - 2], words[|words| - 1]) in pairs
  {
    LastParts(pairs, tokens);
  }

  lemma EndsUnpaired(pairs: Pairs, tokens: seq<string>)
    requires tokens != [] && NoPairLeft(pairs, tokens) && Apart(pairs) && |Parts(pairs, tokens[|tokens| - 1])| == 1
    ensures var words := Unjoined(pairs, tokens); |words| >= 2 ==> (words[|words| - 2], words[|words| - 1]) !in pairs
  {
    var n := |tokens| - 1;
    LastParts(pairs, tokens);
    if n > 0 {
      LastParts(pairs, tokens[..n]);
      var z := Parts(pairs, tokens[n - 1]);
      if |z| == 2 {
        assert (z[0], z[1]) in pairs;
      }
    }
  }

  /** A token that is joined cannot be traded for two that are not. */
  lemma SameLast(pairs: Pairs, a: seq<string>, b: seq<string>)
    requires a != [] && b != [] && NoPairLeft(pairs, a) && NoPairLeft(pairs, b) && Apart(pairs)
    requires Unjoined(pairs, a) == Unjoined(pairs, b)
    ensures |Parts(pairs, a[|a| - 1])| == |Parts(pairs, b[|b| - 1])|
  {
    if |Parts(pairs, a[|a| - 1])| == 2 {
      EndsPaired(pairs, a);
    } else {
      EndsUnpaired(pairs, a);
    }
    if |Parts(pairs, b[|b| - 1])| == 2 {
      EndsPaired(pairs, b);
    } else {
      EndsUnpaired(pairs, b);
      LastParts(pairs, b);
    }
  }

  /** There is only one way to leave no pair. */
  lemma {:induction false} JoinedIsUnique(pairs: Pairs, a: seq<string>, b: seq<string>)
    requires NoPairLeft(pairs, a) && NoPairLeft(pairs, b) && Apart(pairs) && Unjoined(pairs, a) == Unjoined(pairs, b)
    ensures a == b
    decreases |a|
  {
    if a == [] || b == [] {
      return;
    }
    var m, n := |a| - 1, |b| - 1;
    LastParts(pairs, a);
    LastParts(pairs, b);
    SameLast(pairs, a, b);
    var x, y, u, v := Parts(pairs, a[m]), Parts(pairs, b[n]), Unjoined(pairs, a[..m]), Unjoined(pairs, b[..n]);
    SameEnds(u, x, v, y);
    SameParts(pairs, a[m], b[n]);
    JoinedIsUnique(pairs, a[..m], b[..n]);
    assert a == a[..m] + [a[m]] && b == b[..n] + [b[n]];
  }

  lemma SameEnds(u: seq<string>, x: seq<string>, v: seq<string>, y: seq<string>)
    requires u + x == v + y && |x| == |y|
    ensures u == v && x == y
  {
    assert u == (u + x)[..|u|] && v == (v + y)[..|v|];
    assert x == (u + x)[|u|..] && y == (v + y)[|v|..];
  }

  lemma SameParts(pairs: Pairs, a: string, b: string)
    requires Parts(pairs, a) == Parts(pairs, b)
    ensures a == b
  {
    var x := Parts(pairs, a);
    if |x| == 2 {
      assert a == x[0] + " " + x[1] && b == x[0] + " " + x[1];
    } else {
      assert x[0] == a && x[0] == b;
    }
  }

  /** The tokens that the scanner makes are exactly those that come from the texts and leave no pair. */
  lemma TokensIff(raw: seq<string>, tokens: seq<string>)
    requires Single(PAIRS, raw)
    ensures tokens == Join([], raw) <==> Unjoined(PAIRS, tokens) == raw && NoPairLeft(PAIRS, tokens)
  {
    PairsAreSpecial();
    PairsAreApart();
    JoinKeeps(PAIRS, [], raw, Join([], raw));
    assert [] + raw == raw;
    if Unjoined(PAIRS, tokens) == raw && NoPairLeft(PAIRS, tokens) {
      JoinedIsUnique(PAIRS, tokens, Join([], raw));
    }
  }

  // ---------------------------------------------------------------- skipping

  lemma {:induction false} KeptOfBoth(raw: seq<string>, more: seq<string>, skip: set<TokenType>)
    ensures Kept(raw + more, skip) == Kept(raw, skip) + Kept(more, skip)
  {
    if raw == [] {
      assert raw + more == more;
    } else {
      assert (raw + more)[1..] == raw[1..] + more;
      KeptOfBoth(raw[1..], more, skip);
    }
  }

  /** Of all texts just those are left out whose kind is skipped. */
  lemma KeptIsFilter(raw: seq<string>, text: string, skip: set<TokenType>)
    ensures Kept(raw + [text], skip) == if TypeOf(text) in skip then Kept(raw, skip) else Kept(raw, skip) + [text]
  {
    KeptOfBoth(raw, [text], skip);
    KeptOne(text, skip);
  }

  lemma KeptOne(text: string, skip: set<TokenType>)
    ensures Kept([text], skip) == if TypeOf(text) in skip then [] else [text]
  {
  }
}
