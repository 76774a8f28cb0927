/** What the tokens of a MIB text are. */
module MibLexemes {
  import opened Basics
  import opened MibLexer
  import opened Tokens
  import MibScanner

  // ---------------------------------------------------------------- characters

  predicate IsLetterChar(c: char) {
    'a' <= c <= 'z' || 'A' <= c <= 'Z'
  }

  predicate IsDigitChar(c: char) {
    '0' <= c <= '9'
  }

  predicate IsWordChar(c: char) {
    IsLetterChar(c) || IsDigitChar(c) || c == '_' || c == '-' || c == '.'
  }

  predicate IsBlank(c: char) {
    c == ' ' || c == '\t'
  }

  // ---------------------------------------------------------------- shapes of tokens

  /** A letter and any letters, digits, underscores, hyphens and dots. */
  predicate IsWord(text: string) {
    text != "" && IsLetterChar(text[0]) && forall i :: 0 <= i < |text| ==> IsWordChar(text[i])
  }

  /** Digits, with or without a minus in front. */
  predicate IsNumber(text: string) {
    && text != "" && (text[0] == '-' ==> |text| > 1) && (IsDigitChar(text[0]) || text[0] == '-')
    && forall i :: 0 < i < |text| ==> IsDigitChar(text[i])
  }

  predicate IsBlanks(text: string) {
    text != "" && forall i :: 0 <= i < |text| ==> IsBlank(text[i])
  }

  /** Two hyphens and the rest of the line. */
  predicate IsComment(text: string) {
    |text| >= 2 && text[..2] == "--" && forall i :: 0 <= i < |text| ==> text[i] != '\n' && text[i] != '\r'
  }

  /** Characters other than the quote, and any characters behind backslashes. */
  predicate IsQuotable(body: string, quote: char) {
    body == ""
    || (body[0] == '\\' && |body| > 1 && IsQuotable(body[2..], quote))
    || (body[0] != '\\' && body[0] != quote && IsQuotable(body[1..], quote))
  }

  predicate IsString(text: string) {
    && |text| >= 2 && (text[0] == '"' || text[0] == '\'') && text[|text| - 1] == text[0]
    && IsQuotable(text[1..|text| - 1], text[0])
  }

  predicate IsSymbol(text: string) {
    |text| == 1 && text[0] in ['{', '}', '[', ']', '(', ')', ',', ';', '.', '|']
  }

  // ---------------------------------------------------------------- one token

  /** A run ends at the first character that does not belong to it. */
  lemma {:induction false} RunEndsAt(data: string, run: Run, i: nat, end: nat)
    requires i <= end <= |data| && (forall k :: i <= k < end ==> InRun(data[k], run)) && (end < |data| ==> !InRun(data[end], run))
    ensures RunEnd(data, run, i) == end
    decreases end - i
  {
    if i < end {
      RunEndsAt(data, run, i + 1, end);
    }
  }

  /** Nothing more of a run follows: another character does, or the input ends. */
  predicate Ends(rest: string, run: Run, atEOF: bool) {
    if rest == "" then atEOF else !InRun(rest[0], run)
  }

  lemma RunIsOnePiece(text: string, rest: string, run: Run, atEOF: bool)
    requires text != "" && (forall k :: 0 < k < |text| ==> InRun(text[k], run)) && Ends(rest, run, atEOF)
    ensures SplitRun(text + rest, run, atEOF) == Piece(|text|, text)
  {
    var data := text + rest;
    assert forall k :: 0 <= k < |text| ==> data[k] == text[k];
    assert rest != "" ==> data[|text|] == rest[0];
    RunEndsAt(data, run, 1, |text|);
    assert data[..|text|] == text;
    assert rest == "" ==> data == text;
  }

  /** A word is one token up to the first character that cannot belong to it. */
  lemma WordIsOnePiece(text: string, rest: string, atEOF: bool)
    requires IsWord(text) && (if rest == "" then atEOF else !IsWordChar(rest[0]))
    ensures SplitBuffer(text + rest, atEOF) == Piece(|text|, text)
  {
    RunIsOnePiece(text, rest, Words, atEOF);
    assert (text + rest)[0] == text[0];
  }

  lemma NumberIsOnePiece(text: string, rest: string, atEOF: bool)
    requires IsNumber(text) && (if rest == "" then atEOF else !IsDigitChar(rest[0]))
    ensures SplitBuffer(text + rest, atEOF) == Piece(|text|, text)
  {
    RunIsOnePiece(text, rest, MibLexer.Digits, atEOF);
    assert (text + rest)[0] == text[0];
    assert |text| > 1 ==> (text + rest)[1] == text[1];
  }

  /** Of blanks the first one is the text of the token, unless they end the input. */
  lemma BlanksAreOnePiece(text: string, rest: string, atEOF: bool)
    requires IsBlanks(text) && (if rest == "" then atEOF else !IsBlank(rest[0]))
    ensures SplitBuffer(text + rest, atEOF) == Piece(|text|, if rest == "" then text else text[..1])
  {
    RunIsOnePiece(text, rest, Spaces, atEOF);
    assert (text + rest)[0] == text[0] && (text + rest)[..1] == text[..1];
    assert rest == "" ==> text + rest == text;
  }

  lemma CommentIsOnePiece(text: string, rest: string, atEOF: bool)
    requires IsComment(text) && (if rest == "" then atEOF else rest[0] == '\n' || rest[0] == '\r')
    ensures SplitBuffer(text + rest, atEOF) == Piece(|text|, text)
  {
    RunIsOnePiece(text, rest, Line, atEOF);
    assert text[..2][0] == '-' && text[..2][1] == '-';
    assert (text + rest)[0] == text[0] && (text + rest)[1] == text[1];
  }

  lemma {:induction false} QuoteEndsBehind(data: string, quote: char, i: nat, body: string)
    requires i + |body| < |data| && data[i..i + |body|] == body && data[i + |body|] == quote && quote != '\\'
    requires IsQuotable(body, quote)
    ensures QuoteEnd(data, quote, i) == Some(i + |body| + 1)
    decreases |body|
  {
    if body != "" {
      assert data[i] == body[0];
      var n := if body[0] == '\\' then 2 else 1;
      assert data[i + n..i + |body|] == body[n..];
      QuoteEndsBehind(data, quote, i + n, body[n..]);
    }
  }

  /** A string ends with the first quote that is not hidden by a backslash, whatever follows. */
  lemma StringIsOnePiece(text: string, rest: string, atEOF: bool)
    requires IsString(text)
    ensures SplitBuffer(text + rest, atEOF) == Piece(|text|, text)
  {
    var data, body := text + rest, text[1..|text| - 1];
    assert data[0] == text[0] && data[1..1 + |body|] == body && data[1 + |body|] == text[0];
    QuoteEndsBehind(data, text[0], 1, body);
    assert data[..|text|] == text;
  }

  lemma {:induction false} NoQuoteEnd(data: string, quote: char, i: nat)
    requires i <= |data| && IsQuotable(data[i..], quote)
    ensures QuoteEnd(data, quote, i) == None
    decreases |data| - i
  {
    if i < |data| {
      var n := if data[i] == '\\' then 2 else 1;
      assert data[i..][n..] == data[i + n..];
      NoQuoteEnd(data, quote, i + n);
    }
  }

  /** Without its closing quote a string is no token: more text is asked for, and then it is an error. */
  lemma UnterminatedString(quote: char, body: string, atEOF: bool)
    requires (quote == '"' || quote == '\'') && IsQuotable(body, quote)
    ensures SplitBuffer([quote] + body, atEOF) == if atEOF then Bad else More
  {
    var data := [quote] + body;
    assert data[1..] == body;
    NoQuoteEnd(data, quote, 1);
  }

  lemma AssignIsOnePiece(rest: string, atEOF: bool)
    ensures SplitBuffer("::=" + rest, atEOF) == Piece(3, "::=")
  {
    assert ("::=" + rest)[..3] == "::=";
  }

  lemma SymbolChar(c: char)
    requires c in ['{', '}', '[', ']', '(', ')', ',', ';', '.', '|']
    ensures SplitBuffer([c], true) == Piece(1, [c])
    ensures c in "-{}[](),:;.|" && c !in " \t" && c !in "\n\r" && c !in "\"'" && !IsLetter(c) && !IsDigit(c) && c != '-' && c != ':'
  {
  }

  lemma SymbolIsOnePiece(text: string, rest: string, atEOF: bool)
    requires IsSymbol(text)
    ensures SplitBuffer(text + rest, atEOF) == Piece(1, text)
  {
    var data := text + rest;
    SymbolChar(text[0]);
    assert data[0] == text[0] && data[..1] == text;
    assert SplitBuffer(data, atEOF) == SplitPunct(data, atEOF);
  }

  /** A colon and a hyphen that start nothing longer are tokens of their own. */
  lemma ColonAndHyphen(rest: string, atEOF: bool)
    requires atEOF || |rest| >= 2
    ensures rest == "" || (rest[0] != '-' && !IsDigitChar(rest[0])) ==> SplitBuffer("-" + rest, atEOF) == Piece(1, "-")
    ensures |rest| < 2 || rest[..2] != ":=" ==> SplitBuffer(":" + rest, atEOF) == Piece(1, ":")
  {
    var hyphen, colon := "-" + rest, ":" + rest;
    assert hyphen[..1] == "-" && colon[..1] == ":";
    assert hyphen[1..] == rest && colon[1..] == rest;
    if |rest| >= 2 {
      assert hyphen[1] == rest[0] && colon[1] == rest[0] && colon[2] == rest[1];
      assert rest[..2] == [rest[0], rest[1]];
    }
  }

  lemma LineEndIsOnePiece(rest: string, atEOF: bool)
    requires rest == "" || rest[0] != '\r'
    ensures SplitBuffer("\n" + rest, atEOF) == Piece(1, "\n")
  {
    assert ("\n" + rest)[..1] == "\n";
    assert rest != "" ==> ("\n" + rest)[1] == rest[0];
  }

  /** Two different characters that end a line end it together. */
  lemma LineEndPair(first: char, rest: string, atEOF: bool)
    requires first == '\n' || first == '\r'
    ensures SplitBuffer([first] + rest, atEOF) ==
            if rest != "" && rest[0] != first && (rest[0] == '\n' || rest[0] == '\r') then Piece(2, [first, rest[0]])
            else Piece(1, [first])
  {
    var data := [first] + rest;
    assert data[..1] == [first];
    if rest != "" {
      assert data[1] == rest[0] && data[..2] == [first, rest[0]];
    }
  }

  /** No token starts with any other character. */
  lemma StartsNoToken(data: string, atEOF: bool)
    requires data != "" && !IsLetterChar(data[0]) && !IsDigitChar(data[0])
    requires data[0] !in [' ', '\t', '\n', '\r', '"', '\'', '-', ':', '{', '}', '[', ']', '(', ')', ',', ';', '.', '|']
    ensures SplitBuffer(data, atEOF) == Bad
  {
  }

  // ---------------------------------------------------------------- texts

  predicate IsLexeme(text: string) {
    IsWord(text) || IsNumber(text) || IsString(text) || IsSymbol(text) || text == "::=" || text == ":" || text == "-"
  }

  /** The character behind a token does not make it longer. */
  predicate Clear(text: string, next: char) {
    && (IsWord(text) ==> !IsWordChar(next))
    && (IsNumber(text) ==> !IsDigitChar(next))
    && (text == ":" ==> next != ':')
    && (text == "-" ==> next != '-' && !IsDigitChar(next))
  }

  predicate ClearOf(text: string, rest: string) {
    rest == "" || Clear(text, rest[0])
  }

  lemma LexemeIsOnePiece(text: string, rest: string)
    requires IsLexeme(text) && ClearOf(text, rest)
    ensures SplitBuffer(text + rest, true) == Piece(|text|, text)
  {
    if IsWord(text) {
      WordIsOnePiece(text, rest, true);
    } else if IsNumber(text) {
      NumberIsOnePiece(text, rest, true);
    } else if IsString(text) {
      StringIsOnePiece(text, rest, true);
    } else if IsSymbol(text) {
      SymbolIsOnePiece(text, rest, true);
    } else if text == "::=" {
      AssignIsOnePiece(rest, true);
    } else {
      ColonAndHyphen(rest, true);
    }
  }

  /** Every token but white space and comments is kept. */
  lemma LexemeIsKept(text: string)
    requires IsLexeme(text)
    ensures text != "" && text[0] != '\r' && TypeOf(text) != Whitespace && TypeOf(text) != Comment
  {
    if IsSymbol(text) {
      SymbolChar(text[0]);
    }
  }

  const SKIPPED: set<TokenType> := {Whitespace, Comment}

  /** What the parser gets of a text. */
  function Read(text: string): seq<string> {
    MibScanner.Kept(Lex(SplitBuffer, text), SKIPPED)
  }

  lemma ReadPiece(text: string, n: nat, token: string)
    requires 0 < n <= |text| && SplitBuffer(text, true) == Piece(n, token)
    ensures Read(text) == (if TypeOf(token) in SKIPPED then [] else [token]) + Read(text[n..])
  {
    var later := Lex(SplitBuffer, text[n..]);
    assert Lex(SplitBuffer, text) == [token] + later;
    assert ([token] + later)[1..] == later;
  }

  lemma BlankRun(c: char, rest: string)
    requires IsBlank(c)
    ensures var n := RunEnd(rest, Spaces, 0); RunEnd([c] + rest, Spaces, 1) == 1 + n && ([c] + rest)[1 + n..] == rest[n..]
  {
    var data := [c] + rest;
    var n := RunEnd(rest, Spaces, 0);
    RunIsInside(rest, Spaces, 0);
    forall k | 1 <= k < 1 + n
      ensures InRun(data[k], Spaces)
    {
      assert data[k] == rest[k - 1];
    }
    assert 1 + n < |data| ==> data[1 + n] == rest[n];
    RunEndsAt(data, Spaces, 1, 1 + n);
  }

  lemma BlanksAreSkipped(text: string)
    requires text != "" && IsBlank(text[0])
    ensures Read(text) == Read(text[RunEnd(text, Spaces, 1)..])
  {
    var n := RunEnd(text, Spaces, 1);
    ReadPiece(text, n, if n < |text| then text[..1] else text);
  }

  /** A blank does not matter, whether more blanks follow or not. */
  lemma BlankIsSkipped(c: char, rest: string)
    requires IsBlank(c)
    ensures Read([c] + rest) == Read(rest)
  {
    BlankRun(c, rest);
    BlanksAreSkipped([c] + rest);
    if rest != "" && IsBlank(rest[0]) {
      BlanksAreSkipped(rest);
    } else {
      assert rest[0..] == rest;
    }
  }

  lemma {:induction false} RunIsInside(data: string, run: Run, i: nat)
    requires i <= |data|
    ensures var end := RunEnd(data, run, i); (forall k :: i <= k < end ==> InRun(data[k], run)) && (end < |data| ==> !InRun(data[end], run))
    decreases |data| - i
  {
    if i < |data| && InRun(data[i], run) {
      RunIsInside(data, run, i + 1);
    }
  }

  /** A blank, the end of a line, or a comment with the end of the line. */
  predicate IsFiller(text: string) {
    if |text| == 1 then IsBlank(text[0]) || text[0] == '\n'
    else |text| >= 3 && IsComment(text[..|text| - 1]) && text[|text| - 1] == '\n'
  }

  predicate IsGap(gap: seq<string>) {
    forall i :: 0 <= i < |gap| ==> IsFiller(gap[i])
  }

  lemma LineEndIsSkipped(rest: string)
    requires rest == "" || rest[0] != '\r'
    ensures Read("\n" + rest) == Read(rest)
  {
    LineEndIsOnePiece(rest, true);
    ReadPiece("\n" + rest, 1, "\n");
    assert ("\n" + rest)[1..] == rest;
  }

  lemma CommentIsSkipped(comment: string, rest: string)
    requires IsComment(comment) && rest != "" && rest[0] == '\n'
    ensures Read(comment + rest) == Read(rest)
    ensures comment[0] == '-'
  {
    CommentIsOnePiece(comment, rest, true);
    ReadPiece(comment + rest, |comment|, comment);
    assert comment[0] == comment[..2][0] && comment[1] == comment[..2][1];
    assert (comment + rest)[|comment|..] == rest;
  }

  lemma FillerIsSkipped(filler: string, rest: string)
    requires IsFiller(filler) && (rest == "" || rest[0] != '\r')
    ensures Read(filler + rest) == Read(rest)
    ensures filler[0] != '\r'
  {
    if |filler| == 1 {
      if IsBlank(filler[0]) {
        assert filler == [filler[0]];
        BlankIsSkipped(filler[0], rest);
      } else {
        assert filler == "\n";
        LineEndIsSkipped(rest);
      }
    } else {
      var comment := filler[..|filler| - 1];
      assert filler + rest == comment + ("\n" + rest);
      CommentIsSkipped(comment, "\n" + rest);
      assert filler[0] == comment[0];
      LineEndIsSkipped(rest);
    }
  }

  lemma {:induction false} GapIsSkipped(gap: seq<string>, rest: string)
    requires IsGap(gap) && (rest == "" || rest[0] != '\r')
    ensures Read(Concat(gap) + rest) == Read(rest)
    ensures Concat(gap) + rest == "" || (Concat(gap) + rest)[0] != '\r'
    decreases |gap|
  {
    if gap == [] {
      assert Concat(gap) + rest == rest;
    } else {
      var later := Concat(gap[1..]) + rest;
      GapIsSkipped(gap[1..], rest);
      assert Concat(gap) + rest == gap[0] + later;
      FillerIsSkipped(gap[0], later);
    }
  }

  /** Tokens with something between them. */
  function Written(tokens: seq<string>, gaps: seq<seq<string>>): string
    requires |tokens| == |gaps|
  {
    if tokens == [] then "" else tokens[0] + (Concat(gaps[0]) + Written(tokens[1..], gaps[1..]))
  }

  /** There is enough between them to tell them apart. */
  predicate Spaced(tokens: seq<string>, gaps: seq<seq<string>>)
    requires |tokens| == |gaps|
  {
    tokens != [] ==>
      && IsLexeme(tokens[0]) && IsGap(gaps[0]) && ClearOf(tokens[0], Concat(gaps[0]) + Written(tokens[1..], gaps[1..]))
      && Spaced(tokens[1..], gaps[1..])
  }

  /** What has been written is read, token by token. */
  lemma {:induction false} WrittenIsRead(lead: seq<string>, tokens: seq<string>, gaps: seq<seq<string>>)
    requires |tokens| == |gaps| && IsGap(lead) && Spaced(tokens, gaps)
    ensures Read(Concat(lead) + Written(tokens, gaps)) == tokens
    decreases |tokens|
  {
    var text := Written(tokens, gaps);
    if tokens == [] {
      GapIsSkipped(lead, text);
      return;
    }
    var rest := Concat(gaps[0]) + Written(tokens[1..], gaps[1..]);
    LexemeIsKept(tokens[0]);
    GapIsSkipped(lead, text);
    LexemeIsOnePiece(tokens[0], rest);
    ReadPiece(text, |tokens[0]|, tokens[0]);
    assert text[|tokens[0]|..] == rest;
    WrittenIsRead(gaps[0], tokens[1..], gaps[1..]);
  }
}
