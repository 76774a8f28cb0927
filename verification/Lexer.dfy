/** Splitting buffered text into tokens, and why it does not matter how the text is buffered. */
module MibLexer {
  import opened Basics

  /** What one call of the splitter says: more text is needed, no token can start here, or a token. */
  datatype Split = More | Bad | Piece(advance: nat, text: string)

  datatype Run = Spaces | Digits | Words | Line

  predicate InRun(c: char, run: Run) {
    match run
    case Spaces => c == ' ' || c == '\t'
    case Digits => IsDigit(c)
    case Words => IsLetter(c) || IsDigit(c) || c in "_-."
    case Line => c != '\n' && c != '\r'
  }

  /** The first position from `i` on that does not belong to the run, or the end. */
  function RunEnd(data: string, run: Run, i: nat): (end: nat)
    requires i <= |data|
    ensures i <= end <= |data|
    decreases |data| - i
  {
    if i == |data| || !InRun(data[i], run) then i else RunEnd(data, run, i + 1)
  }

  /** A token made of the first character and the run after it. */
  function SplitRun(data: string, run: Run, atEOF: bool): Split
    requires data != []
  {
    var end := RunEnd(data, run, 1);
    if end < |data| then Piece(end, data[..end])
    else if atEOF then Piece(|data|, data)
    else More
  }

  function SplitSpace(data: string, atEOF: bool): Split
    requires data != []
  {
    match SplitRun(data, Spaces, atEOF)
    case Piece(advance, text) => Piece(advance, if advance < |data| then data[..1] else data)
    case other => other
  }

  /** The position after the closing quote, if there is one from `i` on; a backslash hides what follows it. */
  function QuoteEnd(data: string, quote: char, i: nat): Option<nat>
    decreases |data| - i
  {
    if i >= |data| then None
    else if data[i] == '\\' then QuoteEnd(data, quote, i + 2)
    else if data[i] == quote then Some(i + 1)
    else QuoteEnd(data, quote, i + 1)
  }

  lemma {:induction false} QuoteEndInside(data: string, quote: char, i: nat)
    ensures match QuoteEnd(data, quote, i) case Some(end) => i < end <= |data| case None => true
    decreases |data| - i
  {
    if i < |data| && (data[i] == '\\' || data[i] != quote) {
      QuoteEndInside(data, quote, if data[i] == '\\' then i + 2 else i + 1);
    }
  }

  function SplitString(data: string, atEOF: bool): Split
    requires data != []
  {
    QuoteEndInside(data, data[0], 1);
    match QuoteEnd(data, data[0], 1)
    case Some(end) => Piece(end, data[..end])
    case None => if atEOF then Bad else More
  }

  function SplitPunct(data: string, atEOF: bool): Split
    requires data != []
  {
    if data[0] == '-' && |data| < 2 && !atEOF then More
    else if data[0] == '-' && |data| >= 2 && data[1] == '-' then SplitRun(data, Line, atEOF)
    else if data[0] == '-' && |data| >= 2 && IsDigit(data[1]) then SplitRun(data, Digits, atEOF)
    else if data[0] == ':' && |data| < 3 && !atEOF then More
    else if data[0] == ':' && |data| >= 3 && data[1] == ':' && data[2] == '=' then Piece(3, data[..3])
    else Piece(1, data[..1])
  }

  function SplitEOL(data: string): Split
    requires data != []
  {
    if |data| > 1 && data[0] != data[1] && (data[1] == '\n' || data[1] == '\r') then Piece(2, data[..2])
    else Piece(1, data[..1])
  }

  /** The splitter, chosen by the first character. */
  function SplitBuffer(data: string, atEOF: bool): Split {
    if data == [] then More
    else
      var c := data[0];
      if c in " \t" then SplitSpace(data, atEOF)
      else if c in "\n\r" then SplitEOL(data)
      else if IsDigit(c) then SplitRun(data, Digits, atEOF)
      else if IsLetter(c) then SplitRun(data, Words, atEOF)
      else if c in "\"'" then SplitString(data, atEOF)
      else if c in "-{}[](),:;.|" then SplitPunct(data, atEOF)
      else Bad
  }

  // ---------------------------------------------------------------- buffering does not matter

  lemma {:induction false} RunEndStable(data: string, more: string, run: Run, i: nat)
    requires i <= |data| && RunEnd(data, run, i) < |data|
    ensures RunEnd(data + more, run, i) == RunEnd(data, run, i)
    decreases |data| - i
  {
    if InRun(data[i], run) {
      RunEndStable(data, more, run, i + 1);
    }
  }

  lemma {:induction false} QuoteEndStable(data: string, more: string, quote: char, i: nat)
    requires QuoteEnd(data, quote, i).Some?
    ensures QuoteEnd(data + more, quote, i) == QuoteEnd(data, quote, i)
    decreases |data| - i
  {
    if data[i] == '\\' {
      QuoteEndStable(data, more, quote, i + 2);
    } else if data[i] != quote {
      QuoteEndStable(data, more, quote, i + 1);
    }
  }

  lemma SplitRunStable(data: string, more: string, run: Run, atEOF: bool)
    requires data != [] && SplitRun(data, run, false) != More
    ensures SplitRun(data + more, run, atEOF) == SplitRun(data, run, false)
  {
    RunEndStable(data, more, run, 1);
    var end := RunEnd(data, run, 1);
    assert (data + more)[..end] == data[..end];
  }

  /** What the splitter decides before the end of the input, it decides the same on any longer buffer. */
  lemma SplitStable(data: string, more: string, atEOF: bool)
    requires '\r' !in data + more && SplitBuffer(data, false) != More
    ensures SplitBuffer(data + more, atEOF) == SplitBuffer(data, false)
  {
    var longer := data + more;
    var c := data[0];
    assert longer[0] == c && longer[..1] == data[..1];
    if c in " \t" {
      SplitRunStable(data, more, Spaces, atEOF);
    } else if IsDigit(c) {
      SplitRunStable(data, more, Digits, atEOF);
    } else if IsLetter(c) {
      SplitRunStable(data, more, Words, atEOF);
    } else if c in "\"'" {
      QuoteEndStable(data, more, c, 1);
      QuoteEndInside(data, c, 1);
      var end := QuoteEnd(data, c, 1).value;
      assert longer[..end] == data[..end];
    } else if c == '-' {
      assert longer[1] == data[1];
      if data[1] == '-' {
        SplitRunStable(data, more, Line, atEOF);
      } else if IsDigit(data[1]) {
        SplitRunStable(data, more, Digits, atEOF);
      }
    } else if c == ':' {
      assert longer[..3] == data[..3];
    } else if c == '\n' && |longer| > 1 {
      assert longer[1] in longer;
    }
  }

  /** A token takes at least one character, and at the end of the input there is a token or an error. */
  lemma SplitProgress(data: string, atEOF: bool)
    ensures SplitBuffer(data, atEOF).Piece? ==> 0 < SplitBuffer(data, atEOF).advance <= |data|
    ensures atEOF && data != [] ==> SplitBuffer(data, atEOF) != More
  {
    if data != [] {
      QuoteEndInside(data, data[0], 1);
    }
  }

  /** One splitter loop: where a run ends. */
  method ScanRun(data: string, run: Run, start: nat) returns (end: nat)
    requires start <= |data|
    ensures end == RunEnd(data, run, start)
  {
    end := start;
    while end < |data| && InRun(data[end], run)
      invariant start <= end <= |data|
      invariant RunEnd(data, run, end) == RunEnd(data, run, start)
    {
      end := end + 1;
    }
  }

  /** The string splitter's loop. */
  method ScanString(data: string) returns (end: Option<nat>)
    requires data != []
    ensures end == QuoteEnd(data, data[0], 1)
  {
    var i := 1;
    while i < |data|
      invariant QuoteEnd(data, data[0], i) == QuoteEnd(data, data[0], 1)
      decreases |data| - i
    {
      if data[i] == '\\' {
        i := i + 1;
      } else if data[i] == data[0] {
        return Some(i + 1);
      }
      i := i + 1;
    }
    return None;
  }

  /** A token made of the first character and the run behind it. */
  method ScanToken(data: string, run: Run, atEOF: bool) returns (r: Split)
    requires data != []
    ensures r == SplitRun(data, run, atEOF)
  {
    var end := ScanRun(data, run, 1);
    if end < |data| {
      return Piece(end, data[..end]);
    }
    return if atEOF then Piece(|data|, data) else More;
  }

  method ScanPunct(data: string, atEOF: bool) returns (r: Split)
    requires data != []
    ensures r == SplitPunct(data, atEOF)
  {
    if data[0] == '-' {
      if |data| < 2 && !atEOF {
        return More;
      }
      if |data| >= 2 && (data[1] == '-' || IsDigit(data[1])) {
        r := ScanToken(data, if data[1] == '-' then Line else Digits, atEOF);
        return;
      }
    } else if data[0] == ':' {
      if |data| < 3 && !atEOF {
        return More;
      }
      if |data| >= 3 && data[1] == ':' && data[2] == '=' {
        return Piece(3, data[..3]);
      }
    }
    return Piece(1, data[..1]);
  }

  /** The splitter as it runs: the first character picks the loop. */
  method SplitData(data: string, atEOF: bool) returns (r: Split)
    ensures r == SplitBuffer(data, atEOF)
  {
    if |data| == 0 {
      return More;
    }
    var c := data[0];
    if c in " \t" {
      r := ScanToken(data, Spaces, atEOF);
      if r.Piece? && r.advance < |data| {
        r := Piece(r.advance, data[..1]);
      }
    } else if c in "\n\r" {
      r := SplitEOL(data);
    } else if IsDigit(c) {
      r := ScanToken(data, Digits, atEOF);
    } else if IsLetter(c) {
      r := ScanToken(data, Words, atEOF);
    } else if c in "\"'" {
      QuoteEndInside(data, c, 1);
      var end := ScanString(data);
      r := if end.Some? then Piece(end.value, data[..end.value]) else if atEOF then Bad else More;
    } else if c in "-{}[](),:;.|" {
      r := ScanPunct(data, atEOF);
    } else {
      r := Bad;
    }
  }

  // ---------------------------------------------------------------- reading through a buffer

  type Splitter = (string, bool) -> Split

  /** The tokens of an input that is all in the buffer, up to the first error. */
  function Lex(f: Splitter, input: string): seq<string>
    decreases |input|
  {
    match f(input, true)
    case Piece(advance, text) =>
      if 0 < advance <= |input| then [text] + Lex(f, input[advance..]) else []
    case _ => []
  }

  /** The pieces of the input that the tokens were cut from. */
  function Pieces(f: Splitter, input: string): seq<string>
    decreases |input|
  {
    match f(input, true)
    case Piece(advance, _) =>
      if 0 < advance <= |input| then [input[..advance]] + Pieces(f, input[advance..]) else []
    case _ => []
  }

  function Concat(pieces: seq<string>): string {
    if pieces == [] then "" else pieces[0] + Concat(pieces[1..])
  }

  /** On all parts of the input, decisions make progress and stay what they are when more is read. */
  ghost predicate Steady(f: Splitter, input: string) {
    && (forall i, j, atEOF :: 0 <= i <= j <= |input| ==> Progresses(f, input[i..j], atEOF))
    && (forall i, j :: 0 <= i <= j <= |input| ==>
      f(input[i..j], false) != More ==> f(input[i..], true) == f(input[i..j], false))
  }

  ghost predicate Progresses(f: Splitter, data: string, atEOF: bool) {
    && (f(data, atEOF).Piece? ==> 0 < f(data, atEOF).advance <= |data|)
    && (atEOF && data != [] ==> f(data, atEOF) != More)
  }

  lemma SplitIsSteady(input: string)
    requires '\r' !in input
    ensures Steady(SplitBuffer, input)
  {
    forall i, j, atEOF | 0 <= i <= j <= |input|
      ensures Progresses(SplitBuffer, input[i..j], atEOF)
    {
      SplitProgress(input[i..j], atEOF);
    }
    forall i, j | 0 <= i <= j <= |input| && SplitBuffer(input[i..j], false) != More
      ensures SplitBuffer(input[i..], true) == SplitBuffer(input[i..j], false)
    {
      assert input[i..j] + input[j..] == input[i..];
      SplitStable(input[i..j], input[j..], true);
    }
  }

  /** The pieces tile the input up to where no token can start. */
  lemma {:induction false} PiecesTile(f: Splitter, input: string)
    requires forall i :: 0 <= i <= |input| ==> Progresses(f, input[i..], true)
    ensures |Pieces(f, input)| == |Lex(f, input)|
    ensures Concat(Pieces(f, input)) <= input
    ensures var rest := input[|Concat(Pieces(f, input))|..]; rest == [] || f(rest, true) == Bad
    decreases |input|
  {
    assert input[0..] == input;
    if f(input, true).Piece? {
      var advance := f(input, true).advance;
      var head, tail := input[..advance], input[advance..];
      forall i | 0 <= i <= |tail|
        ensures Progresses(f, tail[i..], true)
      {
        assert tail[i..] == input[advance + i..];
      }
      PiecesTile(f, tail);
      var done := Concat(Pieces(f, tail));
      assert Pieces(f, input) == [head] + Pieces(f, tail);
      assert Concat(Pieces(f, input)) == head + done;
      assert tail == done + tail[|done|..] && input == head + tail;
      assert input[|head + done|..] == tail[|done|..];
    }
  }

  /** What a decision on a part of the input means for the tokens of the rest. */
  lemma LexStep(f: Splitter, input: string, tokens: seq<string>, start: nat, end: nat, atEOF: bool)
    requires start <= end <= |input| && (atEOF ==> end == |input|) && Steady(f, input)
    requires f(input[start..end], atEOF).Piece?
    ensures var Piece(advance, text) := f(input[start..end], atEOF);
            && 0 < advance <= end - start
            && tokens + Lex(f, input[start..]) == (tokens + [text]) + Lex(f, input[start + advance..])
  {
    assert Progresses(f, input[start..end], atEOF);
    assert atEOF ==> input[start..end] == input[start..];
    var Piece(advance, text) := f(input[start..end], atEOF);
    assert f(input[start..], true) == Piece(advance, text);
    var rest := input[start + advance..];
    assert input[start..][advance..] == rest;
    assert tokens + ([text] + Lex(f, rest)) == (tokens + [text]) + Lex(f, rest);
  }

  /**
   * Reads an input through a buffer that grows whenever the splitter asks for more, by any amount
   * that the reader likes to deliver, with the end of the input reported late or early.
   */
  method Scan(f: Splitter, input: string) returns (tokens: seq<string>)
    requires Steady(f, input)
    ensures tokens == Lex(f, input)
  {
    var start, end, atEOF := 0, 0, false;
    tokens := [];
    assert input[0..] == input;
    while true
      invariant 0 <= start <= end <= |input| && (atEOF ==> end == |input|)
      invariant tokens + Lex(f, input[start..]) == Lex(f, input)
      decreases |input| - start, |input| - end, !atEOF
    {
      assert input[start..|input|] == input[start..];
      assert Progresses(f, input[start..end], atEOF);
      match f(input[start..end], atEOF)
      case Piece(advance, text) =>
        LexStep(f, input, tokens, start, end, atEOF);
        tokens, start := tokens + [text], start + advance;
      case Bad =>
        return;
      case More =>
        if atEOF {
          return;
        }
        if end == |input| {
          atEOF := true;
        } else {
          var n :| 0 < n <= |input| - end;
          end := end + n;
          atEOF :| atEOF ==> end == |input|;
        }
    }
  }

  /** The tokens of a MIB text without carriage returns are the same however it is buffered. */
  method ScanText(input: string) returns (tokens: seq<string>)
    requires '\r' !in input
    ensures tokens == Lex(SplitBuffer, input)
  {
    SplitIsSteady(input);
    tokens := Scan(SplitBuffer, input);
  }
}
