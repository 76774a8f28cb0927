/** The kinds of token, told apart by their text alone. */
module Tokens {
  import opened Basics

  datatype TokenType = Unknown | Whitespace | Comment | Ident | NumberToken | StringToken | Symbol

  function TypeOf(text: string): TokenType {
    if text == "" then Unknown
    else
      var c := text[0];
      if c in " \t\n\r" then Whitespace
      else if c == '-' then
        if |text| == 1 then Symbol else if text[1] == '-' then Comment else NumberToken
      else if c in "\"'" then StringToken
      else if c == '_' then Ident
      else if IsDigit(c) then NumberToken
      else if IsLetter(c) then Ident
      else Symbol
  }

  /** The kind of a token, by its first characters. */
  lemma KindIff(text: string)
    ensures TypeOf(text) == Unknown <==> text == ""
    ensures TypeOf(text) == Whitespace <==>
            text != "" && (text[0] == ' ' || text[0] == '\t' || text[0] == '\n' || text[0] == '\r')
    ensures TypeOf(text) == Comment <==> |text| >= 2 && text[0] == '-' && text[1] == '-'
    ensures TypeOf(text) == NumberToken <==>
            text != "" && ('0' <= text[0] <= '9' || (text[0] == '-' && |text| > 1 && text[1] != '-'))
    ensures TypeOf(text) == StringToken <==> text != "" && (text[0] == '"' || text[0] == '\'')
    ensures TypeOf(text) == Ident <==>
            text != "" && ('a' <= text[0] <= 'z' || 'A' <= text[0] <= 'Z' || text[0] == '_')
  {
  }

  /** Pairs of words that the scanner joins into one token. */
  const SPECIAL_TOKENS: set<string> :=
    {"OBJECT IDENTIFIER", "OCTET STRING", "SEQUENCE OF", "SET OF", "TYPE NOTATION", "VALUE NOTATION"}
}
