/** mysqli::real_escape_string and the way MySQL reads the escaped text back
    inside a quoted string literal. The multi-byte character-set handling of
    the real function is not modelled: every char is one character. */
module SqlEscape {

  const CtrlZ: char := '\U{1A}'
  const Backspace: char := '\U{8}'

  /** The characters real_escape_string prefixes with a backslash. */
  predicate NeedsEscape(c: char) {
    c == '\0' || c == '\n' || c == '\r' || c == '\\' || c == '\'' || c == '"' || c == CtrlZ
  }

  /** The letter written after the backslash for an escaped character. */
  function EscapeCode(c: char): char
    requires NeedsEscape(c)
  {
    if c == '\0' then '0'
    else if c == '\n' then 'n'
    else if c == '\r' then 'r'
    else if c == CtrlZ then 'Z'
    else c
  }

  function EscapeChar(c: char): string {
    if NeedsEscape(c) then ['\\', EscapeCode(c)] else [c]
  }

  /** real_escape_string($s) */
  function Escape(s: string): (r: string)
    ensures |s| <= |r| <= 2 * |s|
    decreases |s|
  {
    if s == [] then [] else EscapeChar(s[0]) + Escape(s[1..])
  }

  /** The character MySQL reads for the escape sequence backslash + c inside a
      string literal, or the two characters themselves for \% and \_. */
  function DecodeEscape(c: char): string {
    if c == '0' then ['\0']
    else if c == 'b' then [Backspace]
    else if c == 'n' then ['\n']
    else if c == 'r' then ['\r']
    else if c == 't' then ['\t']
    else if c == 'Z' then [CtrlZ]
    else if c == '%' || c == '_' then ['\\', c]
    else [c]
  }

  /** The value MySQL stores for the quoted literal whose body is s. */
  function LiteralValue(s: string): (r: string)
    ensures |r| <= |s|
    decreases |s|
  {
    if s == [] then []
    else if s[0] == '\\' && |s| >= 2 then DecodeEscape(s[1]) + LiteralValue(s[2..])
    else [s[0]] + LiteralValue(s[1..])
  }

  /** Text that a quoted literal can hold without ending early: every quote
      and every backslash belongs to an escape sequence. */
  predicate StaysInLiteral(s: string)
    decreases |s|
  {
    if s == [] then true
    else if s[0] == '\\' then |s| >= 2 && StaysInLiteral(s[2..])
    else s[0] != '\'' && s[0] != '"' && StaysInLiteral(s[1..])
  }

  lemma {:induction false} EscapeCons(c: char, s: string)
    ensures Escape([c] + s) == EscapeChar(c) + Escape(s)
  {
    assert ([c] + s)[1..] == s;
  }

  /** Reading the escaped text back as a literal gives the original text. */
  lemma {:induction false} LiteralValueOfEscape(s: string)
    ensures LiteralValue(Escape(s)) == s
    decreases |s|
  {
    if s != [] {
      var c, rest := s[0], Escape(s[1..]);
      LiteralValueOfEscape(s[1..]);
      if NeedsEscape(c) {
        assert (EscapeChar(c) + rest)[2..] == rest;
      } else {
        assert (EscapeChar(c) + rest)[1..] == rest;
      }
      assert s == [c] + s[1..];
    }
  }

  /** Escaped text cannot end the literal it is placed in. */
  lemma {:induction false} EscapeStaysInLiteral(s: string)
    ensures StaysInLiteral(Escape(s))
    decreases |s|
  {
    if s != [] {
      var c, rest := s[0], Escape(s[1..]);
      EscapeStaysInLiteral(s[1..]);
      if NeedsEscape(c) {
        assert (EscapeChar(c) + rest)[2..] == rest;
      } else {
        assert (EscapeChar(c) + rest)[1..] == rest;
      }
    }
  }

  /** Escaping changes a text exactly when it holds a character to escape. */
  lemma {:induction false} EscapeUnchangedIff(s: string)
    ensures Escape(s) == s <==> forall i :: 0 <= i < |s| ==> !NeedsEscape(s[i])
    decreases |s|
  {
    if s != [] {
      EscapeUnchangedIff(s[1..]);
      assert forall i :: 1 <= i < |s| ==> s[1..][i - 1] == s[i];
      if NeedsEscape(s[0]) {
        assert |Escape(s)| > |s| by {
          assert |Escape(s[1..])| >= |s| - 1;
        }
      } else {
        assert Escape(s) == [s[0]] + Escape(s[1..]);
        assert s == [s[0]] + s[1..];
      }
    }
  }

  /** Escaping works character by character. */
  lemma {:induction false} EscapeAppend(a: string, b: string)
    ensures Escape(a + b) == Escape(a) + Escape(b)
    decreases |a|
  {
    if a == [] {
      assert a + b == b;
    } else {
      var t := a[1..];
      EscapeAppend(t, b);
      var ab := a + b;
      assert ab[0] == a[0] && ab[1..] == t + b;
      calc {
        Escape(ab);
        EscapeChar(a[0]) + Escape(t + b);
        EscapeChar(a[0]) + (Escape(t) + Escape(b));
        (EscapeChar(a[0]) + Escape(t)) + Escape(b);
      }
    }
  }
}
