/** Python's `re.escape` (3.7 and later): every character of a fixed set that is
    special in pattern syntax is prefixed with a backslash; all others are kept. */
module Escaping {

  /** The characters `re.escape` escapes: ()[]{}?*+-|^$\.&~# and space, tab,
      newline, carriage return, vertical tab and form feed. */
  const Special: set<char> :=
    {'(', ')', '[', ']', '{', '}', '?', '*', '+', '-', '|', '^', '$', '\\', '.',
     '&', '~', '#', ' ', '\t', '\n', '\r', '\U{B}', '\U{C}'}

  predicate IsSpecial(c: char) {
    c in Special
  }

  /** One character of `re.escape`: a literal pattern text that reads back
      as that character, one character longer exactly when it is special. */
  function EscapeChar(c: char): (r: string)
    ensures Unescape(r) == [c] && IsLiteral(r)
    ensures |r| == if IsSpecial(c) then 2 else 1
  {
    if IsSpecial(c) then ['\\', c] else [c]
  }

  /** `re.escape(s)`: the translation of `s` character by character. */
  function Escape(s: string): (r: string)
    ensures |r| >= |s|
    ensures (forall i :: 0 <= i < |s| ==> !IsSpecial(s[i])) ==> r == s
  {
    if s == [] then [] else EscapeChar(s[0]) + Escape(s[1..])
  }

  /** The inverse reading: a backslash makes the next character literal. */
  function Unescape(r: string): string
  {
    if r == [] then []
    else if r[0] == '\\' && |r| >= 2 then [r[1]] + Unescape(r[2..])
    else [r[0]] + Unescape(r[1..])
  }

  /** Text that, read as pattern syntax, is a sequence of literal characters:
      every special character is preceded by a backslash, and a backslash only
      ever escapes a special character. */
  ghost predicate IsLiteral(r: string)
  {
    if r == [] then true
    else if r[0] == '\\' then |r| >= 2 && IsSpecial(r[1]) && IsLiteral(r[2..])
    else !IsSpecial(r[0]) && IsLiteral(r[1..])
  }

  /** Escaping is faithful: reading the escaped text back gives the original. */
  lemma {:induction false} UnescapeEscape(s: string)
    ensures Unescape(Escape(s)) == s
  {
    if s != [] {
      UnescapeEscape(s[1..]);
      var rest := Escape(s[1..]);
      assert Escape(s) == EscapeChar(s[0]) + rest;
      if IsSpecial(s[0]) {
        assert Escape(s) == ['\\', s[0]] + rest;
        assert Escape(s)[2..] == rest;
      } else {
        assert Escape(s) == [s[0]] + rest;
        assert Escape(s)[1..] == rest;
      }
    }
  }

  /** Escaping always yields literal pattern text. */
  lemma {:induction false} EscapeIsLiteral(s: string)
    ensures IsLiteral(Escape(s))
  {
    if s != [] {
      EscapeIsLiteral(s[1..]);
      var rest := Escape(s[1..]);
      if IsSpecial(s[0]) {
        assert Escape(s) == ['\\', s[0]] + rest;
        assert Escape(s)[2..] == rest;
      } else {
        assert Escape(s) == [s[0]] + rest;
        assert Escape(s)[1..] == rest;
      }
    }
  }

  /** Every literal pattern text is the escaping of the text it stands for, so
      `Escape` is a bijection between texts and literal pattern texts. */
  lemma {:induction false} LiteralIsEscaped(r: string)
    requires IsLiteral(r)
    ensures Escape(Unescape(r)) == r
  {
    if r != [] {
      if r[0] == '\\' {
        LiteralIsEscaped(r[2..]);
        assert Unescape(r) == [r[1]] + Unescape(r[2..]);
        assert ([r[1]] + Unescape(r[2..]))[1..] == Unescape(r[2..]);
        assert r == ['\\', r[1]] + r[2..];
      } else {
        LiteralIsEscaped(r[1..]);
        assert Unescape(r) == [r[0]] + Unescape(r[1..]);
        assert ([r[0]] + Unescape(r[1..]))[1..] == Unescape(r[1..]);
        assert r == [r[0]] + r[1..];
      }
    }
  }

  /** Escaping distributes over concatenation (it works per character). */
  lemma {:induction false} EscapeAppend(a: string, b: string)
    ensures Escape(a + b) == Escape(a) + Escape(b)
  {
    if a == [] {
      assert a + b == b;
    } else {
      assert (a + b)[0] == a[0];
      assert (a + b)[1..] == a[1..] + b;
      EscapeAppend(a[1..], b);
    }
  }

  /** The escapings of the single characters the builder's own grammars use. */
  lemma EscapeExamples()
    ensures Escape("-") == "\\-" && Escape(".") == "\\." && Escape("?") == "\\?"
    ensures Escape(" ") == "\\ " && Escape("+") == "\\+"
    ensures Escape(":") == ":" && Escape("%") == "%"
  {
    assert EscapeChar('-') == "\\-" && EscapeChar('.') == "\\." && EscapeChar('?') == "\\?";
    assert EscapeChar(' ') == "\\ " && EscapeChar('+') == "\\+";
    assert EscapeChar(':') == ":" && EscapeChar('%') == "%";
  }
}
