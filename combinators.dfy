/** The combinator algebra of dinant.py: each combinator builds a new piece
    list that surrounds its operand with fixed pattern-syntax delimiters. */
module Combinators {
  import opened Escaping
  import opened Fragment
  import opened Strings
  import opened Wrappers

  /** `anything`: one arbitrary character. */
  const Anything: Pieces := ["."]
  /** `bol` and `eol`: the start and end anchors. */
  const Bol: Pieces := ["^"]
  const Eol: Pieces := ["$"]

  /** Raw delimiter syntax, `Dinant(d, escape=False)`. */
  function Delimiter(d: string): Operand {
    Frag(Make(Text(d), false))
  }

  /** `anything`, `bol` and `eol` are raw one-character fragments: they render
      as the pattern syntax `.`, `^` and `$` themselves, not as escaped text. */
  lemma AnchorsAreRaw()
    ensures Frag(Anything) == Delimiter(".") && Render(Frag(Anything)) == "."
    ensures Frag(Bol) == Delimiter("^") && Render(Frag(Bol)) == "^"
    ensures Frag(Eol) == Delimiter("$") && Render(Frag(Eol)) == "$"
    ensures Render(Frag(Anything)) != Render(Text("."))
  {
    EscapeExamples();
  }

  /** `wrap(left, middle, right)`, built as the source builds it: the raw left
      delimiter, plus the middle operand, plus the raw right delimiter. */
  function Wrap(left: string, middle: Operand, right: string): (r: Pieces)
    ensures r == [left] + Of(middle) + [right]
    ensures Join(r) == left + Render(middle) + right
  {
    Sum(Sum(Delimiter(left), middle), Delimiter(right)).pieces
  }

  /** `any_of(s)`: a character class; `s` is inserted as raw class syntax. */
  function AnyOf(s: Operand): (r: Pieces)
    ensures r == ["["] + Make(s, false) + ["]"]
    ensures s.Text? ==> Join(r) == "[" + s.text + "]"
  {
    Wrap("[", Frag(Make(s, false)), "]")
  }

  /** `str(Dinant(s) if isinstance(s, str) else s)` for each argument. */
  function Alternatives(args: seq<Operand>): (r: seq<string>)
    ensures |r| == |args|
    ensures forall i :: 0 <= i < |args| ==> r[i] == Render(args[i])
  {
    seq(|args|, i requires 0 <= i < |args| => Render(args[i]))
  }

  /** `either(*args)`: one non-capturing group around the `|`-separated
      renderings of the arguments, compacted into a single raw piece. */
  function Either(args: seq<Operand>): (r: Pieces)
    ensures |r| == 3 && r[0] == "(?:" && r[2] == ")"
    ensures r[1] == JoinWith("|", Alternatives(args))
    ensures Join(r) == "(?:" + JoinWith("|", Alternatives(args)) + ")"
  {
    Wrap("(?:", Frag(Make(Text(JoinWith("|", Alternatives(args))), false)), ")")
  }

  /** An alternation of a single argument is that argument in a group. */
  lemma EitherOne(a: Operand)
    ensures Join(Either([a])) == "(?:" + Render(a) + ")"
  {
  }

  /** Two arguments, as the offset and the buggy day have. */
  lemma EitherTwo(a: Operand, b: Operand)
    ensures Either([a, b]) == ["(?:", Render(a) + "|" + Render(b), ")"]
  {
    var ra, rb := Render(a), Render(b);
    assert Alternatives([a, b]) == [ra, rb];
    assert [ra, rb][1..] == [rb];
    assert JoinWith("|", [ra, rb]) == ra + "|" + rb;
  }

  /** A further argument is appended after one more `|`. */
  lemma {:induction false} EitherSnoc(args: seq<Operand>, b: Operand)
    requires args != []
    ensures Join(Either(args + [b])) ==
            "(?:" + JoinWith("|", Alternatives(args)) + "|" + Render(b) + ")"
  {
    assert Alternatives(args + [b]) == Alternatives(args) + [Render(b)];
    JoinWithSnoc("|", Alternatives(args), Render(b));
  }

  /** Three arguments, as `float` has. */
  lemma EitherThree(a: Operand, b: Operand, c: Operand)
    ensures Join(Either([a, b, c])) ==
            "(?:" + Render(a) + "|" + Render(b) + "|" + Render(c) + ")"
  {
    var ra, rb, rc := Render(a), Render(b), Render(c);
    assert Alternatives([a, b, c]) == [ra, rb, rc];
    JoinWithThree("|", ra, rb, rc);
    PrependToChain("(?:", ra, "|", rb, "|", rc);
  }

  /** `capture(s, name)`: an unnamed group `(s)`, or a named group
      `(?P<name>s)` whose name is escaped like literal text. */
  function Capture(s: Operand, name: Option<Operand>): (r: Pieces)
    ensures name.None? ==> r == ["("] + Of(s) + [")"]
    ensures name.None? ==> Join(r) == "(" + Render(s) + ")"
    ensures name.Some? ==> r == ["(?P", "<"] + Of(name.value) + [">"] + Of(s) + [")"]
    ensures name.Some? ==> Join(r) == "(?P<" + Render(name.value) + ">" + Render(s) + ")"
  {
    match name
    case None => Wrap("(", Frag(Of(s)), ")")
    case Some(n) => NamedGroup(n, s)
  }

  /** The named branch of `capture`: `wrap('(?P', wrap('<', name, '>') + s, ')')`. */
  function NamedGroup(n: Operand, s: Operand): (r: Pieces)
    ensures r == ["(?P", "<"] + Of(n) + [">"] + Of(s) + [")"]
    ensures Join(r) == "(?P<" + Render(n) + ">" + Render(s) + ")"
  {
    var tag := Wrap("<", n, ">");
    var inner := Sum(Frag(tag), Frag(Of(s)));
    assert Render(inner) == ("<" + Render(n) + ">") + Render(s);
    FlattenNested(["(?P"], ["<"], Of(n), [">"], Of(s), [")"]);
    FlattenNested("(?P", "<", Render(n), ">", Render(s), ")");
    assert ["(?P"] + ["<"] == ["(?P", "<"] && "(?P" + "<" == "(?P<";
    Wrap("(?P", inner, ")")
  }

  /** `backref(name)`: `(?P=name)`, the name escaped like literal text. */
  function Backref(name: Operand): (r: Pieces)
    ensures r == ["(?P="] + Of(name) + [")"]
    ensures Join(r) == "(?P=" + Render(name) + ")"
  {
    Wrap("(?P=", Frag(Of(name)), ")")
  }

  /** `comment(text)`: an inline comment; its delimiters carry a space inside. */
  function Comment(text: Operand): (r: Pieces)
    ensures r == ["(?# "] + Of(text) + [" )"]
    ensures Join(r) == "(?# " + Render(text) + " )"
  {
    Wrap("(?# ", Frag(Of(text)), " )")
  }

  function Lookahead(s: Operand): (r: Pieces)
    ensures r == ["(?="] + Of(s) + [")"]
    ensures Join(r) == "(?=" + Render(s) + ")"
  {
    Wrap("(?=", Frag(Of(s)), ")")
  }

  function NegLookahead(s: Operand): (r: Pieces)
    ensures r == ["(?!"] + Of(s) + [")"]
    ensures Join(r) == "(?!" + Render(s) + ")"
  {
    Wrap("(?!", Frag(Of(s)), ")")
  }

  function Lookbehind(s: Operand): (r: Pieces)
    ensures r == ["(?<="] + Of(s) + [")"]
    ensures Join(r) == "(?<=" + Render(s) + ")"
  {
    Wrap("(?<=", Frag(Of(s)), ")")
  }

  function NegLookbehind(s: Operand): (r: Pieces)
    ensures r == ["(?<!"] + Of(s) + [")"]
    ensures Join(r) == "(?<!" + Render(s) + ")"
  {
    Wrap("(?<!", Frag(Of(s)), ")")
  }

  /** The shape shared by the three quantifiers: a non-capturing group closed
      by `closer`, then one raw `?` piece when the repetition is not greedy. */
  function Quantified(s: Operand, closer: string, greedy: bool): (r: Pieces)
    ensures r == ["(?:"] + Of(s) + [closer] + (if greedy then [] else ["?"])
    ensures Join(r) == "(?:" + Render(s) + closer + (if greedy then "" else "?")
  {
    var w := Wrap("(?:", Frag(Of(s)), closer);
    if greedy then w else Sum(Frag(w), Delimiter("?")).pieces
  }

  function OneOrMore(s: Operand, greedy: bool): (r: Pieces)
    ensures r == ["(?:"] + Of(s) + [")+"] + (if greedy then [] else ["?"])
    ensures Join(r) == "(?:" + Render(s) + ")+" + (if greedy then "" else "?")
  {
    Quantified(s, ")+", greedy)
  }

  function ZeroOrMore(s: Operand, greedy: bool): (r: Pieces)
    ensures r == ["(?:"] + Of(s) + [")*"] + (if greedy then [] else ["?"])
    ensures Join(r) == "(?:" + Render(s) + ")*" + (if greedy then "" else "?")
  {
    Quantified(s, ")*", greedy)
  }

  function Maybe(s: Operand, greedy: bool): (r: Pieces)
    ensures r == ["(?:"] + Of(s) + [")?"] + (if greedy then [] else ["?"])
    ensures Join(r) == "(?:" + Render(s) + ")?" + (if greedy then "" else "?")
  {
    Quantified(s, ")?", greedy)
  }

  /** `then(s)`: the operand on its own, text escaped. */
  function Then(s: Operand): (r: Pieces)
    ensures Join(r) == Render(s)
    ensures s.Text? ==> Join(r) == Escape(s.text)
    ensures s.Text? ==> IsLiteral(Join(r)) && Unescape(Join(r)) == s.text
  {
    Of(s)
  }

  /** `none_of(s)`: a negated class; unlike `any_of`, its text is escaped. */
  function NoneOf(s: Operand): (r: Pieces)
    ensures r == ["[^"] + Of(s) + ["]"]
    ensures Join(r) == "[^" + Render(s) + "]"
  {
    Wrap("[^", Frag(Of(s)), "]")
  }

  /** `exactly(n, s)`: `s{n}`. The count goes in as text, so it is escaped: a
      negative count renders as `{\-n}`. */
  function Exactly(n: int, s: Operand): (r: Pieces)
    ensures r == Of(s) + ["{", Escape(DecimalString(n)), "}"]
    ensures n >= 0 ==> Join(r) == Render(s) + "{" + DecimalString(n) + "}"
  {
    var d := DecimalString(n);
    assert ["{"] + Of(Text(d)) + ["}"] == ["{", Escape(d), "}"];
    CountUnescaped(n);
    Counted(s, Text(d))
  }

  /** `s + wrap('{', count, '}')`, shared by `exactly` and `between`. */
  function Counted(s: Operand, count: Operand): (r: Pieces)
    ensures r == Of(s) + (["{"] + Of(count) + ["}"])
    ensures Join(r) == Render(s) + "{" + Render(count) + "}"
  {
    var w := Wrap("{", count, "}");
    ConcatAssociative(Render(s), "{" + Render(count), "}");
    ConcatAssociative(Render(s), "{", Render(count));
    Sum(s, Frag(w)).pieces
  }

  /** A non-negative count has only digits, which escaping leaves alone. */
  lemma CountUnescaped(n: int)
    ensures n >= 0 ==> Escape(DecimalString(n)) == DecimalString(n)
  {
    if n >= 0 {
      var d := DecimalString(n);
      forall i | 0 <= i < |d| ensures !IsSpecial(d[i]) {
        assert IsDigit(d[i]);
      }
    }
  }

  /** `"%d,%d" % (m, n)`. */
  function Bounds(m: int, n: int): string {
    DecimalString(m) + "," + DecimalString(n)
  }

  /** `s + wrap('{', Dinant(bounds, escape=False), '}')`. */
  function RepeatCount(s: Operand, bounds: string): (r: Pieces)
    ensures r == Of(s) + ["{", bounds, "}"]
    ensures Join(r) == Render(s) + "{" + bounds + "}"
  {
    assert ["{"] + Of(Delimiter(bounds)) + ["}"] == ["{", bounds, "}"];
    Counted(s, Delimiter(bounds))
  }

  /** `between(m, n, s, greedy)` as written: `s{m,n}`, and when not greedy the
      text `'?'` is added with `+=`, which escapes it to `\?`. */
  function Between(m: int, n: int, s: Operand, greedy: bool): (r: Pieces)
    ensures r == Of(s) + ["{", Bounds(m, n), "}"] + (if greedy then [] else ["\\?"])
    ensures Join(r) == Render(s) + "{" + Bounds(m, n) + "}" + (if greedy then "" else "\\?")
  {
    var b := RepeatCount(s, Bounds(m, n));
    assert Escape("?") == "\\?";
    if greedy then b else Plus(b, Text("?"))
  }

  /** `between` with the lazy marker added raw, as the other quantifiers do. */
  function BetweenCorrected(m: int, n: int, s: Operand, greedy: bool): (r: Pieces)
    ensures r == Of(s) + ["{", Bounds(m, n), "}"] + (if greedy then [] else ["?"])
    ensures Join(r) == Render(s) + "{" + Bounds(m, n) + "}" + (if greedy then "" else "?")
  {
    var b := RepeatCount(s, Bounds(m, n));
    if greedy then b else Plus(b, Delimiter("?"))
  }

  /** The two agree on greedy repetitions; on lazy ones the version as written
      ends in an escaped `?`, which asks for a literal question mark after the
      repetition instead of making it lazy. */
  lemma BetweenLazyMarkEscaped(m: int, n: int, s: Operand)
    ensures Between(m, n, s, true) == BetweenCorrected(m, n, s, true)
    ensures Join(Between(m, n, s, false)) == Join(Between(m, n, s, true)) + "\\?"
    ensures Join(BetweenCorrected(m, n, s, false)) == Join(BetweenCorrected(m, n, s, true)) + "?"
  {
  }

  lemma SmallBounds()
    ensures Bounds(1, 3) == "1,3"
    ensures Render(Text("a")) == "a"
  {
    assert DecimalString(1) == "1" && DecimalString(3) == "3";
    assert Escape("a") == "a";
  }

  /** The smallest input that shows it: `between(1, 3, 'a', greedy=False)`. */
  lemma BetweenLazyExample()
    ensures Join(Between(1, 3, Text("a"), false)) == "a{1,3}\\?"
  {
    SmallBounds();
  }

  /** The same input with the corrected definition. */
  lemma BetweenCorrectedExample()
    ensures Join(BetweenCorrected(1, 3, Text("a"), false)) == "a{1,3}?"
  {
    SmallBounds();
    assert BetweenCorrected(1, 3, Text("a"), false) == ["a", "{", "1,3", "}", "?"];
  }

  /** Lazy `between` (corrected) ends as the lazy forms of the other
      quantifiers do: the greedy form followed by a raw `?` piece. */
  lemma LazyQuantifiersAgree(s: Operand, m: int, n: int)
    ensures OneOrMore(s, false) == OneOrMore(s, true) + ["?"]
    ensures ZeroOrMore(s, false) == ZeroOrMore(s, true) + ["?"]
    ensures Maybe(s, false) == Maybe(s, true) + ["?"]
    ensures BetweenCorrected(m, n, s, false) == BetweenCorrected(m, n, s, true) + ["?"]
  {
  }

  /** A capture name made of letters, digits and underscores reaches the
      pattern unchanged, although the source escapes it. */
  lemma PlainNameUnescaped(name: string, s: Operand)
    requires forall i :: 0 <= i < |name| ==> !IsSpecial(name[i])
    ensures Join(Capture(s, Some(Text(name)))) == "(?P<" + name + ">" + Render(s) + ")"
    ensures Join(Backref(Text(name))) == "(?P=" + name + ")"
  {
  }

  /** The render checks at the start of the source's own tests. */
  lemma RenderExamples()
    ensures Join(Of(Text("a"))) == "a"
    ensures Join(Then(Text("a"))) == "a"
    ensures Join(Then(Text("[]"))) == "\\[\\]"
  {
    assert Escape("a") == "a";
    assert Escape("[]") == "\\[\\]" by {
      assert Escape("]") == "\\]";
    }
  }
}
