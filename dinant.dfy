/** The `Dinant` object: a fragment's pieces plus the caches the source fills
    in place (the rendered text, the compiled matcher, the last match). */
module Builder {
  import opened Wrappers
  import opened Escaping
  import opened Fragment

  /** A compiled matcher, identified by the pattern text it was compiled from. */
  datatype Compiled = Compiled(pattern: string)

  /** What the regex engine reports for a match: the whole matched text and
      the captured groups, a group that took no part being absent. */
  datatype MatchObj = MatchObj(whole: string, captures: seq<Option<string>>)

  /** The regex engine, which the builder only calls: whether a pattern
      compiles, and the results of an anchored and an unanchored match. */
  datatype Engine = Engine(
    compiles: string -> bool,
    matchAt: (string, string) -> Option<MatchObj>,
    searchIn: (string, string) -> Option<MatchObj>)

  /** An argument of `+` or of the constructor: a `str` or another `Dinant`. */
  datatype Arg = Str(s: string) | Obj(d: Dinant)

  function OperandOf(a: Arg): Operand
    reads if a.Obj? then {a.d} else {}
  {
    match a
    case Str(s) => Text(s)
    case Obj(d) => Frag(d.strings)
  }

  const NotMatchedMessage := "This regular expression hasn't matched anything yet."

  class Dinant {
    /** `strings`: the pieces, in order. */
    var strings: Pieces
    /** `expression`: the rendered text, once computed. */
    var expression: Option<string>
    /** `compiled`: the compiled matcher, once computed. */
    var compiled: Option<Compiled>
    /** `g`: absent until `matches` is first called; then its last result,
        which is None when that match failed. */
    var g: Option<Option<MatchObj>>

    /** The caches always agree with the pieces. */
    ghost predicate Valid()
      reads this
    {
      && (expression.Some? ==> expression.value == Join(strings))
      && (compiled.Some? ==> expression.Some? && compiled.value.pattern == Join(strings))
    }

    /** `Dinant(text, escape)`: one piece, escaped unless `escape` is off. */
    constructor FromText(text: string, escape: bool)
      ensures Valid()
      ensures strings == Make(Text(text), escape)
      ensures escape ==> Unescape(Join(strings)) == text
      ensures expression.None? && compiled.None? && g.None?
    {
      UnescapeEscape(text);
      strings := Make(Text(text), escape);
      expression, compiled, g := None, None, None;
    }

    /** `Dinant(other)`: a copy of the other fragment's pieces, with empty
        caches; the two objects are distinct. */
    constructor Copy(other: Dinant)
      ensures Valid()
      ensures strings == other.strings
      ensures expression.None? && compiled.None? && g.None?
    {
      strings := other.strings;
      expression, compiled, g := None, None, None;
    }

    /** `self + other`: a fresh fragment whose pieces are this one's followed
        by the other's (text escaped); neither operand changes. */
    method Add(other: Arg) returns (r: Dinant)
      ensures fresh(r) && r.Valid()
      ensures r.strings == Plus(strings, OperandOf(other))
      ensures r.strings == strings + Of(OperandOf(other))
      ensures r.expression.None? && r.compiled.None? && r.g.None?
    {
      r := new Dinant.Copy(this);
      match other
      case Str(s) =>
        r.strings := r.strings + [Escape(s)];
      case Obj(d) =>
        r.strings := r.strings + d.strings;
    }

    /** `other + self` when `other` has no `+` of its own for a `Dinant`:
        text goes in front, escaped; anything else raises ValueError. */
    method RAdd(other: Arg) returns (r: Result<Dinant, Error>)
      ensures r.Success? <==> other.Str?
      ensures r.Success? ==> fresh(r.value) && r.value.Valid()
      ensures r.Success? ==> r.value.strings == [Escape(other.s)] + strings
      ensures r.Success? ==> r.value.expression.None? && r.value.compiled.None? && r.value.g.None?
      ensures r.Failure? ==> r.error == ValueError(RAddMessage)
    {
      var result := new Dinant.Copy(this);
      match other
      case Str(s) =>
        result.strings := [Escape(s)];
        result.strings := result.strings + strings;
        r := Success(result);
      case Obj(_) =>
        r := Failure(ValueError(RAddMessage));
    }

    /** `str(self)`: the join of the pieces, computed on the first call and
        kept in `expression`, so every later call returns the same text. */
    method Str() returns (s: string)
      requires Valid()
      modifies this`expression
      ensures Valid()
      ensures s == Join(strings)
      ensures expression == Some(s)
      ensures old(expression).Some? ==> s == old(expression).value
    {
      if expression.None? {
        expression := Some(Join(strings));
      }
      s := expression.value;
    }

    /** `self[index]`: a character of the rendered text, counted from the end
        when `index` is negative, as Python indexes strings. */
    method GetItem(index: int) returns (r: Result<char, Error>)
      requires Valid()
      modifies this`expression
      ensures Valid() && expression == Some(Join(strings))
      ensures r.Success? <==> -|Join(strings)| <= index < |Join(strings)|
      ensures r.Success? ==>
        r.value == Join(strings)[if index < 0 then index + |Join(strings)| else index]
      ensures r.Failure? ==> r.error == IndexError
    {
      if expression.None? {
        expression := Some(Join(strings));
      }
      var e := expression.value;
      if -|e| <= index < |e| {
        r := Success(e[if index < 0 then index + |e| else index]);
      } else {
        r := Failure(IndexError);
      }
    }

    /** Renders and compiles on first use; a pattern the engine rejects
        raises its error and leaves `compiled` empty, `expression` filled. */
    method Compile(engine: Engine) returns (c: Result<Compiled, Error>)
      requires Valid()
      modifies this`expression, this`compiled
      ensures Valid() && expression == Some(Join(strings))
      ensures old(compiled).Some? ==> compiled == old(compiled) && c == Success(compiled.value)
      ensures old(compiled).None? && engine.compiles(Join(strings)) ==>
        compiled == Some(Compiled(Join(strings))) && c == Success(compiled.value)
      ensures old(compiled).None? && !engine.compiles(Join(strings)) ==>
        compiled.None? && c == Failure(PatternError)
    {
      if compiled.Some? {
        return Success(compiled.value);
      }
      var text := Str();
      if !engine.compiles(text) {
        return Failure(PatternError);
      }
      compiled := Some(Compiled(text));
      c := Success(compiled.value);
    }

    /** `matches(s)`: an anchored match whose result, success or not, is
        stored in `g`; reports whether it succeeded. */
    method Matches(s: string, engine: Engine) returns (r: Result<bool, Error>)
      requires Valid()
      modifies this`expression, this`compiled, this`g
      ensures Valid() && expression == Some(Join(strings))
      ensures r.Failure? <==> old(compiled).None? && !engine.compiles(Join(strings))
      ensures r.Failure? ==> r.error == PatternError && g == old(g) && compiled.None?
      ensures r.Success? ==> compiled == Some(Compiled(Join(strings)))
      ensures r.Success? ==> g == Some(engine.matchAt(Join(strings), s))
      ensures r.Success? ==> r.value == engine.matchAt(Join(strings), s).Some?
    {
      var c := Compile(engine);
      if c.Failure? {
        return Failure(c.error);
      }
      var m := engine.matchAt(c.value.pattern, s);
      g := Some(m);
      r := Success(m.Some?);
    }

    /** `match(s)`: the anchored match result, returned and not stored; the
        compiled pattern is cached as by `matches`. */
    method Match(s: string, engine: Engine) returns (r: Result<Option<MatchObj>, Error>)
      requires Valid()
      modifies this`expression, this`compiled
      ensures Valid() && expression == Some(Join(strings))
      ensures r.Failure? <==> old(compiled).None? && !engine.compiles(Join(strings))
      ensures r.Failure? ==> r.error == PatternError && compiled == old(compiled) && compiled.None?
      ensures r.Success? ==> compiled == Some(Compiled(Join(strings)))
      ensures r.Success? ==> r.value == engine.matchAt(Join(strings), s)
    {
      var c := Compile(engine);
      if c.Failure? {
        return Failure(c.error);
      }
      r := Success(engine.matchAt(c.value.pattern, s));
    }

    /** `search(s)`: the unanchored match result, returned and not stored; the
        compiled pattern is cached as by `matches`. */
    method Search(s: string, engine: Engine) returns (r: Result<Option<MatchObj>, Error>)
      requires Valid()
      modifies this`expression, this`compiled
      ensures Valid() && expression == Some(Join(strings))
      ensures r.Failure? <==> old(compiled).None? && !engine.compiles(Join(strings))
      ensures r.Failure? ==> r.error == PatternError && compiled == old(compiled) && compiled.None?
      ensures r.Success? ==> compiled == Some(Compiled(Join(strings)))
      ensures r.Success? ==> r.value == engine.searchIn(Join(strings), s)
    {
      var c := Compile(engine);
      if c.Failure? {
        return Failure(c.error);
      }
      r := Success(engine.searchIn(c.value.pattern, s));
    }

    /** `groups()`: ValueError when `matches` was never called; since a failed
        match also sets `g`, a failed last match reaches Python's None and
        fails with AttributeError instead. */
    method Groups() returns (r: Result<seq<Option<string>>, Error>)
      ensures g.None? ==> r == Failure(ValueError(NotMatchedMessage))
      ensures g.Some? && g.value.None? ==> r == Failure(AttributeError)
      ensures g.Some? && g.value.Some? ==> r == Success(g.value.value.captures)
    {
      if g.None? {
        return Failure(ValueError(NotMatchedMessage));
      }
      if g.value.None? {
        return Failure(AttributeError);
      }
      r := Success(g.value.value.captures);
    }

    /** `group(index)`: group 0 is the whole match, group `i` the `i`-th
        capture; the same guard as `groups`. */
    method Group(index: int) returns (r: Result<Option<string>, Error>)
      ensures g.None? ==> r == Failure(ValueError(NotMatchedMessage))
      ensures g.Some? && g.value.None? ==> r == Failure(AttributeError)
      ensures g.Some? && g.value.Some? && index == 0 ==> r == Success(Some(g.value.value.whole))
      ensures g.Some? && g.value.Some? && 0 < index <= |g.value.value.captures| ==>
        r == Success(g.value.value.captures[index - 1])
      ensures g.Some? && g.value.Some? && (index < 0 || index > |g.value.value.captures|) ==>
        r == Failure(IndexError)
    {
      if g.None? {
        return Failure(ValueError(NotMatchedMessage));
      }
      if g.value.None? {
        return Failure(AttributeError);
      }
      var m := g.value.value;
      if index == 0 {
        r := Success(Some(m.whole));
      } else if 0 < index <= |m.captures| {
        r := Success(m.captures[index - 1]);
      } else {
        r := Failure(IndexError);
      }
    }

    /** `self == other`: the piece lists are compared; caches play no part. */
    method Eq(other: Dinant) returns (r: bool)
      ensures r <==> Equal(strings, other.strings)
      ensures r ==> Join(strings) == Join(other.strings)
    {
      EqualRendersEqual(strings, other.strings);
      r := strings == other.strings;
    }
  }

  /** A copy equals its original but is another object, and extending the
      copy leaves the original's pieces as they were. */
  method CopyIsIndependent(d: Dinant, t: string) returns (c: Dinant, e: Dinant)
    ensures fresh(c) && c != d && c.strings == d.strings
    ensures fresh(e) && e.strings == d.strings + [Escape(t)]
    ensures d.strings == old(d.strings)
  {
    c := new Dinant.Copy(d);
    var same := c.Eq(d);
    assert same;
    e := c.Add(Str(t));
  }

  /** Rendering twice gives the same text, and the second call only reads the
      cache. */
  method RenderTwice(d: Dinant) returns (first: string, second: string)
    requires d.Valid()
    modifies d`expression
    ensures first == second == Join(d.strings)
  {
    first := d.Str();
    second := d.Str();
  }

  /** String concatenation through the objects matches the rendering of the
      parts: `str(a + b) == str(a) + str(b)`. */
  method RenderOfSum(a: Dinant, b: Arg) returns (whole: string)
    ensures whole == Join(a.strings) + Render(OperandOf(b))
  {
    var r := a.Add(b);
    whole := r.Str();
  }
}
