/** The Python string operations the builder relies on: `in`, `str.replace`,
    `str.join` and the decimal rendering of an integer (`str(n)`, `"%d" % n`). */
module Strings {

  /** Concatenation regroups freely; stated apart so that proofs need not
      rediscover it among many other facts. */
  lemma ConcatAssociative<T>(a: seq<T>, b: seq<T>, c: seq<T>)
    ensures (a + b) + c == a + (b + c)
  {
  }

  predicate IsPrefix(p: string, s: string) {
    |p| <= |s| && s[..|p|] == p
  }

  /** `p in s`: some position of `s` starts an occurrence of `p`. */
  predicate Contains(s: string, p: string)
    decreases |s|
  {
    if IsPrefix(p, s) then true
    else if s == [] then false
    else Contains(s[1..], p)
  }

  /** `p` occurs in `s` starting at position `i`. */
  predicate OccursAt(s: string, p: string, i: nat) {
    i + |p| <= |s| && s[i..i + |p|] == p
  }

  /** An occurrence one position further into `s` is an occurrence in its tail. */
  lemma OccursShift(s: string, p: string, i: nat)
    requires s != []
    ensures OccursAt(s, p, i + 1) <==> OccursAt(s[1..], p, i)
  {
    if i + 1 + |p| <= |s| {
      assert s[i + 1..i + 1 + |p|] == s[1..][i..i + |p|];
    }
  }

  /** `Contains` agrees with the positional definition of an occurrence. */
  lemma {:induction false} ContainsIffOccurrence(s: string, p: string)
    ensures Contains(s, p) <==> exists i: nat :: OccursAt(s, p, i)
    decreases |s|
  {
    if IsPrefix(p, s) {
      assert OccursAt(s, p, 0);
    } else if s == [] {
    } else {
      ContainsIffOccurrence(s[1..], p);
      if Contains(s[1..], p) {
        var i: nat :| OccursAt(s[1..], p, i);
        OccursShift(s, p, i);
      } else {
        forall i: nat | OccursAt(s, p, i) ensures false {
          if i > 0 {
            OccursShift(s, p, i - 1);
          }
        }
      }
    }
  }

  /** `s.replace(p, rep)`: occurrences are replaced left to right, without
      overlapping; an empty `p` inserts `rep` around every character. */
  function ReplaceAll(s: string, p: string, rep: string): (r: string)
    ensures p == [] ==> |r| == |s| + (|s| + 1) * |rep|
    ensures |rep| == |p| ==> |r| == |s|
    decreases |s|
  {
    if p == [] then
      (if s == [] then rep else rep + [s[0]] + ReplaceAll(s[1..], p, rep))
    else if IsPrefix(p, s) then rep + ReplaceAll(s[|p|..], p, rep)
    else if s == [] then []
    else [s[0]] + ReplaceAll(s[1..], p, rep)
  }

  /** Matching resumes after a replaced occurrence, so overlapping
      occurrences are not both replaced; the empty text occurs before every
      character and at the end. */
  lemma ReplaceExamples()
    ensures ReplaceAll("aaa", "aa", "b") == "ba"
    ensures ReplaceAll("ab", "", "-") == "-a-b-"
  {
    assert IsPrefix("aa", "aaa") && !IsPrefix("aa", "a");
  }

  /** Replacing a text that does not occur changes nothing. */
  lemma {:induction false} ReplaceAbsent(s: string, p: string, rep: string)
    requires p != [] && !Contains(s, p)
    ensures ReplaceAll(s, p, rep) == s
    decreases |s|
  {
    if s != [] {
      ReplaceAbsent(s[1..], p, rep);
      assert [s[0]] + s[1..] == s;
    }
  }

  /** Replacing a text by itself changes nothing. */
  lemma {:induction false} ReplaceSelf(s: string, p: string)
    ensures ReplaceAll(s, p, p) == s
    decreases |s|
  {
    if p == [] {
      if s != [] {
        ReplaceSelf(s[1..], p);
        assert [s[0]] + s[1..] == s;
      }
    } else if IsPrefix(p, s) {
      ReplaceSelf(s[|p|..], p);
      assert s[..|p|] + s[|p|..] == s;
    } else if s != [] {
      ReplaceSelf(s[1..], p);
      assert [s[0]] + s[1..] == s;
    }
  }

  /** A text whose first character does not occur in `s` does not occur in `s`. */
  lemma {:induction false} AbsentFirstChar(s: string, p: string)
    requires p != [] && p[0] !in s
    ensures !Contains(s, p)
    decreases |s|
  {
    if s != [] {
      assert s[0] in s;
      assert forall c :: c in s[1..] ==> c in s;
      AbsentFirstChar(s[1..], p);
    }
  }

  /** A text whose first character differs from `p`'s loses that character
      to the result unchanged. */
  lemma ReplaceFirstOther(s: string, p: string, rep: string)
    requires p != [] && s != [] && s[0] != p[0]
    ensures ReplaceAll(s, p, rep) == [s[0]] + ReplaceAll(s[1..], p, rep)
    ensures Contains(s, p) == Contains(s[1..], p)
  {
    assert !IsPrefix(p, s) by {
      if |p| <= |s| {
        assert s[..|p|][0] == s[0];
      }
    }
  }

  /** A prefix free of the first character of `p` passes through a replace unchanged. */
  lemma {:induction false} ReplaceAfterFree(chunk: string, rest: string, p: string, rep: string)
    requires p != [] && p[0] !in chunk
    ensures ReplaceAll(chunk + rest, p, rep) == chunk + ReplaceAll(rest, p, rep)
    decreases |chunk|
  {
    if chunk == [] {
      assert chunk + rest == rest;
    } else {
      var s := chunk + rest;
      var tail := chunk[1..];
      assert s[0] == chunk[0] && chunk[0] in chunk;
      ReplaceFirstOther(s, p, rep);
      assert s[1..] == tail + rest;
      assert p[0] !in tail by {
        assert forall c :: c in tail ==> c in chunk;
      }
      ReplaceAfterFree(tail, rest, p, rep);
      ConcatAssociative([chunk[0]], tail, ReplaceAll(rest, p, rep));
      assert [chunk[0]] + tail == chunk;
    }
  }

  /** An occurrence at the very start is replaced first. */
  lemma ReplaceLeading(p: string, rest: string, rep: string)
    requires p != []
    ensures ReplaceAll(p + rest, p, rep) == rep + ReplaceAll(rest, p, rep)
  {
    assert (p + rest)[..|p|] == p;
    assert (p + rest)[|p|..] == rest;
  }

  /** A two-character prefix that shares only its first character with the
      two-character `p`, and whose second character is not `p`'s first, passes
      through a replace unchanged. */
  lemma ReplaceAfterOther(d: string, rest: string, p: string, rep: string)
    requires |d| == 2 && |p| == 2 && d[0] == p[0] && d[1] != p[1] && d[1] != p[0]
    ensures ReplaceAll(d + rest, p, rep) == d + ReplaceAll(rest, p, rep)
  {
    var s := d + rest;
    assert !IsPrefix(p, s) by {
      assert s[..2][1] == d[1];
    }
    assert s[1..] == [d[1]] + rest;
    assert ReplaceAll(s, p, rep) == [s[0]] + ReplaceAll(s[1..], p, rep);
    ReplaceAfterFree([d[1]], rest, p, rep);
    assert [s[0]] + [d[1]] == d;
  }

  /** A prefix free of the first character of `p` adds no occurrence of `p`. */
  lemma {:induction false} AbsentAfterFree(chunk: string, rest: string, p: string)
    requires p != [] && p[0] !in chunk && !Contains(rest, p)
    ensures !Contains(chunk + rest, p)
    decreases |chunk|
  {
    if chunk == [] {
      assert chunk + rest == rest;
    } else {
      var s := chunk + rest;
      assert s[0] == chunk[0] && chunk[0] in chunk;
      ReplaceFirstOther(s, p, []);
      assert s[1..] == chunk[1..] + rest;
      assert forall c :: c in chunk[1..] ==> c in chunk;
      AbsentAfterFree(chunk[1..], rest, p);
    }
  }

  /** The two-character counterpart of `AbsentAfterFree`, as in `ReplaceAfterOther`. */
  lemma AbsentAfterOther(d: string, rest: string, p: string)
    requires |d| == 2 && |p| == 2 && d[0] == p[0] && d[1] != p[1] && d[1] != p[0]
    requires !Contains(rest, p)
    ensures !Contains(d + rest, p)
  {
    var s := d + rest;
    assert !IsPrefix(p, s) by {
      assert s[..2][1] == d[1];
    }
    assert s[1..] == [d[1]] + rest;
    AbsentAfterFree([d[1]], rest, p);
  }

  /** The total length of a list of texts. */
  function TotalLength(xs: seq<string>): nat {
    if xs == [] then 0 else |xs[0]| + TotalLength(xs[1..])
  }

  /** `sep.join(xs)`. */
  function JoinWith(sep: string, xs: seq<string>): (r: string)
    ensures |xs| == 1 ==> r == xs[0]
    ensures xs != [] ==> |r| == TotalLength(xs) + (|xs| - 1) * |sep|
  {
    if xs == [] then ""
    else if |xs| == 1 then xs[0]
    else xs[0] + sep + JoinWith(sep, xs[1..])
  }

  /** A text put in front of a chain of five concatenations joins the chain. */
  lemma PrependToChain(p: string, a: string, b: string, c: string, d: string, e: string)
    ensures p + (a + b + c + d + e) == p + a + b + c + d + e
  {
    ConcatAssociative(p, a + b + c + d, e);
    ConcatAssociative(p, a + b + c, d);
    ConcatAssociative(p, a + b, c);
    ConcatAssociative(p, a, b);
  }

  /** A chain of three nested in a chain of three, flattened. */
  lemma FlattenNested<T>(a: seq<T>, b: seq<T>, c: seq<T>, d: seq<T>, e: seq<T>, f: seq<T>)
    ensures a + ((b + c + d) + e) + f == a + b + c + d + e + f
  {
    ConcatAssociative(a, b + c + d, e);
    ConcatAssociative(a, b + c, d);
    ConcatAssociative(a, b, c);
  }

  /** Three elements joined, regrouped as a chain of concatenations. */
  lemma JoinWithThree(sep: string, x: string, y: string, z: string)
    ensures JoinWith(sep, [x, y, z]) == x + sep + y + sep + z
  {
    assert [x, y, z][1..] == [y, z] && [y, z][1..] == [z];
    assert JoinWith(sep, [x, y, z]) == x + sep + (y + sep + z);
    ConcatAssociative(x + sep, y + sep, z);
    ConcatAssociative(x + sep, y, sep);
  }

  /** Joining one more element appends the separator and that element. */
  lemma {:induction false} JoinWithSnoc(sep: string, xs: seq<string>, y: string)
    requires xs != []
    ensures JoinWith(sep, xs + [y]) == JoinWith(sep, xs) + sep + y
  {
    if |xs| == 1 {
      assert (xs + [y])[1..] == [y];
    } else {
      assert (xs + [y])[1..] == xs[1..] + [y];
      JoinWithSnoc(sep, xs[1..], y);
    }
  }

  function DigitChar(d: nat): char
    requires d < 10
  {
    "0123456789"[d]
  }

  predicate IsDigit(c: char) {
    '0' <= c <= '9'
  }

  /** Decimal digits of a natural number, most significant first. */
  function NatString(n: nat): (r: string)
    ensures |r| > 0
    ensures forall i :: 0 <= i < |r| ==> IsDigit(r[i])
    ensures n == 0 ==> r == "0"
    ensures n > 0 ==> r[0] != '0'
  {
    if n < 10 then [DigitChar(n)] else NatString(n / 10) + [DigitChar(n % 10)]
  }

  /** `str(n)` for a Python int: a leading minus sign exactly when `n` is
      negative, then decimal digits whose value is the magnitude of `n`. */
  function DecimalString(n: int): (r: string)
    ensures |r| > 0 && (r[0] == '-' <==> n < 0)
    ensures n >= 0 ==> (forall i :: 0 <= i < |r| ==> IsDigit(r[i])) && DigitsValue(r) == n
    ensures n < 0 ==> (forall i :: 1 <= i < |r| ==> IsDigit(r[i])) && DigitsValue(r[1..]) == -n
    ensures n >= 0 && |r| > 1 ==> r[0] != '0'
    ensures n < 0 ==> |r| > 1 && r[1] != '0'
  {
    if n < 0 then
      NatStringValue(-n);
      assert ("-" + NatString(-n))[1..] == NatString(-n);
      "-" + NatString(-n)
    else
      NatStringValue(n);
      NatString(n)
  }

  /** The value of a string of decimal digits. */
  function DigitsValue(s: string): nat
    requires forall i :: 0 <= i < |s| ==> IsDigit(s[i])
  {
    if s == [] then 0
    else
      assert IsDigit(s[|s| - 1]);
      10 * DigitsValue(s[..|s| - 1]) + (s[|s| - 1] as int - '0' as int)
  }

  /** The digits of `n` read back give `n`. */
  lemma {:induction false} NatStringValue(n: nat)
    ensures DigitsValue(NatString(n)) == n
  {
    var s := NatString(n);
    if n < 10 {
      assert s[..0] == [];
    } else {
      NatStringValue(n / 10);
      assert s[..|s| - 1] == NatString(n / 10);
    }
  }
}
