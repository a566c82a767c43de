/** Character-level operations on titles and queries: the `str.lower`,
    substring test (`in`), lexicographic comparison of `str` and the decimal
    rendering of an `int` that the movie commands rely on. */
module Text {

  /** Lower-casing of one character. Only the ASCII letters are mapped. */
  function LowerChar(c: char): char
  {
    if 'A' <= c <= 'Z' then (c as int + 32) as char else c
  }

  /** `s.lower()`: same length, each upper-case ASCII letter replaced by its
      lower-case letter (32 code points on), every other character kept. */
  function Lower(s: string): (r: string)
    ensures |r| == |s|
    ensures forall i :: 0 <= i < |r| ==> !('A' <= r[i] <= 'Z')
    ensures forall i :: 0 <= i < |s| && 'A' <= s[i] <= 'Z' ==> r[i] as int == s[i] as int + 32
    ensures forall i :: 0 <= i < |s| && !('A' <= s[i] <= 'Z') ==> r[i] == s[i]
  {
    seq(|s|, i requires 0 <= i < |s| => LowerChar(s[i]))
  }

  predicate IsPrefix(p: string, s: string)
  {
    |p| <= |s| && s[..|p|] == p
  }

  /** `q in t` for strings: `q` is a contiguous part of `t` (the empty string is part of every string). */
  predicate IsSubstring(q: string, t: string)
    decreases |t|
  {
    IsPrefix(q, t) || (|t| > 0 && IsSubstring(q, t[1..]))
  }

  /** `q` stands in `t` starting at position `i`. */
  predicate OccursAt(q: string, t: string, i: int)
  {
    0 <= i && i + |q| <= |t| && t[i..i + |q|] == q
  }

  /** The substring test finds `q` exactly when it occurs at some position. */
  lemma {:induction false} SubstringIff(q: string, t: string)
    ensures IsSubstring(q, t) <==> exists i :: OccursAt(q, t, i)
    decreases |t|
  {
    if IsSubstring(q, t) {
      if IsPrefix(q, t) {
        assert OccursAt(q, t, 0);
      } else {
        SubstringIff(q, t[1..]);
        var i :| OccursAt(q, t[1..], i);
        assert t[1..][i..i + |q|] == t[i + 1..i + 1 + |q|];
        assert OccursAt(q, t, i + 1);
      }
    }
    if exists i :: OccursAt(q, t, i) {
      var i :| OccursAt(q, t, i);
      if i == 0 {
        assert IsPrefix(q, t);
      } else {
        assert t[1..][i - 1..i - 1 + |q|] == t[i..i + |q|];
        assert OccursAt(q, t[1..], i - 1);
        SubstringIff(q, t[1..]);
      }
    }
  }

  /** A piece found inside a piece found inside `t` is found inside `t`. */
  lemma OccursAtNested(x: string, b: string, t: string, j: int, i: int)
    requires OccursAt(x, b, j) && OccursAt(b, t, i)
    ensures OccursAt(x, t, i + j)
  {
    forall k | 0 <= k < |x|
      ensures t[i + j + k] == x[k]
    {
      assert b[j + k] == x[k];
      assert t[i + j + k] == b[j + k];
    }
  }

  /** A string occurs in a concatenation right after the part before it. */
  lemma OccursInConcat(pre: string, x: string, post: string)
    ensures OccursAt(x, pre + x + post, |pre|)
  {
    assert (pre + x + post)[|pre|..|pre| + |x|] == x;
  }

  /** A string is found at the start of any string it begins. */
  lemma SubstringStart(x: string, r: string)
    ensures IsSubstring(x, x + r)
  {
    assert (x + r)[..|x|] == x;
  }

  /** A string found in `v` is found in anything that ends with `v`. */
  lemma {:induction false} SubstringPrepend(x: string, u: string, v: string)
    requires IsSubstring(x, v)
    ensures IsSubstring(x, u + v)
    decreases |u|
  {
    if u == [] {
      assert u + v == v;
    } else {
      assert (u + v)[1..] == u[1..] + v;
      SubstringPrepend(x, u[1..], v);
    }
  }

  /** A part of a part of `t` is a part of `t`. */
  lemma SubstringTransitive(x: string, b: string, t: string)
    requires IsSubstring(x, b) && IsSubstring(b, t)
    ensures IsSubstring(x, t)
  {
    SubstringIff(x, b);
    SubstringIff(b, t);
    var j :| OccursAt(x, b, j);
    var i :| OccursAt(b, t, i);
    OccursAtNested(x, b, t, j, i);
    SubstringIff(x, t);
  }

  /** The texts `f(x)` of the elements of `s`, one after the other: the
      `out += f(x)` accumulation of a loop. */
  function Join<T>(s: seq<T>, f: T -> string): string
  {
    if s == [] then "" else Join(s[..|s| - 1], f) + f(s[|s| - 1])
  }

  /** Joining two parts is joining each and concatenating the texts. */
  lemma {:induction false} JoinConcat<T>(a: seq<T>, b: seq<T>, f: T -> string)
    ensures Join(a + b, f) == Join(a, f) + Join(b, f)
    decreases |b|
  {
    if b == [] {
      assert a + b == a;
    } else {
      var b' := b[..|b| - 1];
      assert (a + b)[..|a + b| - 1] == a + b';
      JoinConcat(a, b', f);
    }
  }

  /** One more element appends its text to the joined prefix. */
  lemma JoinStep<T>(s: seq<T>, f: T -> string, i: int)
    requires 0 <= i < |s|
    ensures Join(s[..i + 1], f) == Join(s[..i], f) + f(s[i])
  {
    assert s[..i + 1][..i] == s[..i];
  }

  /** The text of every element stands in the joined text. */
  lemma JoinShowsEach<T>(s: seq<T>, f: T -> string, k: int)
    requires 0 <= k < |s|
    ensures IsSubstring(f(s[k]), Join(s, f))
  {
    JoinAround(s, f, k);
    OccursInConcat(Join(s[..k], f), f(s[k]), Join(s[k + 1..], f));
    SubstringIff(f(s[k]), Join(s, f));
  }

  /** The joined text of one element is that element's text. */
  lemma JoinSingle<T>(x: T, f: T -> string)
    ensures Join([x], f) == f(x)
  {
    assert [x][..0] == [];
  }

  /** The joined text splits around the text of any one element. */
  lemma JoinAround<T>(s: seq<T>, f: T -> string, k: int)
    requires 0 <= k < |s|
    ensures Join(s, f) == Join(s[..k], f) + f(s[k]) + Join(s[k + 1..], f)
  {
    var left, rest, right := s[..k], s[k..], s[k + 1..];
    assert left + rest == s;
    assert [s[k]] + right == rest;
    var a, b, c := Join(left, f), f(s[k]), Join(right, f);
    assert Join(rest, f) == b + c by {
      JoinConcat([s[k]], right, f);
      JoinSingle(s[k], f);
    }
    assert Join(s, f) == a + (b + c) by {
      JoinConcat(left, rest, f);
    }
    assert a + (b + c) == a + b + c;
  }

  /** Python's ordering of `str` values: code point by code point, a proper
      prefix coming first. */
  predicate LexLess(a: string, b: string)
    decreases |a|
  {
    |b| > 0 && (|a| == 0 || a[0] < b[0] || (a[0] == b[0] && LexLess(a[1..], b[1..])))
  }

  lemma {:induction false} LexIrreflexive(a: string)
    ensures !LexLess(a, a)
    decreases |a|
  {
    if |a| > 0 {
      LexIrreflexive(a[1..]);
    }
  }

  lemma {:induction false} LexTransitive(a: string, b: string, c: string)
    requires LexLess(a, b) && LexLess(b, c)
    ensures LexLess(a, c)
    decreases |a|
  {
    if |a| > 0 && a[0] == b[0] && b[0] == c[0] {
      LexTransitive(a[1..], b[1..], c[1..]);
    }
  }

  /** Any two different strings are ordered one way or the other. */
  lemma {:induction false} LexTotal(a: string, b: string)
    ensures a == b || LexLess(a, b) || LexLess(b, a)
    decreases |a|
  {
    if |a| > 0 && |b| > 0 && a[0] == b[0] {
      LexTotal(a[1..], b[1..]);
      if a[1..] == b[1..] {
        assert a == [a[0]] + a[1..] && b == [b[0]] + b[1..];
      }
    }
  }

  lemma {:induction false} LexAsymmetric(a: string, b: string)
    requires LexLess(a, b)
    ensures !LexLess(b, a)
    decreases |a|
  {
    if |a| > 0 && a[0] == b[0] {
      LexAsymmetric(a[1..], b[1..]);
    }
  }

  function DigitChar(d: nat): char
    requires d < 10
  {
    ('0' as int + d) as char
  }

  predicate IsDigit(c: char)
  {
    '0' <= c <= '9'
  }

  /** The decimal digits of a natural number, most significant first, no leading zero. */
  function Digits(n: nat): (r: string)
    ensures |r| > 0 && forall i :: 0 <= i < |r| ==> IsDigit(r[i])
    decreases n
  {
    if n < 10 then [DigitChar(n)] else Digits(n / 10) + [DigitChar(n % 10)]
  }

  /** `str(n)` for an `int`: a leading '-' for negative numbers, then the digits. */
  function DecimalText(n: int): (r: string)
    ensures |r| > 0
  {
    if n < 0 then "-" + Digits(-n) else Digits(n)
  }

  /** The number a string of decimal digits denotes. */
  function DigitsValue(s: string): int
    requires forall i :: 0 <= i < |s| ==> IsDigit(s[i])
  {
    if s == [] then 0 else DigitsValue(s[..|s| - 1]) * 10 + (s[|s| - 1] as int - '0' as int)
  }

  /** `int(str(n))`: reading the decimal text back gives the number. */
  function DecimalValue(s: string): int
    requires |s| > 0
    requires s[0] == '-' || IsDigit(s[0])
    requires forall i :: 1 <= i < |s| ==> IsDigit(s[i])
  {
    if s[0] == '-' then -DigitsValue(s[1..]) else DigitsValue(s)
  }

  lemma {:induction false} DigitsRoundTrip(n: nat)
    ensures DigitsValue(Digits(n)) == n
    decreases n
  {
    if n >= 10 {
      DigitsRoundTrip(n / 10);
      var s := Digits(n);
      assert s[..|s| - 1] == Digits(n / 10);
    }
  }

  lemma DecimalRoundTrip(n: int)
    ensures var s := DecimalText(n);
      (s[0] == '-' || IsDigit(s[0])) && (forall i :: 1 <= i < |s| ==> IsDigit(s[i]))
      && DecimalValue(s) == n
  {
    var s := DecimalText(n);
    if n < 0 {
      assert s[1..] == Digits(-n);
      DigitsRoundTrip(-n);
    } else {
      DigitsRoundTrip(n);
    }
  }
}
