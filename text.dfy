/**
 * String and byte-sequence helpers with the JavaScript semantics the handler
 * relies on: `String.prototype.split` on a one-character separator, regular
 * expressions of the form `/^literal$/i`, unary `+` on a decimal token and
 * `indexOf` on a buffer.
 */
module Text {
  import opened Wrappers

  // ---------------------------------------------------------------------------
  // split / join
  // ---------------------------------------------------------------------------

  /** Pieces joined back with the separator `d` between consecutive pieces. */
  function Join(pieces: seq<string>, d: char): string
    requires |pieces| >= 1
  {
    if |pieces| == 1 then pieces[0] else pieces[0] + [d] + Join(pieces[1..], d)
  }

  /**
   * `s.split(d)`: the maximal runs of `s` that do not contain `d`, in order.
   * Always at least one piece ("".split(":") is [""]).
   */
  function Split(s: string, d: char): (r: seq<string>)
    ensures |r| >= 1
    ensures forall i :: 0 <= i < |r| ==> d !in r[i]
    ensures Join(r, d) == s
  {
    if s == [] then [[]]
    else
      var rest := Split(s[1..], d);
      if s[0] == d then
        assert ([[]] + rest)[1..] == rest;
        [[]] + rest
      else
        var r := [[s[0]] + rest[0]] + rest[1..];
        assert r[1..] == rest[1..];
        assert s == [s[0]] + s[1..];
        r
  }

  /** Joining two or more pieces puts the separator right after the first. */
  lemma JoinHasSeparator(pieces: seq<string>, d: char)
    requires |pieces| >= 2
    ensures Join(pieces, d)[|pieces[0]|] == d
  {
    assert Join(pieces, d) == pieces[0] + [d] + Join(pieces[1..], d);
  }

  lemma {:induction false} SplitWithoutSeparator(a: string, d: char)
    requires d !in a
    ensures Split(a, d) == [a]
  {
    if a != [] {
      SplitWithoutSeparator(a[1..], d);
      assert [a[0]] + a[1..] == a;
    }
  }

  /** The first piece ends at the first separator; the rest is split on its own. */
  lemma {:induction false} SplitAtFirst(a: string, b: string, d: char)
    requires d !in a
    ensures Split(a + [d] + b, d) == [a] + Split(b, d)
  {
    if a == [] {
      assert a + [d] + b == [d] + b;
      assert ([d] + b)[1..] == b;
    } else {
      var s := a + [d] + b;
      assert s[0] == a[0] != d;
      assert s[1..] == a[1..] + [d] + b;
      SplitAtFirst(a[1..], b, d);
      var rest := Split(s[1..], d);
      assert rest == [a[1..]] + Split(b, d);
      assert Split(s, d) == [[a[0]] + rest[0]] + rest[1..];
      assert [a[0]] + a[1..] == a;
    }
  }

  /** Split undoes Join when no piece contains the separator. */
  lemma {:induction false} SplitJoin(pieces: seq<string>, d: char)
    requires |pieces| >= 1
    requires forall i :: 0 <= i < |pieces| ==> d !in pieces[i]
    ensures Split(Join(pieces, d), d) == pieces
  {
    if |pieces| == 1 {
      SplitWithoutSeparator(pieces[0], d);
    } else {
      SplitJoin(pieces[1..], d);
      SplitAtFirst(pieces[0], Join(pieces[1..], d), d);
      assert [pieces[0]] + pieces[1..] == pieces;
    }
  }

  // ---------------------------------------------------------------------------
  // `/^literal$/i` on an ASCII literal
  // ---------------------------------------------------------------------------

  /** ASCII lower-casing; JavaScript's case-insensitive matching never maps a non-ASCII character onto an ASCII one. */
  function LowerAscii(c: char): char
  {
    if 'A' <= c <= 'Z' then (c as int + 32) as char else c
  }

  /** `/^lower$/i.test(s)` for a lower-case ASCII literal `lower`: a whole-string, case-insensitive match. */
  predicate EqualsIgnoreCase(s: string, lower: string)
  {
    |s| == |lower| && forall i :: 0 <= i < |s| ==> LowerAscii(s[i]) == lower[i]
  }

  /** `lower` is written without upper-case ASCII letters. */
  predicate NoUpperAscii(lower: string)
  {
    forall i :: 0 <= i < |lower| ==> !('A' <= lower[i] <= 'Z')
  }

  /** `c` is `l` itself or, when `l` is a lower-case ASCII letter, its upper-case form. */
  predicate CaseVariant(c: char, l: char)
  {
    c == l || ('a' <= l <= 'z' && c as int == l as int - 32)
  }

  /**
   * A string matches `/^lower$/i` exactly when it is `lower` with any of its
   * ASCII letters written in upper case.
   */
  lemma CaseVariants(s: string, lower: string)
    requires NoUpperAscii(lower)
    ensures EqualsIgnoreCase(s, lower) <==>
      |s| == |lower| && forall i :: 0 <= i < |s| ==> CaseVariant(s[i], lower[i])
  {
    if |s| == |lower| {
      forall i | 0 <= i < |s|
        ensures LowerAscii(s[i]) == lower[i] <==> CaseVariant(s[i], lower[i])
      {
        assert !('A' <= lower[i] <= 'Z');
      }
    }
  }

  // ---------------------------------------------------------------------------
  // unary `+` on a token
  // ---------------------------------------------------------------------------

  predicate IsDigit(c: char)
  {
    '0' <= c <= '9'
  }

  predicate AllDigits(s: string)
  {
    forall i :: 0 <= i < |s| ==> IsDigit(s[i])
  }

  function DecimalValue(s: string): nat
    requires AllDigits(s)
  {
    if s == [] then 0 else DecimalValue(s[..|s| - 1]) * 10 + (s[|s| - 1] as int - '0' as int)
  }

  /**
   * The value of `+token` when `token` is a non-empty string of decimal
   * digits; every other token is `None`.
   */
  function ToNumber(token: string): (r: Option<nat>)
    ensures r.Some? <==> token != [] && AllDigits(token)
    ensures r.Some? ==> r.value < Power10(|token|)
  {
    if token != [] && AllDigits(token) then
      DecimalValueBound(token);
      Some(DecimalValue(token))
    else None
  }

  function Power10(k: nat): (r: nat)
    ensures r >= 1
  {
    if k == 0 then 1 else 10 * Power10(k - 1)
  }

  lemma {:induction false} DecimalValueBound(s: string)
    requires AllDigits(s)
    ensures DecimalValue(s) < Power10(|s|)
  {
    if s != [] {
      DecimalValueBound(s[..|s| - 1]);
    }
  }

  /** The decimal form of `n`, without leading zeros. */
  function Digits(n: nat): (s: string)
    ensures s != [] && AllDigits(s)
  {
    if n < 10 then [('0' as int + n) as char]
    else Digits(n / 10) + [('0' as int + n % 10) as char]
  }

  /** Unary `+` reads back every number written in decimal. */
  lemma {:induction false} DigitsRoundTrip(n: nat)
    ensures ToNumber(Digits(n)) == Some(n)
  {
    var s := Digits(n);
    if n < 10 {
      assert s[..|s| - 1] == [];
    } else {
      DigitsRoundTrip(n / 10);
      assert s[..|s| - 1] == Digits(n / 10);
    }
  }

  /** A leading zero does not change the value of `+token`: `+"0200"` is 200. */
  lemma LeadingZero(t: string)
    requires t != [] && AllDigits(t)
    ensures ToNumber("0" + t) == ToNumber(t)
  {
    LeadingZeroValue(t);
  }

  lemma {:induction false} LeadingZeroValue(t: string)
    requires AllDigits(t)
    ensures AllDigits("0" + t) && DecimalValue("0" + t) == DecimalValue(t)
  {
    var s := "0" + t;
    assert AllDigits(s) by {
      forall i | 0 <= i < |s|
        ensures IsDigit(s[i])
      {
        if i > 0 {
          assert s[i] == t[i - 1];
        }
      }
    }
    if t == [] {
      assert s[..|s| - 1] == [];
    } else {
      LeadingZeroValue(t[..|t| - 1]);
      assert s[..|s| - 1] == "0" + t[..|t| - 1];
    }
  }

  /** How many decimal digits `n` has. */
  lemma {:induction false} DigitsLength(n: nat)
    ensures n < 10 ==> |Digits(n)| == 1
    ensures 10 <= n < 100 ==> |Digits(n)| == 2
    ensures 100 <= n < 1000 ==> |Digits(n)| == 3
    ensures 1000 <= n ==> |Digits(n)| >= 4
  {
    if n >= 10 {
      DigitsLength(n / 10);
    }
  }

  // ---------------------------------------------------------------------------
  // indexOf
  // ---------------------------------------------------------------------------

  /** `part` occurs in `s` starting at position `k`. */
  predicate OccursAt<T(==)>(s: seq<T>, part: seq<T>, k: int)
  {
    0 <= k && k + |part| <= |s| && s[k..k + |part|] == part
  }

  /** The first position at or after `from` where `part` occurs in `s`, or -1. */
  function IndexFrom<T(==)>(s: seq<T>, part: seq<T>, from: nat): (r: int)
    ensures r == -1 || (from <= r && OccursAt(s, part, r))
    ensures r == -1 ==> forall k :: from <= k ==> !OccursAt(s, part, k)
    ensures r != -1 ==> forall k :: from <= k < r ==> !OccursAt(s, part, k)
    decreases |s| - from
  {
    if from + |part| > |s| then -1
    else if s[from..from + |part|] == part then from
    else IndexFrom(s, part, from + 1)
  }

  /** `s.indexOf(part)`: the first position where `part` occurs in `s`, or -1. */
  function IndexOf<T(==)>(s: seq<T>, part: seq<T>): int
  {
    IndexFrom(s, part, 0)
  }

  /** Appending bytes never moves the first occurrence of a pattern that is already there. */
  lemma IndexOfExtended<T>(s: seq<T>, t: seq<T>, part: seq<T>)
    requires IndexOf(s, part) != -1
    ensures IndexOf(s + t, part) == IndexOf(s, part)
  {
    var r := IndexOf(s, part);
    assert OccursAt(s, part, r);
    assert (s + t)[r..r + |part|] == s[r..r + |part|];
    assert OccursAt(s + t, part, r);
    forall k | 0 <= k < r
      ensures !OccursAt(s + t, part, k)
    {
      assert !OccursAt(s, part, k);
      assert (s + t)[k..k + |part|] == s[k..k + |part|];
    }
  }

  /** A part found inside `b` is found in `a + b + c`, shifted by `|a|`. */
  lemma OccursInside<T>(a: seq<T>, b: seq<T>, c: seq<T>, part: seq<T>, k: int)
    requires OccursAt(b, part, k)
    ensures OccursAt(a + b + c, part, |a| + k)
  {
    assert (a + b + c)[|a| + k..|a| + k + |part|] == b[k..k + |part|];
  }

  predicate StartsWith<T(==)>(s: seq<T>, prefix: seq<T>)
  {
    |prefix| <= |s| && s[..|prefix|] == prefix
  }

  predicate EndsWith<T(==)>(s: seq<T>, suffix: seq<T>)
  {
    |suffix| <= |s| && s[|s| - |suffix|..] == suffix
  }
}
