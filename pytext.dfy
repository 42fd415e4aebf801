/**
  The Python string operations the coercion helpers rely on: `str.replace(',', '')`,
  `int(str)` in base 10, `str(int)` and the ordering `sorted` uses on strings.
  Only the ASCII part of `int`'s grammar is modelled: the white space `int`
  strips is tab, line feed, vertical tab, form feed, carriage return and
  space, and digits are '0'..'9'.
 */
module PyText {
  import opened Wrappers
  import opened Sequences

  predicate IsSpace(c: char) {
    c == ' ' || '\t' <= c <= '\r'
  }

  predicate IsDigit(c: char) {
    '0' <= c <= '9'
  }

  predicate AllSpace(s: string) {
    forall i :: 0 <= i < |s| ==> IsSpace(s[i])
  }

  /** `s.replace(',', '')`: every comma is gone and nothing else changes. */
  function RemoveCommas(s: string): (t: string)
    ensures ',' !in t
    ensures forall c :: c != ',' ==> (c in t <==> c in s)
    ensures ',' !in s ==> t == s
  {
    if s == [] then []
    else
      var n := |s| - 1;
      assert s == s[..n] + [s[n]];
      RemoveCommas(s[..n]) + (if s[n] == ',' then [] else [s[n]])
  }

  /** Removing the commas of a concatenation removes those of each part. */
  lemma {:induction false} RemoveCommasConcat(a: string, b: string)
    ensures RemoveCommas(a + b) == RemoveCommas(a) + RemoveCommas(b)
  {
    if b == [] {
      assert a + b == a;
    } else {
      var n := |b| - 1;
      assert b == b[..n] + [b[n]];
      assert a + b == (a + b[..n]) + [b[n]];
      RemoveCommasSnoc(a + b[..n], b[n]);
      RemoveCommasSnoc(b[..n], b[n]);
      RemoveCommasConcat(a, b[..n]);
    }
  }

  /** Appending one character appends it again unless it is a comma. */
  lemma RemoveCommasSnoc(s: string, c: char)
    ensures RemoveCommas(s + [c]) == RemoveCommas(s) + (if c == ',' then [] else [c])
  {
    assert (s + [c])[..|s|] == s;
  }

  /** A single character is dropped exactly when it is a comma. */
  lemma RemoveCommasChar(c: char)
    ensures RemoveCommas([c]) == if c == ',' then [] else [c]
  {
  }

  /** `s.lstrip()`: the longest suffix of `s` that does not start with white space. */
  function TrimStart(s: string): (t: string)
    ensures |t| <= |s| && t == s[|s| - |t|..]
    ensures AllSpace(s[..|s| - |t|])
    ensures t == [] || !IsSpace(t[0])
  {
    if s != [] && IsSpace(s[0]) then
      var t := TrimStart(s[1..]);
      TrimStartStep(s, t);
      t
    else
      s
  }

  /** The recursive step of `TrimStart`: a suffix of `s[1..]` behind white
      space is a suffix of `s` behind white space. */
  lemma TrimStartStep(s: string, t: string)
    requires s != [] && IsSpace(s[0])
    requires |t| <= |s| - 1 && t == s[1..][|s| - 1 - |t|..]
    requires AllSpace(s[1..][..|s| - 1 - |t|])
    ensures t == s[|s| - |t|..]
    ensures AllSpace(s[..|s| - |t|])
  {
    var n := |s| - |t|;
    forall i | 0 < i < n
      ensures IsSpace(s[i])
    {
      assert s[i] == s[1..][..n - 1][i - 1];
    }
  }

  /** `s.rstrip()`: the longest prefix of `s` that does not end with white space. */
  function TrimEnd(s: string): (t: string)
    ensures |t| <= |s| && t == s[..|t|]
    ensures AllSpace(s[|t|..])
    ensures t == [] || !IsSpace(t[|t| - 1])
  {
    if s != [] && IsSpace(s[|s| - 1]) then
      var t := TrimEnd(s[..|s| - 1]);
      TrimEndStep(s, t);
      t
    else
      assert s[|s|..] == [];
      s
  }

  /** The recursive step of `TrimEnd`: a prefix of `s` without its last
      character, followed there by white space, is a prefix of `s` followed
      by white space. */
  lemma TrimEndStep(s: string, t: string)
    requires s != [] && IsSpace(s[|s| - 1])
    requires |t| <= |s| - 1 && t == s[..|s| - 1][..|t|]
    requires AllSpace(s[..|s| - 1][|t|..])
    ensures t == s[..|t|]
    ensures AllSpace(s[|t|..])
  {
    forall i | |t| <= i < |s|
      ensures IsSpace(s[i])
    {
      if i < |s| - 1 {
        assert s[i] == s[..|s| - 1][|t|..][i - |t|];
      }
    }
  }

  function Strip(s: string): string {
    TrimEnd(TrimStart(s))
  }

  /** Python's digit grammar for base 10: digits, with single underscores
      allowed between two digits. */
  predicate ValidDigits(d: string) {
    && |d| > 0
    && IsDigit(d[0])
    && IsDigit(d[|d| - 1])
    && (forall i :: 0 <= i < |d| ==> IsDigit(d[i]) || d[i] == '_')
    && (forall i :: 0 <= i < |d| - 1 ==> d[i] == '_' ==> d[i + 1] != '_')
  }

  /** The number the digits of `d` spell, underscores skipped. */
  function DigitsValue(d: string): nat {
    if d == [] then 0
    else
      var n := |d| - 1;
      if IsDigit(d[n]) then DigitsValue(d[..n]) * 10 + (d[n] - '0') as int
      else DigitsValue(d[..n])
  }

  /** `int(s)`: `None` stands for the `ValueError` Python raises. */
  function ParseInt(s: string): (r: Option<int>)
    ensures r.Some? && r.value < 0 ==> '-' in s
    ensures AllSpace(s) ==> r == None
  {
    var t := Strip(s);
    if t != [] then
      assert t[0] in s by {
        assert t[0] == s[|s| - |TrimStart(s)|];
      }
      ParseStripped(t)
    else
      ParseStripped(t)
  }

  /** `int` on what is left once the white space around it is stripped: an
      optional sign, then digits. */
  function ParseStripped(t: string): (r: Option<int>)
    ensures r.Some? && r.value < 0 ==> t != [] && t[0] == '-'
    ensures t == [] ==> r == None
  {
    if |t| > 0 && (t[0] == '+' || t[0] == '-') then
      if ValidDigits(t[1..]) then
        var v: int := DigitsValue(t[1..]);
        Some(if t[0] == '-' then -v else v)
      else None
    else if ValidDigits(t) then Some(DigitsValue(t))
    else None
  }

  function DigitChar(d: nat): (c: char)
    requires d < 10
    ensures IsDigit(c)
  {
    '0' + d as char
  }

  /** The decimal digits of `n`, most significant first, without leading zeros. */
  function NatDigits(n: nat): (d: string)
    ensures |d| > 0
    ensures forall i :: 0 <= i < |d| ==> IsDigit(d[i])
    ensures d[0] == '0' <==> n == 0
    ensures n == 0 ==> d == "0"
  {
    if n < 10 then [DigitChar(n)] else NatDigits(n / 10) + [DigitChar(n % 10)]
  }

  /** `str(n)`: the canonical decimal string, a '-' for a negative number
      and then digits, the first of them '0' only for 0 itself. */
  function Decimal(n: int): (s: string)
    ensures |s| > 0 && (s[0] == '-' <==> n < 0)
    ensures var k := if n < 0 then 1 else 0;
      && k < |s|
      && (forall i :: k <= i < |s| ==> IsDigit(s[i]))
      && (s[k] == '0' <==> n == 0)
    ensures n == 0 ==> s == "0"
  {
    if n < 0 then "-" + NatDigits(-n) else NatDigits(n)
  }

  lemma {:induction false} NatDigitsValue(n: nat)
    ensures ValidDigits(NatDigits(n))
    ensures DigitsValue(NatDigits(n)) == n
  {
    var d := NatDigits(n);
    if n >= 10 {
      NatDigitsValue(n / 10);
      assert d[..|d| - 1] == NatDigits(n / 10);
    }
  }

  /** A string without white space at either end is its own strip. */
  lemma StripUnpadded(s: string)
    requires s != [] && !IsSpace(s[0]) && !IsSpace(s[|s| - 1])
    ensures Strip(s) == s
  {
  }

  /** Padding with white space on either side does not change the strip of
      a string that has none at its ends. */
  lemma {:induction false} StripPadded(w1: string, s: string, w2: string)
    requires AllSpace(w1) && AllSpace(w2)
    requires s != [] && !IsSpace(s[0]) && !IsSpace(s[|s| - 1])
    ensures Strip(w1 + s + w2) == s
  {
    assert w1 + s + w2 == w1 + (s + w2);
    TrimStartPadded(w1, s + w2);
    TrimEndPadded(s, w2);
  }

  lemma {:induction false} TrimStartPadded(w: string, s: string)
    requires AllSpace(w)
    requires s != [] && !IsSpace(s[0])
    ensures TrimStart(w + s) == s
  {
    if w != [] {
      assert (w + s)[1..] == w[1..] + s;
      TrimStartPadded(w[1..], s);
    }
  }

  lemma {:induction false} TrimEndPadded(s: string, w: string)
    requires AllSpace(w)
    requires s != [] && !IsSpace(s[|s| - 1])
    ensures TrimEnd(s + w) == s
  {
    if w != [] {
      var n := |w| - 1;
      assert (s + w)[..|s + w| - 1] == s + w[..n];
      TrimEndPadded(s, w[..n]);
    } else {
      assert s + w == s;
    }
  }

  /** `int` reads an unsigned digit string that has nothing around it. */
  lemma ParseBareDigits(n: nat)
    ensures ParseInt(NatDigits(n)) == Some(n)
  {
    var d := NatDigits(n);
    NatDigitsValue(n);
    StripUnpadded(d);
    assert Strip(d) == d;
    assert IsDigit(d[0]);
    assert !(d[0] == '+' || d[0] == '-');
  }

  /** `int(str(n)) == n` for every integer. */
  lemma DecimalRoundTrip(n: int)
    ensures ParseInt(Decimal(n)) == Some(n)
  {
    if n < 0 {
      var d := NatDigits(-n);
      NatDigitsValue(-n);
      var s := "-" + d;
      assert s[1..] == d;
      StripUnpadded(s);
    } else {
      ParseBareDigits(n);
    }
  }

  /** `int` reads a non-negative amount written with white space around it. */
  lemma ParsePaddedDigits(w1: string, n: nat, w2: string)
    requires AllSpace(w1) && AllSpace(w2)
    ensures ParseInt(w1 + NatDigits(n) + w2) == Some(n)
  {
    var d := NatDigits(n);
    assert IsDigit(d[0]) && IsDigit(d[|d| - 1]);
    StripPadded(w1, d, w2);
    StripUnpadded(d);
    ParseBareDigits(n);
  }

  /** `int` of an optional sign and a digit string (leading zeros and single
      underscores allowed) padded with white space reads the signed value. */
  lemma ParsePaddedValidDigits(w1: string, sign: string, d: string, w2: string)
    requires AllSpace(w1) && AllSpace(w2) && ValidDigits(d)
    requires sign == "" || sign == "+" || sign == "-"
    ensures ParseInt(w1 + sign + d + w2)
      == Some(if sign == "-" then -(DigitsValue(d) as int) else DigitsValue(d) as int)
  {
    var t := sign + d;
    assert t[|t| - 1] == d[|d| - 1];
    assert w1 + sign + d + w2 == w1 + t + w2;
    StripPadded(w1, t, w2);
    ParseSignedDigits(sign, d);
  }

  lemma ParseSignedDigits(sign: string, d: string)
    requires ValidDigits(d)
    requires sign == "" || sign == "+" || sign == "-"
    ensures ParseStripped(sign + d)
      == Some(if sign == "-" then -(DigitsValue(d) as int) else DigitsValue(d) as int)
  {
    if sign != "" {
      ParseSignThenDigits(sign[0], d);
      assert sign + d == [sign[0]] + d;
    } else {
      assert sign + d == d && IsDigit(d[0]);
    }
  }

  lemma ParseSignThenDigits(c: char, d: string)
    requires ValidDigits(d) && (c == '+' || c == '-')
    ensures ParseStripped([c] + d)
      == Some(if c == '-' then -(DigitsValue(d) as int) else DigitsValue(d) as int)
  {
    assert ([c] + d)[1..] == d;
  }

  /** Python's `<` on strings: code point by code point, a proper prefix first. */
  predicate LexLess(a: string, b: string) {
    if a == [] then b != []
    else if b == [] then false
    else if a[0] != b[0] then a[0] < b[0]
    else LexLess(a[1..], b[1..])
  }

  lemma {:induction false} LexLessIrreflexive(a: string)
    ensures !LexLess(a, a)
  {
    if a != [] {
      LexLessIrreflexive(a[1..]);
    }
  }

  lemma {:induction false} LexLessTransitive(a: string, b: string, c: string)
    requires LexLess(a, b) && LexLess(b, c)
    ensures LexLess(a, c)
  {
    if a != [] && a[0] == b[0] && b[0] == c[0] {
      LexLessTransitive(a[1..], b[1..], c[1..]);
    }
  }

  lemma {:induction false} LexLessTotal(a: string, b: string)
    requires a != b
    ensures LexLess(a, b) || LexLess(b, a)
  {
    if a != [] && b != [] && a[0] == b[0] {
      assert a == [a[0]] + a[1..] && b == [b[0]] + b[1..];
      LexLessTotal(a[1..], b[1..]);
    }
  }

  /** Strictly ascending in Python's string order. */
  predicate Ascending(s: seq<string>) {
    forall i, j :: 0 <= i < j < |s| ==> LexLess(s[i], s[j])
  }

  /** `x` placed into an ascending sequence that lacks it. */
  function Insert(x: string, s: seq<string>): (r: seq<string>)
    requires Ascending(s) && x !in s
    ensures Ascending(r)
    ensures |r| == |s| + 1
    ensures forall y :: y in r <==> y == x || y in s
  {
    if s == [] then [x]
    else if LexLess(x, s[0]) then
      forall j | 0 <= j < |s|
        ensures LexLess(x, s[j])
      {
        if j > 0 {
          LexLessTransitive(x, s[0], s[j]);
        }
      }
      [x] + s
    else
      LexLessTotal(x, s[0]);
      var rest := Insert(x, s[1..]);
      forall j | 0 <= j < |rest|
        ensures LexLess(s[0], rest[j])
      {
        assert rest[j] in rest;
        if rest[j] != x {
          var k :| 0 <= k < |s[1..]| && s[1..][k] == rest[j];
          assert s[k + 1] == rest[j];
        }
      }
      [s[0]] + rest
  }

  /** `sorted` on distinct strings. */
  function Sorted(s: seq<string>): (r: seq<string>)
    requires NoDuplicates(s)
    ensures Ascending(r)
    ensures |r| == |s|
    ensures forall y :: y in r <==> y in s
  {
    if s == [] then []
    else
      var rest := Sorted(s[1..]);
      assert s[0] !in s[1..];
      Insert(s[0], rest)
  }
}
