/**
  A table cell and the three per-cell helpers of the dashboard: `str_to_int`,
  `float_to_str` and `code_to_country`. A cell is either missing (pandas' NaN),
  an integer, or a string that no coercion turned into a number. The two kinds
  of failure stay apart: `dropna` removes a `Missing` cell and keeps a `StrVal`.
 */
module Cells {
  import opened Wrappers
  import opened PyText

  datatype Cell = Missing | IntVal(i: int) | StrVal(s: string)

  /** `str_to_int`: strips the thousands separators of a string; a string
      holding a '-' (the data's placeholder for "no amount") becomes 0; a
      string `int` accepts becomes that integer; any other string comes back
      without its commas. A cell that is not a string has no `replace`, and the
      `AttributeError` handler returns it unchanged. */
  function StrToInt(c: Cell): (r: Cell)
    ensures !c.StrVal? ==> r == c
    ensures c.StrVal? && '-' in c.s ==> r == IntVal(0)
    ensures c.StrVal? && r.IntVal? ==> r.i >= 0
    ensures c.StrVal? ==> r.IntVal? || r == StrVal(RemoveCommas(c.s))
    ensures r.StrVal? ==> ',' !in r.s && '-' !in r.s && ParseInt(r.s) == None
    ensures c.StrVal? && '-' !in c.s && ParseInt(RemoveCommas(c.s)).Some? ==>
              r == IntVal(ParseInt(RemoveCommas(c.s)).value)
    ensures c.StrVal? && '-' !in c.s && ParseInt(RemoveCommas(c.s)).None? ==>
              r == StrVal(RemoveCommas(c.s))
  {
    match c
    case StrVal(s) =>
      var t := RemoveCommas(s);
      if '-' in t then IntVal(0)
      else
        (match ParseInt(t)
         case Some(v) => IntVal(v)
         case None => StrVal(t))
    case _ => c
  }

  /** Applying `str_to_int` to its own result changes nothing. */
  lemma StrToIntIdempotent(c: Cell)
    ensures StrToInt(StrToInt(c)) == StrToInt(c)
  {
  }

  /** A comma-grouped amount, with white space around it as the data file
      has it (" 1,750,000 "), is read as its integer, wherever the commas
      stand. */
  lemma StrToIntReadsAmount(s: string, w1: string, n: nat, w2: string)
    requires AllSpace(w1) && AllSpace(w2)
    requires RemoveCommas(s) == w1 + NatDigits(n) + w2
    ensures StrToInt(StrVal(s)) == IntVal(n)
  {
    NoSignInPadded(w1, NatDigits(n), w2);
    ParsePaddedDigits(w1, n, w2);
  }

  /** White space and digits hold no '-'. */
  lemma NoSignInPadded(w1: string, d: string, w2: string)
    requires AllSpace(w1) && AllSpace(w2)
    requires forall i :: 0 <= i < |d| ==> IsDigit(d[i])
    ensures '-' !in w1 + d + w2
  {
    var t := w1 + d + w2;
    forall i | 0 <= i < |t|
      ensures t[i] != '-'
    {
      if i < |w1| {
        assert t[i] == w1[i] && IsSpace(w1[i]);
      } else if i < |w1| + |d| {
        assert t[i] == d[i - |w1|] && IsDigit(d[i - |w1|]);
      } else {
        assert t[i] == w2[i - |w1| - |d|] && IsSpace(w2[i - |w1| - |d|]);
      }
    }
  }

  /** `float_to_str`: renders an integral value as its decimal string. A
      string that `int` accepts is rendered the same way; any other string,
      and NaN (whose conversion raises `ValueError`), come back unchanged. */
  function FloatToStr(c: Cell): (r: Cell)
    ensures r.Missing? <==> c.Missing?
    ensures !r.IntVal?
    ensures c.IntVal? ==> r == StrVal(Decimal(c.i)) && ParseInt(r.s) == Some(c.i)
    ensures c.StrVal? && ParseInt(c.s).Some? ==>
              r == StrVal(Decimal(ParseInt(c.s).value)) && ParseInt(r.s) == ParseInt(c.s)
    ensures c.StrVal? && ParseInt(c.s).None? ==> r == c
  {
    match c
    case IntVal(n) =>
      DecimalRoundTrip(n);
      StrVal(Decimal(n))
    case StrVal(s) =>
      (match ParseInt(s)
       case Some(v) =>
         DecimalRoundTrip(v);
         StrVal(Decimal(v))
       case None => c)
    case Missing => c
  }

  /** Applying `float_to_str` to its own result changes nothing. */
  lemma FloatToStrIdempotent(c: Cell)
    ensures FloatToStr(FloatToStr(c)) == FloatToStr(c)
  {
    match c
    case IntVal(n) =>
      DecimalRoundTrip(n);
    case StrVal(s) =>
      if ParseInt(s).Some? {
        DecimalRoundTrip(ParseInt(s).value);
      }
    case Missing =>
  }

  /** The code that `code_to_country` looks up: the retired ISO 3166-1
      alpha-3 code of Romania, "ROM", stands for its current code "ROU". */
  function LookupCode(code: string): string {
    if code == "ROM" then "ROU" else code
  }

  /** `code_to_country`: the country name of an alpha-3 code. `countries`
      stands for the country table of the `pycountry` library; a code the
      table does not know makes the source fail on `None.name`. */
  function CodeToCountry(code: string, countries: map<string, string>): (name: string)
    requires LookupCode(code) in countries
    ensures code == "ROM" ==> name == countries["ROU"]
    ensures code != "ROM" ==> name == countries[code]
  {
    countries[LookupCode(code)]
  }

  /** The retired and the current code of Romania name the same country. */
  lemma RomIsRou(countries: map<string, string>)
    requires "ROU" in countries
    ensures CodeToCountry("ROM", countries) == CodeToCountry("ROU", countries)
  {
  }

  /** A `country_code` cell that `code_to_country` can handle: a string
      whose looked-up code is in the table. */
  predicate KnownCode(c: Cell, countries: map<string, string>) {
    c.StrVal? && LookupCode(c.s) in countries
  }
}
