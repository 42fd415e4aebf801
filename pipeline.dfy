/**
  `pre_process`: the cleaning pipeline that turns the loaded startup table
  into the table every chart reads. It renames the two padded column labels,
  drops the state and link columns, coerces the funding amounts and the
  founding years, keeps the rows with a non-zero amount and no missing cell,
  drops exact duplicates, and replaces the country code by the country name.

  The output is described row by row in terms of the loaded table: the rows
  that survive are the "first survivors" (`FirstSurvivor`), in their original
  order and with their index labels, each coerced (`CoercedRow`) and given
  its country (`CleanRow`).
 */
module Pipeline {
  import opened Wrappers
  import opened Sequences
  import opened PyText
  import opened Cells
  import opened Frames

  const FundingTotal := "funding_total_usd"
  const PaddedFunding := " funding_total_usd "
  const Market := "market"
  const PaddedMarket := " market "
  const StateCode := "state_code"
  const Permalink := "permalink"
  const HomepageUrl := "homepage_url"
  const CategoryList := "category_list"
  const FoundedYear := "founded_year"
  const CountryCode := "country_code"
  const Country := "country"

  const LinkColumns := {Permalink, HomepageUrl, CategoryList}

  /** The labels that never reach the cleaned table. */
  const Removed := {PaddedFunding, PaddedMarket, StateCode, Permalink, HomepageUrl, CategoryList}

  /** What the source does when `pycountry` has no country for a code: it
      fails on `None.name`. */
  datatype PipelineError = UnknownCountryCode

  /** The columns `pre_process` needs. `drop` and the column reads raise
      `KeyError` without them; the funding amounts must sit under exactly one
      of the two spellings, and the market column under at most one. */
  predicate LoadableColumns(cols: set<string>) {
    && (FundingTotal in cols <==> PaddedFunding !in cols)
    && !(Market in cols && PaddedMarket in cols)
    && StateCode in cols && Permalink in cols && HomepageUrl in cols && CategoryList in cols
    && FoundedYear in cols && CountryCode in cols
  }

  predicate Loadable(raw: Frame) {
    WellFormed(raw) && LoadableColumns(raw.columns)
  }

  /** The funding cell of a loaded row, under whichever spelling it has. */
  function RawFunding(r: Row): Cell
    requires LoadableColumns(r.Keys)
  {
    if PaddedFunding in r then r[PaddedFunding] else r[FundingTotal]
  }

  lemma DistinctNames()
    ensures FundingTotal != PaddedFunding && FundingTotal != Market && FundingTotal != PaddedMarket
    ensures Market != PaddedFunding && Market != PaddedMarket
    ensures FundingTotal !in Removed && Market !in Removed && FoundedYear !in Removed && CountryCode !in Removed
    ensures FoundedYear != FundingTotal && FoundedYear != Market && CountryCode != FundingTotal
    ensures CountryCode != Market && CountryCode != FoundedYear && Country != CountryCode
    ensures Country != FundingTotal && Country != Market && Country != FoundedYear && Country !in Removed
  {
  }

  /** The columns of the table after the renames and the column drops,
      given the columns `keys` of the loaded table. */
  function CoercedColumns(keys: set<string>): set<string> {
    (keys + {FundingTotal} + (if PaddedMarket in keys then {Market} else {})) - Removed
  }

  /** One loaded row after the two renames of app.py:52. */
  function RenamedRow(r: Row): (c: Row)
    requires LoadableColumns(r.Keys)
    ensures c.Keys == r.Keys - {PaddedFunding, PaddedMarket} + {FundingTotal} + (if PaddedMarket in r then {Market} else {})
    ensures c[FundingTotal] == RawFunding(r)
    ensures PaddedMarket in r ==> c[Market] == r[PaddedMarket]
    ensures forall k :: k in r && k != PaddedFunding && k != PaddedMarket && k != FundingTotal ==> c[k] == r[k]
  {
    DistinctNames();
    RenameKey(RenameKey(r, PaddedFunding, FundingTotal), PaddedMarket, Market)
  }

  /** One loaded row after the renames and the column drops of app.py:52-54. */
  function DroppedRow(r: Row): (c: Row)
    requires LoadableColumns(r.Keys)
    ensures c.Keys == CoercedColumns(r.Keys)
    ensures forall k :: k in c ==> c[k] == RenamedRow(r)[k]
  {
    DistinctNames();
    RenamedRow(r) - {StateCode} - LinkColumns
  }

  /** One loaded row as `pre_process` has it after the renames (app.py:52),
      the column drops (app.py:53-54) and the two coercions (app.py:55-56):
      the removed columns are gone, the market column has its plain label,
      the amount is read by `str_to_int` and the year rendered by
      `float_to_str`; every other cell is as loaded. */
  function CoercedRow(r: Row): (c: Row)
    requires LoadableColumns(r.Keys)
    ensures FundingTotal in c && FoundedYear in c && CountryCode in c
    ensures c.Keys == CoercedColumns(r.Keys)
    ensures c[FundingTotal] == StrToInt(RawFunding(r))
    ensures c[FoundedYear] == FloatToStr(r[FoundedYear])
    ensures c[CountryCode] == r[CountryCode]
    ensures PaddedMarket in r ==> c[Market] == r[PaddedMarket]
    ensures forall k :: k in c && k != FundingTotal && k != FoundedYear && k != Market ==> k in r && c[k] == r[k]
    ensures Market in r ==> c[Market] == r[Market]
  {
    WithCells(r, StrToInt(RawFunding(r)), FloatToStr(r[FoundedYear]))
  }

  /** The dropped row with the amount and the year replaced by `amount` and
      `year`. */
  function WithCells(r: Row, amount: Cell, year: Cell): (c: Row)
    requires LoadableColumns(r.Keys)
    ensures FundingTotal in c && FoundedYear in c && CountryCode in c
    ensures c.Keys == CoercedColumns(r.Keys)
    ensures c[FundingTotal] == amount && c[FoundedYear] == year
    ensures c[CountryCode] == r[CountryCode]
    ensures PaddedMarket in r ==> c[Market] == r[PaddedMarket]
    ensures forall k :: k in c && k != FundingTotal && k != FoundedYear && k != Market ==> k in r && c[k] == r[k]
    ensures Market in r ==> c[Market] == r[Market]
  {
    DistinctNames();
    DroppedRow(r)[FundingTotal := amount][FoundedYear := year]
  }

  /** The table after the renames of app.py:52. */
  function RenameFrame(raw: Frame): (t: Frame)
    requires Loadable(raw)
    ensures WellFormed(t) && t.index == raw.index && |t.rows| == |raw.rows|
    ensures PaddedFunding !in t.columns && PaddedMarket !in t.columns && FundingTotal in t.columns
    ensures t.columns - Removed == CoercedColumns(raw.columns)
    ensures forall i :: 0 <= i < |t.rows| ==> t.rows[i] == RenamedRow(raw.rows[i])
  {
    DistinctNames();
    Rename(Rename(raw, PaddedFunding, FundingTotal), PaddedMarket, Market)
  }

  /** The table after the column drops of app.py:53-54. */
  function DropFrame(raw: Frame): (t: Frame)
    requires Loadable(raw)
    ensures WellFormed(t) && t.index == raw.index && |t.rows| == |raw.rows|
    ensures t.columns == CoercedColumns(raw.columns)
    ensures forall i :: 0 <= i < |t.rows| ==> t.rows[i] == DroppedRow(raw.rows[i])
  {
    DistinctNames();
    DropColumns(DropColumns(RenameFrame(raw), {StateCode}), LinkColumns)
  }

  /** The table after the coercions of app.py:55-56. */
  function Coerce(raw: Frame): (t: Frame)
    requires Loadable(raw)
    ensures WellFormed(t) && t.index == raw.index && |t.rows| == |raw.rows|
    ensures t.columns == CoercedColumns(raw.columns)
    ensures forall i :: 0 <= i < |t.rows| ==> t.rows[i] == CoercedRow(raw.rows[i])
  {
    DistinctNames();
    ApplyColumn(ApplyColumn(DropFrame(raw), FundingTotal, StrToInt), FoundedYear, FloatToStr)
  }

  /** A loaded row whose coerced amount is not 0 and whose coerced form has
      no missing cell: it passes the filters of app.py:57-58. */
  predicate Kept(raw: Frame, p: int)
    requires Loadable(raw) && 0 <= p < |raw.rows|
  {
    KeptRow(CoercedRow(raw.rows[p]), FundingTotal, IntVal(0))
  }

  /** A kept row that no earlier kept row equals after coercion: what
      `drop_duplicates` leaves (app.py:59). */
  predicate FirstSurvivor(raw: Frame, p: int)
    requires Loadable(raw) && 0 <= p < |raw.rows|
  {
    FirstKeptMask(Coerce(raw), FundingTotal, IntVal(0))[p]
  }

  /** The positions, in the loaded table, of the rows `pre_process` returns. */
  function Survivors(raw: Frame): (ps: seq<nat>)
    requires Loadable(raw)
    ensures StrictlyIncreasing(ps)
    ensures forall k :: 0 <= k < |ps| ==> ps[k] < |raw.rows|
  {
    Positions(FirstKeptMask(Coerce(raw), FundingTotal, IntVal(0)))
  }

  /** The survivors are exactly the first survivors. */
  lemma SurvivorsAreFirstSurvivors(raw: Frame)
    requires Loadable(raw)
    ensures forall k :: 0 <= k < |Survivors(raw)| ==> FirstSurvivor(raw, Survivors(raw)[k])
    ensures forall p :: 0 <= p < |raw.rows| && FirstSurvivor(raw, p) ==> p in Survivors(raw)
  {
  }

  /** A first survivor is a kept row that no earlier kept row equals. */
  lemma FirstSurvivorMeaning(raw: Frame, p: nat)
    requires Loadable(raw) && p < |raw.rows|
    ensures FirstSurvivor(raw, p) <==>
              && Kept(raw, p)
              && forall q :: 0 <= q < p && Kept(raw, q) ==> CoercedRow(raw.rows[q]) != CoercedRow(raw.rows[p])
  {
    forall q | 0 <= q <= p
      ensures Coerce(raw).rows[q] == CoercedRow(raw.rows[q])
      ensures KeptMask(Coerce(raw), FundingTotal, IntVal(0))[q] == Kept(raw, q)
    {
      CoercedAt(raw, q);
    }
  }

  /** Row `q` of the coerced table, and whether the two filters keep it. */
  lemma CoercedAt(raw: Frame, q: nat)
    requires Loadable(raw) && q < |raw.rows|
    ensures Coerce(raw).rows[q] == CoercedRow(raw.rows[q])
    ensures KeptMask(Coerce(raw), FundingTotal, IntVal(0))[q] == Kept(raw, q)
  {
  }

  /** The country name of a coerced row's code (app.py:60). */
  function CountryOf(c: Row, countries: map<string, string>): Cell
    requires CountryCode in c && KnownCode(c[CountryCode], countries)
  {
    StrVal(CodeToCountry(c[CountryCode].s, countries))
  }

  /** A coerced row after `country` is derived from `country_code` and
      `country_code` is dropped (app.py:60-61). */
  function CleanRow(c: Row, countries: map<string, string>): (out: Row)
    requires CountryCode in c && KnownCode(c[CountryCode], countries)
    ensures out.Keys == c.Keys + {Country} - {CountryCode}
    ensures out[Country] == CountryOf(c, countries)
    ensures forall k :: k in c && k != Country && k != CountryCode ==> out[k] == c[k]
  {
    c[Country := CountryOf(c, countries)] - {CountryCode}
  }

  /** The columns of the cleaned table. */
  function CleanColumns(raw: Frame): set<string> {
    CoercedColumns(raw.columns) + {Country} - {CountryCode}
  }

  /** Every row of `t` has a country code the country table knows. */
  predicate CodesKnown(t: Frame, countries: map<string, string>)
    requires WellFormed(t) && CountryCode in t.columns
  {
    forall k :: 0 <= k < |t.rows| ==> KnownCode(t.rows[k][CountryCode], countries)
  }

  /** The `country` column of a table all of whose codes are known. */
  function CountryColumn(t: Frame, countries: map<string, string>): (names: seq<Cell>)
    requires WellFormed(t) && CountryCode in t.columns && CodesKnown(t, countries)
    ensures |names| == |t.rows|
  {
    seq(|t.rows|, k requires 0 <= k < |t.rows| => CountryOf(t.rows[k], countries))
  }

  /** Every first survivor has a country code the country table knows. */
  predicate AllCodesKnown(raw: Frame, countries: map<string, string>)
    requires Loadable(raw)
  {
    var sp := Survivors(raw);
    forall k :: 0 <= k < |sp| ==> KnownCode(CoercedRow(raw.rows[sp[k]])[CountryCode], countries)
  }

  /** The table after the filters of app.py:57-59. */
  function Filtered(raw: Frame): (t: Frame)
    requires Loadable(raw)
    ensures WellFormed(t) && t.columns == Coerce(raw).columns
    ensures CountryCode in t.columns
    ensures Selected(t, Coerce(raw), Survivors(raw))
  {
    DistinctNames();
    FilterRowsSelected(Coerce(raw), FundingTotal, IntVal(0));
    FilterRows(Coerce(raw), FundingTotal, IntVal(0))
  }

  /** Row `k` of the filtered table is the coerced form of the `k`-th first
      survivor. */
  lemma FilteredRow(raw: Frame, k: nat)
    requires Loadable(raw) && k < |Filtered(raw).rows|
    ensures |Filtered(raw).rows| == |Survivors(raw)|
    ensures Survivors(raw)[k] < |raw.rows|
    ensures Filtered(raw).rows[k] == CoercedRow(raw.rows[Survivors(raw)[k]])
    ensures Filtered(raw).index[k] == raw.index[Survivors(raw)[k]]
  {
  }

  /** A row of the filtered table has an unknown code exactly when some
      first survivor has one. */
  lemma UnknownCodeStage(raw: Frame, countries: map<string, string>)
    requires Loadable(raw)
    ensures CodesKnown(Filtered(raw), countries) <==> AllCodesKnown(raw, countries)
  {
    if CodesKnown(Filtered(raw), countries) {
      FilteredCodesKnown(raw, countries);
    }
    if AllCodesKnown(raw, countries) {
      SurvivorCodesKnown(raw, countries);
    }
  }

  lemma FilteredCodesKnown(raw: Frame, countries: map<string, string>)
    requires Loadable(raw)
    requires CodesKnown(Filtered(raw), countries)
    ensures AllCodesKnown(raw, countries)
  {
    var sp := Survivors(raw);
    forall k | 0 <= k < |sp|
      ensures KnownCode(CoercedRow(raw.rows[sp[k]])[CountryCode], countries)
    {
      FilteredRow(raw, k);
    }
  }

  lemma SurvivorCodesKnown(raw: Frame, countries: map<string, string>)
    requires Loadable(raw) && AllCodesKnown(raw, countries)
    ensures CodesKnown(Filtered(raw), countries)
  {
    var f := Filtered(raw);
    forall k | 0 <= k < |f.rows|
      ensures KnownCode(f.rows[k][CountryCode], countries)
    {
      FilteredRow(raw, k);
    }
  }

  /** The table after app.py:60-61: the filtered rows, each with its country
      name and without its country code. */
  function Localize(raw: Frame, countries: map<string, string>): (t: Frame)
    requires Loadable(raw) && AllCodesKnown(raw, countries)
    ensures WellFormed(t) && t.columns == CleanColumns(raw)
    ensures t.index == Filtered(raw).index && |t.rows| == |Filtered(raw).rows|
  {
    UnknownCodeStage(raw, countries);
    var f := Filtered(raw);
    DropColumns(AssignColumn(f, Country, CountryColumn(f, countries)), {CountryCode})
  }

  /** The cleaned table holds the first survivors, in order, with their index
      labels, each coerced and given its country. */
  lemma LocalizeStage(raw: Frame, countries: map<string, string>)
    requires Loadable(raw) && AllCodesKnown(raw, countries)
    ensures var t := Localize(raw, countries);
      && WellFormed(t)
      && t.columns == CleanColumns(raw)
      && |t.rows| == |Survivors(raw)|
      && forall k :: 0 <= k < |t.rows| ==>
           && t.index[k] == raw.index[Survivors(raw)[k]]
           && t.rows[k] == CleanRow(CoercedRow(raw.rows[Survivors(raw)[k]]), countries)
  {
    UnknownCodeStage(raw, countries);
    var f, sp := Filtered(raw), Survivors(raw);
    var t := Localize(raw, countries);
    forall k | 0 <= k < |t.rows|
      ensures t.rows[k] == CleanRow(CoercedRow(raw.rows[sp[k]]), countries)
    {
      assert f.rows[k] == CoercedRow(raw.rows[sp[k]]);
    }
  }

  /** The cleaning pipeline. It fails exactly when a surviving row has a
      country code the country table does not know; otherwise its rows are
      the first survivors of the loaded table, in order, with their index
      labels, each coerced and given its country. */
  method PreProcess(raw: Frame, countries: map<string, string>) returns (res: Result<Frame, PipelineError>)
    requires Loadable(raw)
    ensures !AllCodesKnown(raw, countries) ==> res == Failure(UnknownCountryCode)
    ensures AllCodesKnown(raw, countries) ==> res == Success(Localize(raw, countries))
    ensures res.Success? ==> WellFormed(res.value) && res.value.columns == CleanColumns(raw)
    ensures res.Success? ==> |res.value.rows| == |Survivors(raw)|
    ensures res.Success? ==>
              forall k :: 0 <= k < |res.value.rows| ==>
                && res.value.index[k] == raw.index[Survivors(raw)[k]]
                && res.value.rows[k] == CleanRow(CoercedRow(raw.rows[Survivors(raw)[k]]), countries)
  {
    DistinctNames();
    var df := Rename(raw, PaddedFunding, FundingTotal);
    df := Rename(df, PaddedMarket, Market);
    assert df == RenameFrame(raw);
    df := DropColumns(df, {StateCode});
    df := DropColumns(df, LinkColumns);
    assert df == DropFrame(raw);
    df := ApplyColumn(df, FundingTotal, StrToInt);
    df := ApplyColumn(df, FoundedYear, FloatToStr);
    assert df == Coerce(raw);
    df := Select(df, NotEqualMask(df, FundingTotal, IntVal(0)));
    df := DropNa(df);
    df := DropDuplicates(df);
    assert df == Filtered(raw);
    UnknownCodeStage(raw, countries);
    if !CodesKnown(df, countries) {
      return Failure(UnknownCountryCode);
    }
    df := AssignColumn(df, Country, CountryColumn(df, countries));
    df := DropColumns(df, {CountryCode});
    assert df == Localize(raw, countries);
    LocalizeStage(raw, countries);
    return Success(df);
  }

  /** No row of the cleaned table has a missing cell or a zero amount
      (app.py:57-58): what the filters promise survives the country step. */
  lemma CleanRowsComplete(raw: Frame, countries: map<string, string>, p: nat)
    requires Loadable(raw) && p < |raw.rows| && Kept(raw, p)
    requires KnownCode(CoercedRow(raw.rows[p])[CountryCode], countries)
    ensures NoMissing(CleanRow(CoercedRow(raw.rows[p]), countries))
    ensures CleanRow(CoercedRow(raw.rows[p]), countries)[FundingTotal] != IntVal(0)
  {
    DistinctNames();
    var c := CoercedRow(raw.rows[p]);
    var out := CleanRow(c, countries);
    forall k | k in out
      ensures out[k] != Missing
    {
      if k != Country {
        assert c[k] in c.Values;
      }
    }
  }

  /** A first survivor passes both filters. */
  lemma SurvivorKept(raw: Frame, k: nat)
    requires Loadable(raw) && k < |Survivors(raw)|
    ensures Survivors(raw)[k] < |raw.rows| && Kept(raw, Survivors(raw)[k])
  {
    SurvivorsAreFirstSurvivors(raw);
    FirstSurvivorMeaning(raw, Survivors(raw)[k]);
  }

  /** No two rows of the filtered table are equal (app.py:59). */
  lemma SurvivorsDistinct(raw: Frame, j: nat, k: nat)
    requires Loadable(raw) && j < k < |Survivors(raw)|
    ensures CoercedRow(raw.rows[Survivors(raw)[j]]) != CoercedRow(raw.rows[Survivors(raw)[k]])
  {
    var sp := Survivors(raw);
    SurvivorKept(raw, j);
    SurvivorsAreFirstSurvivors(raw);
    FirstSurvivorMeaning(raw, sp[k]);
  }

  /** Every row that passes the filters is represented in the filtered table
      by the first row equal to it after coercion, which stands no later
      (app.py:59 keeps the first of equal rows). */
  lemma {:induction false} KeptRowRepresented(raw: Frame, p: nat)
    requires Loadable(raw) && p < |raw.rows| && Kept(raw, p)
    ensures exists k :: 0 <= k < |Survivors(raw)| && Survivors(raw)[k] <= p &&
                        CoercedRow(raw.rows[Survivors(raw)[k]]) == CoercedRow(raw.rows[p])
  {
    FirstSurvivorMeaning(raw, p);
    if FirstSurvivor(raw, p) {
      SurvivorsAreFirstSurvivors(raw);
      var k :| 0 <= k < |Survivors(raw)| && Survivors(raw)[k] == p;
    } else {
      var q :| 0 <= q < p && Kept(raw, q) && CoercedRow(raw.rows[q]) == CoercedRow(raw.rows[p]);
      KeptRowRepresented(raw, q);
    }
  }

  /** A loaded amount holding a '-' becomes 0, so its row is filtered out
      (app.py:19-20, 57). */
  lemma DashAmountDropped(raw: Frame, p: nat)
    requires Loadable(raw) && p < |raw.rows|
    requires RawFunding(raw.rows[p]).StrVal? && '-' in RawFunding(raw.rows[p]).s
    ensures !Kept(raw, p)
  {
    var c := CoercedRow(raw.rows[p]);
    assert c[FundingTotal] == IntVal(0);
  }

  /** A missing amount stays missing and `dropna` removes its row (app.py:24-25, 58). */
  lemma MissingAmountDropped(raw: Frame, p: nat)
    requires Loadable(raw) && p < |raw.rows|
    requires RawFunding(raw.rows[p]) == Missing
    ensures !Kept(raw, p)
  {
    var c := CoercedRow(raw.rows[p]);
    assert c[FundingTotal] in c.Values;
  }

  /** An amount that `int` cannot read stays a string without its commas,
      which is neither 0 nor missing: the amount alone never filters its
      row out (app.py:21-23, 57-58). */
  lemma UnparsedAmountSurvives(raw: Frame, p: nat)
    requires Loadable(raw) && p < |raw.rows|
    requires RawFunding(raw.rows[p]).StrVal?
    requires '-' !in RawFunding(raw.rows[p]).s && ParseInt(RemoveCommas(RawFunding(raw.rows[p]).s)) == None
    ensures CoercedRow(raw.rows[p])[FundingTotal] == StrVal(RemoveCommas(RawFunding(raw.rows[p]).s))
    ensures Kept(raw, p) <==> NoMissing(CoercedRow(raw.rows[p]))
  {
  }

  /** Every row of the cleaned table has no missing cell and a non-zero
      amount. */
  lemma CleanRowsNoZero(raw: Frame, countries: map<string, string>, k: nat)
    requires Loadable(raw) && AllCodesKnown(raw, countries) && k < |Survivors(raw)|
    ensures NoMissing(CleanRow(CoercedRow(raw.rows[Survivors(raw)[k]]), countries))
    ensures CleanRow(CoercedRow(raw.rows[Survivors(raw)[k]]), countries)[FundingTotal] != IntVal(0)
  {
    SurvivorKept(raw, k);
    CleanRowsComplete(raw, countries, Survivors(raw)[k]);
  }

  /** The cleaned table has `country` and none of the dropped columns; for
      want of `state_code` it cannot be cleaned a second time (app.py:53
      would raise `KeyError`). */
  lemma CleanColumnsExclude(raw: Frame)
    requires Loadable(raw)
    ensures Country in CleanColumns(raw) && FundingTotal in CleanColumns(raw) && FoundedYear in CleanColumns(raw)
    ensures CleanColumns(raw) !! Removed + {CountryCode}
    ensures !LoadableColumns(CleanColumns(raw))
  {
    DistinctNames();
  }

  /** `drop_duplicates` runs before the country step, so two rows that
      differ only in Romania's old and new code both survive it and come
      out equal: the cleaned table can hold duplicate rows. */
  lemma RomAndRouMerge(c: Row, countries: map<string, string>)
    requires CountryCode in c && c[CountryCode] == StrVal("ROU") && "ROU" in countries
    ensures c[CountryCode := StrVal("ROM")] != c
    ensures KnownCode(c[CountryCode := StrVal("ROM")][CountryCode], countries)
    ensures CleanRow(c[CountryCode := StrVal("ROM")], countries) == CleanRow(c, countries)
  {
    var d := c[CountryCode := StrVal("ROM")];
    assert d[CountryCode] != c[CountryCode];
    RomIsRou(countries);
  }

  /** An amount read from a string is never negative, so a surviving
      integer amount is positive (app.py:19-21, 57). */
  lemma SurvivorFundingPositive(raw: Frame, k: nat)
    requires Loadable(raw) && k < |Survivors(raw)|
    requires RawFunding(raw.rows[Survivors(raw)[k]]).StrVal?
    ensures CoercedRow(raw.rows[Survivors(raw)[k]])[FundingTotal].IntVal? ==>
              CoercedRow(raw.rows[Survivors(raw)[k]])[FundingTotal].i > 0
  {
    SurvivorKept(raw, k);
    var r := raw.rows[Survivors(raw)[k]];
    var amount := CoercedRow(r)[FundingTotal];
    assert amount == StrToInt(RawFunding(r)) && amount != IntVal(0);
  }

  /** Every surviving founding year is a string: `float_to_str` never
      leaves an integer, and a missing year does not survive `dropna`. */
  lemma SurvivorYearIsString(raw: Frame, countries: map<string, string>, k: nat)
    requires Loadable(raw) && AllCodesKnown(raw, countries) && k < |Survivors(raw)|
    ensures FoundedYear in CleanRow(CoercedRow(raw.rows[Survivors(raw)[k]]), countries)
    ensures CleanRow(CoercedRow(raw.rows[Survivors(raw)[k]]), countries)[FoundedYear].StrVal?
  {
    SurvivorKept(raw, k);
    DistinctNames();
    var c := CoercedRow(raw.rows[Survivors(raw)[k]]);
    assert c[FoundedYear] in c.Values;
  }
}
