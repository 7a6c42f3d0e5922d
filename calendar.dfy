/**
 * The month-range resolver (`get_months_for_year`) and the month-name to
 * two-digit-number lookup (`convertir_mes_a_numero`).
 */
module Calendar {
  import opened Wrappers
  import opened Text

  /** The twelve canonical month names, in calendar order. */
  const Months: seq<string> := ["January", "February", "March", "April", "May", "June",
                                "July", "August", "September", "October", "November", "December"]

  /** Raised by `list.index` when a month name is not one of the twelve. */
  datatype MonthError = UnknownMonth(name: string)

  /** No name occurs twice in the calendar. */
  lemma MonthsDistinct()
    ensures |Months| == 12
    ensures forall i, j :: 0 <= i < j < |Months| ==> Months[i] != Months[j]
  {
  }

  /** `xs.index(x)`: a position holding `x` (the first one, as the search runs from the front), or `None`. */
  function Position<T(==)>(xs: seq<T>, x: T): (r: Option<nat>)
    ensures r.Some? <==> x in xs
    ensures r.Some? ==> r.value < |xs| && xs[r.value] == x
  {
    if xs == [] then None
    else if xs[0] == x then Some(0)
    else match Position(xs[1..], x)
      case None => None
      case Some(k) => Some(k + 1)
  }

  /** The 0-based calendar position of a canonical month name. */
  function Ordinal(name: string): (k: nat)
    requires name in Months
    ensures k < 12 && Months[k] == name
  {
    Position(Months, name).value
  }

  /** Each calendar name has its own position as its ordinal. */
  lemma OrdinalOfPosition(k: nat)
    requires k < 12
    ensures Ordinal(Months[k]) == k
  {
    MonthsDistinct();
  }

  /** The months `Months[lo..hi]` are exactly those whose ordinal lies in `[lo, hi)`, in calendar order. */
  lemma {:induction false} SliceMembers(lo: nat, hi: nat)
    requires lo <= hi <= 12
    ensures forall m :: m in Months[lo..hi] <==> m in Months && lo <= Ordinal(m) < hi
    ensures InCalendarOrder(Months[lo..hi])
  {
    MonthsDistinct();
    forall m | m in Months[lo..hi]
      ensures m in Months && lo <= Ordinal(m) < hi
    {
      var j :| 0 <= j < hi - lo && Months[lo..hi][j] == m;
      OrdinalOfPosition(lo + j);
    }
    forall m | m in Months && lo <= Ordinal(m) < hi
      ensures m in Months[lo..hi]
    {
      assert Months[lo..hi][Ordinal(m) - lo] == m;
    }
    forall i, j | 0 <= i < j < hi - lo
      ensures Ordinal(Months[lo..hi][i]) < Ordinal(Months[lo..hi][j])
    {
      OrdinalOfPosition(lo + i);
      OrdinalOfPosition(lo + j);
    }
  }

  /** Strictly increasing calendar positions. */
  predicate InCalendarOrder(ms: seq<string>)
  {
    (forall m :: m in ms ==> m in Months) &&
    forall i, j :: 0 <= i < j < |ms| ==> Ordinal(ms[i]) < Ordinal(ms[j])
  }

  /**
   * `get_months_for_year(year, start_year, start_month, end_year, end_month)`.
   * Years are compared as texts, as `get_months_for_year` does; an unknown month name
   * makes `list.index` raise, which is the `Err` result.
   */
  function MonthsForYear(year: string, startYear: string, startMonth: string,
                         endYear: string, endMonth: string): (r: Result<seq<string>, MonthError>)
    ensures r.Err? <==> (year == startYear && startMonth !in Months) || (year == endYear && endMonth !in Months)
    ensures r.Err? ==> r.error == UnknownMonth(if year == startYear && startMonth !in Months then startMonth else endMonth)
    ensures r.Ok? ==> forall m :: m in r.value ==> m in Months
  {
    if year == startYear && year == endYear then
      match Position(Months, startMonth)
      case None => Err(UnknownMonth(startMonth))
      case Some(s) =>
        match Position(Months, endMonth)
        case None => Err(UnknownMonth(endMonth))
        case Some(e) =>
          // Python slicing: a start past the stop gives the empty list.
          if s <= e + 1 then SliceOfMonths(s, e + 1); Ok(Months[s..e + 1]) else Ok([])
    else if year == startYear then
      match Position(Months, startMonth)
      case None => Err(UnknownMonth(startMonth))
      case Some(s) => SliceOfMonths(s, 12); Ok(Months[s..])
    else if year == endYear then
      match Position(Months, endMonth)
      case None => Err(UnknownMonth(endMonth))
      case Some(e) => SliceOfMonths(0, e + 1); Ok(Months[..e + 1])
    else
      SliceOfMonths(0, 12);
      Ok(Months)
  }

  /** Every element of a run of the calendar is a calendar name. */
  lemma SliceOfMonths(lo: nat, hi: nat)
    requires lo <= hi <= |Months|
    ensures forall m :: m in Months[lo..hi] ==> m in Months
    ensures hi == |Months| ==> Months[lo..] == Months[lo..hi]
    ensures lo == 0 ==> Months[..hi] == Months[lo..hi]
    ensures lo == 0 && hi == |Months| ==> Months == Months[lo..hi]
  {
  }

  /** A strictly interior year gets all twelve months in calendar order. */
  lemma InteriorYear(year: string, startYear: string, startMonth: string, endYear: string, endMonth: string)
    requires year != startYear && year != endYear
    ensures MonthsForYear(year, startYear, startMonth, endYear, endMonth) == Ok(Months)
    ensures InCalendarOrder(Months)
  {
    SliceMembers(0, 12);
    assert Months[0..12] == Months;
  }

  /** The start year of a multi-year range: exactly the start month through December. */
  lemma StartYear(year: string, startMonth: string, endYear: string, endMonth: string)
    requires year != endYear && startMonth in Months
    ensures var r := MonthsForYear(year, year, startMonth, endYear, endMonth);
      r.Ok? && InCalendarOrder(r.value) && |r.value| == 12 - Ordinal(startMonth) &&
      r.value[0] == startMonth && Last(r.value) == "December" &&
      forall m :: m in r.value <==> m in Months && Ordinal(startMonth) <= Ordinal(m)
  {
    var s := Ordinal(startMonth);
    StartYearAt(year, s, endYear, endMonth);
    SliceToEnd(Months, s);
    SliceMembers(s, 12);
    assert Months[s..12][0] == startMonth;
    assert Last(Months[s..12]) == Months[11];
  }

  /** The start year of a multi-year range is the calendar from the start month on. */
  lemma StartYearAt(year: string, s: nat, endYear: string, endMonth: string)
    requires s < |Months| && year != endYear
    ensures MonthsForYear(year, year, Months[s], endYear, endMonth) == Ok(Months[s..])
  {
    PositionAt(s);
  }

  /** A slice running to the end is the slice up to the length. */
  lemma SliceToEnd<T>(xs: seq<T>, s: nat)
    requires s <= |xs|
    ensures xs[s..] == xs[s..|xs|]
  {
  }

  /** The end year of a multi-year range: exactly January through the end month. */
  lemma EndYear(year: string, startYear: string, startMonth: string, endMonth: string)
    requires year != startYear && endMonth in Months
    ensures var r := MonthsForYear(year, startYear, startMonth, year, endMonth);
      r.Ok? && InCalendarOrder(r.value) && |r.value| == Ordinal(endMonth) + 1 &&
      r.value[0] == "January" && Last(r.value) == endMonth &&
      forall m :: m in r.value <==> m in Months && Ordinal(m) <= Ordinal(endMonth)
  {
    var e := Ordinal(endMonth);
    EndYearAt(year, startYear, startMonth, e);
    SliceMembers(0, e + 1);
    assert Months[0..e + 1][0] == Months[0];
    assert Last(Months[0..e + 1]) == endMonth;
  }

  /** The end year of a multi-year range is the calendar up to the end month. */
  lemma EndYearAt(year: string, startYear: string, startMonth: string, e: nat)
    requires e < |Months| && year != startYear
    ensures MonthsForYear(year, startYear, startMonth, year, Months[e]) == Ok(Months[0..e + 1])
  {
    PositionAt(e);
    assert Months[..e + 1] == Months[0..e + 1];
  }

  /**
   * A single-year range: the inclusive run from the start month to the end
   * month; one month when both are equal, none when the start comes later.
   */
  lemma SameYear(year: string, startMonth: string, endMonth: string)
    requires startMonth in Months && endMonth in Months
    ensures var r := MonthsForYear(year, year, startMonth, year, endMonth);
      r.Ok? && InCalendarOrder(r.value) &&
      (forall m :: m in r.value <==> m in Months && Ordinal(startMonth) <= Ordinal(m) <= Ordinal(endMonth)) &&
      (startMonth == endMonth ==> r.value == [startMonth]) &&
      (Ordinal(startMonth) > Ordinal(endMonth) <==> r.value == [])
  {
    var s, e := Ordinal(startMonth), Ordinal(endMonth);
    SameYearSlice(year, startMonth, endMonth);
    if s <= e {
      SliceMembers(s, e + 1);
      assert Months[s..e + 1][0] == startMonth;
      assert s == e ==> Months[s..e + 1] == [startMonth];
    } else {
      SliceMembers(s, s);
      assert Months[s..s] == [];
    }
  }

  /** A single-year range is the calendar slice between the two ordinals, or empty. */
  lemma SameYearSlice(year: string, startMonth: string, endMonth: string)
    requires startMonth in Months && endMonth in Months
    ensures var s, e := Ordinal(startMonth), Ordinal(endMonth);
      MonthsForYear(year, year, startMonth, year, endMonth) == Ok(if s <= e then Months[s..e + 1] else [])
  {
    SameYearAt(year, Ordinal(startMonth), Ordinal(endMonth));
  }

  /** `SameYearSlice` for the names at two given positions. */
  lemma SameYearAt(year: string, s: nat, e: nat)
    requires s < |Months| && e < |Months|
    ensures MonthsForYear(year, year, Months[s], year, Months[e]) == Ok(if s <= e then Months[s..e + 1] else [])
  {
    PositionAt(s);
    PositionAt(e);
    if s == e + 1 {
      assert Months[s..e + 1] == [];
    }
  }

  /** `Months.index` finds each name at its own position. */
  lemma PositionAt(k: nat)
    requires k < |Months|
    ensures Position(Months, Months[k]) == Some(k)
  {
    OrdinalOfPosition(k);
  }

  /** The result of `convertir_mes_a_numero`: a two-digit text, or the sentinel `0`. */
  datatype MonthCode = Code(digits: string) | Zero

  /** The lookup table of `convertir_mes_a_numero`. */
  const MonthDigits: map<string, string> := map[
    "January" := "01", "February" := "02", "March" := "03", "April" := "04", "May" := "05",
    "June" := "06", "July" := "07", "August" := "08", "September" := "09", "October" := "10",
    "November" := "11", "December" := "12"]

  /** The two-digit, zero-padded decimal text of `n` in 1..99. */
  function TwoDigits(n: nat): string
    requires n < 100
  {
    [Digit(n / 10), Digit(n % 10)]
  }

  /**
   * `convertir_mes_a_numero(mes)`: the table lookup, with `0` for any other
   * text. A canonical name gets the two-digit text of its 1-based position.
   */
  function MonthNumber(name: string): MonthCode
  {
    if name in MonthDigits then Code(MonthDigits[name]) else Zero
  }

  /** Exactly the twelve names get a code, the two-digit text of the name's 1-based position. */
  lemma MonthNumberSpec(name: string)
    ensures MonthNumber(name).Code? <==> name in Months
    ensures MonthNumber(name).Code? ==> MonthNumber(name).digits == TwoDigits(Ordinal(name) + 1)
  {
    MonthDigitsTable();
    if name in MonthDigits {
      OrdinalOfPosition(Ordinal(name));
    }
  }

  /** The table holds exactly the twelve names, each with the two-digit text of its 1-based position. */
  lemma MonthDigitsTable()
    ensures forall name :: name in MonthDigits <==> name in Months
    ensures forall k :: 0 <= k < |Months| ==> Months[k] in MonthDigits && MonthDigits[Months[k]] == TwoDigits(k + 1)
  {
    MonthDigitsKeys();
    forall k | 0 <= k < |Months|
      ensures MonthDigits[Months[k]] == TwoDigits(k + 1)
    {
      MonthDigitsAt(k);
    }
  }

  /** The table's keys are the twelve calendar names. */
  lemma MonthDigitsKeys()
    ensures forall name :: name in MonthDigits <==> name in Months
  {
  }

  /** The entry of the `k`-th name is the two-digit text of `k + 1`. */
  lemma MonthDigitsAt(k: nat)
    requires k < |Months|
    ensures Months[k] in MonthDigits && MonthDigits[Months[k]] == TwoDigits(k + 1)
  {
    MonthDigitsKeys();
  }

  /** `str(convertir_mes_a_numero(name))`: the digits, or `"0"` for the sentinel. */
  function MonthText(name: string): string
  {
    match MonthNumber(name)
    case Code(digits) => digits
    case Zero => "0"
  }

  /** The `k`-th month (0-based) maps to the two-digit text of `k + 1`. */
  lemma MonthNumberOfPosition(k: nat)
    requires k < 12
    ensures MonthNumber(Months[k]) == Code(TwoDigits(k + 1))
  {
    MonthNumberSpec(Months[k]);
    OrdinalOfPosition(k);
  }

  /** Distinct canonical names get distinct numbers: the lookup is a bijection onto "01".."12". */
  lemma MonthNumberInjective(a: string, b: string)
    requires a in Months && b in Months && a != b
    ensures MonthNumber(a) != MonthNumber(b)
  {
    MonthNumberSpec(a);
    MonthNumberSpec(b);
    TwoDigitsInjective(Ordinal(a) + 1, Ordinal(b) + 1);
  }

  /** Different numbers below 100 have different two-digit texts. */
  lemma TwoDigitsInjective(x: nat, y: nat)
    requires x < 100 && y < 100 && x != y
    ensures TwoDigits(x) != TwoDigits(y)
  {
    if x / 10 != y / 10 {
      assert TwoDigits(x)[0] != TwoDigits(y)[0];
    } else {
      assert TwoDigits(x)[1] != TwoDigits(y)[1];
    }
  }
}
