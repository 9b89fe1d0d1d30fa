/** Dates as the application writes them into the database and its forms:
    `YYYY-MM-DD` for days (`date.isoformat()`, `strftime("%Y-%m-%d")`) and
    `YYYY-MM` for the month field of the deadline form. The SQL queries
    compare the stored day texts with `>=` and `<=`; IsoOrder shows that this
    text order is the date order, which is why the rest of the model
    compares Date values with DateLe. */
module IsoDates {
  import opened Rows
  import opened Text
  import opened Dates

  function Iso(d: Date): (s: string)
    requires ValidDate(d)
    ensures |s| == 10 && s[4] == '-' && s[7] == '-'
  {
    assert Pow10(4) == 10000 && Pow10(2) == 100;
    Digits(d.year, 4) + ("-" + (Digits(d.month, 2) + ("-" + Digits(d.day, 2))))
  }

  /** The text after the year: `-MM-DD`. */
  function MonthDayText(d: Date): (s: string)
    requires ValidDate(d)
  {
    assert Pow10(2) == 100;
    "-" + (Digits(d.month, 2) + ("-" + Digits(d.day, 2)))
  }

  lemma MonthDayOrder(a: Date, b: Date)
    requires ValidDate(a) && ValidDate(b)
    ensures StrLe(MonthDayText(a), MonthDayText(b)) <==> a.month < b.month || (a.month == b.month && a.day <= b.day)
    ensures MonthDayText(a) == MonthDayText(b) <==> a.month == b.month && a.day == b.day
  {
    assert Pow10(2) == 100;
    var ma, mb := Digits(a.month, 2), Digits(b.month, 2);
    var da, db := Digits(a.day, 2), Digits(b.day, 2);
    DigitsOrder(a.month, b.month, 2);
    DigitsOrder(a.day, b.day, 2);
    StrLeConcat("-", da, "-", db);
    StrLeConcat(ma, "-" + da, mb, "-" + db);
    StrLeConcat("-", ma + ("-" + da), "-", mb + ("-" + db));
    if MonthDayText(a) == MonthDayText(b) {
      assert ma == MonthDayText(a)[1..3] && mb == MonthDayText(b)[1..3];
      assert da == MonthDayText(a)[4..] && db == MonthDayText(b)[4..];
    }
  }

  /** Comparing the ISO texts of two dates is comparing the dates, and two
      dates have the same text only when they are the same date. */
  lemma IsoOrder(a: Date, b: Date)
    requires ValidDate(a) && ValidDate(b)
    ensures StrLe(Iso(a), Iso(b)) <==> DateLe(a, b)
    ensures Iso(a) == Iso(b) <==> a == b
  {
    assert Pow10(4) == 10000;
    var ya, yb := Digits(a.year, 4), Digits(b.year, 4);
    assert Iso(a) == ya + MonthDayText(a) && Iso(b) == yb + MonthDayText(b);
    DigitsOrder(a.year, b.year, 4);
    MonthDayOrder(a, b);
    StrLeConcat(ya, MonthDayText(a), yb, MonthDayText(b));
    if Iso(a) == Iso(b) {
      assert ya == Iso(a)[..4] && yb == Iso(b)[..4];
      assert MonthDayText(a) == Iso(a)[4..] && MonthDayText(b) == Iso(b)[4..];
    }
  }

  /** The month field `f"{year}-{month:02d}"`. */
  function MonthField(ym: YearMonth): string
    requires ym.year >= 0 && ValidMonth(ym)
  {
    assert Pow10(2) == 100;
    Decimal(ym.year) + ("-" + Digits(ym.month, 2))
  }

  /** Reading the month field back as `strptime(month + "-01", "%Y-%m-%d")`
      does for a four-digit year and a two-digit month: four year digits
      naming a year from 1 to 9999 (there is no year 0), a dash, a month
      from 01 to 12. */
  function ParseMonthField(s: string): (r: Option<YearMonth>)
    ensures r.Some? ==> |s| == 7 && s[4] == '-'
    ensures r.Some? ==> ValidMonth(r.value) && 1 <= r.value.year <= 9999
  {
    if |s| == 7 && s[4] == '-'
       && (forall i :: 0 <= i < 4 ==> IsDigit(s[i]))
       && (forall i :: 5 <= i < 7 ==> IsDigit(s[i]))
    then
      assert forall i :: 0 <= i < |s[..4]| ==> IsDigit(s[..4][i]);
      assert forall i :: 0 <= i < |s[5..]| ==> IsDigit(s[5..][i]);
      assert Pow10(4) == 10000;
      var y, m := DigitsValue(s[..4]), DigitsValue(s[5..]);
      if 1 <= y && 1 <= m <= 12 then Some(YearMonth(y, m)) else None
    else None
  }

  /** The digit texts of the two sample fields below and their values. */
  lemma SampleFieldDigits()
    ensures DigitsValue("0000") == 0 && DigitsValue("0001") == 1
    ensures DigitsValue("05") == 5
  {
    assert Digits(0, 1) == "0" && Digits(0, 2) == "00" && Digits(0, 3) == "000";
    assert Digits(0, 4) == "0000" && Digits(1, 4) == "0001" && Digits(5, 2) == "05";
    DigitsRoundTrip(0, 4);
    DigitsRoundTrip(1, 4);
    DigitsRoundTrip(5, 2);
  }

  /** Reading `0000-05`: the year digits name 0. */
  lemma ParseYearZeroField()
    ensures ParseMonthField("0000-05") == None
  {
    var z := "0000-05";
    assert z[..4] == "0000";
    SampleFieldDigits();
  }

  /** Reading `0001-05`: year 1, month 5. */
  lemma ParseYearOneField()
    ensures ParseMonthField("0001-05") == Some(YearMonth(1, 5))
  {
    var o := "0001-05";
    assert o[..4] == "0001" && o[5..] == "05";
    SampleFieldDigits();
  }

  /** Year 0000 is refused, as `datetime` has no year 0; the same field
      with year 0001 is read. */
  lemma ParseMonthFieldYearZero()
    ensures ParseMonthField("0000-05") == None
    ensures ParseMonthField("0001-05") == Some(YearMonth(1, 5))
  {
    ParseYearZeroField();
    ParseYearOneField();
  }

  /** A month of a four-digit year survives being written into the form and
      read back. */
  lemma MonthFieldRoundTrip(ym: YearMonth)
    requires 1000 <= ym.year <= 9999 && ValidMonth(ym)
    ensures ParseMonthField(MonthField(ym)) == Some(ym)
  {
    assert Pow10(4) == 10000 && Pow10(3) == 1000 && Pow10(2) == 100;
    DecimalIsDigits(ym.year, 4);
    var y, m := Digits(ym.year, 4), Digits(ym.month, 2);
    var s := MonthField(ym);
    assert s == y + ("-" + m);
    assert s[..4] == y && s[5..] == m;
    DigitsRoundTrip(ym.year, 4);
    DigitsRoundTrip(ym.month, 2);
  }

  /** The month the deadline form offers by default: the one after today's,
      zero-padded (app.py, `set_volunteer_dates`, GET). Posting it back
      yields that month. */
  function NextMonthField(today: Date): (s: string)
    requires ValidDate(today)
    ensures 1000 <= NextMonth(MonthOf(today)).year <= 9999 ==>
              ParseMonthField(s) == Some(NextMonth(MonthOf(today)))
  {
    var next := NextMonth(MonthOf(today));
    if 1000 <= next.year <= 9999 then MonthFieldRoundTrip(next); MonthField(next)
    else MonthField(next)
  }
}
