/** The date field of `Date.prototype.toISOString()`, the key the habit
    tracker stores its completions under: "YYYY-MM-DD" for the years 0..9999,
    "+YYYYYY-MM-DD" or "-YYYYYY-MM-DD" outside them. */
module IsoDates {
  import opened Text
  import opened Dates

  /** The year field: four digits, or a sign and six digits. */
  function YearField(y: int): string {
    if 0 <= y <= 9999 then PadZeros(NatToString(y), 4)
    else (if y < 0 then "-" else "+") + PadZeros(NatToString(if y < 0 then -y else y), 6)
  }

  function CivilField(c: Civil): string
    requires 0 <= c.month < 12 && 1 <= c.day <= 31
  {
    YearField(c.year) + "-" + PadZeros(NatToString(c.month + 1), 2) + "-" + PadZeros(NatToString(c.day), 2)
  }

  /** `date.toISOString().split("T")[0]` for a date on day number n (the
      local zone being UTC, the ISO date is the local date). */
  function IsoDay(n: int): string {
    CivilField(CivilFromDays(n))
  }

  /** A zero-padded numeral reads back as its number. */
  lemma PaddedValue(n: nat, w: nat)
    ensures DecimalValue(PadZeros(NatToString(n), w)) == n
    ensures forall i :: 0 <= i < |PadZeros(NatToString(n), w)| ==> IsDigit(PadZeros(NatToString(n), w)[i])
  {
    PadZerosValue(NatToString(n), w);
    NatToStringValue(n);
  }

  /** The year field starts with a digit exactly for the years 0..9999. */
  lemma YearFieldShape(y: int)
    ensures |YearField(y)| >= 1 && (IsDigit(YearField(y)[0]) <==> 0 <= y <= 9999)
  {
    if 0 <= y <= 9999 {
      PaddedValue(y, 4);
    }
  }

  /** The year field determines the year. */
  lemma YearFieldInjective(a: int, b: int)
    requires YearField(a) == YearField(b)
    ensures a == b
  {
    YearFieldShape(a);
    YearFieldShape(b);
    var ua := if a < 0 then -a else a;
    var ub := if b < 0 then -b else b;
    if 0 <= a <= 9999 {
      PaddedValue(ua, 4);
      PaddedValue(ub, 4);
    } else {
      PaddedValue(ua, 6);
      PaddedValue(ub, 6);
      var fa, fb := YearField(a), YearField(b);
      assert fa[1..] == PadZeros(NatToString(ua), 6);
      assert fb[1..] == PadZeros(NatToString(ub), 6);
      assert (a < 0) == (b < 0) by {
        assert fa[0] == fb[0];
      }
    }
  }

  /** The three fields of "Y-MM-DD" sit at fixed distances from the end. */
  lemma FieldParts(y: string, m: string, d: string)
    requires |m| == 2 && |d| == 2
    ensures var s := y + "-" + m + "-" + d;
            s[..|s| - 6] == y && s[|s| - 5..|s| - 3] == m && s[|s| - 2..] == d
  {
  }

  /** The fields read back from the ends of the string. */
  lemma CivilFieldParts(c: Civil)
    requires 0 <= c.month < 12 && 1 <= c.day <= 31
    ensures var s := CivilField(c);
            |s| >= 6 && s[..|s| - 6] == YearField(c.year)
            && DecimalValue(s[|s| - 5..|s| - 3]) == c.month + 1 && DecimalValue(s[|s| - 2..]) == c.day
  {
    NatToStringShort(c.month + 1);
    NatToStringShort(c.day);
    FieldParts(YearField(c.year), PadZeros(NatToString(c.month + 1), 2), PadZeros(NatToString(c.day), 2));
    PaddedValue(c.month + 1, 2);
    PaddedValue(c.day, 2);
  }

  lemma CivilFieldInjective(a: Civil, b: Civil)
    requires 0 <= a.month < 12 && 1 <= a.day <= 31
    requires 0 <= b.month < 12 && 1 <= b.day <= 31
    requires CivilField(a) == CivilField(b)
    ensures a == b
  {
    CivilFieldParts(a);
    CivilFieldParts(b);
    YearFieldInjective(a.year, b.year);
  }

  /** Different days have different ISO dates, so a set of ISO dates holds
      at most one key per day. */
  lemma IsoDayInjective(a: int, b: int)
    requires IsoDay(a) == IsoDay(b)
    ensures a == b
  {
    CivilFieldInjective(CivilFromDays(a), CivilFromDays(b));
  }
}
