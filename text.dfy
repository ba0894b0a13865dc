/** The JavaScript string operations the journal uses: `trim`, ASCII case
    folding, `includes`, `split` on one character, `padStart`, number to
    string and `parseInt`. */
module Text {
  import opened Common

  /** ECMAScript WhiteSpace and LineTerminator code points, which `trim` removes. */
  predicate IsWhitespace(c: char) {
    c == '\t' || c == '\n' || c == '\U{000B}' || c == '\U{000C}' || c == '\r' || c == ' '
    || c == '\U{00A0}' || c == '\U{1680}' || ('\U{2000}' <= c <= '\U{200A}')
    || c == '\U{2028}' || c == '\U{2029}' || c == '\U{202F}' || c == '\U{205F}'
    || c == '\U{3000}' || c == '\U{FEFF}'
  }

  function TrimStart(s: string): (r: string)
    ensures |r| <= |s| && r == s[|s| - |r|..]
    ensures r == [] || !IsWhitespace(r[0])
    ensures forall i :: 0 <= i < |s| - |r| ==> IsWhitespace(s[i])
  {
    if s != [] && IsWhitespace(s[0]) then TrimStart(s[1..]) else s
  }

  function TrimEnd(s: string): (r: string)
    ensures |r| <= |s| && r == s[..|r|]
    ensures r == [] || !IsWhitespace(r[|r| - 1])
    ensures forall i :: |r| <= i < |s| ==> IsWhitespace(s[i])
  {
    if s != [] && IsWhitespace(s[|s| - 1]) then TrimEnd(s[..|s| - 1]) else s
  }

  function Trim(s: string): string {
    TrimEnd(TrimStart(s))
  }

  /** `!s.trim()`: the string is white space throughout, so that trimming
      leaves nothing (TrimEmptyIffBlank). */
  predicate IsBlank(s: string) {
    forall i :: 0 <= i < |s| ==> IsWhitespace(s[i])
  }

  lemma TrimEmptyIffBlank(s: string)
    ensures Trim(s) == "" <==> IsBlank(s)
  {
    var a := TrimStart(s);
    if a != [] {
      assert !IsWhitespace(s[|s| - |a|]);
    }
  }

  function LowerChar(c: char): char {
    if 'A' <= c <= 'Z' then (c as int + 32) as char else c
  }

  /** `toLowerCase` on the ASCII letters. */
  function Lower(s: string): (r: string)
    ensures |r| == |s|
    ensures forall i :: 0 <= i < |s| ==> r[i] == LowerChar(s[i])
  {
    seq(|s|, i requires 0 <= i < |s| => LowerChar(s[i]))
  }

  lemma LowerSlice(s: string, i: int, j: int)
    requires 0 <= i <= j <= |s|
    ensures Lower(s)[i..j] == Lower(s[i..j])
  {
  }

  /** sub occurs in s starting at position i. */
  predicate OccursAt(s: string, sub: string, i: int) {
    0 <= i <= |s| - |sub| && s[i..i + |sub|] == sub
  }

  /** `s.includes(sub)`. */
  function Contains(s: string, sub: string): (b: bool)
    ensures b <==> exists i :: OccursAt(s, sub, i)
    decreases |s|
  {
    if |sub| > |s| then false
    else if s[..|sub|] == sub then assert OccursAt(s, sub, 0); true
    else
      var b := Contains(s[1..], sub);
      assert b ==> exists i :: OccursAt(s, sub, i) by {
        if b {
          var i :| OccursAt(s[1..], sub, i);
          assert s[i + 1..i + 1 + |sub|] == s[1..][i..i + |sub|];
          assert OccursAt(s, sub, i + 1);
        }
      }
      assert (exists i :: OccursAt(s, sub, i)) ==> b by {
        if exists i :: OccursAt(s, sub, i) {
          var i :| OccursAt(s, sub, i);
          assert i != 0;
          assert s[1..][i - 1..i - 1 + |sub|] == s[i..i + |sub|];
          assert OccursAt(s[1..], sub, i - 1);
        }
      }
      b
  }

  lemma ContainsEmpty(s: string)
    ensures Contains(s, "")
  {
    assert OccursAt(s, "", 0);
  }

  lemma ContainsSlice(s: string, i: int, j: int)
    requires 0 <= i <= j <= |s|
    ensures Contains(s, s[i..j])
  {
    assert OccursAt(s, s[i..j], i);
  }

  function StartsWith(s: string, prefix: string): bool {
    |prefix| <= |s| && s[..|prefix|] == prefix
  }

  /** `s.split(sep)` on a one-character separator: at least one piece, none
      containing the separator. */
  function Split(s: string, sep: char): (r: seq<string>)
    ensures |r| >= 1
    ensures forall i :: 0 <= i < |r| ==> sep !in r[i]
    decreases |s|
  {
    if sep !in s then [s]
    else
      var k := IndexOf(s, sep);
      [s[..k]] + Split(s[k + 1..], sep)
  }

  /** Position of the first occurrence of c. */
  function IndexOf(s: string, c: char): (k: nat)
    requires c in s
    ensures k < |s| && s[k] == c && c !in s[..k]
  {
    if s[0] == c then 0 else 1 + IndexOf(s[1..], c)
  }

  /** `pieces.join(sep)`. */
  function Join(pieces: seq<string>, sep: string): string {
    if pieces == [] then ""
    else if |pieces| == 1 then pieces[0]
    else pieces[0] + sep + Join(pieces[1..], sep)
  }

  /** Joining the pieces of a split gives the string back. */
  lemma {:induction false} SplitJoin(s: string, sep: char)
    ensures Join(Split(s, sep), [sep]) == s
    decreases |s|
  {
    if sep in s {
      var k := IndexOf(s, sep);
      SplitJoin(s[k + 1..], sep);
      JoinCons(s[..k], Split(s[k + 1..], sep), [sep]);
      assert s == s[..k] + [sep] + s[k + 1..];
    }
  }

  lemma JoinCons(head: string, rest: seq<string>, sep: string)
    requires |rest| >= 1
    ensures Join([head] + rest, sep) == head + sep + Join(rest, sep)
  {
    assert ([head] + rest)[1..] == rest;
  }

  function DigitChar(d: int): char
    requires 0 <= d < 10
  {
    "0123456789"[d]
  }

  /** Decimal digits of a natural number, without leading zeros. */
  function NatToString(n: nat): (s: string)
    ensures |s| >= 1
    ensures forall i :: 0 <= i < |s| ==> '0' <= s[i] <= '9'
  {
    if n < 10 then [DigitChar(n)] else NatToString(n / 10) + [DigitChar(n % 10)]
  }

  /** `${n}` for an integer. */
  function IntToString(n: int): string {
    if n < 0 then "-" + NatToString(-n) else NatToString(n)
  }

  /** `s.padStart(2, "0")`. */
  function PadStart2(s: string): (r: string)
    ensures |r| == if |s| < 2 then 2 else |s|
  {
    if |s| == 0 then "00" else if |s| == 1 then "0" + s else s
  }

  /** `s.padStart(w, "0")`. */
  function PadZeros(s: string, w: nat): (r: string)
    ensures |r| == if |s| < w then w else |s|
    decreases w - |s|
  {
    if |s| >= w then s else PadZeros("0" + s, w)
  }

  /** The value of a string of decimal digits, read left to right. */
  function DecimalValue(s: string): int {
    if s == [] then 0 else 10 * DecimalValue(s[..|s| - 1]) + DigitValue(s[|s| - 1])
  }

  lemma DigitCharValue(d: int)
    requires 0 <= d < 10
    ensures DigitValue(DigitChar(d)) == d
  {
  }

  /** A numeral reads back as the number it was written from. */
  lemma {:induction false} NatToStringValue(n: nat)
    ensures DecimalValue(NatToString(n)) == n
    decreases n
  {
    if n < 10 {
      DigitCharValue(n);
      assert [DigitChar(n)][..0] == [];
    } else {
      NatToStringValue(n / 10);
      DigitCharValue(n % 10);
      var a := NatToString(n / 10);
      assert (a + [DigitChar(n % 10)])[..|a|] == a;
    }
  }

  /** Numerals below 100 have at most two digits. */
  lemma NatToStringShort(n: nat)
    requires n < 100
    ensures |NatToString(n)| <= 2
  {
    if n >= 10 {
      assert n / 10 < 10;
    }
  }

  /** A leading zero does not change the value. */
  lemma {:induction false} LeadingZeroValue(s: string)
    ensures DecimalValue("0" + s) == DecimalValue(s)
    decreases |s|
  {
    if s != [] {
      var n := |s| - 1;
      assert ("0" + s)[..|"0" + s| - 1] == "0" + s[..n];
      LeadingZeroValue(s[..n]);
    } else {
      assert ("0")[..0] == [];
    }
  }

  /** Zero padding keeps the value and the digits. */
  lemma {:induction false} PadZerosValue(s: string, w: nat)
    ensures DecimalValue(PadZeros(s, w)) == DecimalValue(s)
    ensures (forall i :: 0 <= i < |s| ==> IsDigit(s[i])) ==>
              forall i :: 0 <= i < |PadZeros(s, w)| ==> IsDigit(PadZeros(s, w)[i])
    decreases w - |s|
  {
    if |s| < w {
      LeadingZeroValue(s);
      PadZerosValue("0" + s, w);
    }
  }

  predicate IsDigit(c: char) { '0' <= c <= '9' }

  function HexValue(c: char): (v: int)
    ensures -1 <= v < 16
  {
    if '0' <= c <= '9' then c as int - '0' as int
    else if 'a' <= c <= 'f' then c as int - 'a' as int + 10
    else if 'A' <= c <= 'F' then c as int - 'A' as int + 10
    else -1
  }

  /** Value of the longest prefix of s made of digits of radix 10 or 16, and its length. */
  function DigitPrefix(s: string, radix: int, acc: int, len: nat): (r: (int, nat))
    requires radix == 10 || radix == 16
    decreases |s|
  {
    if s != [] && 0 <= HexValue(s[0]) < radix
    then DigitPrefix(s[1..], radix, acc * radix + HexValue(s[0]), len + 1)
    else (acc, len)
  }

  /** `parseInt(s)` without a radix: leading white space is skipped, then an
      optional sign, then "0x"/"0X" selects hexadecimal; NaN (None) when no
      digit follows. */
  function ParseInt(s: string): Option<int> {
    var t := TrimStart(s);
    var sign := if t != [] && t[0] == '-' then -1 else 1;
    var u := if t != [] && (t[0] == '-' || t[0] == '+') then t[1..] else t;
    var hex := |u| >= 2 && u[0] == '0' && (u[1] == 'x' || u[1] == 'X');
    var digits := if hex then u[2..] else u;
    var (value, len) := DigitPrefix(digits, if hex then 16 else 10, 0, 0);
    if len == 0 then None else Some(sign * value)
  }

  function DigitValue(c: char): int { c as int - '0' as int }

  /** The value of a two-character decimal numeral. */
  function TwoDigitValue(s: string): int
    requires |s| == 2
  {
    10 * DigitValue(s[0]) + DigitValue(s[1])
  }

  /** `parseInt` of two decimal digits is their value. */
  lemma ParseTwoDigits(s: string)
    requires |s| == 2 && IsDigit(s[0]) && IsDigit(s[1])
    ensures ParseInt(s) == Some(TwoDigitValue(s))
  {
    assert !IsWhitespace(s[0]);
    assert TrimStart(s) == s;
    assert HexValue(s[0]) == DigitValue(s[0]) && HexValue(s[1]) == DigitValue(s[1]);
    var v := 10 * DigitValue(s[0]) + DigitValue(s[1]);
    assert s[1..][0] == s[1] && s[1..][1..] == [];
    assert DigitPrefix(s[1..][1..], 10, v, 2) == (v, 2);
    assert DigitPrefix(s[1..], 10, DigitValue(s[0]), 1) == (v, 2);
    assert DigitPrefix(s, 10, 0, 0) == (v, 2);
  }

  /** Splitting a ++ [sep] ++ b, neither part containing sep, gives the two parts. */
  lemma SplitOnce(a: string, b: string, sep: char)
    requires sep !in a && sep !in b
    ensures Split(a + [sep] + b, sep) == [a, b]
  {
    var s := a + [sep] + b;
    assert s[|a|] == sep;
    assert s[..|a|] == a && s[|a| + 1..] == b;
    var k := IndexOf(s, sep);
    assert k == |a|;
  }

  /** A string with exactly one separator, at k, splits into the parts before and after it. */
  lemma SplitAt(s: string, k: nat, sep: char)
    requires k < |s| && s[k] == sep && sep !in s[..k] && sep !in s[k + 1..]
    ensures Split(s, sep) == [s[..k], s[k + 1..]]
  {
  }

  function Pow10(n: nat): (p: nat)
    ensures p >= 1
  {
    if n == 0 then 1 else 10 * Pow10(n - 1)
  }

  /** Read from the front, the first digit weighs ten to the number of digits after it. */
  lemma {:induction false} DecimalValueCons(s: string)
    requires |s| >= 1
    ensures DecimalValue(s) == DigitValue(s[0]) * Pow10(|s| - 1) + DecimalValue(s[1..])
    decreases |s|
  {
    if |s| == 1 {
      assert s[..0] == [] && s[1..] == [];
    } else {
      var n := |s|;
      var init := s[..n - 1];
      DecimalValueCons(init);
      assert init[0] == s[0];
      assert init[1..] == s[1..][..n - 2];
      assert s[1..][n - 2] == s[n - 1];
      var d := DigitValue(s[0]);
      assert 10 * (d * Pow10(n - 2)) == d * Pow10(n - 1);
    }
  }

  /** The digits of s are read as a number whose value is s's. */
  lemma {:induction false} DigitPrefixDigits(s: string, acc: int, len: nat)
    requires forall i :: 0 <= i < |s| ==> IsDigit(s[i])
    ensures DigitPrefix(s, 10, acc, len) == (acc * Pow10(|s|) + DecimalValue(s), len + |s|)
    decreases |s|
  {
    if s != [] {
      var d := DigitValue(s[0]);
      assert HexValue(s[0]) == d;
      assert DigitPrefix(s, 10, acc, len) == DigitPrefix(s[1..], 10, acc * 10 + d, len + 1);
      DigitPrefixDigits(s[1..], acc * 10 + d, len + 1);
      DecimalValueCons(s);
      ShiftDigit(acc, d, Pow10(|s| - 1));
    }
  }

  lemma ShiftDigit(acc: int, d: int, p: int)
    ensures (acc * 10 + d) * p == acc * (10 * p) + d * p
  {
  }

  /** `parseInt` reads a string of decimal digits as its value. */
  lemma ParseDigits(s: string)
    requires |s| >= 1 && forall i :: 0 <= i < |s| ==> IsDigit(s[i])
    ensures ParseInt(s) == Some(DecimalValue(s))
  {
    assert !IsWhitespace(s[0]);
    assert TrimStart(s) == s;
    DigitPrefixDigits(s, 0, 0);
  }

  /** `parseInt` reads a numeral back as its number. */
  lemma ParseNumeral(n: nat)
    ensures ParseInt(NatToString(n)) == Some(n)
  {
    ParseDigits(NatToString(n));
    NatToStringValue(n);
  }

  /** Splitting the join of pieces that do not contain the separator gives
      the pieces back. */
  lemma {:induction false} JoinSplit(pieces: seq<string>, sep: char)
    requires |pieces| >= 1 && forall i :: 0 <= i < |pieces| ==> sep !in pieces[i]
    ensures Split(Join(pieces, [sep]), sep) == pieces
    decreases |pieces|
  {
    if |pieces| > 1 {
      var rest := pieces[1..];
      JoinSplit(rest, sep);
      var s := Join(pieces, [sep]);
      var a := pieces[0];
      assert s == a + [sep] + Join(rest, [sep]);
      assert s[|a|] == sep && s[..|a|] == a;
      assert s[|a| + 1..] == Join(rest, [sep]);
      assert IndexOf(s, sep) == |a|;
    }
  }

  /** JavaScript's `a % b` for b > 0: the remainder takes the sign of a. */
  function JsRem(a: int, b: int): (r: int)
    requires b > 0
    ensures a >= 0 ==> 0 <= r < b && r == a % b
    ensures a < 0 ==> -b < r <= 0
  {
    if a >= 0 then a % b else -((-a) % b)
  }
}
