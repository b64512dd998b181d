/**
 * The string forms of dates on the dashboard. Log keys are written
 * "{year}-{month}-{day}" with no zero padding ("2024-3-7"); the start date
 * arrives from a date input as "YYYY-MM-DD". Both are read back by splitting
 * on '-' and applying JavaScript's Number() to the first three fields.
 */
module DateKeys {
  import opened Wrappers
  import opened CivilCalendar

  predicate IsDigit(c: char) {
    '0' <= c <= '9'
  }

  predicate AllDigits(s: string) {
    forall i :: 0 <= i < |s| ==> IsDigit(s[i])
  }

  function DigitChar(n: int): (c: char)
    requires 0 <= n < 10
    ensures IsDigit(c) && c as int - '0' as int == n
  {
    (n + '0' as int) as char
  }

  /** Decimal digits of `n` without leading zeros, as a template string prints it. */
  function NatToString(n: nat): (s: string)
    ensures |s| >= 1 && AllDigits(s)
  {
    if n < 10 then [DigitChar(n)] else NatToString(n / 10) + [DigitChar(n % 10)]
  }

  function IntToString(x: int): string {
    if x < 0 then "-" + NatToString(-x) else NatToString(x)
  }

  /** The value of a string of decimal digits, read left to right; the empty string is 0. */
  function DigitsValue(s: string): nat
    requires AllDigits(s)
  {
    if s == [] then 0 else 10 * DigitsValue(s[..|s| - 1]) + (s[|s| - 1] as int - '0' as int)
  }

  /**
   * JavaScript's Number() on one field: the empty string is 0 and a run of
   * decimal digits is its value. Anything else would be NaN, here None.
   */
  function NumberOf(s: string): Option<nat> {
    if AllDigits(s) then Some(DigitsValue(s)) else None
  }

  /** `s.split("-")`: the pieces between dashes, always at least one. */
  function Split(s: string): (r: seq<string>)
    ensures |r| >= 1
  {
    if s == [] then [""]
    else
      var rest := Split(s[1..]);
      if s[0] == '-' then [""] + rest else [[s[0]] + rest[0]] + rest[1..]
  }

  function FormatKeyParts(y: int, m: int, d: int): string {
    IntToString(y) + "-" + IntToString(m) + "-" + IntToString(d)
  }

  /** The log key of a date: `${getFullYear()}-${getMonth() + 1}-${getDate()}`. */
  function FormatKey(d: Date): string {
    FormatKeyParts(d.year, d.month, d.day)
  }

  /** `s` left-padded with '0' to at least `w` characters. */
  function PadLeft(s: string, w: nat): (r: string)
    ensures |r| >= |s|
    decreases w - |s|
  {
    if |s| >= w then s else PadLeft("0" + s, w)
  }

  /** The value of an `<input type="date">`: "YYYY-MM-DD", zero-padded. */
  function FormatIsoDate(d: Date): string
    requires d.year >= 0 && ValidDate(d)
  {
    PadLeft(NatToString(d.year), 4) + "-" + PadLeft(NatToString(d.month), 2) + "-"
      + PadLeft(NatToString(d.day), 2)
  }

  /** `const [y, m, d] = s.split("-").map(Number)`; fewer than three fields leaves `d` undefined. */
  function ParseFields(s: string): Option<(nat, nat, nat)> {
    var f := Split(s);
    if |f| < 3 then None
    else match (NumberOf(f[0]), NumberOf(f[1]), NumberOf(f[2]))
      case (Some(y), Some(m), Some(d)) => Some((y, m, d))
      case _ => None
  }

  /** The start date that a stored string denotes, when it names a real calendar day. */
  function ParseDate(s: string): (r: Option<Date>)
    ensures r.Some? ==> ValidDate(r.value) && r.value.year >= 0
  {
    match ParseFields(s)
    case Some((y, m, d)) => if ValidDate(Date(y, m, d)) then Some(Date(y, m, d)) else None
    case None => None
  }

  /** Printing a number and reading it back with Number() gives the number. */
  lemma {:induction false} NumberOfNatToString(n: nat)
    ensures NumberOf(NatToString(n)) == Some(n)
  {
    var s := NatToString(n);
    if n >= 10 {
      NumberOfNatToString(n / 10);
      assert s[..|s| - 1] == NatToString(n / 10);
      assert DigitsValue(s) == 10 * (n / 10) + n % 10;
    }
  }

  /** A leading zero does not change the value Number() reads. */
  lemma {:induction false} DigitsValueLeadingZero(s: string)
    requires AllDigits(s)
    ensures AllDigits("0" + s) && DigitsValue("0" + s) == DigitsValue(s)
  {
    if s != [] {
      DigitsValueLeadingZero(s[..|s| - 1]);
      assert ("0" + s)[..|"0" + s| - 1] == "0" + s[..|s| - 1];
    }
  }

  /** Zero padding does not change the value Number() reads. */
  lemma {:induction false} NumberOfPadLeft(s: string, w: nat)
    requires AllDigits(s)
    ensures NumberOf(PadLeft(s, w)) == NumberOf(s)
    decreases w - |s|
  {
    if |s| < w {
      DigitsValueLeadingZero(s);
      NumberOfPadLeft("0" + s, w);
    }
  }

  lemma {:induction false} SplitDigits(a: string)
    requires AllDigits(a)
    ensures Split(a) == [a]
  {
    if a != [] {
      SplitDigits(a[1..]);
      assert [a[0]] + a[1..] == a;
    }
  }

  /** Splitting at the first dash of `a + "-" + r` peels off the digit run `a`. */
  lemma {:induction false} SplitAfterDigits(a: string, r: string)
    requires AllDigits(a)
    ensures Split(a + "-" + r) == [a] + Split(r)
  {
    if a == [] {
      assert a + "-" + r == "-" + r;
      assert ("-" + r)[1..] == r;
    } else {
      SplitAfterDigits(a[1..], r);
      assert (a + "-" + r)[1..] == a[1..] + "-" + r;
      assert [a[0]] + a[1..] == a;
    }
  }

  lemma ParseThreeFields(x: string, y: string, z: string)
    requires AllDigits(x) && AllDigits(y) && AllDigits(z)
    ensures ParseFields(x + "-" + y + "-" + z) == Some((DigitsValue(x), DigitsValue(y), DigitsValue(z)))
  {
    SplitAfterDigits(x, y + "-" + z);
    SplitAfterDigits(y, z);
    SplitDigits(z);
    assert x + "-" + y + "-" + z == x + "-" + (y + "-" + z);
    assert Split(x + "-" + y + "-" + z) == [x, y, z];
  }

  /** Reading an unpadded log key back recovers its date. */
  lemma ParseFormatKey(d: Date)
    requires ValidDate(d) && d.year >= 0
    ensures ParseDate(FormatKey(d)) == Some(d)
  {
    NumberOfNatToString(d.year);
    NumberOfNatToString(d.month);
    NumberOfNatToString(d.day);
    ParseThreeFields(NatToString(d.year), NatToString(d.month), NatToString(d.day));
  }

  /** Reading the zero-padded value of the date input recovers the same date. */
  lemma ParseIsoDate(d: Date)
    requires ValidDate(d) && d.year >= 0
    ensures ParseDate(FormatIsoDate(d)) == Some(d)
  {
    var y, m, dd := NatToString(d.year), NatToString(d.month), NatToString(d.day);
    NumberOfNatToString(d.year);
    NumberOfNatToString(d.month);
    NumberOfNatToString(d.day);
    NumberOfPadLeft(y, 4);
    NumberOfPadLeft(m, 2);
    NumberOfPadLeft(dd, 2);
    ParseThreeFields(PadLeft(y, 4), PadLeft(m, 2), PadLeft(dd, 2));
  }

  /** The key of a date with its year's sign dropped. */
  function UnsignedKey(d: Date): string
    requires ValidDate(d)
  {
    NatToString(if d.year < 0 then -d.year else d.year) + "-" + NatToString(d.month) + "-"
      + NatToString(d.day)
  }

  lemma UnsignedKeyParses(d: Date)
    requires ValidDate(d)
    ensures ParseFields(UnsignedKey(d)) == Some((if d.year < 0 then -d.year else d.year, d.month, d.day))
    ensures IsDigit(UnsignedKey(d)[0])
  {
    var y := if d.year < 0 then -d.year else d.year;
    NumberOfNatToString(y);
    NumberOfNatToString(d.month);
    NumberOfNatToString(d.day);
    ParseThreeFields(NatToString(y), NatToString(d.month), NatToString(d.day));
  }

  lemma KeyIsSignedUnsignedKey(d: Date)
    requires ValidDate(d)
    ensures FormatKey(d) == if d.year < 0 then "-" + UnsignedKey(d) else UnsignedKey(d)
  {
  }

  /** Distinct days have distinct log keys, for every year including negative ones. */
  lemma FormatKeyInjective(a: Date, b: Date)
    requires ValidDate(a) && ValidDate(b)
    ensures FormatKey(a) == FormatKey(b) <==> a == b
  {
    if FormatKey(a) == FormatKey(b) {
      UnsignedKeyParses(a);
      UnsignedKeyParses(b);
      KeyIsSignedUnsignedKey(a);
      KeyIsSignedUnsignedKey(b);
      var ka, kb := UnsignedKey(a), UnsignedKey(b);
      assert FormatKey(a)[0] == '-' <==> a.year < 0;
      assert FormatKey(b)[0] == '-' <==> b.year < 0;
      if a.year < 0 {
        assert ka == FormatKey(a)[1..];
        assert kb == FormatKey(b)[1..];
      }
      assert ka == kb;
    }
  }
}
