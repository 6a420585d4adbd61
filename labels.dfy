/**
 * Still-image labels. Numbered stills are named with `f"{n:05}"` (the decimal
 * digits of n, left-padded with zeros to at least five characters); the
 * terminal still is named `final`.
 */
module Labels {

  /** The label a `save_image` call receives. */
  datatype Label = Index(n: nat) | Final

  predicate IsDigit(c: char) {
    '0' <= c <= '9'
  }

  function DigitChar(d: nat): (c: char)
    requires d < 10
    ensures IsDigit(c) && c as int - '0' as int == d
  {
    ('0' as int + d) as char
  }

  function DigitValue(c: char): (d: nat)
    requires IsDigit(c)
    ensures d < 10 && DigitChar(d) == c
  {
    c as int - '0' as int
  }

  /** `z` zero characters. */
  function Zeros(z: nat): (s: string)
    ensures |s| == z
    ensures forall k :: 0 <= k < z ==> s[k] == '0'
  {
    seq(z, _ => '0')
  }

  /** Decimal digits of `n` with no leading zero (`str(n)`). */
  function Digits(n: nat): (s: string)
    ensures |s| >= 1
    ensures forall k :: 0 <= k < |s| ==> IsDigit(s[k])
    ensures n >= 10 ==> s[0] != '0'
    decreases n
  {
    if n < 10 then [DigitChar(n)] else Digits(n / 10) + [DigitChar(n % 10)]
  }

  /** `f"{n:05}"` for a non-negative integer: never truncates, pads to width 5. */
  function Format05(n: nat): (s: string)
    ensures |s| == if |Digits(n)| < 5 then 5 else |Digits(n)|
    ensures forall k :: 0 <= k < |s| ==> IsDigit(s[k])
  {
    var d := Digits(n);
    if |d| < 5 then Zeros(5 - |d|) + d else d
  }

  /** The file-name suffix written for a label. */
  function Suffix(l: Label): (r: string)
    ensures |r| >= 5
  {
    match l
    case Index(n) => Format05(n)
    case Final => "final"
  }

  /** The value of a string of decimal digits (`int(s)`); the inverse of Format05. */
  function ParseDecimal(s: string): nat
    requires forall k :: 0 <= k < |s| ==> IsDigit(s[k])
    decreases |s|
  {
    if s == [] then 0
    else 10 * ParseDecimal(s[..|s| - 1]) + DigitValue(s[|s| - 1])
  }

  lemma {:induction false} ParseDigits(n: nat)
    ensures ParseDecimal(Digits(n)) == n
    decreases n
  {
    if n >= 10 {
      var d := Digits(n);
      ParseDigits(n / 10);
      assert d[..|d| - 1] == Digits(n / 10);
    }
  }

  /** Leading zeros do not change the value of a digit string. */
  lemma {:induction false} ParseLeadingZeros(z: nat, s: string)
    requires forall k :: 0 <= k < |s| ==> IsDigit(s[k])
    ensures ParseDecimal(Zeros(z) + s) == ParseDecimal(s)
    decreases |s|
  {
    var t := Zeros(z) + s;
    if s == [] {
      assert t == Zeros(z);
      ZerosParseToZero(z);
    } else {
      ParseLeadingZeros(z, s[..|s| - 1]);
      assert t[..|t| - 1] == Zeros(z) + s[..|s| - 1];
    }
  }

  lemma {:induction false} ZerosParseToZero(z: nat)
    ensures ParseDecimal(Zeros(z)) == 0
    decreases z
  {
    if z > 0 {
      ZerosParseToZero(z - 1);
      assert Zeros(z)[..z - 1] == Zeros(z - 1);
    }
  }

  /** Reading a formatted label back gives the number: `int(f"{n:05}") == n`. */
  lemma Format05RoundTrip(n: nat)
    ensures ParseDecimal(Format05(n)) == n
  {
    var d := Digits(n);
    ParseDigits(n);
    if |d| < 5 {
      ParseLeadingZeros(5 - |d|, d);
    }
  }

  /** Two numbered stills get the same suffix only when they have the same number. */
  lemma Format05Injective(a: nat, b: nat)
    ensures Format05(a) == Format05(b) <==> a == b
  {
    Format05RoundTrip(a);
    Format05RoundTrip(b);
  }

  /** Distinct labels name distinct files; `final` never collides with a numbered still. */
  lemma SuffixInjective(a: Label, b: Label)
    ensures Suffix(a) == Suffix(b) <==> a == b
  {
    if a.Index? && b.Index? {
      Format05Injective(a.n, b.n);
    } else if a.Index? && b.Final? {
      assert !IsDigit(Suffix(b)[0]);
    } else if a.Final? && b.Index? {
      assert !IsDigit(Suffix(a)[0]);
    }
  }

  /** Short numbers are zero-padded: `f"{7:05}" == "00007"`. */
  lemma Format05PadsShort()
    ensures Format05(7) == "00007"
  {
  }

  /** Long numbers are not truncated: `f"{123456:05}" == "123456"`. */
  lemma Format05KeepsLong()
    ensures Format05(123456) == "123456"
  {
    assert Digits(12) == "12";
    assert Digits(1234) == "1234";
    assert Digits(123456) == "123456";
  }
}
