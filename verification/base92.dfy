/** The base-92 digit codec: a non-negative integer as big-endian digits in
    0..91, and each digit as one printable ASCII character. The characters
    '*', '+' and ';' are left out of the alphabet so that they stay free as
    the token and capitalisation delimiters. */
module Base92 {

  const Radix: nat := 92

  function Pow(e: nat): (r: nat)
    ensures r >= 1
  {
    if e == 0 then 1 else Radix * Pow(e - 1)
  }

  predicate InRange(ds: seq<int>)
  {
    forall i :: 0 <= i < |ds| ==> 0 <= ds[i] < Radix
  }

  /** Digits without a superfluous leading zero: the only forms the encoder emits. */
  predicate Canonical(ds: seq<int>)
  {
    |ds| >= 1 && InRange(ds) && (ds[0] != 0 || |ds| == 1)
  }

  /** The digits of n, most significant first. */
  function Digits(n: nat): (ds: seq<int>)
    ensures Canonical(ds)
    ensures n == 0 ==> ds == [0]
    decreases n
  {
    if n < Radix then [n] else Digits(n / Radix) + [n % Radix]
  }

  method IntToCompressedIndex(num: int) returns (values: seq<int>)
    ensures num >= 0 ==> values == Digits(num)
    ensures num < 0 ==> values == []
  {
    values := [];
    if num == 0 {
      values := [0] + values;
      assert values == [0];
    } else {
      var n := num;
      while n > 0
        invariant num > 0 ==> n >= 0
        invariant num > 0 && n > 0 ==> Digits(num) == Digits(n) + values
        invariant num > 0 && n == 0 ==> Digits(num) == values
        invariant num < 0 ==> n == num && values == []
        decreases n
      {
        var remainder := n % Radix;
        if n >= Radix {
          assert Digits(n) + values == Digits(n / Radix) + ([remainder] + values);
        }
        values := [remainder] + values;
        n := n / Radix;
      }
    }
  }

  /** The value of big-endian base-92 digits: a left fold `num * 92 + digit`. */
  function Value(digits: seq<int>): (num: int)
    ensures InRange(digits) ==> 0 <= num < Pow(|digits|)
  {
    if digits == [] then 0
    else
      var prev := Value(digits[..|digits| - 1]);
      assert InRange(digits) ==> InRange(digits[..|digits| - 1]);
      prev * Radix + digits[|digits| - 1]
  }

  method CompressedIndexToInt(digits: seq<int>) returns (num: int)
    ensures num == Value(digits)
  {
    num := 0;
    for i := 0 to |digits|
      invariant num == Value(digits[..i])
    {
      assert digits[..i + 1][..i] == digits[..i];
      num := num * Radix + digits[i];
    }
    assert digits[..|digits|] == digits;
  }

  lemma {:induction false} DigitsValue(n: nat)
    ensures Value(Digits(n)) == n
    decreases n
  {
    if n >= Radix {
      var ds := Digits(n);
      assert ds[..|ds| - 1] == Digits(n / Radix);
      DigitsValue(n / Radix);
    }
  }

  lemma {:induction false} LeadingDigitBound(ds: seq<int>)
    requires Canonical(ds) && ds[0] != 0
    ensures Value(ds) >= Pow(|ds| - 1)
    decreases |ds|
  {
    if |ds| > 1 {
      var pre := ds[..|ds| - 1];
      assert pre[0] == ds[0];
      LeadingDigitBound(pre);
    }
  }

  /** Every canonical digit sequence is the encoding of its own value, so
      Digits is a bijection between the naturals and the canonical sequences. */
  lemma {:induction false} ValueDigits(ds: seq<int>)
    requires Canonical(ds)
    ensures Value(ds) >= 0 && Digits(Value(ds)) == ds
    decreases |ds|
  {
    if |ds| > 1 {
      var pre, d := ds[..|ds| - 1], ds[|ds| - 1];
      assert pre[0] == ds[0];
      LeadingDigitBound(pre);
      ValueDigits(pre);
      var v := Value(pre);
      var n := v * Radix + d;
      assert n / Radix == v && n % Radix == d;
      assert ds == pre + [d];
    }
  }

  /** A character of the 92-character digit alphabet. */
  predicate IsDigitChar(c: char)
  {
    ' ' <= c <= '~' && c != '*' && c != '+' && c != ';'
  }

  function IntToAscii(num: int): (c: char)
    requires 0 <= num < Radix
    ensures IsDigitChar(c)
    ensures AsciiToInt(c) == num
  {
    var ascii := num + 32;
    var ascii := if ascii >= 42 then ascii + 1 else ascii;
    var ascii := if ascii >= 43 then ascii + 1 else ascii;
    var ascii := if ascii >= 59 then ascii + 1 else ascii;
    ascii as char
  }

  function AsciiToInt(c: char): (num: int)
    ensures IsDigitChar(c) ==> 0 <= num < Radix
  {
    var num := c as int;
    var num := if num >= 59 then num - 1 else num;
    var num := if num >= 43 then num - 1 else num;
    var num := if num >= 42 then num - 1 else num;
    num - 32
  }

  /** The other half of the alphabet bijection. */
  lemma AsciiToIntInverse(c: char)
    requires IsDigitChar(c)
    ensures IntToAscii(AsciiToInt(c)) == c
  {
  }

  /** The characters of a digit sequence (the push_back loops in parseWord and formatCapsBitmap). */
  function DigitsText(ds: seq<int>): (s: string)
    requires InRange(ds)
  {
    seq(|ds|, i requires 0 <= i < |ds| => IntToAscii(ds[i]))
  }

  /** The digit values of a string (the push_back loops in parseCompressed and unformatCapsBitmap). */
  function TextDigits(s: string): seq<int>
  {
    seq(|s|, i requires 0 <= i < |s| => AsciiToInt(s[i]))
  }

  function EncodeIndex(n: nat): string
  {
    DigitsText(Digits(n))
  }

  function DecodeIndex(s: string): int
  {
    Value(TextDigits(s))
  }

  /** Encoded numbers are non-empty, use only the digit alphabet and decode to themselves. */
  lemma EncodeIndexRoundTrip(n: nat)
    ensures |EncodeIndex(n)| >= 1
    ensures forall i :: 0 <= i < |EncodeIndex(n)| ==> IsDigitChar(EncodeIndex(n)[i])
    ensures DecodeIndex(EncodeIndex(n)) == n
  {
    assert TextDigits(EncodeIndex(n)) == Digits(n);
    DigitsValue(n);
  }
}
