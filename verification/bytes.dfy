/** Byte helpers: bits packed most-significant-first into bytes, and a byte
    buffer read as one big-endian number written in base-92 digits. Neither is
    on the compress/decompress path. */
module Bytes {
  import opened Base92

  /** An unsigned 8-bit value, as uint8_t. */
  newtype uint8 = x: int | 0 <= x < 256

  /** The mask of bit k of a byte, counting from the most significant bit. */
  function Mask(k: nat): bv8
    requires k < 8
  {
    1 << (7 - k)
  }

  /** Bit k of a byte, counting from the most significant bit. */
  predicate Bit(b: uint8, k: nat)
    requires k < 8
  {
    b as bv8 & Mask(k) != 0
  }

  lemma OrMask(x: bv8, k: nat, j: nat)
    requires k < 8 && j < 8
    ensures (x | Mask(k)) & Mask(j) != 0 <==> j == k || x & Mask(j) != 0
  {
  }

  lemma BitsOfByte(x: bv8)
    ensures (x as int) < 256 && ((x as int) as uint8) as bv8 == x
  {
  }

  /** The byte with bit k set (`b |= mask`). */
  function SetBit(b: uint8, k: nat): uint8
    requires k < 8
  {
    BitsOfByte(b as bv8 | Mask(k));
    (b as bv8 | Mask(k)) as uint8
  }

  lemma SetBitSpec(b: uint8, k: nat, j: nat)
    requires k < 8 && j < 8
    ensures Bit(SetBit(b, k), j) == (j == k || Bit(b, j))
  {
    var x := b as bv8 | Mask(k);
    BitsOfByte(x);
    OrMask(b as bv8, k, j);
  }

  /** Bit i of a packed buffer: bit i % 8 of byte i / 8. */
  predicate BitAt(bytes: seq<uint8>, i: nat)
    requires i < 8 * |bytes|
  {
    Bit(bytes[i / 8], i % 8)
  }

  method PackBits(bits: seq<bool>) returns (packed: seq<uint8>)
    ensures |packed| == (|bits| + 7) / 8
    ensures forall i :: 0 <= i < |bits| ==> BitAt(packed, i) == bits[i]
    ensures forall i :: |bits| <= i < 8 * |packed| ==> !BitAt(packed, i)
  {
    var bytes := new uint8[(|bits| + 7) / 8](_ => 0);
    assert forall j :: 0 <= j < 8 ==> !Bit(0, j);
    for i := 0 to |bits|
      invariant forall k :: 0 <= k < i ==> BitAt(bytes[..], k) == bits[k]
      invariant forall k :: i <= k < 8 * bytes.Length ==> !BitAt(bytes[..], k)
    {
      if bits[i] {
        ghost var before := bytes[..];
        bytes[i / 8] := SetBit(bytes[i / 8], i % 8);
        forall k | 0 <= k < 8 * bytes.Length
          ensures BitAt(bytes[..], k) == (k == i || BitAt(before, k))
        {
          if k / 8 == i / 8 {
            SetBitSpec(before[i / 8], i % 8, k % 8);
            assert k % 8 == i % 8 <==> k == i;
          }
        }
      }
    }
    packed := bytes[..];
  }

  method UnpackBits(bytes: seq<uint8>, totalBits: nat) returns (bits: seq<bool>)
    requires totalBits <= 8 * |bytes|
    ensures |bits| == totalBits
    ensures forall i :: 0 <= i < totalBits ==> bits[i] == BitAt(bytes, i)
  {
    bits := [];
    for i := 0 to totalBits
      invariant |bits| == i
      invariant forall k :: 0 <= k < i ==> bits[k] == BitAt(bytes, k)
    {
      var b := bytes[i / 8];
      var bit := Bit(b, i % 8);
      bits := bits + [bit];
    }
  }

  /** Unpacking as many bits as were packed gives them back. */
  method PackUnpackRoundTrip(bits: seq<bool>) returns (back: seq<bool>)
    ensures back == bits
  {
    var packed := PackBits(bits);
    back := UnpackBits(packed, |bits|);
  }

  function Reverse<T>(s: seq<T>): (r: seq<T>)
    ensures |r| == |s|
    ensures forall i :: 0 <= i < |s| ==> r[i] == s[|s| - 1 - i]
  {
    if s == [] then [] else Reverse(s[1..]) + [s[0]]
  }

  /** The big-endian value of a byte buffer. */
  function BigEndian(s: seq<uint8>): nat
  {
    if s == [] then 0 else BigEndian(s[..|s| - 1]) * 256 + s[|s| - 1] as int
  }

  /** The little-endian value of a byte buffer. */
  function LittleEndian(s: seq<uint8>): nat
  {
    if s == [] then 0 else s[0] as int + 256 * LittleEndian(s[1..])
  }

  function Pow256(e: nat): (r: nat)
    ensures r >= 1
  {
    if e == 0 then 1 else 256 * Pow256(e - 1)
  }

  lemma {:induction false} LittleEndianAppend(s: seq<uint8>, b: uint8)
    ensures LittleEndian(s + [b]) == LittleEndian(s) + Pow256(|s|) * b as int
    decreases |s|
  {
    if s != [] {
      assert (s + [b])[1..] == s[1..] + [b];
      LittleEndianAppend(s[1..], b);
    } else {
      assert (s + [b])[1..] == [];
    }
  }

  /** Reading a buffer backwards turns little-endian into big-endian. */
  lemma {:induction false} ReverseEndian(s: seq<uint8>)
    ensures BigEndian(Reverse(s)) == LittleEndian(s)
    decreases |s|
  {
    if s != [] {
      var r := Reverse(s);
      assert r[..|r| - 1] == Reverse(s[1..]);
      ReverseEndian(s[1..]);
    }
  }

  /** A buffer without a superfluous leading zero byte. */
  predicate Trimmed(s: seq<uint8>)
  {
    |s| >= 1 && (s[0] != 0 || |s| == 1)
  }

  lemma {:induction false} TrimmedPositive(s: seq<uint8>)
    requires Trimmed(s) && s != [0]
    ensures BigEndian(s) > 0
    decreases |s|
  {
    if |s| > 1 {
      var pre := s[..|s| - 1];
      assert pre[0] == s[0] && pre != [0];
      TrimmedPositive(pre);
    }
  }

  /** One pass of the long division by 92 in encodeBytesToBase92. */
  method DivideBy92(bytes: seq<uint8>) returns (quotient: seq<uint8>, remainder: int)
    ensures 0 <= remainder < Radix
    ensures Trimmed(quotient)
    ensures BigEndian(bytes) == BigEndian(quotient) * Radix + remainder
  {
    remainder := 0;
    quotient := [];
    for i := 0 to |bytes|
      invariant 0 <= remainder < Radix
      invariant quotient == [] || quotient[0] != 0
      invariant BigEndian(bytes[..i]) == BigEndian(quotient) * Radix + remainder
    {
      var acc := remainder * 256 + bytes[i] as int;
      var digit := acc / Radix;
      assert bytes[..i + 1][..i] == bytes[..i];
      assert BigEndian(bytes[..i + 1]) == BigEndian(quotient) * Radix * 256 + acc;
      remainder := acc % Radix;
      if |quotient| != 0 || digit != 0 {
        var q := quotient + [digit as uint8];
        assert q[..|q| - 1] == quotient;
        quotient := q;
      }
    }
    assert bytes[..|bytes|] == bytes;
    if |quotient| == 0 {
      quotient := [0];
    }
  }

  /** Emitting the low digit of `v` moves it from the pending digits to the
      reversed output. */
  lemma EmitDigit(v: nat, emitted: seq<int>)
    ensures v >= Radix ==> Digits(v) + Reverse(emitted) == Digits(v / Radix) + Reverse(emitted + [v % Radix])
    ensures v < Radix ==> Digits(v) + Reverse(emitted) == Reverse(emitted + [v % Radix])
  {
    var r := v % Radix;
    var e := emitted + [r];
    assert Reverse(e) == [r] + Reverse(emitted);
    if v >= Radix {
      assert Digits(v) == Digits(v / Radix) + [r];
    }
  }

  /** One division step of EncodeBytesToBase92, stated as the loop needs it:
      `v` splits into quotient `q` and digit `r`, and the digits still pending
      shrink to those of `q`. */
  lemma EmitStep(value: nat, v: nat, q: nat, r: int, emitted: seq<int>, started: bool)
    requires v == q * Radix + r && 0 <= r < Radix
    requires started ==> v > 0 && Digits(value) == Digits(v) + Reverse(emitted)
    requires !started ==> value == v && emitted == []
    ensures q > 0 ==> Digits(value) == Digits(q) + Reverse(emitted + [r])
    ensures q == 0 ==> Digits(value) == Reverse(emitted + [r])
  {
    assert q == v / Radix && r == v % Radix;
    EmitDigit(v, emitted);
  }

  lemma ReverseDigitsText(ds: seq<int>)
    requires InRange(ds)
    ensures InRange(Reverse(ds)) && Reverse(DigitsText(ds)) == DigitsText(Reverse(ds))
  {
  }

  method EncodeBytesToBase92(input: seq<uint8>) returns (encoded: string)
    ensures input == [] || input == [0] ==> encoded == []
    ensures input != [] && input != [0] ==> encoded == EncodeIndex(BigEndian(input))
  {
    if |input| == 0 {
      return "";
    }
    var bytes := input;
    var result := "";
    ghost var started := false;
    ghost var emitted: seq<int> := [];
    ghost var value := BigEndian(input);
    while !(|bytes| == 1 && bytes[0] == 0)
      invariant |bytes| >= 1
      invariant !started ==> bytes == input && result == [] && emitted == []
      invariant started ==> Trimmed(bytes) && input != [0]
      invariant InRange(emitted) && result == DigitsText(emitted)
      invariant started && BigEndian(bytes) > 0 ==> Digits(value) == Digits(BigEndian(bytes)) + Reverse(emitted)
      invariant started && BigEndian(bytes) == 0 ==> Digits(value) == Reverse(emitted)
      decreases !started, BigEndian(bytes)
    {
      var newBytes, remainder := DivideBy92(bytes);
      ghost var v := BigEndian(bytes);
      if started {
        TrimmedPositive(bytes);
      }
      EmitStep(value, v, BigEndian(newBytes), remainder, emitted, started);
      bytes := newBytes;
      result := result + [IntToAscii(remainder)];
      emitted := emitted + [remainder];
      started := true;
    }
    assert BigEndian(bytes) == 0;
    ReverseDigitsText(emitted);
    encoded := Reverse(result);
    assert started ==> encoded == DigitsText(Digits(value));
  }

  /** The arithmetic of one step of MultiplyAdd92, over plain integers. */
  lemma MultiplyAddStep(p: int, rest: int, b: int, carry: int)
    ensures var acc := b * 92 + carry;
      p * ((b + 256 * rest) * 92 + carry) == p * (acc % 256) + (256 * p) * (rest * 92 + acc / 256)
  {
    var acc := b * 92 + carry;
    var x, y := acc % 256, acc / 256;
    assert acc == 256 * y + x;
    assert (b + 256 * rest) * 92 + carry == x + 256 * (rest * 92 + y);
    assert p * (x + 256 * (rest * 92 + y)) == p * x + (256 * p) * (rest * 92 + y);
  }

  lemma CarryStep(p: int, carry: int)
    ensures p * carry == p * (carry % 256) + (256 * p) * (carry / 256)
  {
    var x, y := carry % 256, carry / 256;
    assert carry == 256 * y + x;
    assert p * (256 * y + x) == p * x + (256 * p) * y;
  }

  /** One digit folded into a little-endian buffer: `bytes * 92 + val`. The
      source's `acc & 0xFF` and `acc >> 8` are `acc % 256` and `acc / 256`
      here, which agree with them for negative `acc` too. */
  method MultiplyAdd92(bytes: seq<uint8>, val: int) returns (result: seq<uint8>)
    requires |bytes| >= 1
    ensures |result| >= |bytes|
    ensures val >= 0 ==> LittleEndian(result) == LittleEndian(bytes) * Radix + val
    ensures val >= 0 && (|bytes| == 1 || bytes[|bytes| - 1] != 0) ==> |result| == 1 || result[|result| - 1] != 0
  {
    result := [];
    var carry := val;
    for i := 0 to |bytes|
      invariant |result| == i
      invariant val >= 0 ==> carry >= 0
      invariant val >= 0 ==> (LittleEndian(bytes) * Radix + val
        == LittleEndian(result) + Pow256(i) * (LittleEndian(bytes[i..]) * Radix + carry))
      invariant val >= 0 && i == |bytes| && (|bytes| == 1 || bytes[|bytes| - 1] != 0) ==>
        carry > 0 || |result| == 1 || result[|result| - 1] != 0
    {
      var acc := bytes[i] as int * Radix + carry;
      assert bytes[i..][1..] == bytes[i + 1..];
      MultiplyAddStep(Pow256(i), LittleEndian(bytes[i + 1..]), bytes[i] as int, carry);
      LittleEndianAppend(result, (acc % 256) as uint8);
      result := result + [(acc % 256) as uint8];
      carry := acc / 256;
    }
    while carry > 0
      invariant val >= 0 ==> carry >= 0
      invariant val >= 0 ==> LittleEndian(bytes) * Radix + val == LittleEndian(result) + Pow256(|result|) * carry
      invariant |result| >= |bytes|
      invariant val >= 0 && (|bytes| == 1 || bytes[|bytes| - 1] != 0) ==>
        carry > 0 || |result| == 1 || result[|result| - 1] != 0
      decreases carry
    {
      CarryStep(Pow256(|result|), carry);
      LittleEndianAppend(result, (carry % 256) as uint8);
      result := result + [(carry % 256) as uint8];
      carry := carry / 256;
    }
  }

  method DecodeBase92ToBytes(input: string) returns (decoded: seq<uint8>)
    ensures |decoded| >= 1
    ensures input == [] ==> decoded == [0]
    ensures (forall i :: 0 <= i < |input| ==> AsciiToInt(input[i]) >= 0) ==>
      BigEndian(decoded) == DecodeIndex(input)
    ensures (forall i :: 0 <= i < |input| ==> AsciiToInt(input[i]) >= 0) ==> Trimmed(decoded)
  {
    var bytes: seq<uint8> := [0];
    for j := 0 to |input|
      invariant |bytes| >= 1
      invariant j == 0 ==> bytes == [0]
      invariant (forall i :: 0 <= i < j ==> AsciiToInt(input[i]) >= 0) ==>
        LittleEndian(bytes) == DecodeIndex(input[..j])
      invariant (forall i :: 0 <= i < j ==> AsciiToInt(input[i]) >= 0) ==>
        |bytes| == 1 || bytes[|bytes| - 1] != 0
    {
      var val := AsciiToInt(input[j]);
      assert TextDigits(input[..j + 1]) == TextDigits(input[..j]) + [val];
      bytes := MultiplyAdd92(bytes, val);
    }
    assert input[..|input|] == input;
    ReverseEndian(bytes);
    decoded := Reverse(bytes);
  }

  /** Decoding what was encoded keeps the buffer's big-endian value but not
      its leading zero bytes; an empty buffer comes back as the single byte 0. */
  method Base92RoundTrip(bytes: seq<uint8>) returns (back: seq<uint8>)
    ensures BigEndian(back) == BigEndian(bytes)
    ensures bytes == [] ==> back == [0]
    ensures Trimmed(back)
  {
    var encoded := EncodeBytesToBase92(bytes);
    if encoded != [] {
      EncodeIndexRoundTrip(BigEndian(bytes));
    }
    back := DecodeBase92ToBytes(encoded);
  }
}
