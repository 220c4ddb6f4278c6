/** The capitalisation bitmap codec: each run of `false` is written as the
    base-92 digits of its length (nothing for an empty run) and each `true`
    as one `;`. */
module Caps {
  import opened Wrappers
  import opened Text
  import opened Base92

  /** The digits written for a run of `run` falses. */
  function RunText(run: nat): string
  {
    if run == 0 then [] else EncodeIndex(run)
  }

  /** The bitmap text of `bits`, after a pending run of `run` falses. */
  function CapsTextFrom(bits: seq<bool>, run: nat): string
  {
    if bits == [] then RunText(run)
    else if bits[0] then RunText(run) + [';'] + CapsTextFrom(bits[1..], 0)
    else CapsTextFrom(bits[1..], run + 1)
  }

  function CapsText(bits: seq<bool>): string
  {
    CapsTextFrom(bits, 0)
  }

  function Falses(n: nat): (r: seq<bool>)
    ensures |r| == n && false !in r[..0] && forall i :: 0 <= i < n ==> !r[i]
  {
    seq(n, _ => false)
  }

  function Prepend(prefix: seq<bool>, rest: Option<seq<bool>>): Option<seq<bool>>
  {
    match rest
    case None => None
    case Some(bits) => Some(prefix + bits)
  }

  lemma PrependAppend(bits: seq<bool>, prefix: seq<bool>, rest: Option<seq<bool>>)
    ensures Prepend(bits, Prepend(prefix, rest)) == Prepend(bits + prefix, rest)
    ensures Prepend([], rest) == rest
  {
    match rest
    case None =>
    case Some(r) =>
      assert bits + (prefix + r) == (bits + prefix) + r;
      assert [] + r == r;
  }

  /** The bits a bitmap text decodes to, or None when a run decodes to a
      negative length (possible only for characters below the alphabet). */
  function CapsBits(text: string): Option<seq<bool>>
    decreases |text|
  {
    if text == [] then Some([])
    else if text[0] == ';' then Prepend([true], CapsBits(text[1..]))
    else
      var k := IndexOfChar(text, ';');
      var runLength := DecodeIndex(text[..k]);
      if runLength < 0 then None else Prepend(Falses(runLength), CapsBits(text[k..]))
  }

  method FormatCapsBitmap(caps: seq<bool>) returns (res: string)
    ensures res == CapsText(caps)
  {
    res := "";
    var run: nat := 0;
    for i := 0 to |caps|
      invariant res + CapsTextFrom(caps[i..], run) == CapsText(caps)
    {
      assert caps[i..][1..] == caps[i + 1..];
      if caps[i] {
        if run != 0 {
          var digits := IntToCompressedIndex(run);
          res := res + DigitsText(digits);
          run := 0;
        }
        res := res + [';'];
      } else {
        run := run + 1;
      }
    }
    if run != 0 {
      var digits := IntToCompressedIndex(run);
      res := res + DigitsText(digits);
    }
  }

  /** How CapsBits reads a run of digits that stops at index `i` of `caps`. */
  lemma CapsBitsRun(caps: string, start: nat, i: nat)
    requires start < i <= |caps| && caps[start] != ';'
    requires ';' !in caps[start..i] && (i == |caps| || caps[i] == ';')
    ensures var runLength := Value(TextDigits(caps[start..i]));
      CapsBits(caps[start..]) == if runLength < 0 then None
        else Prepend(Falses(runLength), CapsBits(caps[i..]))
  {
    var rest := caps[start..];
    assert rest[..i - start] == caps[start..i] && rest[i - start..] == caps[i..];
    IndexOfCharUnique(rest, ';', i - start);
  }

  /** How CapsBits reads a `;` at index `i` of `caps`. */
  lemma CapsBitsTrue(caps: string, i: nat)
    requires i < |caps| && caps[i] == ';'
    ensures CapsBits(caps[i..]) == Prepend([true], CapsBits(caps[i + 1..]))
  {
    assert caps[i..][1..] == caps[i + 1..];
  }

  /** The digit values of the run that starts at `start`, and the index where
      it stops: the next `;` or the end of `caps`. */
  method ReadDigits(caps: string, start: nat) returns (digits: seq<int>, end: nat)
    requires start <= |caps|
    ensures start <= end <= |caps| && (end == |caps| || caps[end] == ';')
    ensures ';' !in caps[start..end]
    ensures digits == TextDigits(caps[start..end])
  {
    digits := [];
    end := start;
    while end < |caps| && caps[end] != ';'
      invariant start <= end <= |caps|
      invariant |digits| == end - start
      invariant forall k :: start <= k < end ==> digits[k - start] == AsciiToInt(caps[k]) && caps[k] != ';'
    {
      digits := digits + [AsciiToInt(caps[end])];
      end := end + 1;
    }
  }

  method UnformatCapsBitmap(caps: string) returns (res: Option<seq<bool>>)
    ensures res == CapsBits(caps)
  {
    var bits: seq<bool> := [];
    var i := 0;
    PrependAppend(bits, [], CapsBits(caps));
    assert caps[0..] == caps;
    while i < |caps|
      invariant 0 <= i <= |caps|
      invariant CapsBits(caps) == Prepend(bits, CapsBits(caps[i..]))
    {
      if caps[i] == ';' {
        CapsBitsTrue(caps, i);
        PrependAppend(bits, [true], CapsBits(caps[i + 1..]));
        bits := bits + [true];
        i := i + 1;
      } else {
        var start := i;
        var digits;
        digits, i := ReadDigits(caps, start);
        var runLength := CompressedIndexToInt(digits);
        CapsBitsRun(caps, start, i);
        if runLength < 0 {
          return None;
        }
        PrependAppend(bits, Falses(runLength), CapsBits(caps[i..]));
        bits := bits + Falses(runLength);
      }
    }
    assert caps[i..] == [] && bits + [] == bits;
    res := Some(bits);
  }

  /** A run's digits followed by a `;` or the end decode to that many falses. */
  lemma RunThenRest(run: nat, rest: string)
    requires run > 0
    requires rest == [] || rest[0] == ';'
    ensures CapsBits(EncodeIndex(run) + rest) == Prepend(Falses(run), CapsBits(rest))
  {
    var e := EncodeIndex(run);
    var text := e + rest;
    EncodeIndexRoundTrip(run);
    assert text[..|e|] == e && text[|e|..] == rest;
    assert text[0] == e[0];
    IndexOfCharUnique(text, ';', |e|);
  }

  /** A run followed by a `true` decodes to that many falses and then `true`. */
  lemma RunThenTrue(run: nat, tail: string, rest: seq<bool>)
    requires CapsBits(tail) == Some(rest)
    ensures CapsBits(RunText(run) + [';'] + tail) == Some(Falses(run) + [true] + rest)
  {
    var st := [';'] + tail;
    assert st[0] == ';' && st[1..] == tail;
    assert CapsBits(st) == Some([true] + rest);
    assert RunText(run) + [';'] + tail == RunText(run) + st;
    if run > 0 {
      RunThenRest(run, st);
      assert Falses(run) + ([true] + rest) == Falses(run) + [true] + rest;
    } else {
      assert RunText(run) + st == st;
      assert Falses(run) + [true] + rest == [true] + rest;
    }
  }

  /** A pending run at the end of the bits decodes to that many falses. */
  lemma RunAtEnd(run: nat)
    ensures CapsBits(CapsTextFrom([], run)) == Some(Falses(run))
  {
    if run > 0 {
      RunThenRest(run, []);
      assert EncodeIndex(run) + [] == EncodeIndex(run);
    }
    assert Falses(run) + [] == Falses(run);
  }

  lemma FalsesTrue(run: nat, bits: seq<bool>)
    requires bits != [] && bits[0]
    ensures Falses(run) + [true] + bits[1..] == Falses(run) + bits
  {
    assert bits == [true] + bits[1..];
  }

  lemma FalsesFalse(run: nat, bits: seq<bool>)
    requires bits != [] && !bits[0]
    ensures Falses(run + 1) + bits[1..] == Falses(run) + bits
  {
    assert Falses(run + 1) == Falses(run) + [false];
    assert bits == [false] + bits[1..];
  }

  lemma {:induction false} CapsRoundTripFrom(bits: seq<bool>, run: nat)
    ensures CapsBits(CapsTextFrom(bits, run)) == Some(Falses(run) + bits)
    decreases |bits|
  {
    if bits == [] {
      RunAtEnd(run);
      assert Falses(run) + bits == Falses(run);
    } else if bits[0] {
      CapsRoundTripFrom(bits[1..], 0);
      assert Falses(0) + bits[1..] == bits[1..];
      RunThenTrue(run, CapsTextFrom(bits[1..], 0), bits[1..]);
      FalsesTrue(run, bits);
    } else {
      CapsRoundTripFrom(bits[1..], run + 1);
      FalsesFalse(run, bits);
    }
  }

  /** Decoding the bitmap text gives back every bit sequence, including the
      empty, all-true and all-false ones. */
  lemma CapsRoundTrip(bits: seq<bool>)
    ensures CapsBits(CapsText(bits)) == Some(bits)
  {
    CapsRoundTripFrom(bits, 0);
    assert Falses(0) + bits == bits;
  }

  lemma RunTextShape(run: nat)
    ensures ';' !in RunText(run)
    ensures forall c :: c in RunText(run) ==> IsDigitChar(c)
  {
    if run > 0 {
      EncodeIndexRoundTrip(run);
    }
  }

  lemma CountHead(bits: seq<bool>)
    requires bits != []
    ensures multiset(bits)[true] == (if bits[0] then 1 else 0) + multiset(bits[1..])[true]
  {
    assert bits == [bits[0]] + bits[1..];
  }

  lemma CountSeparator(run: nat, tail: string)
    ensures multiset(RunText(run) + [';'] + tail)[';'] == 1 + multiset(tail)[';']
  {
    RunTextShape(run);
    assert multiset(RunText(run))[';'] == 0;
  }

  lemma {:induction false} CapsTextFromCount(bits: seq<bool>, run: nat)
    ensures multiset(CapsTextFrom(bits, run))[';'] == multiset(bits)[true]
    decreases |bits|
  {
    if bits == [] {
      RunTextShape(run);
      assert multiset(RunText(run))[';'] == 0;
    } else {
      CountHead(bits);
      if bits[0] {
        CapsTextFromCount(bits[1..], 0);
        CountSeparator(run, CapsTextFrom(bits[1..], 0));
      } else {
        CapsTextFromCount(bits[1..], run + 1);
      }
    }
  }

  lemma {:induction false} CapsTextFromAlphabet(bits: seq<bool>, run: nat)
    ensures forall c :: c in CapsTextFrom(bits, run) ==> c == ';' || IsDigitChar(c)
    decreases |bits|
  {
    RunTextShape(run);
    if bits != [] {
      if bits[0] {
        var tail := CapsTextFrom(bits[1..], 0);
        CapsTextFromAlphabet(bits[1..], 0);
        assert CapsTextFrom(bits, run) == RunText(run) + ([';'] + tail);
      } else {
        CapsTextFromAlphabet(bits[1..], run + 1);
      }
    }
  }

  /** The bitmap text holds one `;` per `true`, and every other character is a
      digit character. */
  lemma CapsTextShape(bits: seq<bool>)
    ensures multiset(CapsText(bits))[';'] == multiset(bits)[true]
    ensures forall c :: c in CapsText(bits) ==> c == ';' || IsDigitChar(c)
  {
    CapsTextFromCount(bits, 0);
    CapsTextFromAlphabet(bits, 0);
  }
}
