/** What compress and decompress promise together: a document whose lines and
    dictionary hold no backslash comes back unchanged, spacing and case
    included; and what decompress does when the capitalisation section is
    missing. */
module DocumentProofs {
  import opened Wrappers
  import opened Text
  import opened Base92
  import opened Dictionary
  import opened Escape
  import opened Token
  import opened Caps
  import opened Document

  // ------------------------------------------------------------ case bits

  lemma {:induction false} CaseBitsAppend(a: string, b: string)
    ensures CaseBits(a + b) == CaseBits(a) + CaseBits(b)
    decreases |a|
  {
    if a == [] {
      assert a + b == b;
    } else {
      var head := if IsAlpha(a[0]) then [IsUpper(a[0])] else [];
      assert (a + b)[0] == a[0] && (a + b)[1..] == a[1..] + b;
      CaseBitsAppend(a[1..], b);
      AppendAssoc(head, CaseBits(a[1..]), CaseBits(b));
    }
  }

  /** The case bits of a line, word by word. */
  function WordsCaseBits(words: seq<string>): seq<bool>
  {
    if words == [] then [] else CaseBits(words[0]) + WordsCaseBits(words[1..])
  }

  /** The separating spaces take no bit. */
  lemma {:induction false} CaseBitsJoin(words: seq<string>)
    requires |words| >= 1
    ensures CaseBits(Join(words, ' ')) == WordsCaseBits(words)
    decreases |words|
  {
    if |words| == 1 {
      assert WordsCaseBits(words[1..]) == [];
      assert CaseBits(words[0]) + [] == CaseBits(words[0]);
    } else {
      var rest := Join(words[1..], ' ');
      CaseBitsAppend(words[0] + [' '], rest);
      CaseBitsAppend(words[0], [' ']);
      assert [' '][1..] == [];
      assert CaseBits(words[0] + [' ']) == CaseBits(words[0]);
      CaseBitsJoin(words[1..]);
    }
  }

  /** `bits` sits in `caps` from position `cursor` on. */
  predicate BitsAt(caps: seq<bool>, cursor: nat, bits: seq<bool>)
  {
    cursor + |bits| <= |caps| && caps[cursor..cursor + |bits|] == bits
  }

  lemma BitsAtSplit(caps: seq<bool>, cursor: nat, a: seq<bool>, b: seq<bool>)
    requires BitsAt(caps, cursor, a + b)
    ensures BitsAt(caps, cursor, a) && BitsAt(caps, cursor + |a|, b)
  {
    assert caps[cursor..cursor + |a|] == (a + b)[..|a|];
    assert caps[cursor + |a|..cursor + |a| + |b|] == (a + b)[|a|..];
  }

  /** One character lowercased and then re-cased from its own bit. */
  lemma CharCaseRoundTrip(w: string, caps: seq<bool>, cursor: nat)
    requires w != [] && BitsAt(caps, cursor, CaseBits(w))
    ensures ApplyCase(Lower(w), caps, cursor)
      == [w[0]] + ApplyCase(Lower(w[1..]), caps, cursor + (if IsAlpha(w[0]) then 1 else 0))
    ensures AlphaCount(Lower(w)) == (if IsAlpha(w[0]) then 1 else 0) + AlphaCount(Lower(w[1..]))
  {
    assert Lower(w)[0] == ToLower(w[0]);
    assert Lower(w)[1..] == Lower(w[1..]);
    if IsAlpha(w[0]) {
      assert caps[cursor] == caps[cursor..cursor + |CaseBits(w)|][0];
    }
  }

  /** Re-applying a word's own case bits to its lowercase form gives the word
      back, and the cursor moves past exactly its bits. */
  lemma {:induction false} WordCaseRoundTrip(w: string, caps: seq<bool>, cursor: nat)
    requires BitsAt(caps, cursor, CaseBits(w))
    ensures ApplyCase(Lower(w), caps, cursor) == w
    ensures AlphaCount(Lower(w)) == |CaseBits(w)|
    decreases |w|
  {
    if w != [] {
      var head := if IsAlpha(w[0]) then [IsUpper(w[0])] else [];
      CharCaseRoundTrip(w, caps, cursor);
      BitsAtSplit(caps, cursor, head, CaseBits(w[1..]));
      WordCaseRoundTrip(w[1..], caps, cursor + |head|);
      assert w == [w[0]] + w[1..];
    }
  }

  function LowerAll(words: seq<string>): seq<string>
  {
    seq(|words|, i requires 0 <= i < |words| => Lower(words[i]))
  }

  /** The first word of a line, cased back from its own bits. */
  lemma LowerAllHead(words: seq<string>, caps: seq<bool>, cursor: nat)
    requires words != [] && BitsAt(caps, cursor, CaseBits(words[0]))
    ensures CaseWords(LowerAll(words), caps, cursor)
      == [words[0]] + CaseWords(LowerAll(words[1..]), caps, cursor + |CaseBits(words[0])|)
    ensures WordsAlpha(LowerAll(words)) == |CaseBits(words[0])| + WordsAlpha(LowerAll(words[1..]))
  {
    assert LowerAll(words)[0] == Lower(words[0]);
    assert LowerAll(words)[1..] == LowerAll(words[1..]);
    WordCaseRoundTrip(words[0], caps, cursor);
  }

  lemma {:induction false} WordsCaseRoundTrip(words: seq<string>, caps: seq<bool>, cursor: nat)
    requires BitsAt(caps, cursor, WordsCaseBits(words))
    ensures CaseWords(LowerAll(words), caps, cursor) == words
    ensures WordsAlpha(LowerAll(words)) == |WordsCaseBits(words)|
    decreases |words|
  {
    if words != [] {
      var first, rest := CaseBits(words[0]), WordsCaseBits(words[1..]);
      BitsAtSplit(caps, cursor, first, rest);
      LowerAllHead(words, caps, cursor);
      WordsCaseRoundTrip(words[1..], caps, cursor + |first|);
      assert words == [words[0]] + words[1..];
    }
  }

  /** A line comes back from its lowercase words and its own case bits. */
  lemma LineCaseRoundTrip(line: string, caps: seq<bool>, cursor: nat)
    requires BitsAt(caps, cursor, CaseBits(line))
    ensures LineText(CaseWords(LowerAll(Fields(line, ' ')), caps, cursor)) == line
    ensures WordsAlpha(LowerAll(Fields(line, ' '))) == |CaseBits(line)|
  {
    var words := Fields(line, ' ');
    JoinFields(line, ' ', []);
    assert [] + line == line;
    CaseBitsJoin(words);
    WordsCaseRoundTrip(words, caps, cursor);
  }

  /** The lowercase words of every line. */
  function LowerFields(lines: seq<string>): seq<seq<string>>
  {
    seq(|lines|, i requires 0 <= i < |lines| => LowerAll(Fields(lines[i], ' ')))
  }

  /** The first line of the document, decoded and cased. */
  lemma CaseLinesHead(lines: seq<string>, caps: seq<bool>, cursor: nat)
    requires lines != [] && BitsAt(caps, cursor, CaseBits(lines[0]))
    ensures CaseLines(LowerFields(lines), caps, cursor)
      == [lines[0]] + CaseLines(LowerFields(lines[1..]), caps, cursor + |CaseBits(lines[0])|)
  {
    assert LowerFields(lines)[0] == LowerAll(Fields(lines[0], ' '));
    assert LowerFields(lines)[1..] == LowerFields(lines[1..]);
    LineCaseRoundTrip(lines[0], caps, cursor);
  }

  /** With the bits of the whole document under the cursor, the one cursor
      that runs across line ends re-applies every line's case exactly. */
  lemma {:induction false} CaseLinesRoundTrip(lines: seq<string>, caps: seq<bool>, cursor: nat)
    requires BitsAt(caps, cursor, DocCaseBits(lines))
    ensures CaseLines(LowerFields(lines), caps, cursor) == lines
    decreases |lines|
  {
    if lines != [] {
      var first, rest := CaseBits(lines[0]), DocCaseBits(lines[1..]);
      BitsAtSplit(caps, cursor, first, rest);
      CaseLinesHead(lines, caps, cursor);
      CaseLinesRoundTrip(lines[1..], caps, cursor + |first|);
      assert lines == [lines[0]] + lines[1..];
    }
  }

  /** Each character of the result is the input's character at that place,
      cased from the bit the running cursor has reached there. */
  lemma {:induction false} ApplyCaseAt(s: string, caps: seq<bool>, cursor: nat, i: nat)
    requires i < |s|
    ensures ApplyCase(s, caps, cursor)[i] == CaseChar(s[i], caps, cursor + AlphaCount(s[..i]))
    decreases i
  {
    var step := if IsAlpha(s[0]) then 1 else 0;
    if i == 0 {
      assert s[..0] == [];
    } else {
      ApplyCaseAt(s[1..], caps, cursor + step, i - 1);
      assert s[..i][0] == s[0] && s[..i][1..] == s[1..][..i - 1];
    }
  }

  /** Once the cursor is past the last bit, case re-application changes nothing. */
  lemma {:induction false} ApplyCasePastEnd(s: string, caps: seq<bool>, cursor: nat)
    requires cursor >= |caps|
    ensures ApplyCase(s, caps, cursor) == s
    decreases |s|
  {
    if s != [] {
      ApplyCasePastEnd(s[1..], caps, cursor + (if IsAlpha(s[0]) then 1 else 0));
      assert s == [s[0]] + s[1..];
    }
  }

  // --------------------------------------------------------------- tokens

  lemma LowerNoBackslash(w: string)
    requires '\\' !in w
    ensures '\\' !in Lower(w)
  {
    assert forall k :: 0 <= k < |w| ==> Lower(w)[k] != '\\';
  }

  lemma FieldNoBackslash(line: string, i: nat)
    requires '\\' !in line && i < |Fields(line, ' ')|
    ensures '\\' !in Fields(line, ' ')[i]
  {
    JoinFields(line, ' ', []);
    assert [] + line == line;
    if '\\' in Fields(line, ' ')[i] {
      JoinHolds(Fields(line, ' '), ' ', i, '\\');
    }
  }

  /** The tokens of a compressed line split back and decode to the line's
      lowercase words. */
  lemma LineTokensRoundTrip(line: string, dict: seq<string>)
    requires '\\' !in line
    requires forall j :: 0 <= j < |dict| ==> '\\' !in dict[j]
    ensures DecodeWords(EscFields(EncodeLine(line, dict)), dict) == LowerAll(Fields(line, ' '))
  {
    var words := Fields(line, ' ');
    var tokens := EncodeWords(words, dict);
    SplitJoinEscaped(tokens);
    forall i | 0 <= i < |words|
      ensures TokenWord(tokens[i], dict) == Lower(words[i])
    {
      FieldNoBackslash(line, i);
      LowerNoBackslash(words[i]);
      TokenRoundTrip(Lower(words[i]), dict);
    }
  }

  lemma BodyTokensRoundTrip(lines: seq<string>, dict: seq<string>)
    requires forall j :: 0 <= j < |dict| ==> '\\' !in dict[j]
    requires forall k :: 0 <= k < |lines| ==> '\\' !in lines[k]
    ensures DecodeTokens(EncodeBody(lines, dict), dict) == LowerFields(lines)
  {
    forall k | 0 <= k < |lines|
      ensures DecodeTokens(EncodeBody(lines, dict), dict)[k] == LowerFields(lines)[k]
    {
      LineTokensRoundTrip(lines[k], dict);
    }
  }

  // ------------------------------------------------------------- envelope

  /** No compressed line reads as the marker: an escaped line can start with
      `\` only when `\` or `;` follows. */
  lemma EncodedLineNotMarker(line: string, dict: seq<string>)
    ensures EncodeLine(line, dict) != Marker
  {
    JoinEscapedHead(EncodeWords(Fields(line, ' '), dict));
    assert Marker[0] == '\\' && Marker[1] == 'U';
  }

  lemma {:induction false} EnvelopeOfCompressed(body: seq<string>, caps: string)
    requires forall k :: 0 <= k < |body| ==> body[k] != Marker
    ensures SplitEnvelope(body + [Marker, caps]) == Envelope(body, Some(caps))
    decreases |body|
  {
    if body == [] {
      assert body + [Marker, caps] == [Marker, caps];
    } else {
      assert (body + [Marker, caps])[1..] == body[1..] + [Marker, caps];
      EnvelopeOfCompressed(body[1..], caps);
      assert body == [body[0]] + body[1..];
    }
  }

  /** Lines with no `\UPR` line are all body, and there is no bitmap. */
  lemma {:induction false} EnvelopeWithoutMarker(lines: seq<string>)
    requires forall k :: 0 <= k < |lines| ==> lines[k] != Marker
    ensures SplitEnvelope(lines) == Envelope(lines, None)
    decreases |lines|
  {
    if lines != [] {
      EnvelopeWithoutMarker(lines[1..]);
      assert lines == [lines[0]] + lines[1..];
    }
  }

  // ------------------------------------------------------------- document

  /** Decompressing a compressed document gives back its lines exactly: words,
      single and repeated spaces, empty lines and case. */
  lemma DocumentRoundTrip(lines: seq<string>, dict: seq<string>)
    requires dict != []
    requires forall j :: 0 <= j < |dict| ==> '\\' !in dict[j]
    requires forall k :: 0 <= k < |lines| ==> '\\' !in lines[k]
    ensures CompressDoc(lines, dict).Ok?
    ensures DecompressDoc(CompressDoc(lines, dict).value, dict) == Ok(lines)
  {
    var body := EncodeBody(lines, dict);
    var bits := DocCaseBits(lines);
    forall k | 0 <= k < |body|
      ensures body[k] != Marker
    {
      EncodedLineNotMarker(lines[k], dict);
    }
    EnvelopeOfCompressed(body, CapsText(bits));
    CapsRoundTrip(bits);
    BodyTokensRoundTrip(lines, dict);
    assert bits[0..|bits|] == bits;
    CaseLinesRoundTrip(lines, bits, 0);
  }

  lemma {:induction false} CaseWordsNoBits(words: seq<string>, cursor: nat)
    ensures CaseWords(words, [], cursor) == words
    decreases |words|
  {
    if words != [] {
      ApplyCasePastEnd(words[0], [], cursor);
      CaseWordsNoBits(words[1..], cursor + AlphaCount(words[0]));
      assert words == [words[0]] + words[1..];
    }
  }

  /** The decoded lines as they stand, with no case re-applied. */
  function PlainLines(lineWords: seq<seq<string>>): seq<string>
  {
    seq(|lineWords|, i requires 0 <= i < |lineWords| => LineText(lineWords[i]))
  }

  lemma {:induction false} CaseLinesNoBits(lineWords: seq<seq<string>>, cursor: nat)
    ensures CaseLines(lineWords, [], cursor) == PlainLines(lineWords)
    decreases |lineWords|
  {
    if lineWords != [] {
      CaseWordsNoBits(lineWords[0], cursor);
      CaseLinesNoBits(lineWords[1..], cursor + WordsAlpha(lineWords[0]));
      assert PlainLines(lineWords) == [LineText(lineWords[0])] + PlainLines(lineWords[1..]);
    }
  }

  /** Without a `\UPR` line every line is body and decodes with no case
      re-applied. */
  lemma MissingMarker(lines: seq<string>, dict: seq<string>)
    requires dict != []
    requires forall k :: 0 <= k < |lines| ==> lines[k] != Marker
    ensures DecompressDoc(lines, dict) == Ok(PlainLines(DecodeTokens(lines, dict)))
  {
    EnvelopeWithoutMarker(lines);
    CaseLinesNoBits(DecodeTokens(lines, dict), 0);
  }

  lemma ExampleFields()
    ensures Fields("The CAT", ' ') == ["The", "CAT"]
  {
    assert "The CAT" == "The" + [' '] + "CAT";
    FieldsAfterPart("The", "CAT", ' ');
    FieldsOfPart("CAT", [], ' ', []);
    assert "CAT" + [] == "CAT" && [] + "CAT" == "CAT";
  }

  lemma ExampleTokens()
    ensures WordToken("the", ["the", "cat"]) == " "
    ensures WordToken("cat", ["the", "cat"]) == "!"
  {
    var dict := ["the", "cat"];
    assert FirstIndex("the", dict) == 0 && FirstIndex("cat", dict) == 1;
    assert Digits(0) == [0] && Digits(1) == [1];
    assert EncodeIndex(0) == " " && EncodeIndex(1) == "!";
  }

  /** "The CAT" with the dictionary [the, cat] compresses to the index
      tokens of "the" and "cat" joined by `;`. */
  lemma ExampleWords()
    ensures EncodeWords(["The", "CAT"], ["the", "cat"]) == [" ", "!"]
  {
    ExampleTokens();
    assert Lower("The") == "the" && Lower("CAT") == "cat";
  }

  lemma ExampleLine()
    ensures EncodeLine("The CAT", ["the", "cat"]) == " ;!"
  {
    ExampleFields();
    ExampleWords();
    assert Escaped(" ") == " " && Escaped("!") == "!";
    assert EscapeAll([" ", "!"]) == [" ", "!"];
  }

  /** The case bits of "The CAT": one per letter, true for T, C, A and T. */
  lemma ExampleCaseBits()
    ensures CaseBits("The CAT") == [true, false, false, true, true, true]
  {
    var s := "The CAT";
    ExampleCaseBitsOfCat();
    assert s[3..] == " CAT";
    assert CaseBits(s[2..]) == [false, true, true, true];
    assert CaseBits(s[1..]) == [false, false, true, true, true];
  }

  lemma ExampleCaseBitsOfCat()
    ensures CaseBits(" CAT") == [true, true, true]
  {
    var s := " CAT";
    assert s[1..][1..][1..][1..] == [];
    assert CaseBits(s[3..]) == [true];
    assert CaseBits(s[2..]) == [true, true];
    assert CaseBits(s[1..]) == [true, true, true];
  }

  /** The bits of "The CAT" (T, h, e, C, A, T) as bitmap text: `;` for T, the
      run of two written as the digit `"`, then `;;;`. */
  lemma ExampleCaps()
    ensures CapsText([true, false, false, true, true, true]) == ";\";;;"
  {
    assert CapsTextFrom([], 0) == [];
    assert CapsTextFrom([true], 0) == ";";
    assert CapsTextFrom([true, true], 0) == ";;";
    assert Digits(2) == [2] && EncodeIndex(2) == "\"";
    assert CapsTextFrom([true, true, true], 2) == "\";;;";
    assert CapsTextFrom([false, true, true, true], 1) == "\";;;";
    assert CapsTextFrom([false, false, true, true, true], 0) == "\";;;";
  }
}
