/** The document transform: compress turns text lines into compressed lines
    followed by the `\UPR` marker line and the capitalisation bitmap line;
    decompress reads that envelope back, decodes every token and re-applies
    case from one document-wide bit cursor. */
module Document {
  import opened Wrappers
  import opened Text
  import opened Escape
  import opened Token
  import opened Caps

  const Marker: string := "\\UPR"

  // ---------------------------------------------------------------- case bits

  /** One bit per alphabetic character of `s`, in order, true iff uppercase. */
  function CaseBits(s: string): (bits: seq<bool>)
    ensures |bits| == AlphaCount(s)
  {
    if s == [] then []
    else (if IsAlpha(s[0]) then [IsUpper(s[0])] else []) + CaseBits(s[1..])
  }

  function AlphaCount(s: string): nat
  {
    if s == [] then 0 else (if IsAlpha(s[0]) then 1 else 0) + AlphaCount(s[1..])
  }

  /** `s` with case re-applied from bit `cursor` of `caps` on: each alphabetic
      character takes the next bit and is uppercased iff that bit exists and is
      true; other characters take no bit and stay as they are. */
  function ApplyCase(s: string, caps: seq<bool>, cursor: nat): (r: string)
    ensures |r| == |s|
  {
    if s == [] then []
    else if IsAlpha(s[0]) then
      [if cursor < |caps| && caps[cursor] then ToUpper(s[0]) else s[0]] + ApplyCase(s[1..], caps, cursor + 1)
    else [s[0]] + ApplyCase(s[1..], caps, cursor)
  }

  /** The bits recorded for the whole document, line after line. */
  function DocCaseBits(lines: seq<string>): seq<bool>
  {
    if lines == [] then [] else CaseBits(lines[0]) + DocCaseBits(lines[1..])
  }

  // ----------------------------------------------------------------- compress

  /** The tokens of the words of one line: each lowercased and encoded. */
  function EncodeWords(words: seq<string>, dict: seq<string>): (tokens: seq<string>)
    ensures forall i :: 0 <= i < |tokens| ==> tokens[i] != []
  {
    seq(|words|, i requires 0 <= i < |words| => WordToken(Lower(words[i]), dict))
  }

  /** A compressed line: its space-separated words, lowercased, encoded,
      escaped and joined with `;`. */
  function EncodeLine(line: string, dict: seq<string>): string
  {
    JoinEscaped(EncodeWords(Fields(line, ' '), dict))
  }

  function EncodeBody(lines: seq<string>, dict: seq<string>): seq<string>
  {
    seq(|lines|, i requires 0 <= i < |lines| => EncodeLine(lines[i], dict))
  }

  function CompressDoc(lines: seq<string>, dict: seq<string>): Result<seq<string>>
  {
    if dict == [] then Err(MissingDictionary)
    else Ok(EncodeBody(lines, dict) + [Marker, CapsText(DocCaseBits(lines))])
  }

  // --------------------------------------------------------------- decompress

  datatype Envelope = Envelope(body: seq<string>, caps: Option<string>)

  /** The lines before the first `\UPR` line, and the one line after it (empty
      when the file ends there), or every line and None when there is no marker. */
  function SplitEnvelope(lines: seq<string>): Envelope
  {
    if lines == [] then Envelope([], None)
    else if lines[0] == Marker then Envelope([], Some(if |lines| > 1 then lines[1] else []))
    else
      var rest := SplitEnvelope(lines[1..]);
      Envelope([lines[0]] + rest.body, rest.caps)
  }

  /** The decoded, still lowercase, words of the tokens of one line. */
  function DecodeWords(tokens: seq<string>, dict: seq<string>): seq<string>
  {
    seq(|tokens|, i requires 0 <= i < |tokens| => TokenWord(tokens[i], dict))
  }

  /** The decoded words of every body line. */
  function DecodeTokens(body: seq<string>, dict: seq<string>): seq<seq<string>>
  {
    seq(|body|, i requires 0 <= i < |body| => DecodeWords(EscFields(body[i]), dict))
  }

  function WordsAlpha(words: seq<string>): nat
  {
    if words == [] then 0 else AlphaCount(words[0]) + WordsAlpha(words[1..])
  }

  /** Case re-applied word after word, the cursor running on from word to word. */
  function CaseWords(words: seq<string>, caps: seq<bool>, cursor: nat): (r: seq<string>)
    ensures |r| == |words|
  {
    if words == [] then []
    else [ApplyCase(words[0], caps, cursor)] + CaseWords(words[1..], caps, cursor + AlphaCount(words[0]))
  }

  /** The words of a decoded line separated by single spaces. */
  function LineText(words: seq<string>): string
  {
    if words == [] then [] else Join(words, ' ')
  }

  /** Decoded lines with case re-applied, the cursor running on from line to line. */
  function CaseLines(lineWords: seq<seq<string>>, caps: seq<bool>, cursor: nat): (r: seq<string>)
    ensures |r| == |lineWords|
  {
    if lineWords == [] then []
    else [LineText(CaseWords(lineWords[0], caps, cursor))] + CaseLines(lineWords[1..], caps, cursor + WordsAlpha(lineWords[0]))
  }

  function DecodeBody(body: seq<string>, dict: seq<string>, caps: seq<bool>): seq<string>
  {
    CaseLines(DecodeTokens(body, dict), caps, 0)
  }

  function DecompressDoc(lines: seq<string>, dict: seq<string>): Result<seq<string>>
  {
    if dict == [] then Err(MissingDictionary)
    else
      var env := SplitEnvelope(lines);
      var bits := match env.caps
        case None => Some([])
        case Some(text) => CapsBits(text);
      match bits
      case None => Err(NegativeRunLength)
      case Some(caps) => Ok(DecodeBody(env.body, dict, caps))
  }

  // ------------------------------------------------------------------ methods

  method CollectCaseBits(line: string) returns (bits: seq<bool>)
    ensures bits == CaseBits(line)
  {
    bits := [];
    for i := 0 to |line|
      invariant bits + CaseBits(line[i..]) == CaseBits(line)
    {
      assert line[i..][1..] == line[i + 1..];
      var c := line[i];
      if IsAlpha(c) {
        bits := bits + [IsUpper(c)];
      }
    }
  }

  /** The body of the compress loop for one word: the word is lowercased,
      encoded and escaped, and appended with its `;`. */
  method EncodeToken(buf: string, words: seq<string>, j: nat, dict: seq<string>, ghost escaped: seq<string>)
    returns (buf2: string)
    requires j < |words| && escaped == EscapeAll(EncodeWords(words, dict))
    ensures buf + Terminated(escaped[j..], ';') == buf2 + Terminated(escaped[j + 1..], ';')
  {
    var lowerWord := StringToLowercase(words[j]);
    var token := ParseWord(lowerWord, dict);
    var esc := EscapeWord(token);
    TerminatedStep(buf, escaped, j, ';');
    buf2 := buf + (esc + [';']);
  }

  method CompressLine(line: string, dict: seq<string>) returns (encoded: string)
    ensures encoded == EncodeLine(line, dict)
  {
    var words := Split(line, ' ');
    ghost var escaped := EscapeAll(EncodeWords(words, dict));
    var buf := "";
    for j := 0 to |words|
      invariant buf + Terminated(escaped[j..], ';') == Terminated(escaped, ';')
    {
      buf := EncodeToken(buf, words, j, dict, escaped);
    }
    assert escaped[|words|..] == [];
    assert buf + [] == buf;
    TerminatedJoin(escaped, ';');
    if |buf| != 0 {
      buf := buf[..|buf| - 1];
    }
    encoded := buf;
  }

  /** One line of the compress loop, for the case bits. */
  lemma CaseBitsStep(caps: seq<bool>, bits: seq<bool>, lines: seq<string>, k: nat)
    requires k < |lines| && bits == CaseBits(lines[k])
    ensures caps + DocCaseBits(lines[k..]) == (caps + bits) + DocCaseBits(lines[k + 1..])
  {
    assert lines[k..] == [lines[k]] + lines[k + 1..];
    AppendAssoc(caps, bits, DocCaseBits(lines[k + 1..]));
  }

  /** One pass of the compress loop: the line's case bits are collected and
      the line is encoded. */
  method CompressNextLine(lines: seq<string>, k: nat, dict: seq<string>, caps: seq<bool>)
    returns (encoded: string, caps2: seq<bool>)
    requires k < |lines|
    ensures encoded == EncodeLine(lines[k], dict)
    ensures caps + DocCaseBits(lines[k..]) == caps2 + DocCaseBits(lines[k + 1..])
  {
    var bits := CollectCaseBits(lines[k]);
    CaseBitsStep(caps, bits, lines, k);
    caps2 := caps + bits;
    encoded := CompressLine(lines[k], dict);
  }

  /** The line loop of compress: every line encoded, and the case bits of the
      whole document collected. */
  lemma EncodeBodyStep(lines: seq<string>, k: nat, dict: seq<string>)
    requires k < |lines|
    ensures EncodeBody(lines[..k + 1], dict) == EncodeBody(lines[..k], dict) + [EncodeLine(lines[k], dict)]
  {
  }

  method CompressLines(lines: seq<string>, dict: seq<string>) returns (out: seq<string>, caps: seq<bool>)
    ensures out == EncodeBody(lines, dict)
    ensures caps == DocCaseBits(lines)
  {
    out := [];
    caps := [];
    for k := 0 to |lines|
      invariant out == EncodeBody(lines[..k], dict)
      invariant caps + DocCaseBits(lines[k..]) == DocCaseBits(lines)
    {
      var encoded;
      encoded, caps := CompressNextLine(lines, k, dict, caps);
      EncodeBodyStep(lines, k, dict);
      out := out + [encoded];
    }
    assert lines[..|lines|] == lines;
    assert lines[|lines|..] == [] && caps + [] == caps;
  }

  method Compress(lines: seq<string>, dict: seq<string>) returns (r: Result<seq<string>>)
    ensures r == CompressDoc(lines, dict)
  {
    if |dict| == 0 {
      return Err(MissingDictionary);
    }
    var out, caps := CompressLines(lines, dict);
    var capsText := FormatCapsBitmap(caps);
    r := Ok(out + [Marker, capsText]);
  }

  /** The character `c` becomes when it is met with the cursor at `cursor`. */
  function CaseChar(c: char, caps: seq<bool>, cursor: nat): char
  {
    if IsAlpha(c) && cursor < |caps| && caps[cursor] then ToUpper(c) else c
  }

  /** One character of the case loop. */
  lemma ApplyCaseStep(adjusted: string, s: string, i: nat, caps: seq<bool>, cursor: nat)
    requires i < |s|
    ensures adjusted + ApplyCase(s[i..], caps, cursor)
      == (adjusted + [CaseChar(s[i], caps, cursor)]) + ApplyCase(s[i + 1..], caps, cursor + (if IsAlpha(s[i]) then 1 else 0))
    ensures AlphaCount(s[i..]) == (if IsAlpha(s[i]) then 1 else 0) + AlphaCount(s[i + 1..])
  {
    assert s[i..][1..] == s[i + 1..];
    AppendAssoc(adjusted, [CaseChar(s[i], caps, cursor)], ApplyCase(s[i + 1..], caps, cursor + (if IsAlpha(s[i]) then 1 else 0)));
  }

  method ReapplyCase(decoded: string, caps: seq<bool>, capIndex: nat) returns (adjusted: string, next: nat)
    ensures adjusted == ApplyCase(decoded, caps, capIndex)
    ensures next == capIndex + AlphaCount(decoded)
  {
    adjusted := "";
    next := capIndex;
    for i := 0 to |decoded|
      invariant adjusted + ApplyCase(decoded[i..], caps, next) == ApplyCase(decoded, caps, capIndex)
      invariant next + AlphaCount(decoded[i..]) == capIndex + AlphaCount(decoded)
    {
      ApplyCaseStep(adjusted, decoded, i, caps, next);
      var c := decoded[i];
      if IsAlpha(c) {
        if next < |caps| && caps[next] {
          adjusted := adjusted + [ToUpper(c)];
        } else {
          adjusted := adjusted + [c];
        }
        next := next + 1;
      } else {
        adjusted := adjusted + [c];
      }
    }
    assert decoded[|decoded|..] == [] && adjusted + [] == adjusted;
  }

  /** Dropping the trailing space of the space-terminated words gives the line. */
  lemma TerminatedLineText(words: seq<string>)
    ensures var t := Terminated(words, ' ');
      LineText(words) == if |t| == 0 then [] else t[..|t| - 1]
  {
    if words != [] {
      TerminatedJoin(words, ' ');
    }
  }

  /** One word of a line, as the decompress loop writes it: the adjusted
      word and a space are appended and the cursor moves past its letters. */
  lemma CaseWordsStep(buf: string, words: seq<string>, j: nat, caps: seq<bool>, cursor: nat)
    requires j < |words|
    ensures buf + Terminated(CaseWords(words[j..], caps, cursor), ' ')
      == (buf + (ApplyCase(words[j], caps, cursor) + [' ']))
         + Terminated(CaseWords(words[j + 1..], caps, cursor + AlphaCount(words[j])), ' ')
    ensures WordsAlpha(words[j..]) == AlphaCount(words[j]) + WordsAlpha(words[j + 1..])
  {
    assert words[j..][1..] == words[j + 1..];
    AppendAssoc(buf, ApplyCase(words[j], caps, cursor) + [' '],
      Terminated(CaseWords(words[j + 1..], caps, cursor + AlphaCount(words[j])), ' '));
  }

  /** The body of the decompress loop for one token: the token is decoded,
      its case re-applied, and the word and a space appended. */
  method DecodeToken(buf: string, words: seq<string>, j: nat, dict: seq<string>, caps: seq<bool>, next: nat,
                     ghost decodedWords: seq<string>)
    returns (buf2: string, after: nat)
    requires j < |words| && decodedWords == DecodeWords(words, dict)
    ensures buf + Terminated(CaseWords(decodedWords[j..], caps, next), ' ')
      == buf2 + Terminated(CaseWords(decodedWords[j + 1..], caps, after), ' ')
    ensures next + WordsAlpha(decodedWords[j..]) == after + WordsAlpha(decodedWords[j + 1..])
  {
    var decoded := ParseCompressed(words[j], dict);
    var adjusted;
    adjusted, after := ReapplyCase(decoded, caps, next);
    CaseWordsStep(buf, decodedWords, j, caps, next);
    buf2 := buf + (adjusted + [' ']);
  }

  method DecompressLine(line: string, dict: seq<string>, caps: seq<bool>, capIndex: nat)
    returns (text: string, next: nat)
    ensures text == LineText(CaseWords(DecodeWords(EscFields(line), dict), caps, capIndex))
    ensures next == capIndex + WordsAlpha(DecodeWords(EscFields(line), dict))
  {
    var words := SplitPreservingEscapes(line);
    ghost var decodedWords := DecodeWords(words, dict);
    ghost var adjustedWords := CaseWords(decodedWords, caps, capIndex);
    var buf := "";
    next := capIndex;
    for j := 0 to |words|
      invariant buf + Terminated(CaseWords(decodedWords[j..], caps, next), ' ') == Terminated(adjustedWords, ' ')
      invariant next + WordsAlpha(decodedWords[j..]) == capIndex + WordsAlpha(decodedWords)
    {
      buf, next := DecodeToken(buf, words, j, dict, caps, next, decodedWords);
    }
    assert decodedWords[|words|..] == [];
    assert buf + [] == buf;
    TerminatedLineText(adjustedWords);
    if |buf| != 0 {
      buf := buf[..|buf| - 1];
    }
    text := buf;
  }

  /** One line of the marker scan. */
  lemma EnvelopeStep(lines: seq<string>, k: nat)
    requires k < |lines|
    ensures lines[k] == Marker ==>
      SplitEnvelope(lines[k..]) == Envelope([], Some(if k + 1 < |lines| then lines[k + 1] else []))
    ensures lines[k] != Marker ==>
      SplitEnvelope(lines[k..]) == Envelope([lines[k]] + SplitEnvelope(lines[k + 1..]).body, SplitEnvelope(lines[k + 1..]).caps)
  {
    assert lines[k..][1..] == lines[k + 1..];
  }

  /** One line of the body, as the decompress loop reads it. */
  lemma CaseLinesStep(out: seq<string>, lineWords: seq<seq<string>>, j: nat, caps: seq<bool>, cursor: nat,
                      text: string, after: nat)
    requires j < |lineWords|
    requires text == LineText(CaseWords(lineWords[j], caps, cursor))
    requires after == cursor + WordsAlpha(lineWords[j])
    ensures out + CaseLines(lineWords[j..], caps, cursor) == (out + [text]) + CaseLines(lineWords[j + 1..], caps, after)
  {
    assert lineWords[j..][1..] == lineWords[j + 1..];
    AppendAssoc(out, [text], CaseLines(lineWords[j + 1..], caps, after));
  }

  /** The marker scan: the lines before `\UPR`, whether it was found, and the
      line after it. */
  method ReadEnvelope(lines: seq<string>) returns (body: seq<string>, foundUPR: bool, capsEncoded: string)
    ensures SplitEnvelope(lines) == Envelope(body, if foundUPR then Some(capsEncoded) else None)
  {
    body := [];
    foundUPR := false;
    capsEncoded := "";
    var k := 0;
    while k < |lines|
      invariant 0 <= k <= |lines|
      invariant SplitEnvelope(lines).body == body + SplitEnvelope(lines[k..]).body
      invariant SplitEnvelope(lines).caps == SplitEnvelope(lines[k..]).caps
    {
      EnvelopeStep(lines, k);
      if lines[k] == Marker {
        foundUPR := true;
        capsEncoded := if k + 1 < |lines| then lines[k + 1] else "";
        assert body + [] == body;
        return;
      }
      body := body + [lines[k]];
      k := k + 1;
    }
    assert lines[k..] == [] && body + [] == body;
  }

  /** One pass of the decompress loop over the body lines. */
  method DecompressNextLine(out: seq<string>, body: seq<string>, j: nat, dict: seq<string>, caps: seq<bool>,
                            capIndex: nat, ghost lineWords: seq<seq<string>>)
    returns (out2: seq<string>, after: nat)
    requires j < |body| && lineWords == DecodeTokens(body, dict)
    ensures out + CaseLines(lineWords[j..], caps, capIndex) == out2 + CaseLines(lineWords[j + 1..], caps, after)
  {
    var text;
    text, after := DecompressLine(body[j], dict, caps, capIndex);
    CaseLinesStep(out, lineWords, j, caps, capIndex, text, after);
    out2 := out + [text];
  }

  /** The body lines decoded one after the other with one running bit cursor. */
  method DecodeLines(body: seq<string>, dict: seq<string>, caps: seq<bool>) returns (out: seq<string>)
    ensures out == DecodeBody(body, dict, caps)
  {
    ghost var lineWords := DecodeTokens(body, dict);
    out := [];
    var capIndex: nat := 0;
    for j := 0 to |body|
      invariant out + CaseLines(lineWords[j..], caps, capIndex) == CaseLines(lineWords, caps, 0)
    {
      out, capIndex := DecompressNextLine(out, body, j, dict, caps, capIndex, lineWords);
    }
    assert lineWords[|body|..] == [] && out + [] == out;
  }

  method Decompress(lines: seq<string>, dict: seq<string>) returns (r: Result<seq<string>>)
    ensures r == DecompressDoc(lines, dict)
  {
    if |dict| == 0 {
      return Err(MissingDictionary);
    }
    var body, foundUPR, capsEncoded := ReadEnvelope(lines);
    var caps: seq<bool> := [];
    if foundUPR {
      var decoded := UnformatCapsBitmap(capsEncoded);
      if decoded.None? {
        return Err(NegativeRunLength);
      }
      caps := decoded.value;
    }
    var out := DecodeLines(body, dict, caps);
    r := Ok(out);
  }
}
