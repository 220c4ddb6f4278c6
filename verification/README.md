# CTFF text codec — a Dafny model

CTFF compresses a text file against a word dictionary, line by line. Each
word of a line becomes a token:

- the base-92 digits of its dictionary index;
- or the digits of the longest dictionary entry that is a prefix of the
  word, then `+` and the rest of the word;
- or `*` and the literal word.

A word is lowercased before it is encoded. Each token is then escaped, so
`\` becomes `\\` and `;` becomes `\;`, and the tokens of a line are joined
with `;`. The capitalisation of every letter of the document goes into one
bit stream. After the body comes a `\UPR` marker line, followed by the
capitalisation bitmap:

- every run of lowercase letters is written as the base-92 digits of its
  length;
- every uppercase letter is written as `;`.

Base-92 digits are the printable ASCII characters from space to `~`, except
`*`, `+` and `;`.

Decompression splits each body line on unescaped `;` and decodes every
token. It then re-applies case with one cursor that runs across the whole
document, and joins the words of each line with single spaces. The source
also has bit packing and a byte-string base-92 codec; these are modelled
and proved here too.

The model has one module per concern:

| module | contents |
|---|---|
| `Text` | splitting, joining and lowercasing |
| `Base92` | the digit codec |
| `Escape` | escaping and the escape-aware splitter |
| `Dictionary` | the two dictionary lookups |
| `Token` | the word codec |
| `Caps` | the capitalisation bitmap |
| `Bytes` | bit packing and the byte-string base-92 codec |
| `Document` | the line logic of `compress` and `decompress` |
| `DocumentProofs` | the document-level round trip |

Each loop of the source is a method. Its contract ties the result to a
specification function, and the lemmas state the properties of those
functions.

## Model

| member | source | states |
|---|---|---|
| Text.StringToLowercase | main.cpp:77-84 | the output is the input with every ASCII capital replaced by its lowercase letter, so no capital remains |
| Text.Split | main.cpp:33-48 | the parts are the fields of the input between delimiters. There is one part more than there are delimiters, empty parts included, and joining the parts with the delimiter gives the input back |
| Text.FieldsJoin | main.cpp:33-48 | joining delimiter-free parts and splitting the result gives exactly those parts back |
| Base92.IntToCompressedIndex | main.cpp:114-127 | a non-negative number yields its canonical big-endian base-92 digits: in range, no leading zero, `[0]` for zero. A negative number yields no digits |
| Base92.CompressedIndexToInt | main.cpp:129-137 | the loop computes the left fold `num * 92 + digit` of the digits, which is their value |
| Base92.Value | main.cpp:129-137 | for in-range digits the value lies in `[0, 92^len)` |
| Base92.DigitsValue | main.cpp:114-137 | reading back the digits of n gives n |
| Base92.ValueDigits | main.cpp:114-137 | every canonical digit sequence is the digits of its own value, so the digit codec is a bijection |
| Base92.IntToAscii | main.cpp:139-145 | each digit 0..91 maps to a printable character other than `*`, `+` and `;`, and `asciiToInt` maps it back |
| Base92.AsciiToInt | main.cpp:147-153 | every alphabet character maps into 0..91 |
| Base92.AsciiToIntInverse | main.cpp:139-153 | `intToAscii` undoes `asciiToInt` on the alphabet |
| Base92.EncodeIndexRoundTrip | main.cpp:114-153 | an encoded number is non-empty, uses only alphabet characters, and decodes to itself |
| Escape.EscapeWord | main.cpp:86-94 | the result is the word with each `\` and `;` preceded by `\` |
| Escape.UnescapeWord | main.cpp:96-112 | each `\` is dropped and the character after it is kept literally |
| Escape.EscapeRoundTrip | main.cpp:86-112 | unescaping an escaped word gives the word back, for every word, including words holding `\` and `;` |
| Escape.DanglingBackslashDropped | main.cpp:96-112 | for any string, a `\` appended after the scan ends outside an escape is unpaired and contributes nothing, as in `a\b\`. One appended to a pending escape is kept literally |
| Escape.EscapedWordDanglingBackslash | main.cpp:86-112 | a dangling `\` after an escaped word is dropped, so unescaping gives the word back |
| Escape.UnescapedPlain | main.cpp:96-112 | a word without `\` is unchanged by unescaping |
| Escape.SplitPreservingEscapes | main.cpp:50-75 | the parts are the fields between unescaped `;`, with escapes removed and a trailing empty field dropped |
| Escape.SplitJoinEscaped | main.cpp:50-94 | splitting the `;`-join of escaped tokens gives the tokens back. A trailing empty token is the one exception: it is lost |
| Escape.JoinEscapedHead | main.cpp:86-94 | a joined line of escaped tokens that starts with `\` continues with `\` or `;` |
| Dictionary.FindWordInDict | main.cpp:155-162 | the result is the first exact match's index, or -1 exactly when the word is absent |
| Dictionary.FirstIndexFrom | main.cpp:155-162 | -1 exactly when no entry from `from` on equals the word. Otherwise the result is the first such entry |
| Dictionary.FindLongestPrefixInDict | main.cpp:164-179 | the result is the index given by LongestPrefixAmong over the whole dictionary |
| Dictionary.LongestPrefixAmong | main.cpp:164-179 | -1 exactly when no non-empty entry is a prefix of the word. Otherwise the result is a non-empty prefix entry that no prefix entry is longer than, and no earlier entry equals in length |
| Token.ParseWord | main.cpp:181-206 | the token is the exact match's digits, or the longest prefix's digits plus `+` and the non-empty rest, or `*` and the word |
| Token.WordToken | main.cpp:181-206 | the token is non-empty, and starts with `*` exactly when no entry equals the word and no non-empty entry is a prefix of it |
| Token.ParseCompressed | main.cpp:208-228 | the result is empty for an empty token and the remainder for a `*` token. Otherwise it is the entry named by the digits before `+`, plus the suffix, unescaped, or `INVALID_INDEX` when the index is out of range |
| Token.IndexedTokenParts | main.cpp:208-228 | a token made of index digits, optionally followed by `+` and a suffix, splits back into that index and that suffix |
| Token.TokenRoundTrip | main.cpp:181-228 | decoding the token of a word gives the word back when neither the word nor any entry holds a `\` |
| Token.OutOfRangeIndex | main.cpp:216-225 | an index token naming no entry decodes to `INVALID_INDEX`, with or without a suffix |
| Token.LongestPrefixExample | main.cpp:164-206 | "abcd" against a, ab, abc encodes as entry 2 with suffix d |
| Token.SuffixBackslashLost | main.cpp:208-228 | a `\` in a prefix match's suffix is consumed by the second unescape, so "a\b" decodes as "ab" |
| Caps.FormatCapsBitmap | main.cpp:329-356 | the text is the run-length form of the bits: digits for each non-empty run of falses and `;` for each true |
| Caps.ReadDigits | main.cpp:367-371 | the scan stops at the next `;` or the end, and collects the digit values of the characters it passes |
| Caps.UnformatCapsBitmap | main.cpp:358-378 | the result is the bits the text decodes to, or None when a run decodes to a negative length |
| Caps.CapsRoundTrip | main.cpp:329-378 | decoding the bitmap of any bit sequence gives the bits back |
| Caps.CapsTextShape | main.cpp:329-356 | the bitmap holds one `;` per true bit, and every other character is an alphabet character |
| Bytes.PackBits | main.cpp:246-255 | the output has `ceil(n/8)` bytes. Bit i sits at position `7 - i % 8` of byte `i / 8`, and the padding bits are clear |
| Bytes.UnpackBits | main.cpp:257-268 | the output has `totalBits` bits, each read from that position |
| Bytes.PackUnpackRoundTrip | main.cpp:246-268 | unpacking the packed bits with the original count gives the bits back |
| Bytes.SetBitSpec | main.cpp:251 | or-ing in a bit sets exactly that bit and keeps the others |
| Bytes.DivideBy92 | main.cpp:278-293 | one long-division pass gives a quotient without leading zeros and a remainder in 0..91, with `value = quotient * 92 + remainder` |
| Bytes.EncodeBytesToBase92 | main.cpp:270-301 | empty input and `[0]` give the empty string. Any other byte string gives the base-92 digits of its big-endian value |
| Bytes.MultiplyAdd92 | main.cpp:308-320 | for a non-negative digit, the little-endian value becomes `value * 92 + digit`, and a buffer with a non-zero top byte keeps one |
| Bytes.DecodeBase92ToBytes | main.cpp:303-327 | the empty string gives `[0]`. Text with no character below the space gives big-endian bytes whose value is the digits' value, with no leading zero byte |
| Bytes.Base92RoundTrip | main.cpp:270-327 | decoding the encoding preserves the big-endian value without keeping leading zero bytes, and maps the empty string to `[0]` |
| Document.CollectCaseBits | main.cpp:403-408 | one bit per ASCII letter of the line, true when it is uppercase |
| Document.CompressLine | main.cpp:410-418 | the line is split on spaces, and each word is lowercased, encoded, escaped and `;`-terminated. The last `;` is removed |
| Document.CompressLines | main.cpp:403-421 | the body is the encoding of every line, and the case bits of all lines are concatenated in order |
| Document.Compress | main.cpp:387-424 | an empty dictionary is an error. Otherwise the output is the body, then `\UPR`, then the bitmap of all case bits |
| Document.ReapplyCase | main.cpp:479-491 | a letter is uppercased exactly when the next bit exists and is true. Otherwise it is kept as decoded, other characters pass through, and the cursor advances by the number of letters |
| Document.DecompressLine | main.cpp:473-497 | the line is split on unescaped `;` and each token decoded. Case is re-applied from the running cursor, and the words are joined by single spaces |
| Document.ReadEnvelope | main.cpp:453-462 | the body is the lines before the first `\UPR`, and the bitmap is the next line, empty at end of input. Without a marker, every line is body and there is no bitmap |
| Document.DecodeLines | main.cpp:470-498 | each body line is decoded with the cursor carried over from the previous line |
| Document.Decompress | main.cpp:450-498 | an empty dictionary is an error, and so is a bitmap with a negative run. A missing marker means no case bits; otherwise the result is the decoded body |
| DocumentProofs.CaseBitsJoin | main.cpp:403-410 | the case bits of a line are the case bits of its words in order |
| DocumentProofs.WordCaseRoundTrip | main.cpp:403-408 | re-applying a word's own case bits to its lowercase form gives the word back |
| DocumentProofs.CaseLinesRoundTrip | main.cpp:470-498 | with the document's case bits at the cursor, re-casing the lowercased words of all lines gives the lines back |
| DocumentProofs.ApplyCaseAt | main.cpp:479-491 | character i is re-cased with the bit at the cursor plus the number of letters before it, so one global cursor governs all lines |
| DocumentProofs.ApplyCasePastEnd | main.cpp:482-485 | when the bits are exhausted, text passes through unchanged |
| DocumentProofs.LineTokensRoundTrip | main.cpp:410-418 | decoding an encoded line gives the lowercase words of the line when no `\` occurs in the line or the dictionary |
| DocumentProofs.BodyTokensRoundTrip | main.cpp:410-477 | the same holds line by line for a whole body |
| DocumentProofs.EncodedLineNotMarker | main.cpp:413-418 | no encoded line equals `\UPR`, because an escaped line never has `U` after a leading `\` |
| DocumentProofs.EnvelopeOfCompressed | main.cpp:453-462 | reading the envelope of a compressed file gives back its body and its bitmap line |
| DocumentProofs.DocumentRoundTrip | main.cpp:380-498 | decompressing a compressed document gives every line back, case and spacing included. This needs a non-empty dictionary and no `\` in the text or the dictionary |
| DocumentProofs.MissingMarker | main.cpp:463-468 | without a `\UPR` line, every line is decoded and no case is applied |
| DocumentProofs.ExampleLine | main.cpp:410-418 | "The CAT" against [the, cat] compresses to the line ` ;!` |
| DocumentProofs.ExampleCaseBits | main.cpp:403-408 | the case bits of "The CAT" are true, false, false, true, true, true |
| DocumentProofs.ExampleCaps | main.cpp:329-356 | those bits give the bitmap `;";;;`: `;` for T, the digit `"` for the run of two, then `;;;` |

## Left out

- File I/O is not part of this model. Input and output lines are sequences of strings, and newline framing is left out.
- Path handling is not part of this model: file-name extension checks, output file names, `getExecutablePath` and `main`.
- `loadDict` is not part of this model. The dictionary is a parameter.
- The `.txt` output file that `decompress` creates before it checks the dictionary is left out.
- Messages on standard error are left out, including the "No \UPR section found." notice. The missing-marker case itself is modelled by `Document.Decompress` and `DocumentProofs.MissingMarker`.
- Characters are ASCII-only: `isalpha`, `isupper`, `tolower` and `toupper` follow the C locale on 7-bit characters. Signed `char` values of 128 and above are left out.
- Document.Decompress: a bitmap run that decodes to a negative length throws `std::length_error` in the source. The model returns `Err(NegativeRunLength)` instead. Such a run needs a character below the space.
- Base92.CompressedIndexToInt: 32-bit `int` overflow for long digit strings is left out. The model computes with unbounded integers, and the same holds for the run lengths cast in `formatCapsBitmap` and the index arithmetic.
- Token.TokenRoundTrip: requires that neither the word nor any dictionary entry holds a `\`. `parseCompressed` unescapes the entry plus suffix a second time, after the splitter has already removed the escapes (`Token.SuffixBackslashLost`). The `*` path does not unescape. The model keeps both behaviours as written.
- DocumentProofs.DocumentRoundTrip: carries the same no-`\` requirement.
- The source keeps consecutive, leading and trailing spaces. An empty word becomes a non-empty token that decodes back to the empty word: `*`, or the index digits of an empty dictionary entry, since `loadDict` keeps blank lines. So the round trip holds without normalising spaces.
- `Escape.SplitPreservingEscapes` drops a trailing empty field. A line whose last word is empty still round-trips, because the token of that word is never empty.

