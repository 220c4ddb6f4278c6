/** The word codec: one lowercase word becomes a token (index digits, index
    digits + `+` + suffix, or `*` + the literal word), and back. */
module Token {
  import opened Text
  import opened Base92
  import opened Escape
  import opened Dictionary

  const InvalidIndex: string := "INVALID_INDEX"

  function WordToken(word: string, dict: seq<string>): (token: string)
    ensures token != []
    ensures token[0] == '*' <==>
      word !in dict && forall j :: 0 <= j < |dict| ==> !(IsPrefix(dict[j], word) && |dict[j]| > 0)
  {
    var index := FirstIndex(word, dict);
    EncodeIndexRoundTrip(if index == -1 then 0 else index);
    if index != -1 then EncodeIndex(index)
    else
      var index := LongestPrefix(word, dict);
      EncodeIndexRoundTrip(if index == -1 then 0 else index);
      if index == -1 then ['*'] + word
      else
        var suffix := word[|dict[index]|..];
        EncodeIndex(index) + if suffix == [] then [] else ['+'] + suffix
  }

  function TokenWord(token: string, dict: seq<string>): (word: string)
  {
    if token == [] then []
    else if token[0] == '*' then token[1..]
    else
      var plusPos := IndexOfChar(token, '+');
      var encoded := token[..plusPos];
      var suffix := if plusPos == |token| then [] else token[plusPos + 1..];
      var index := DecodeIndex(encoded);
      if index < 0 || index >= |dict| then InvalidIndex
      else Unescaped(dict[index] + suffix)
  }

  /** The encoder: the exact match's index digits, or the longest prefix's
      digits and the rest of the word after a `+`, or `*` and the word. */
  method ParseWord(word: string, dict: seq<string>) returns (res: string)
    ensures res == WordToken(word, dict)
  {
    var index := FindWordInDict(word, dict);
    var isFullMatch := index != -1;
    if !isFullMatch {
      index := FindLongestPrefixInDict(word, dict);
      if index == -1 {
        return ['*'] + word;
      }
    }
    var compressedIndex := IntToCompressedIndex(index);
    res := [];
    for i := 0 to |compressedIndex|
      invariant |res| == i
      invariant forall k :: 0 <= k < i ==> res[k] == IntToAscii(compressedIndex[k])
    {
      res := res + [IntToAscii(compressedIndex[i])];
    }
    assert res == EncodeIndex(index);
    if !isFullMatch {
      var suffix := word[|dict[index]|..];
      if suffix != [] {
        res := res + ['+'] + suffix;
      }
    }
  }

  /** The decoder: `*` tokens give their remainder, index tokens the entry
      plus suffix with escapes removed, or the error marker. */
  method ParseCompressed(compressedWord: string, dict: seq<string>) returns (word: string)
    ensures word == TokenWord(compressedWord, dict)
  {
    if compressedWord == [] {
      return [];
    }
    if compressedWord[0] == '*' {
      return compressedWord[1..];
    }
    var plusPos := IndexOfChar(compressedWord, '+');
    var encoded := compressedWord[..plusPos];
    var suffix := if plusPos == |compressedWord| then [] else compressedWord[plusPos + 1..];
    var compressedIndex := [];
    for i := 0 to |encoded|
      invariant |compressedIndex| == i
      invariant forall k :: 0 <= k < i ==> compressedIndex[k] == AsciiToInt(encoded[k])
    {
      compressedIndex := compressedIndex + [AsciiToInt(encoded[i])];
    }
    assert compressedIndex == TextDigits(encoded);
    var index := CompressedIndexToInt(compressedIndex);
    if index < 0 || index >= |dict| {
      return InvalidIndex;
    }
    word := UnescapeWord(dict[index] + suffix);
  }

  /** The token of an index, optionally followed by `+` and a suffix, splits
      back into exactly that index and that suffix. */
  lemma IndexedTokenParts(index: nat, suffix: string, token: string)
    requires token == EncodeIndex(index) || token == EncodeIndex(index) + ['+'] + suffix
    ensures token != [] && token[0] != '*'
    ensures DecodeIndex(token[..IndexOfChar(token, '+')]) == index
    ensures IndexOfChar(token, '+') == |EncodeIndex(index)|
    ensures token == EncodeIndex(index) ==> IndexOfChar(token, '+') == |token|
    ensures token != EncodeIndex(index) ==> token[IndexOfChar(token, '+') + 1..] == suffix
  {
    var e := EncodeIndex(index);
    EncodeIndexRoundTrip(index);
    PlusFree(e, if token == e then [] else ['+'] + suffix);
    assert token == e + (if token == e then [] else ['+'] + suffix);
    assert token[..|e|] == e;
  }

  lemma {:induction false} PlusFree(e: string, rest: string)
    requires forall i :: 0 <= i < |e| ==> IsDigitChar(e[i])
    requires rest == [] || rest[0] == '+'
    ensures IndexOfChar(e + rest, '+') == |e|
    decreases |e|
  {
    if e != [] {
      assert (e + rest)[1..] == e[1..] + rest;
      PlusFree(e[1..], rest);
    } else {
      assert e + rest == rest;
    }
  }

  /** Decoding a token undoes encoding the word, provided neither the word nor
      any dictionary entry holds a `\`: the decoder unescapes the entry plus
      suffix, so a `\` there would be consumed. */
  lemma TokenRoundTrip(word: string, dict: seq<string>)
    requires '\\' !in word
    requires forall j :: 0 <= j < |dict| ==> '\\' !in dict[j]
    ensures TokenWord(WordToken(word, dict), dict) == word
  {
    var token := WordToken(word, dict);
    var index := FirstIndex(word, dict);
    if index != -1 {
      IndexedTokenParts(index, [], token);
      assert dict[index] + [] == dict[index];
      UnescapedPlain(dict[index]);
    } else {
      var p := LongestPrefix(word, dict);
      if p != -1 {
        var suffix := word[|dict[p]|..];
        IndexedTokenParts(p, suffix, token);
        assert dict[p] + suffix == word;
        UnescapedPlain(word);
      }
    }
  }

  /** A token whose index digits name no entry decodes to the error marker. */
  lemma OutOfRangeIndex(index: nat, suffix: string, dict: seq<string>)
    requires index >= |dict|
    ensures TokenWord(EncodeIndex(index), dict) == InvalidIndex
    ensures TokenWord(EncodeIndex(index) + ['+'] + suffix, dict) == InvalidIndex
  {
    IndexedTokenParts(index, suffix, EncodeIndex(index));
    IndexedTokenParts(index, suffix, EncodeIndex(index) + ['+'] + suffix);
  }

  /** The longest prefix wins over shorter ones: "abcd" against a, ab, abc
      is entry 2 (the digit character `"`) with suffix "d". */
  lemma LongestPrefixExample()
    ensures WordToken("abcd", ["a", "ab", "abc"]) == "\"+d"
  {
    var dict := ["a", "ab", "abc"];
    assert FirstIndex("abcd", dict) == -1;
    assert IsPrefix("a", "abcd") && IsPrefix("ab", "abcd") && IsPrefix("abc", "abcd");
    assert LongestPrefix("abcd", dict) == 2;
    assert Digits(2) == [2];
    assert EncodeIndex(2) == "\"";
  }

  /** The decoder unescapes the entry plus suffix although the line splitter
      already removed the escapes, so a `\` in a prefix-matched word's suffix
      is consumed: "a\\b" against the dictionary [a] comes back as "ab". */
  lemma SuffixBackslashLost()
    ensures WordToken("a\\b", ["a"]) == " +\\b"
    ensures TokenWord(WordToken("a\\b", ["a"]), ["a"]) == "ab"
  {
    var dict := ["a"];
    assert FirstIndex("a\\b", dict) == -1;
    assert IsPrefix("a", "a\\b");
    assert LongestPrefix("a\\b", dict) == 0;
    assert EncodeIndex(0) == " ";
    IndexedTokenParts(0, "\\b", " +\\b");
    assert "a" + "\\b" == "a\\b";
  }
}
