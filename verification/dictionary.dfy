/** Dictionary lookups: the first exact match, and the longest non-empty
    entry that is a prefix of the word, earliest on ties. */
module Dictionary {

  predicate IsPrefix(p: string, w: string)
  {
    |p| <= |w| && w[..|p|] == p
  }

  /** The first index at or after `from` whose entry equals `word`, or -1. */
  function FirstIndexFrom(word: string, dict: seq<string>, from: nat): (r: int)
    requires from <= |dict|
    ensures r == -1 <==> forall j :: from <= j < |dict| ==> dict[j] != word
    ensures r != -1 ==> from <= r < |dict| && dict[r] == word
    ensures r != -1 ==> forall j :: from <= j < r ==> dict[j] != word
    decreases |dict| - from
  {
    if from == |dict| then -1
    else if dict[from] == word then from
    else FirstIndexFrom(word, dict, from + 1)
  }

  function FirstIndex(word: string, dict: seq<string>): int
  {
    FirstIndexFrom(word, dict, 0)
  }

  /** The index the longest-prefix scan holds after looking at `dict[..n]`. */
  function LongestPrefixAmong(word: string, dict: seq<string>, n: nat): (r: int)
    requires n <= |dict|
    ensures r == -1 <==> forall j :: 0 <= j < n ==> !(IsPrefix(dict[j], word) && |dict[j]| > 0)
    ensures r != -1 ==> 0 <= r < n && IsPrefix(dict[r], word) && |dict[r]| > 0
    ensures r != -1 ==> forall j :: 0 <= j < n && IsPrefix(dict[j], word) ==> |dict[j]| <= |dict[r]|
    ensures r != -1 ==> forall j :: 0 <= j < r && IsPrefix(dict[j], word) ==> |dict[j]| < |dict[r]|
  {
    if n == 0 then -1
    else
      var prev := LongestPrefixAmong(word, dict, n - 1);
      var best := if prev == -1 then 0 else |dict[prev]|;
      if IsPrefix(dict[n - 1], word) && |dict[n - 1]| > best then n - 1 else prev
  }

  function LongestPrefix(word: string, dict: seq<string>): int
  {
    LongestPrefixAmong(word, dict, |dict|)
  }

  method FindWordInDict(word: string, dict: seq<string>) returns (index: int)
    ensures index == FirstIndex(word, dict)
  {
    for i := 0 to |dict|
      invariant forall j :: 0 <= j < i ==> dict[j] != word
    {
      if word == dict[i] {
        return i;
      }
    }
    return -1;
  }

  method FindLongestPrefixInDict(word: string, dict: seq<string>) returns (index: int)
    ensures index == LongestPrefix(word, dict)
  {
    index := -1;
    var bestLength: nat := 0;
    for i := 0 to |dict|
      invariant index == LongestPrefixAmong(word, dict, i)
      invariant bestLength == if index == -1 then 0 else |dict[index]|
    {
      var dictWord := dict[i];
      if |word| >= |dictWord| && word[..|dictWord|] == dictWord {
        if |dictWord| > bestLength {
          bestLength := |dictWord|;
          index := i;
        }
      }
    }
  }
}
