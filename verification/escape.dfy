/** The escape codec: inside a `;`-joined line, `\` becomes `\\` and `;`
    becomes `\;`, and splitting the line honours those escapes. */
module Escape {
  import opened Text

  function EscapeChar(c: char): string
  {
    if c == '\\' then "\\\\" else if c == ';' then "\\;" else [c]
  }

  function Escaped(w: string): string
  {
    if w == [] then [] else EscapeChar(w[0]) + Escaped(w[1..])
  }

  /** Unescaping of `s`, where `escaping` says a `\` has just been seen. */
  function UnescapedFrom(s: string, escaping: bool): string
  {
    if s == [] then []
    else if escaping then [s[0]] + UnescapedFrom(s[1..], false)
    else if s[0] == '\\' then UnescapedFrom(s[1..], true)
    else [s[0]] + UnescapedFrom(s[1..], false)
  }

  function Unescaped(s: string): string
  {
    UnescapedFrom(s, false)
  }

  method EscapeWord(word: string) returns (escaped: string)
    ensures escaped == Escaped(word)
  {
    escaped := "";
    for i := 0 to |word|
      invariant escaped + Escaped(word[i..]) == Escaped(word)
    {
      var c := word[i];
      var piece := if c == '\\' then "\\\\" else if c == ';' then "\\;" else [c];
      assert word[i..] == [c] + word[i + 1..];
      assert Escaped(word[i..]) == piece + Escaped(word[i + 1..]);
      AppendAssoc(escaped, piece, Escaped(word[i + 1..]));
      escaped := escaped + piece;
    }
  }

  method UnescapeWord(word: string) returns (result: string)
    ensures result == Unescaped(word)
  {
    result := "";
    var escaping := false;
    for i := 0 to |word|
      invariant result + UnescapedFrom(word[i..], escaping) == Unescaped(word)
    {
      var c := word[i];
      assert word[i..] == [c] + word[i + 1..];
      var piece := if escaping || c != '\\' then [c] else [];
      var nextEscaping := !escaping && c == '\\';
      assert UnescapedFrom(word[i..], escaping) == piece + UnescapedFrom(word[i + 1..], nextEscaping);
      AppendAssoc(result, piece, UnescapedFrom(word[i + 1..], nextEscaping));
      result := result + piece;
      escaping := nextEscaping;
    }
  }

  lemma {:induction false} UnescapeEscapedPrefix(w: string, rest: string)
    ensures UnescapedFrom(Escaped(w) + rest, false) == w + UnescapedFrom(rest, false)
    decreases |w|
  {
    if w != [] {
      var e := Escaped(w[1..]) + rest;
      UnescapeEscapedPrefix(w[1..], rest);
      assert Escaped(w) + rest == EscapeChar(w[0]) + e;
      if w[0] == '\\' || w[0] == ';' {
        var x := [w[0]] + e;
        assert EscapeChar(w[0]) + e == ['\\'] + x;
        assert (['\\'] + x)[1..] == x && x[1..] == e;
      } else {
        assert ([w[0]] + e)[1..] == e;
      }
      assert w == [w[0]] + w[1..];
    } else {
      assert Escaped(w) + rest == rest;
    }
  }

  /** Unescaping undoes escaping, for every string. */
  lemma EscapeRoundTrip(w: string)
    ensures Unescaped(Escaped(w)) == w
  {
    UnescapeEscapedPrefix(w, []);
    assert Escaped(w) + [] == Escaped(w) && w + [] == w;
  }

  /** Whether the unescaping scan of `s`, begun with the flag `escaping`,
      ends just after an unpaired `\`. */
  function EndsEscaping(s: string, escaping: bool): bool
  {
    if s == [] then escaping
    else if escaping then EndsEscaping(s[1..], false)
    else EndsEscaping(s[1..], s[0] == '\\')
  }

  /** A `\` appended to any string contributes nothing when it is unpaired,
      and is kept literally when it completes an escape. */
  lemma {:induction false} DanglingBackslashDropped(s: string, escaping: bool)
    ensures !EndsEscaping(s, escaping) ==> UnescapedFrom(s + "\\", escaping) == UnescapedFrom(s, escaping)
    ensures EndsEscaping(s, escaping) ==> UnescapedFrom(s + "\\", escaping) == UnescapedFrom(s, escaping) + "\\"
    decreases |s|
  {
    if s == [] {
      assert UnescapedFrom("\\", false) == [];
      assert [] + "\\" == "\\";
    } else {
      assert (s + "\\")[1..] == s[1..] + "\\";
      var next := if escaping then false else s[0] == '\\';
      DanglingBackslashDropped(s[1..], next);
      if !next {
        AppendAssoc([s[0]], UnescapedFrom(s[1..], false), "\\");
      }
    }
  }

  /** In particular, a dangling `\` after a complete escaped word contributes nothing. */
  lemma EscapedWordDanglingBackslash(w: string)
    ensures Unescaped(Escaped(w) + "\\") == w
  {
    UnescapeEscapedPrefix(w, "\\");
    assert UnescapedFrom("\\", false) == [];
    assert w + [] == w;
  }

  lemma {:induction false} UnescapedPlain(s: string)
    requires '\\' !in s
    ensures Unescaped(s) == s
    decreases |s|
  {
    if s != [] {
      assert s[0] in s && (forall c :: c in s[1..] ==> c in s);
      UnescapedPlain(s[1..]);
      assert s == [s[0]] + s[1..];
    }
  }

  /** The parts of a `;`-joined escaped line, from position `s` onwards, where
      `cur` is the part already begun and `escape` says a `\` has just been seen.
      A part still empty at the end of the line is not kept. */
  function EscFieldsFrom(s: string, cur: string, escape: bool): seq<string>
  {
    if s == [] then (if cur == [] then [] else [cur])
    else if escape then EscFieldsFrom(s[1..], cur + [s[0]], false)
    else if s[0] == '\\' then EscFieldsFrom(s[1..], cur, true)
    else if s[0] == ';' then [cur] + EscFieldsFrom(s[1..], [], false)
    else EscFieldsFrom(s[1..], cur + [s[0]], false)
  }

  function EscFields(s: string): seq<string>
  {
    EscFieldsFrom(s, [], false)
  }

  method SplitPreservingEscapes(input: string) returns (parts: seq<string>)
    ensures parts == EscFields(input)
  {
    parts := [];
    var current := "";
    var escape := false;
    for i := 0 to |input|
      invariant parts + EscFieldsFrom(input[i..], current, escape) == EscFields(input)
    {
      assert input[i..][1..] == input[i + 1..];
      var c := input[i];
      if escape {
        current := current + [c];
        escape := false;
      } else if c == '\\' {
        escape := true;
      } else if c == ';' {
        parts := parts + [current];
        current := "";
      } else {
        current := current + [c];
      }
    }
    if current != [] {
      parts := parts + [current];
    }
    assert parts == parts + [];
  }

  function EscapeAll(tokens: seq<string>): (r: seq<string>)
    ensures |r| == |tokens|
    ensures forall i :: 0 <= i < |tokens| ==> r[i] == Escaped(tokens[i])
  {
    if tokens == [] then [] else [Escaped(tokens[0])] + EscapeAll(tokens[1..])
  }

  /** A compressed line: the escaped tokens joined with `;`. */
  function JoinEscaped(tokens: seq<string>): string
    requires |tokens| >= 1
  {
    Join(EscapeAll(tokens), ';')
  }

  lemma {:induction false} EscFieldsEscapedPrefix(w: string, rest: string, cur: string)
    ensures EscFieldsFrom(Escaped(w) + rest, cur, false) == EscFieldsFrom(rest, cur + w, false)
    decreases |w|
  {
    if w != [] {
      var e := Escaped(w[1..]) + rest;
      EscFieldsEscapedPrefix(w[1..], rest, cur + [w[0]]);
      AppendAssoc(EscapeChar(w[0]), Escaped(w[1..]), rest);
      if w[0] == '\\' || w[0] == ';' {
        var x := [w[0]] + e;
        assert EscapeChar(w[0]) + e == ['\\'] + x;
        assert (['\\'] + x)[1..] == x && x[1..] == e;
      } else {
        assert ([w[0]] + e)[1..] == e;
      }
      assert w == [w[0]] + w[1..];
      AppendAssoc(cur, [w[0]], w[1..]);
    } else {
      assert Escaped(w) + rest == rest && cur + w == cur;
    }
  }

  /** Splitting gives back the tokens when the last token is non-empty;
      an empty last token is what the split drops. */
  lemma {:induction false} SplitJoinEscaped(tokens: seq<string>)
    requires |tokens| >= 1
    ensures tokens[|tokens| - 1] != [] ==> EscFields(JoinEscaped(tokens)) == tokens
    ensures tokens[|tokens| - 1] == [] ==> EscFields(JoinEscaped(tokens)) == tokens[..|tokens| - 1]
    decreases |tokens|
  {
    var t := tokens[0];
    if |tokens| == 1 {
      EscFieldsEscapedPrefix(t, [], []);
      assert Escaped(t) + [] == Escaped(t) && [] + t == t;
      assert JoinEscaped(tokens) == Escaped(t);
    } else {
      var rest := JoinEscaped(tokens[1..]);
      var sr := [';'] + rest;
      assert JoinEscaped(tokens) == Escaped(t) + sr;
      EscFieldsEscapedPrefix(t, sr, []);
      assert [] + t == t;
      assert sr[0] == ';' && sr[1..] == rest;
      assert EscFieldsFrom(sr, t, false) == [t] + EscFields(rest);
      SplitJoinEscaped(tokens[1..]);
      assert tokens == [t] + tokens[1..];
    }
  }

  /** A compressed line never starts with a `\` that is followed by anything
      but `\` or `;`: no such line can be mistaken for a marker like `\UPR`. */
  lemma JoinEscapedHead(tokens: seq<string>)
    requires |tokens| >= 1
    ensures var s := JoinEscaped(tokens);
      |s| >= 1 && s[0] == '\\' ==> |s| >= 2 && (s[1] == '\\' || s[1] == ';')
  {
    var t := tokens[0];
    var s := JoinEscaped(tokens);
    var tail := if |tokens| == 1 then [] else [';'] + JoinEscaped(tokens[1..]);
    assert s == Escaped(t) + tail;
    if t != [] {
      assert Escaped(t) == EscapeChar(t[0]) + Escaped(t[1..]);
    }
  }
}
