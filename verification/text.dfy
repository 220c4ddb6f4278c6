/** Characters and plain strings: ASCII case classification, lowercasing and
    splitting on a delimiter character. */
module Text {

  // ASCII classification, as the "C" locale defines isupper, islower and isalpha.
  predicate IsUpper(c: char) { 'A' <= c <= 'Z' }
  predicate IsLower(c: char) { 'a' <= c <= 'z' }
  predicate IsAlpha(c: char) { IsUpper(c) || IsLower(c) }

  /** Regrouping a concatenation, kept out of the loops that append piece by piece. */
  lemma AppendAssoc<T>(a: seq<T>, b: seq<T>, c: seq<T>)
    ensures a + b + c == a + (b + c)
  {
  }

  function ToUpper(c: char): (r: char)
    ensures IsAlpha(r) == IsAlpha(c) && !IsLower(r)
    ensures !IsLower(c) ==> r == c
  {
    if IsLower(c) then (c as int - 32) as char else c
  }

  function ToLower(c: char): (r: char)
    ensures IsAlpha(r) == IsAlpha(c) && !IsUpper(r)
    ensures IsUpper(c) ==> ToUpper(r) == c
    ensures !IsUpper(c) ==> r == c
  {
    if IsUpper(c) then (c as int + 32) as char else c
  }

  /** The string with every character lowercased. */
  function Lower(s: string): string
  {
    seq(|s|, i requires 0 <= i < |s| => ToLower(s[i]))
  }

  method StringToLowercase(input: string) returns (output: string)
    ensures output == Lower(input)
    ensures forall i :: 0 <= i < |output| ==> !IsUpper(output[i])
  {
    output := "";
    for i := 0 to |input|
      invariant output == Lower(input[..i])
    {
      output := output + [ToLower(input[i])];
    }
    assert input[..|input|] == input;
  }

  /** The parts of `cur + s` cut at every `d`, where `cur` is the part already begun. */
  function FieldsFrom(s: string, d: char, cur: string): (parts: seq<string>)
    ensures |parts| >= 1
    decreases |s|
  {
    if s == [] then [cur]
    else if s[0] == d then [cur] + FieldsFrom(s[1..], d, [])
      else FieldsFrom(s[1..], d, cur + [s[0]])
  }

  function Fields(s: string, d: char): seq<string>
  {
    FieldsFrom(s, d, [])
  }

  /** The parts glued back together with one `d` between neighbours. */
  function Join(parts: seq<string>, d: char): string
    requires |parts| >= 1
  {
    if |parts| == 1 then parts[0] else parts[0] + [d] + Join(parts[1..], d)
  }

  /** One character of the split loop. */
  lemma FieldsStep(parts: seq<string>, current: string, s: string, i: nat, d: char)
    requires i < |s|
    ensures s[i] == d ==> parts + FieldsFrom(s[i..], d, current) == (parts + [current]) + FieldsFrom(s[i + 1..], d, [])
    ensures s[i] != d ==> parts + FieldsFrom(s[i..], d, current) == parts + FieldsFrom(s[i + 1..], d, current + [s[i]])
  {
    assert s[i..][1..] == s[i + 1..];
    if s[i] == d {
      AppendAssoc(parts, [current], FieldsFrom(s[i + 1..], d, []));
    }
  }

  method Split(input: string, delimiter: char) returns (parts: seq<string>)
    ensures parts == Fields(input, delimiter)
    ensures |parts| == multiset(input)[delimiter] + 1
    ensures Join(parts, delimiter) == input
  {
    parts := [];
    var current := "";
    for i := 0 to |input|
      invariant parts + FieldsFrom(input[i..], delimiter, current) == Fields(input, delimiter)
    {
      FieldsStep(parts, current, input, i, delimiter);
      if input[i] == delimiter {
        parts := parts + [current];
        current := "";
      } else {
        current := current + [input[i]];
      }
    }
    assert input[|input|..] == [];
    parts := parts + [current];
    JoinFields(input, delimiter, []);
    assert [] + input == input;
    FieldsCount(input, delimiter, []);
  }

  /** One part per delimiter, plus one. */
  lemma {:induction false} FieldsCount(s: string, d: char, cur: string)
    ensures |FieldsFrom(s, d, cur)| == multiset(s)[d] + 1
    decreases |s|
  {
    if s != [] {
      assert s == [s[0]] + s[1..];
      FieldsCount(s[1..], d, if s[0] == d then [] else cur + [s[0]]);
    }
  }

  lemma {:induction false} JoinFields(s: string, d: char, cur: string)
    ensures Join(FieldsFrom(s, d, cur), d) == cur + s
    decreases |s|
  {
    if s != [] {
      if s[0] == d {
        JoinFields(s[1..], d, []);
        assert FieldsFrom(s, d, cur)[1..] == FieldsFrom(s[1..], d, []);
        assert cur + s == cur + [d] + s[1..];
      } else {
        JoinFields(s[1..], d, cur + [s[0]]);
        assert cur + s == (cur + [s[0]]) + s[1..];
      }
    }
  }

  lemma {:induction false} FieldsOfPart(p: string, rest: string, d: char, cur: string)
    requires d !in p
    ensures FieldsFrom(p + rest, d, cur) == FieldsFrom(rest, d, cur + p)
    decreases |p|
  {
    if p != [] {
      assert (p + rest)[0] == p[0] && (p + rest)[1..] == p[1..] + rest;
      FieldsOfPart(p[1..], rest, d, cur + [p[0]]);
      assert cur + [p[0]] + p[1..] == cur + p;
    } else {
      assert p + rest == rest && cur + p == cur;
    }
  }

  lemma FieldsAfterPart(p: string, rest: string, d: char)
    requires d !in p
    ensures Fields(p + [d] + rest, d) == [p] + Fields(rest, d)
  {
    var dr := [d] + rest;
    assert p + [d] + rest == p + dr;
    FieldsOfPart(p, dr, d, []);
    assert [] + p == p;
    assert dr[0] == d && dr[1..] == rest;
  }

  /** Splitting undoes joining whenever no part holds the delimiter. */
  lemma {:induction false} FieldsJoin(parts: seq<string>, d: char)
    requires |parts| >= 1
    requires forall i :: 0 <= i < |parts| ==> d !in parts[i]
    ensures Fields(Join(parts, d), d) == parts
    decreases |parts|
  {
    if |parts| == 1 {
      FieldsOfPart(parts[0], [], d, []);
      assert parts[0] + [] == parts[0] && [] + parts[0] == parts[0];
      assert parts == [parts[0]];
    } else {
      var tail := parts[1..];
      FieldsAfterPart(parts[0], Join(tail, d), d);
      assert forall i :: 0 <= i < |tail| ==> d !in tail[i] by {
        forall i | 0 <= i < |tail| ensures d !in tail[i] { assert tail[i] == parts[i + 1]; }
      }
      FieldsJoin(tail, d);
      assert parts == [parts[0]] + tail;
    }
  }

  /** The position of the first `c` in `s`, or |s| when there is none. */
  function IndexOfChar(s: string, c: char): (k: nat)
    ensures k <= |s|
    ensures c !in s[..k]
    ensures k < |s| ==> s[k] == c
  {
    if s == [] then 0
    else if s[0] == c then 0
    else
      assert s[..1 + IndexOfChar(s[1..], c)] == [s[0]] + s[1..][..IndexOfChar(s[1..], c)];
      1 + IndexOfChar(s[1..], c)
  }

  /** The three facts of IndexOfChar determine it. */
  lemma IndexOfCharUnique(s: string, c: char, k: nat)
    requires k <= |s| && c !in s[..k] && (k < |s| ==> s[k] == c)
    ensures IndexOfChar(s, c) == k
  {
  }

  /** Parts followed each by `d`: what a loop appending `part + d` builds. */
  function Terminated(parts: seq<string>, d: char): string
  {
    if parts == [] then [] else parts[0] + [d] + Terminated(parts[1..], d)
  }

  /** Dropping the last character of the terminated form gives the joined form. */
  lemma {:induction false} TerminatedJoin(parts: seq<string>, d: char)
    requires |parts| >= 1
    ensures Terminated(parts, d) == Join(parts, d) + [d]
    decreases |parts|
  {
    if |parts| > 1 {
      TerminatedJoin(parts[1..], d);
    } else {
      assert Terminated(parts[1..], d) == [];
    }
  }

  /** One part of the terminated form, as a loop that appends part and
      delimiter writes it. */
  lemma TerminatedStep(buf: string, parts: seq<string>, j: nat, d: char)
    requires j < |parts|
    ensures buf + Terminated(parts[j..], d) == (buf + (parts[j] + [d])) + Terminated(parts[j + 1..], d)
  {
    assert parts[j..][1..] == parts[j + 1..];
    AppendAssoc(buf, parts[j] + [d], Terminated(parts[j + 1..], d));
  }

  /** Every character of a part is a character of the joined string. */
  lemma {:induction false} JoinHolds(parts: seq<string>, d: char, i: nat, c: char)
    requires |parts| >= 1 && i < |parts| && c in parts[i]
    ensures c in Join(parts, d)
    decreases |parts|
  {
    if |parts| > 1 {
      if i == 0 {
        assert Join(parts, d) == parts[0] + ([d] + Join(parts[1..], d));
      } else {
        JoinHolds(parts[1..], d, i - 1, c);
        assert Join(parts, d) == (parts[0] + [d]) + Join(parts[1..], d);
      }
    }
  }
}
