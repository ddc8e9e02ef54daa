/** The subset of Apache commons-lang3 `StringUtils` and of `String.split` that the
    modelled services use. `removeFirst` and `replaceFirst` take a regular expression
    in the library; here the pattern is read literally (first occurrence of the text). */
module Strings {
  import opened Wrappers

  /** `StringUtils.isNotEmpty`: neither null nor the empty string. */
  predicate IsNotEmpty(s: Option<string>) {
    s.Some? && s.value != ""
  }

  predicate StartsWith(s: string, prefix: string) {
    prefix <= s
  }

  predicate EndsWith(s: string, suffix: string) {
    |suffix| <= |s| && s[|s| - |suffix|..] == suffix
  }

  /** `StringUtils.appendIfMissing`: the suffix is added only when it is not already there. */
  function AppendIfMissing(s: string, suffix: string): (r: string)
    ensures EndsWith(r, suffix)
    ensures StartsWith(r, s)
    ensures EndsWith(s, suffix) ==> r == s
    ensures !EndsWith(s, suffix) ==> r == s + suffix
  {
    if EndsWith(s, suffix) then s else s + suffix
  }

  /** `StringUtils.removeEnd`: drops one occurrence of the suffix at the end, if present. */
  function RemoveEnd(s: string, suffix: string): (r: string)
    ensures EndsWith(s, suffix) ==> r + suffix == s
    ensures !EndsWith(s, suffix) ==> r == s
  {
    if EndsWith(s, suffix) then s[..|s| - |suffix|] else s
  }

  /** `sub` occurs in `s` starting at position `i`. */
  predicate OccursAt(s: string, sub: string, i: nat) {
    i + |sub| <= |s| && s[i..i + |sub|] == sub
  }

  /** Position `i` is the first place where `sub` occurs in `s`. */
  predicate FirstOccurrence(s: string, sub: string, i: nat) {
    OccursAt(s, sub, i) && forall j: nat :: j < i ==> !OccursAt(s, sub, j)
  }

  /** The first occurrence of `sub` in `s` at or after `from`. */
  function IndexOfFrom(s: string, sub: string, from: nat): (r: Option<nat>)
    requires from <= |s|
    ensures r.Some? ==> from <= r.value && OccursAt(s, sub, r.value)
    ensures r.Some? ==> forall j: nat :: from <= j < r.value ==> !OccursAt(s, sub, j)
    ensures r.None? ==> forall j: nat :: from <= j ==> !OccursAt(s, sub, j)
    decreases |s| - from
  {
    if OccursAt(s, sub, from) then Some(from)
    else if from == |s| then None
    else IndexOfFrom(s, sub, from + 1)
  }

  /** `String.indexOf`: the first position where `sub` occurs in `s`. */
  function IndexOf(s: string, sub: string): (r: Option<nat>)
    ensures r.Some? ==> OccursAt(s, sub, r.value)
    ensures r.Some? ==> forall j: nat :: j < r.value ==> !OccursAt(s, sub, j)
    ensures r.None? ==> forall j: nat :: !OccursAt(s, sub, j)
  {
    IndexOfFrom(s, sub, 0)
  }

  /** `StringUtils.replaceFirst`, with the pattern read literally: the first occurrence of the
      target is replaced and the text around it is kept; text without the target is unchanged. */
  function ReplaceFirst(s: string, target: string, replacement: string): (r: string)
    ensures (forall j: nat :: !OccursAt(s, target, j)) ==> r == s
    ensures forall i: nat :: FirstOccurrence(s, target, i) ==> r == s[..i] + replacement + s[i + |target|..]
  {
    match IndexOf(s, target)
    case Some(i) => s[..i] + replacement + s[i + |target|..]
    case None => s
  }

  /** `StringUtils.removeFirst`, with the pattern read literally: the first occurrence of the
      target is cut out; text without the target is unchanged. */
  function RemoveFirst(s: string, target: string): (r: string)
    ensures (forall j: nat :: !OccursAt(s, target, j)) ==> r == s
    ensures forall i: nat :: FirstOccurrence(s, target, i) ==> r == s[..i] + s[i + |target|..]
  {
    ReplaceFirst(s, target, "")
  }

  /** Replacing the first occurrence of a prefix re-roots the rest of the text. */
  lemma ReplaceFirstOfPrefix(s: string, target: string, replacement: string)
    requires StartsWith(s, target)
    ensures ReplaceFirst(s, target, replacement) == replacement + s[|target|..]
  {
    var r := ReplaceFirst(s, target, replacement);
    assert r == s[..0] + replacement + s[|target|..] by {
      assert FirstOccurrence(s, target, 0);
    }
    assert s[..0] + replacement == replacement;
  }

  /** Text without the target comes back unchanged. */
  lemma ReplaceFirstAbsent(s: string, target: string, replacement: string)
    requires forall j: nat :: !OccursAt(s, target, j)
    ensures ReplaceFirst(s, target, replacement) == s
  {
  }

  /** When the target occurs, exactly its first occurrence is replaced and nothing else changes. */
  lemma ReplaceFirstSplices(s: string, target: string, replacement: string, i: nat)
    requires OccursAt(s, target, i)
    requires forall j: nat :: j < i ==> !OccursAt(s, target, j)
    ensures ReplaceFirst(s, target, replacement) == s[..i] + replacement + s[i + |target|..]
  {
  }

  /** The last position of `c` in `s`. */
  function LastIndexOf(s: string, c: char): (r: Option<nat>)
    ensures r.Some? ==> r.value < |s| && s[r.value] == c
    ensures r.Some? ==> forall j :: r.value < j < |s| ==> s[j] != c
    ensures r.None? <==> c !in s
  {
    if |s| == 0 then None
    else if s[|s| - 1] == c then Some(|s| - 1)
    else LastIndexOf(s[..|s| - 1], c)
  }

  /** `StringUtils.substringAfterLast` with a one-character separator: the text after the
      last separator, or empty when there is none. */
  function SubstringAfterLast(s: string, sep: char): (r: string)
    ensures sep !in r
    ensures sep in s ==> EndsWith(s, [sep] + r)
    ensures sep !in s ==> r == ""
  {
    match LastIndexOf(s, sep)
    case None => ""
    case Some(i) =>
      var r := s[i + 1..];
      assert s[|s| - |[sep] + r|..] == [sep] + r;
      r
  }

  /** `String.split` on one character, keeping every piece, empty ones included. */
  function Split(s: string, sep: char): (r: seq<string>)
    ensures |r| >= 1
    decreases |s|
  {
    if |s| == 0 then [""]
    else
      var rest := Split(s[1..], sep);
      if s[0] == sep then [""] + rest
      else [[s[0]] + rest[0]] + rest[1..]
  }

  /** Gluing the pieces back with the separator. */
  function Join(pieces: seq<string>, sep: char): string
    requires |pieces| >= 1
  {
    if |pieces| == 1 then pieces[0]
    else pieces[0] + [sep] + Join(pieces[1..], sep)
  }

  /** Splitting loses nothing: the pieces are separator-free and join back to the input. */
  lemma {:induction false} SplitJoin(s: string, sep: char)
    ensures Join(Split(s, sep), sep) == s
    ensures forall i :: 0 <= i < |Split(s, sep)| ==> sep !in Split(s, sep)[i]
    decreases |s|
  {
    if |s| > 0 {
      SplitJoin(s[1..], sep);
      var rest := Split(s[1..], sep);
      if s[0] == sep {
        assert Split(s, sep)[1..] == rest;
        assert s == [s[0]] + s[1..];
      } else {
        var r := Split(s, sep);
        assert r[0] == [s[0]] + rest[0];
        assert r[1..] == rest[1..];
        if |rest| == 1 {
          assert Join(r, sep) == [s[0]] + rest[0];
        } else {
          assert Join(rest, sep) == rest[0] + [sep] + Join(rest[1..], sep);
          assert Join(r, sep) == [s[0]] + rest[0] + [sep] + Join(rest[1..], sep);
        }
        assert s == [s[0]] + s[1..];
      }
    }
  }

  /** Text without the separator is a single piece. */
  lemma {:induction false} SplitNoSeparator(s: string, sep: char)
    requires sep !in s
    ensures Split(s, sep) == [s]
    decreases |s|
  {
    if |s| > 0 {
      SplitNoSeparator(s[1..], sep);
      assert s == [s[0]] + s[1..];
    }
  }

  /** A separator between two texts splits them independently. */
  lemma {:induction false} SplitConcat(a: string, b: string, sep: char)
    ensures Split(a + [sep] + b, sep) == Split(a, sep) + Split(b, sep)
    decreases |a|
  {
    var s := a + [sep] + b;
    if |a| == 0 {
      assert s[1..] == b;
    } else {
      assert s[1..] == a[1..] + [sep] + b;
      SplitConcat(a[1..], b, sep);
    }
  }

  /** A leading separator contributes one empty piece. */
  lemma SplitLeadingSeparator(t: string, sep: char)
    ensures Split([sep] + t, sep) == [""] + Split(t, sep)
  {
  }

  /** A separator-free text before a separator is one piece of its own. */
  lemma SplitPieceThenRest(piece: string, t: string, sep: char)
    requires sep !in piece
    ensures Split(piece + [sep] + t, sep) == [piece] + Split(t, sep)
  {
    SplitConcat(piece, t, sep);
    SplitNoSeparator(piece, sep);
  }
}
