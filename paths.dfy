/** `key.split('/').pop()`: the last "/"-separated segment of an object key or URL,
    which both the gallery listing and the gallery page use as an image's name. */
module Paths {

  const Slash: char := '/'

  /** JavaScript's `s.split(sep)`: the maximal runs of non-separator characters, in
      order, including the empty runs around adjacent or leading/trailing separators. */
  function Split(s: string, sep: char): (parts: seq<string>)
    ensures |parts| >= 1
    ensures forall i :: 0 <= i < |parts| ==> sep !in parts[i]
    ensures Join(parts, sep) == s
    ensures |parts| == 1 <==> sep !in s
    decreases |s|
  {
    if s == [] then [[]]
    else
      var rest := Split(s[1..], sep);
      if s[0] == sep then [[]] + rest
      else
        var parts := [[s[0]] + rest[0]] + rest[1..];
        assert parts[1..] == rest[1..];
        parts
  }

  /** Inverse of `Split`: the parts glued back together with `sep` between them. */
  function Join(parts: seq<string>, sep: char): (s: string)
    requires |parts| >= 1
    decreases |parts|
  {
    if |parts| == 1 then parts[0] else parts[0] + [sep] + Join(parts[1..], sep)
  }

  /** `b` is a "/"-free suffix of `s` that cannot be extended to the left without
      taking in a "/": the text after the last "/", or all of `s` when it has none. */
  ghost predicate IsLastSegment(s: string, b: string)
  {
    |b| <= |s| && s[|s| - |b|..] == b && Slash !in b &&
    (|b| < |s| ==> s[|s| - |b| - 1] == Slash)
  }

  /** `s.split('/').pop()`: the text after the last "/" of the key, or the whole key. */
  function Basename(s: string): (b: string)
    ensures IsLastSegment(s, b)
  {
    var parts := Split(s, Slash);
    var last := parts[|parts| - 1];
    assert IsLastSegment(s, last) by {
      if |parts| >= 2 {
        JoinLast(parts, Slash);
        assert s == Join(parts[..|parts| - 1], Slash) + [Slash] + last;
        assert s[|s| - |last|..] == last;
      }
    }
    last
  }

  lemma {:induction false} JoinLast(parts: seq<string>, sep: char)
    requires |parts| >= 2
    ensures Join(parts, sep) == Join(parts[..|parts| - 1], sep) + [sep] + parts[|parts| - 1]
    decreases |parts|
  {
    if |parts| > 2 {
      JoinLast(parts[1..], sep);
      assert parts[1..][..|parts| - 2] == parts[1..|parts| - 1];
      assert parts[..|parts| - 1][1..] == parts[1..|parts| - 1];
    }
  }

  /** There is only one last segment: any "/"-free suffix that reaches back to a "/"
      or to the start of `s` is the basename. */
  lemma LastSegmentUnique(s: string, b: string)
    requires IsLastSegment(s, b)
    ensures Basename(s) == b
  {
    var c := Basename(s);
    assert |b| == |c|;
  }

  /** A key without "/" is its own basename. */
  lemma BasenameOfPlainName(s: string)
    requires Slash !in s
    ensures Basename(s) == s
  {
    LastSegmentUnique(s, s);
  }

  /** Taking the basename twice is the same as taking it once. */
  lemma BasenameIdempotent(s: string)
    ensures Basename(Basename(s)) == Basename(s)
  {
    BasenameOfPlainName(Basename(s));
  }

  /** A key whose last character is "/" (a "folder" key) has an empty basename. */
  lemma BasenameOfFolderKey(s: string)
    requires |s| > 0 && s[|s| - 1] == Slash
    ensures Basename(s) == ""
  {
    LastSegmentUnique(s, "");
  }

  /** Whatever precedes a "/" does not change the basename of what follows it. */
  lemma BasenameAfterSlash(prefix: string, s: string)
    ensures Basename(prefix + [Slash] + s) == Basename(s)
  {
    var whole := prefix + [Slash] + s;
    var b := Basename(s);
    assert whole[|whole| - |s|..] == s;
    assert whole[|whole| - |b|..] == b;
    if |b| == |s| {
      assert whole[|whole| - |b| - 1] == Slash;
    } else {
      assert whole[|whole| - |b| - 1] == s[|s| - |b| - 1];
    }
    LastSegmentUnique(whole, b);
  }
}
