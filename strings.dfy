/** `String.prototype.split` with a one-character separator, and the last
    segment it yields, which is how an explicit file suffix becomes a
    filetype. */
module Strings {

  /** The parts with `sep` between each two neighbours: what split undoes. */
  function Join(parts: seq<string>, sep: char): string
    requires |parts| >= 1
    decreases |parts|
  {
    if |parts| == 1 then parts[0] else parts[0] + [sep] + Join(parts[1..], sep)
  }

  /** `s.split(sep)`: the pieces between occurrences of `sep`, in order,
      an empty piece wherever two separators touch or `s` starts or ends
      with one. */
  function Split(s: string, sep: char): (parts: seq<string>)
    ensures |parts| >= 1
    decreases |s|
  {
    if s == [] then [""]
    else
      var rest := Split(s[1..], sep);
      if s[0] == sep then [""] + rest
      else [[s[0]] + rest[0]] + rest[1..]
  }

  /** The pieces hold no separator and joined back give `s`. */
  lemma {:induction false} SplitJoinsBack(s: string, sep: char)
    ensures forall i :: 0 <= i < |Split(s, sep)| ==> sep !in Split(s, sep)[i]
    ensures Join(Split(s, sep), sep) == s
    decreases |s|
  {
    if s != [] {
      SplitJoinsBack(s[1..], sep);
      var rest := Split(s[1..], sep);
      if s[0] != sep {
        var parts := [[s[0]] + rest[0]] + rest[1..];
        assert parts[1..] == rest[1..];
        assert [s[0]] + s[1..] == s;
      }
    }
  }

  /** A separator-free prefix splits off as a piece of its own. */
  lemma {:induction false} SplitAfterPiece(x: string, sep: char, y: string)
    requires sep !in x
    ensures Split(x + [sep] + y, sep) == [x] + Split(y, sep)
    decreases |x|
  {
    var s := x + [sep] + y;
    if x == [] {
      assert s[1..] == y;
    } else {
      assert s[1..] == x[1..] + [sep] + y;
      SplitAfterPiece(x[1..], sep, y);
      assert [x[0]] + x[1..] == x;
    }
  }

  /** A string without the separator is its own single piece. */
  lemma {:induction false} SplitWithoutSep(x: string, sep: char)
    requires sep !in x
    ensures Split(x, sep) == [x]
    decreases |x|
  {
    if x != [] {
      SplitWithoutSep(x[1..], sep);
      assert [x[0]] + x[1..] == x;
    }
  }

  /** Split is the inverse of Join on separator-free pieces, so it is the
      only way to cut a string into such pieces. */
  lemma {:induction false} SplitJoin(parts: seq<string>, sep: char)
    requires |parts| >= 1
    requires forall i :: 0 <= i < |parts| ==> sep !in parts[i]
    ensures Split(Join(parts, sep), sep) == parts
    decreases |parts|
  {
    if |parts| == 1 {
      SplitWithoutSep(parts[0], sep);
    } else {
      SplitJoin(parts[1..], sep);
      SplitAfterPiece(parts[0], sep, Join(parts[1..], sep));
      assert [parts[0]] + parts[1..] == parts;
    }
  }

  /** A separator-free tail after the last separator is the last piece. */
  lemma {:induction false} SplitBeforeTail(p: string, sep: char, t: string)
    requires sep !in t
    ensures Split(p + [sep] + t, sep) == Split(p, sep) + [t]
    decreases |p|
  {
    var s := p + [sep] + t;
    if p == [] {
      assert s[1..] == t;
      SplitWithoutSep(t, sep);
    } else {
      assert s[1..] == p[1..] + [sep] + t;
      SplitBeforeTail(p[1..], sep, t);
    }
  }

  /** Join ends with its last piece, which follows the last separator. */
  lemma {:induction false} JoinEndsWithLast(parts: seq<string>, sep: char)
    requires |parts| >= 1
    ensures var s, t := Join(parts, sep), parts[|parts| - 1];
      |t| <= |s| && s[|s| - |t|..] == t && (|parts| > 1 ==> |t| < |s| && s[|s| - |t| - 1] == sep)
    decreases |parts|
  {
    if |parts| > 1 {
      JoinEndsWithLast(parts[1..], sep);
    }
  }

  /** `parts[parts.length - 1]` of `s.split('.')`: the longest suffix of `s`
      without a dot, which is all of `s` when `s` has no dot and otherwise
      what follows its last dot. */
  function LastSegment(s: string): (r: string)
    ensures '.' !in r
    ensures |r| <= |s| && s[|s| - |r|..] == r
    ensures |r| == |s| || s[|s| - |r| - 1] == '.'
  {
    var parts := Split(s, '.');
    SplitJoinsBack(s, '.');
    JoinEndsWithLast(parts, '.');
    parts[|parts| - 1]
  }

  /** Whatever precedes the last dot, the segment after it is the result. */
  lemma SegmentAfterLastDot(p: string, t: string)
    requires '.' !in t
    ensures LastSegment(p + ['.'] + t) == t
  {
    SplitBeforeTail(p, '.', t);
  }

  /** A string without a dot is its own last segment. */
  lemma SegmentWithoutDot(s: string)
    requires '.' !in s
    ensures LastSegment(s) == s
  {
    SplitWithoutSep(s, '.');
  }

  /** The suffixes named in the command-line help, and a trailing dot. */
  lemma SuffixExamples()
    ensures LastSegment(".zip") == "zip"
    ensures LastSegment(".tar.bz2") == "bz2"
    ensures LastSegment(".dmg") == "dmg"
    ensures LastSegment("zip") == "zip"
    ensures LastSegment("foo.") == ""
  {
    SegmentAfterLastDot("", "zip");
    SegmentAfterLastDot(".tar", "bz2");
    SegmentAfterLastDot("", "dmg");
    SegmentWithoutDot("zip");
    SegmentAfterLastDot("foo", "");
  }
}
