/**
 * Name helpers of tools/janitor/pkg/utils/utils.go (repeated verbatim in
 * tools/resource-janitor as getResourceName, sanitizeResourceURL and
 * GetTooOldTime): Go's strings.Split and strings.Join, the naming-scheme
 * basename, the last segment of a self-link, and the expiry threshold.
 */
module Naming {
  import opened Seqs

  /** `sep` occurs in `s` starting at index `j`. */
  predicate OccursAt(s: string, sep: string, j: int)
  {
    0 <= j && j + |sep| <= |s| && s[j..j + |sep|] == sep
  }

  /** Go's strings.Contains. */
  predicate Contains(s: string, sep: string)
  {
    exists j | 0 <= j <= |s| :: OccursAt(s, sep, j)
  }

  lemma OccursShift(s: string, sep: string, j: int)
    requires s != [] && 1 <= j
    ensures OccursAt(s, sep, j) <==> OccursAt(s[1..], sep, j - 1)
  {
    if j + |sep| <= |s| {
      assert s[1..][j - 1..j - 1 + |sep|] == s[j..j + |sep|];
    }
  }

  /** Go's strings.Index for a non-empty separator: the first occurrence, or -1. */
  function IndexOf(s: string, sep: string): (r: int)
    requires sep != []
    ensures r < 0 ==> r == -1 && forall j :: !OccursAt(s, sep, j)
    ensures r >= 0 ==> OccursAt(s, sep, r) && forall j :: j < r ==> !OccursAt(s, sep, j)
    decreases |s|
  {
    if |s| < |sep| then -1
    else if s[..|sep|] == sep then 0
    else
      var r := IndexOf(s[1..], sep);
      assert forall j :: 1 <= j ==> (OccursAt(s, sep, j) <==> OccursAt(s[1..], sep, j - 1)) by {
        forall j | 1 <= j { OccursShift(s, sep, j); }
      }
      if r < 0 then -1 else r + 1
  }

  /** strings.Split with a non-empty separator: cut at each leftmost occurrence. */
  function SplitOn(s: string, sep: string): (parts: seq<string>)
    requires sep != []
    ensures |parts| >= 1
    decreases |s|
  {
    var i := IndexOf(s, sep);
    if i < 0 then [s] else [s[..i]] + SplitOn(s[i + |sep|..], sep)
  }

  /** strings.Split with an empty separator: one element per character. */
  function Explode(s: string): seq<string>
  {
    seq(|s|, k requires 0 <= k < |s| => [s[k]])
  }

  /** Go's strings.Split. */
  function Split(s: string, sep: string): seq<string>
  {
    if sep == [] then Explode(s) else SplitOn(s, sep)
  }

  /** Go's strings.Join. */
  function Join(parts: seq<string>, sep: string): string
    decreases |parts|
  {
    if parts == [] then []
    else if |parts| == 1 then parts[0]
    else parts[0] + sep + Join(parts[1..], sep)
  }

  /** Go's strings.Split yields at least one part unless both arguments are empty. */
  predicate Splittable(a: string, d: string)
  {
    a != [] || d != []
  }

  lemma SplitNonEmpty(a: string, d: string)
    requires Splittable(a, d)
    ensures |Split(a, d)| >= 1
  {
  }

  /**
   * GetResourceBasename / getResourceName: every segment but the last, rejoined.
   * It is a prefix of the name, for every delimiter, and shorter than a non-empty name.
   */
  function Basename(a: string, d: string): (r: string)
    requires Splittable(a, d)
    ensures r <= a
    ensures a != [] ==> |r| < |a|
  {
    var parts := Split(a, d);
    assert |parts| >= 1 by { SplitNonEmpty(a, d); }
    DropLastIsPrefix(a, d);
    Join(parts[..|parts| - 1], d)
  }

  /** The final delimiter-separated segment. */
  function LastSegment(a: string, d: string): string
    requires Splittable(a, d)
  {
    var parts := Split(a, d);
    assert |parts| >= 1 by { SplitNonEmpty(a, d); }
    parts[|parts| - 1]
  }

  /**
   * GetResourceNameFromURL / sanitizeResourceURL: the last `/` segment of a self-link,
   * a suffix of it that contains no `/`.
   */
  function NameFromURL(z: string): (r: string)
    ensures |r| <= |z| && z[|z| - |r|..] == r
    ensures '/' !in r
  {
    LastSlashSegment(z);
    LastSegment(z, "/")
  }

  // ---------------------------------------------------------------- Split/Join

  lemma {:induction false} JoinSnoc(parts: seq<string>, sep: string)
    requires |parts| >= 2
    ensures Join(parts, sep) == Join(parts[..|parts| - 1], sep) + sep + parts[|parts| - 1]
    decreases |parts|
  {
    if |parts| > 2 {
      JoinSnoc(parts[1..], sep);
      assert parts[1..][..|parts| - 2] == parts[..|parts| - 1][1..];
    }
  }

  lemma JoinCons(h: string, tail: seq<string>, sep: string)
    requires tail != []
    ensures Join([h] + tail, sep) == h + sep + Join(tail, sep)
  {
    assert ([h] + tail)[1..] == tail;
  }

  /** The leftmost occurrence at `i` cuts `s` into the part before it, `sep`, and the rest. */
  lemma CutAtFirst(s: string, sep: string)
    requires sep != [] && IndexOf(s, sep) >= 0
    ensures var i := IndexOf(s, sep);
            s == s[..i] + sep + s[i + |sep|..] &&
            SplitOn(s, sep) == [s[..i]] + SplitOn(s[i + |sep|..], sep)
  {
    var i := IndexOf(s, sep);
    var j := i + |sep|;
    assert s[i..j] == sep;
    assert s[..j] == s[..i] + s[i..j];
    assert s == s[..j] + s[j..];
    assert SplitOn(s, sep) == [s[..i]] + SplitOn(s[j..], sep);
  }

  lemma {:induction false} SplitOnJoin(s: string, sep: string)
    requires sep != []
    ensures Join(SplitOn(s, sep), sep) == s
    decreases |s|
  {
    var i := IndexOf(s, sep);
    if i >= 0 {
      var rest := s[i + |sep|..];
      CutAtFirst(s, sep);
      SplitOnJoin(rest, sep);
      JoinCons(s[..i], SplitOn(rest, sep), sep);
    }
  }

  lemma {:induction false} ExplodeJoin(s: string)
    ensures Join(Explode(s), []) == s
    decreases |s|
  {
    if |s| >= 2 {
      ExplodeJoin(s[1..]);
      assert Explode(s)[1..] == Explode(s[1..]);
      assert s == [s[0]] + s[1..];
    } else if |s| == 1 {
      assert s == [s[0]];
      assert Explode(s) == [s];
    }
  }

  /** Splitting and rejoining with the same separator gives the string back. */
  lemma SplitJoin(s: string, sep: string)
    ensures Join(Split(s, sep), sep) == s
  {
    if sep == [] { ExplodeJoin(s); } else { SplitOnJoin(s, sep); }
  }

  /** No part produced by SplitOn holds the separator. */
  lemma {:induction false} SplitOnPartsFree(s: string, sep: string)
    requires sep != []
    ensures forall k :: 0 <= k < |SplitOn(s, sep)| ==> !Contains(SplitOn(s, sep)[k], sep)
    decreases |s|
  {
    var i := IndexOf(s, sep);
    if i >= 0 {
      var rest := s[i + |sep|..];
      SplitOnPartsFree(rest, sep);
      forall j | OccursAt(s[..i], sep, j) ensures false {
        assert s[..i][j..j + |sep|] == s[j..j + |sep|];
        assert OccursAt(s, sep, j);
      }
    }
  }

  /** A string whose first occurrence of `sep` is at `i` keeps it there whatever follows it. */
  lemma FirstOccurrenceKept(s: string, sep: string, x: string)
    requires sep != [] && IndexOf(s, sep) >= 0
    ensures var i := IndexOf(s, sep); IndexOf(s[..i + |sep|] + x, sep) == i
  {
    var i := IndexOf(s, sep);
    var t := s[..i + |sep|] + x;
    assert t[i..i + |sep|] == s[i..i + |sep|];
    forall j | 0 <= j < i ensures !OccursAt(t, sep, j) {
      assert t[j..j + |sep|] == s[j..j + |sep|];
      assert !OccursAt(s, sep, j);
    }
    assert OccursAt(t, sep, i);
  }

  /** The part before the leftmost occurrence holds no occurrence. */
  lemma BeforeFirstIsFree(s: string, sep: string)
    requires sep != [] && IndexOf(s, sep) >= 0
    ensures var i := IndexOf(s, sep); SplitOn(s[..i], sep) == [s[..i]]
  {
    var i := IndexOf(s, sep);
    forall j | OccursAt(s[..i], sep, j) ensures false {
      assert s[..i][j..j + |sep|] == s[j..j + |sep|];
      assert OccursAt(s, sep, j);
    }
  }

  /** Replacing what follows the leftmost occurrence keeps the first cut. */
  lemma SplitAfterFirst(s: string, sep: string, x: string)
    requires sep != [] && IndexOf(s, sep) >= 0
    ensures var i := IndexOf(s, sep);
            SplitOn(s[..i] + sep + x, sep) == [s[..i]] + SplitOn(x, sep)
  {
    var i := IndexOf(s, sep);
    CutAtFirst(s, sep);
    assert s[..i] + sep == s[..i + |sep|];
    FirstOccurrenceKept(s, sep, x);
    var t := s[..i + |sep|] + x;
    CutAtFirst(t, sep);
    assert t[..i] == s[..i];
    assert t[i + |sep|..] == x;
  }

  /** Re-splitting all but the last part gives all but the last part back. */
  lemma {:induction false} SplitOnDropLast(s: string, sep: string)
    requires sep != [] && |SplitOn(s, sep)| >= 2
    ensures var parts := SplitOn(s, sep);
            SplitOn(Join(parts[..|parts| - 1], sep), sep) == parts[..|parts| - 1]
    decreases |s|
  {
    var parts := SplitOn(s, sep);
    var i := IndexOf(s, sep);
    assert i >= 0;
    CutAtFirst(s, sep);
    var rest := s[i + |sep|..];
    var tail := SplitOn(rest, sep);
    assert parts == [s[..i]] + tail;
    if |tail| == 1 {
      assert parts[..|parts| - 1] == [s[..i]];
      assert Join([s[..i]], sep) == s[..i];
      BeforeFirstIsFree(s, sep);
    } else {
      SplitOnDropLast(rest, sep);
      var front := tail[..|tail| - 1];
      assert parts[..|parts| - 1] == [s[..i]] + front;
      JoinCons(s[..i], front, sep);
      assert Join(parts[..|parts| - 1], sep) == s[..i] + sep + Join(front, sep);
      SplitAfterFirst(s, sep, Join(front, sep));
    }
  }

  /** Appending `c` and anything after it keeps an earlier `c`, or puts the first one at `|x|`. */
  lemma IndexOfAppendChar(x: string, c: char, y: string)
    ensures var ix := IndexOf(x, [c]);
            IndexOf(x + [c] + y, [c]) == if ix < 0 then |x| else ix
  {
    var s := x + [c] + y;
    var ix := IndexOf(x, [c]);
    var first := if ix < 0 then |x| else ix;
    if ix >= 0 {
      assert OccursAt(x, [c], ix);
      assert s[ix..ix + 1] == x[ix..ix + 1];
    } else {
      assert s[|x|..|x| + 1] == [c];
    }
    forall j | 0 <= j < first ensures !OccursAt(s, [c], j) {
      assert s[j..j + 1] == x[j..j + 1];
      assert !OccursAt(x, [c], j);
    }
    assert OccursAt(s, [c], first);
  }

  /** With a one-character separator, splitting distributes over a separator occurrence. */
  lemma {:induction false} SplitOnChar(x: string, c: char, y: string)
    ensures SplitOn(x + [c] + y, [c]) == SplitOn(x, [c]) + SplitOn(y, [c])
    decreases |x|
  {
    var s := x + [c] + y;
    var ix := IndexOf(x, [c]);
    IndexOfAppendChar(x, c, y);
    if ix < 0 {
      assert s[..|x|] == x && s[|x| + 1..] == y;
      assert SplitOn(x, [c]) == [x];
      assert SplitOn(s, [c]) == [x] + SplitOn(y, [c]);
    } else {
      var x' := x[ix + 1..];
      assert s[..ix] == x[..ix];
      assert s[ix + 1..] == x' + [c] + y;
      assert SplitOn(x, [c]) == [x[..ix]] + SplitOn(x', [c]);
      assert SplitOn(s, [c]) == [x[..ix]] + SplitOn(x' + [c] + y, [c]);
      SplitOnChar(x', c, y);
      ConcatAssoc([x[..ix]], SplitOn(x', [c]), SplitOn(y, [c]));
    }
  }

  // ---------------------------------------------------------------- Basename

  /** With a non-empty delimiter, a name without the delimiter has basename "". */
  lemma BasenameNoDelimiter(a: string, d: string)
    requires d != [] && !Contains(a, d)
    ensures Basename(a, d) == ""
  {
    assert SplitOn(a, d) == [a];
  }

  /** A name holding the delimiter splits into at least two parts. */
  lemma ContainsSplits(a: string, d: string)
    requires d != [] && Contains(a, d)
    ensures IndexOf(a, d) >= 0 && |SplitOn(a, d)| >= 2
  {
    var j :| 0 <= j <= |a| && OccursAt(a, d, j);
    var i := IndexOf(a, d);
    assert i >= 0;
    var tail := SplitOn(a[i + |d|..], d);
    assert SplitOn(a, d) == [a[..i]] + tail;
  }

  /**
   * With a non-empty delimiter present in the name, the name is its basename,
   * the delimiter and its final segment, and the final segment has no delimiter.
   */
  lemma BasenameLastSegment(a: string, d: string)
    requires d != [] && Contains(a, d)
    ensures Basename(a, d) + d + LastSegment(a, d) == a
    ensures !Contains(LastSegment(a, d), d)
  {
    ContainsSplits(a, d);
    var parts := SplitOn(a, d);
    var n := |parts|;
    assert Basename(a, d) == Join(parts[..n - 1], d);
    assert LastSegment(a, d) == parts[n - 1];
    JoinSnoc(parts, d);
    SplitOnJoin(a, d);
    SplitOnPartsFree(a, d);
  }

  /** All segments but the last, rejoined, form a prefix of the name, shorter unless the name is empty. */
  lemma DropLastIsPrefix(a: string, d: string)
    requires Splittable(a, d)
    ensures var parts := Split(a, d);
            |parts| >= 1 && Join(parts[..|parts| - 1], d) <= a &&
            (a != [] ==> |Join(parts[..|parts| - 1], d)| < |a|)
  {
    var parts := Split(a, d);
    SplitNonEmpty(a, d);
    SplitJoin(a, d);
    if |parts| >= 2 {
      JoinSnoc(parts, d);
      if d == [] {
        assert |parts[|parts| - 1]| == 1;
      }
    } else {
      assert parts[..0] == [];
    }
  }

  /** The basename has exactly the name's segments minus the last one. */
  lemma BasenameSegments(a: string, d: string)
    requires d != [] && Contains(a, d)
    ensures |Split(Basename(a, d), d)| == |Split(a, d)| - 1
    ensures Split(Basename(a, d), d) == Split(a, d)[..|Split(a, d)| - 1]
  {
    ContainsSplits(a, d);
    var parts := SplitOn(a, d);
    assert Basename(a, d) == Join(parts[..|parts| - 1], d);
    SplitOnDropLast(a, d);
  }

  /** An empty delimiter splits into characters: the basename drops the last character. */
  lemma BasenameEmptyDelimiter(a: string)
    requires a != []
    ensures Basename(a, []) == a[..|a| - 1]
  {
    assert Explode(a)[..|a| - 1] == Explode(a[..|a| - 1]);
    ExplodeJoin(a[..|a| - 1]);
  }

  /** A one-character delimiter: the basename is everything before its last occurrence. */
  lemma BasenameCharDelimiter(b: string, c: char, l: string)
    requires c !in l
    ensures Basename(b + [c] + l, [c]) == b
    ensures LastSegment(b + [c] + l, [c]) == l
  {
    SplitOnChar(b, c, l);
    forall j | 0 <= j < |l| ensures !OccursAt(l, [c], j) {
      assert l[j..j + 1] == [l[j]];
    }
    var parts := SplitOn(b + [c] + l, [c]);
    assert parts == SplitOn(b, [c]) + [l];
    assert parts[..|parts| - 1] == SplitOn(b, [c]);
    SplitOnJoin(b, [c]);
  }

  /** The documented example: `Image-Base-Name-UniqueIdentifier` with `-` gives `Image-Base-Name`. */
  lemma BasenameExample()
    ensures Basename("Image-Base-Name-UniqueIdentifier", "-") == "Image-Base-Name"
  {
    assert "Image-Base-Name-UniqueIdentifier" == "Image-Base-Name" + ['-'] + "UniqueIdentifier";
    BasenameCharDelimiter("Image-Base-Name", '-', "UniqueIdentifier");
  }

  // ---------------------------------------------------------------- Self-links

  lemma ContainsSlash(s: string)
    ensures Contains(s, "/") <==> '/' in s
  {
    if '/' in s {
      var j :| 0 <= j < |s| && s[j] == '/';
      assert OccursAt(s, "/", j);
    }
    if Contains(s, "/") {
      var j :| 0 <= j <= |s| && OccursAt(s, "/", j);
      assert |"/"| == 1 && "/"[0] == '/';
      assert s[j..j + 1] == "/";
      assert s[j] == '/';
    }
  }

  /** The last `/` segment is a suffix of the self-link and contains no `/`. */
  lemma LastSlashSegment(z: string)
    ensures |LastSegment(z, "/")| <= |z| && z[|z| - |LastSegment(z, "/")|..] == LastSegment(z, "/")
    ensures '/' !in LastSegment(z, "/")
  {
    var r := LastSegment(z, "/");
    SplitOnPartsFree(z, "/");
    ContainsSlash(r);
    if Contains(z, "/") {
      BasenameLastSegment(z, "/");
    } else {
      assert SplitOn(z, "/") == [z];
    }
  }

  /** A self-link without `/` is returned unchanged. */
  lemma NameFromURLNoSlash(z: string)
    requires '/' !in z
    ensures NameFromURL(z) == z
  {
    ContainsSlash(z);
    assert SplitOn(z, "/") == [z];
  }

  /** Taking the last `/` segment twice is the same as taking it once. */
  lemma NameFromURLIdempotent(z: string)
    ensures NameFromURL(NameFromURL(z)) == NameFromURL(z)
  {
    NameFromURLNoSlash(NameFromURL(z));
  }

  // ---------------------------------------------------------------- Time

  const NanosPerSecond: int := 1_000_000_000
  const TwoTo63: int := 0x8000_0000_0000_0000

  /** Go's int64. */
  type Int64 = x: int | -TwoTo63 <= x < TwoTo63

  /** Two's-complement wrap-around of an int64 subtraction. */
  function WrapInt64(x: int): Int64
  {
    (x + TwoTo63) % (2 * TwoTo63) - TwoTo63
  }

  /** time.Time.Unix(): whole seconds since the epoch, rounded down. */
  function UnixSeconds(t: int): int
  {
    t / NanosPerSecond
  }

  /**
   * GetTooOldTime: time.Unix(now.Unix() - i, 0), instants as nanoseconds since the epoch;
   * `now` replaces the wall clock.
   */
  function TooOldTime(now: int, i: Int64): (r: int)
    ensures r % NanosPerSecond == 0
    ensures -TwoTo63 * NanosPerSecond <= r < TwoTo63 * NanosPerSecond
    ensures (r / NanosPerSecond - (UnixSeconds(now) - i)) % (2 * TwoTo63) == 0
  {
    WrapInt64(UnixSeconds(now) - i) * NanosPerSecond
  }

  /**
   * Without overflow the threshold is `now - i` seconds truncated to the whole second:
   * a whole second, at most `now - i` seconds and less than one second before it.
   */
  lemma TooOldTimeNoOverflow(now: int, i: Int64)
    requires -TwoTo63 <= UnixSeconds(now) - i < TwoTo63
    ensures TooOldTime(now, i) == (UnixSeconds(now) - i) * NanosPerSecond
    ensures TooOldTime(now, i) % NanosPerSecond == 0
    ensures TooOldTime(now, i) <= now - i * NanosPerSecond < TooOldTime(now, i) + NanosPerSecond
  {
    var x := UnixSeconds(now) - i;
    assert WrapInt64(x) == x;
  }
}
