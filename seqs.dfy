/** Generic facts about sequences: filtering, repetition and subsequences. */
module Seqs {

  /** The elements of `s` satisfying `p`, in order (Go's append-in-a-loop filter). */
  function Keep<T>(s: seq<T>, p: T -> bool): seq<T>
    decreases |s|
  {
    if s == [] then []
    else Keep(s[..|s| - 1], p) + (if p(s[|s| - 1]) then [s[|s| - 1]] else [])
  }

  /** `n` copies of `x`. */
  function Repeat<T>(x: T, n: nat): seq<T>
    decreases n
  {
    if n == 0 then [] else Repeat(x, n - 1) + [x]
  }

  /** `a` is obtained from `b` by deleting elements: same relative order. */
  predicate IsSubseq<T(==)>(a: seq<T>, b: seq<T>)
    decreases |b|
  {
    a == [] ||
    (b != [] &&
     ((a[|a| - 1] == b[|b| - 1] && IsSubseq(a[..|a| - 1], b[..|b| - 1])) ||
      IsSubseq(a, b[..|b| - 1])))
  }

  lemma {:induction false} KeepConcat<T>(a: seq<T>, b: seq<T>, p: T -> bool)
    ensures Keep(a + b, p) == Keep(a, p) + Keep(b, p)
    decreases |b|
  {
    if b == [] {
      assert a + b == a;
    } else {
      var b' := b[..|b| - 1];
      assert (a + b)[..|a + b| - 1] == a + b';
      KeepConcat(a, b', p);
    }
  }

  lemma {:induction false} KeepMembers<T>(s: seq<T>, p: T -> bool, x: T)
    ensures x in Keep(s, p) <==> x in s && p(x)
    decreases |s|
  {
    if s != [] {
      KeepMembers(s[..|s| - 1], p, x);
      assert s == s[..|s| - 1] + [s[|s| - 1]];
    }
  }

  /** Filtering keeps every copy of a kept element and no copy of a dropped one. */
  lemma {:induction false} KeepMultiset<T>(s: seq<T>, p: T -> bool)
    ensures forall x :: multiset(Keep(s, p))[x] == if p(x) then multiset(s)[x] else 0
    decreases |s|
  {
    if s != [] {
      var s', y := s[..|s| - 1], s[|s| - 1];
      KeepMultiset(s', p);
      assert s == s' + [y];
      assert multiset(s) == multiset(s') + multiset{y};
      assert multiset(Keep(s, p)) == multiset(Keep(s', p)) + (if p(y) then multiset{y} else multiset{});
    }
  }

  lemma {:induction false} KeepIsSubseq<T>(s: seq<T>, p: T -> bool)
    ensures IsSubseq(Keep(s, p), s)
    decreases |s|
  {
    if s != [] {
      var s' := s[..|s| - 1];
      KeepIsSubseq(s', p);
      if p(s[|s| - 1]) {
        var k := Keep(s, p);
        assert k[..|k| - 1] == Keep(s', p);
      } else {
        assert Keep(s, p) == Keep(s', p);
      }
    }
  }

  lemma {:induction false} KeepAllOrNone<T>(s: seq<T>, p: T -> bool)
    ensures (forall k :: 0 <= k < |s| ==> p(s[k])) ==> Keep(s, p) == s
    ensures (forall k :: 0 <= k < |s| ==> !p(s[k])) ==> Keep(s, p) == []
    decreases |s|
  {
    if s != [] {
      var s' := s[..|s| - 1];
      KeepAllOrNone(s', p);
      assert forall k :: 0 <= k < |s'| ==> s'[k] == s[k];
    }
  }

  lemma {:induction false} RepeatMembers<T>(x: T, n: nat)
    ensures |Repeat(x, n)| == n
    ensures forall k :: 0 <= k < n ==> Repeat(x, n)[k] == x
    decreases n
  {
    if n > 0 {
      RepeatMembers(x, n - 1);
    }
  }

  lemma {:induction false} SubseqRefl<T>(s: seq<T>)
    ensures IsSubseq(s, s)
    decreases |s|
  {
    if s != [] {
      SubseqRefl(s[..|s| - 1]);
    }
  }

  lemma {:induction false} SubseqTrans<T>(a: seq<T>, b: seq<T>, c: seq<T>)
    requires IsSubseq(a, b) && IsSubseq(b, c)
    ensures IsSubseq(a, c)
    decreases |c|
  {
    if a != [] {
      var a', b', c' := a[..|a| - 1], b[..|b| - 1], c[..|c| - 1];
      if b[|b| - 1] == c[|c| - 1] && IsSubseq(b', c') {
        if a[|a| - 1] == b[|b| - 1] && IsSubseq(a', b') {
          SubseqTrans(a', b', c');
        } else {
          SubseqTrans(a, b', c');
        }
      } else {
        SubseqTrans(a, b, c');
      }
    }
  }

  /** Appending an element to the whole keeps a subsequence, with or without that element. */
  lemma SubseqSnoc<T>(a: seq<T>, b: seq<T>, x: T)
    requires IsSubseq(a, b)
    ensures IsSubseq(a, b + [x])
    ensures IsSubseq(a + [x], b + [x])
  {
    assert (b + [x])[..|b|] == b;
    assert (a + [x])[..|a|] == a;
  }

  /** A subsequence is never longer and holds only elements of the original. */
  lemma {:induction false} SubseqMembers<T>(a: seq<T>, b: seq<T>)
    requires IsSubseq(a, b)
    ensures |a| <= |b|
    ensures forall x :: x in a ==> x in b
    decreases |b|
  {
    if a != [] {
      var a', b' := a[..|a| - 1], b[..|b| - 1];
      assert b == b' + [b[|b| - 1]];
      if a[|a| - 1] == b[|b| - 1] && IsSubseq(a', b') {
        SubseqMembers(a', b');
        assert a == a' + [a[|a| - 1]];
      } else {
        SubseqMembers(a, b');
      }
    }
  }

  lemma ConcatAssoc<T>(a: seq<T>, b: seq<T>, c: seq<T>)
    ensures (a + b) + c == a + (b + c)
  {
  }
}
