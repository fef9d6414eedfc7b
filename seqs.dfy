/**
 * Edits on ordered sequences, shared by the class-token list (remove the first
 * occurrence of a token) and by a parent's child list (remove a child, insert a
 * node before or after a reference child).
 */
module Seqs {

  /** No element occurs twice. */
  predicate NoDup<T(==)>(s: seq<T>) {
    forall i, j :: 0 <= i < j < |s| ==> s[i] != s[j]
  }

  /** `a` is obtained from `b` by deleting elements (relative order kept). */
  predicate IsSubseq<T(==)>(a: seq<T>, b: seq<T>)
    decreases |b|
  {
    if a == [] then true
    else if b == [] then false
    else if a[0] == b[0] then IsSubseq(a[1..], b[1..])
    else IsSubseq(a, b[1..])
  }

  /** Position of the first occurrence of `x`. */
  function IndexOf<T(==)>(s: seq<T>, x: T): (i: nat)
    requires x in s
    ensures i < |s| && s[i] == x && x !in s[..i]
  {
    if s[0] == x then 0
    else
      assert x in s[1..];
      var j := IndexOf(s[1..], x);
      assert s[..j + 1] == [s[0]] + s[1..][..j];
      1 + j
  }

  /** IndexOf is the one position holding `x` with no `x` before it. */
  lemma {:induction false} IndexOfUnique<T>(s: seq<T>, x: T, i: nat)
    requires i < |s| && s[i] == x && x !in s[..i]
    ensures IndexOf(s, x) == i
  {
  }

  /** Extending a sequence does not move a first occurrence it already has. */
  lemma {:induction false} IndexOfAppend<T>(s: seq<T>, t: seq<T>, x: T)
    requires x in s
    ensures x in s + t && IndexOf(s + t, x) == IndexOf(s, x)
  {
    var i := IndexOf(s, x);
    assert (s + t)[..i] == s[..i];
    IndexOfUnique(s + t, x, i);
  }

  /** The first occurrence of an element missing from `s` in `s + t` lies in `t`. */
  lemma {:induction false} IndexOfAppendFresh<T>(s: seq<T>, t: seq<T>, x: T)
    requires x !in s && x in t
    ensures x in s + t && IndexOf(s + t, x) == |s| + IndexOf(t, x)
  {
    var i := IndexOf(t, x);
    var st := s + t;
    assert st[..|s| + i] == s + t[..i];
    IndexOfUnique(st, x, |s| + i);
  }

  /** Delete the first occurrence of `x`, if any. */
  function RemoveFirst<T(==)>(s: seq<T>, x: T): seq<T> {
    if s == [] then []
    else if s[0] == x then s[1..]
    else [s[0]] + RemoveFirst(s[1..], x)
  }

  /** Put `x` immediately before the first occurrence of `y`. */
  function InsertBefore<T(==)>(s: seq<T>, y: T, x: T): seq<T> {
    if s == [] then []
    else if s[0] == y then [x] + s
    else [s[0]] + InsertBefore(s[1..], y, x)
  }

  /** Put `x` immediately after the first occurrence of `y`. */
  function InsertAfter<T(==)>(s: seq<T>, y: T, x: T): seq<T> {
    if s == [] then []
    else if s[0] == y then [s[0], x] + s[1..]
    else [s[0]] + InsertAfter(s[1..], y, x)
  }

  /** RemoveFirst cuts out exactly the first occurrence, and is the identity when there is none. */
  lemma {:induction false} RemoveFirstAt<T>(s: seq<T>, x: T)
    ensures x !in s ==> RemoveFirst(s, x) == s
    ensures x in s ==> RemoveFirst(s, x) == s[..IndexOf(s, x)] + s[IndexOf(s, x) + 1..]
  {
    if s != [] && s[0] != x {
      RemoveFirstAt(s[1..], x);
      if x in s {
        assert x in s[1..];
        var j := IndexOf(s[1..], x);
        assert IndexOf(s, x) == j + 1;
        assert s[..j + 1] == [s[0]] + s[1..][..j];
        assert s[j + 2..] == s[1..][j + 1..];
      } else {
        assert x !in s[1..];
      }
    }
  }

  /** Exactly one copy of `x` leaves the multiset of elements, when there is one. */
  lemma {:induction false} RemoveFirstMultiset<T>(s: seq<T>, x: T)
    ensures multiset(RemoveFirst(s, x)) == multiset(s) - multiset{x}
  {
    if s != [] {
      assert s == [s[0]] + s[1..];
      if s[0] != x {
        RemoveFirstMultiset(s[1..], x);
      }
    }
  }

  /** The remaining elements keep their relative order. */
  lemma {:induction false} RemoveFirstIsSubseq<T>(s: seq<T>, x: T)
    ensures IsSubseq(RemoveFirst(s, x), s)
  {
    if s != [] {
      if s[0] == x {
        SuffixIsSubseq(s);
      } else {
        RemoveFirstIsSubseq(s[1..], x);
      }
    }
  }

  lemma {:induction false} SuffixIsSubseq<T>(s: seq<T>)
    requires s != []
    ensures IsSubseq(s[1..], s)
  {
    SubseqRefl(s[1..]);
    SubseqDropFront(s[1..], s);
  }

  lemma {:induction false} SubseqRefl<T>(s: seq<T>)
    ensures IsSubseq(s, s)
  {
    if s != [] {
      SubseqRefl(s[1..]);
    }
  }

  /** A subsequence of the tail is a subsequence of the whole. */
  lemma {:induction false} SubseqDropFront<T>(a: seq<T>, b: seq<T>)
    requires b != [] && IsSubseq(a, b[1..])
    ensures IsSubseq(a, b)
    decreases |b|, |a|
  {
    if a != [] && a[0] == b[0] {
      SubseqTail(a, b[1..]);
    }
  }

  /** Dropping the head of a subsequence keeps it a subsequence. */
  lemma {:induction false} SubseqTail<T>(a: seq<T>, b: seq<T>)
    requires a != [] && IsSubseq(a, b)
    ensures IsSubseq(a[1..], b)
    decreases |b|, |a|
  {
    if a[0] == b[0] {
      if a[1..] != [] {
        SubseqDropFront(a[1..], b);
      }
    } else {
      SubseqTail(a, b[1..]);
      if a[1..] != [] {
        SubseqDropFront(a[1..], b);
      }
    }
  }

  lemma {:induction false} SubseqTrans<T>(a: seq<T>, b: seq<T>, c: seq<T>)
    requires IsSubseq(a, b) && IsSubseq(b, c)
    ensures IsSubseq(a, c)
    decreases |c|
  {
    if a != [] {
      assert b != [] && c != [];
      if b[0] == c[0] {
        if a[0] == b[0] {
          SubseqTrans(a[1..], b[1..], c[1..]);
        } else {
          SubseqTrans(a, b[1..], c[1..]);
          SubseqDropFront(a, c);
        }
      } else {
        SubseqTrans(a, b, c[1..]);
        SubseqDropFront(a, c);
      }
    }
  }

  /** Removing a duplicate-free sequence's element leaves it duplicate-free and without that element. */
  lemma {:induction false} RemoveFirstNoDup<T>(s: seq<T>, x: T)
    requires NoDup(s)
    ensures NoDup(RemoveFirst(s, x)) && x !in RemoveFirst(s, x)
  {
    RemoveFirstAt(s, x);
    if x in s {
      var i := IndexOf(s, x);
      var r := RemoveFirst(s, x);
      forall k | 0 <= k < |r| ensures r[k] == (if k < i then s[k] else s[k + 1]) {
      }
      forall p, q | 0 <= p < q < |r| ensures r[p] != r[q] {
        var p' := if p < i then p else p + 1;
        var q' := if q < i then q else q + 1;
        assert s[p'] != s[q'];
      }
      forall k | 0 <= k < |r| ensures r[k] != x {
        var k' := if k < i then k else k + 1;
        assert s[k'] != s[i];
      }
    }
  }

  /** Any other element is present after the removal exactly when it was before. */
  lemma {:induction false} RemoveFirstKeeps<T>(s: seq<T>, x: T, y: T)
    requires y != x
    ensures y in RemoveFirst(s, x) <==> y in s
  {
    if s != [] && s[0] != x {
      RemoveFirstKeeps(s[1..], x, y);
      assert s == [s[0]] + s[1..];
    }
  }

  /** Appending a fresh element and removing it again restores the sequence. */
  lemma {:induction false} RemoveFirstAppended<T>(s: seq<T>, x: T)
    requires x !in s
    ensures RemoveFirst(s + [x], x) == s
  {
    if s != [] {
      assert (s + [x])[1..] == s[1..] + [x];
      RemoveFirstAppended(s[1..], x);
    }
  }

  /** With `y` in `s`: `x` lands at `y`'s old position, directly in front of `y`. */
  lemma {:induction false} InsertBeforeAt<T>(s: seq<T>, y: T, x: T)
    requires y in s
    ensures InsertBefore(s, y, x) == s[..IndexOf(s, y)] + [x] + s[IndexOf(s, y)..]
    ensures |InsertBefore(s, y, x)| == |s| + 1
    ensures InsertBefore(s, y, x)[IndexOf(s, y)] == x
    ensures InsertBefore(s, y, x)[IndexOf(s, y) + 1] == y
  {
    if s[0] != y {
      assert y in s[1..];
      InsertBeforeAt(s[1..], y, x);
      var j := IndexOf(s[1..], y);
      assert IndexOf(s, y) == j + 1;
      assert s[..j + 1] == [s[0]] + s[1..][..j];
      assert s[j + 1..] == s[1..][j..];
    }
  }

  /** With `y` in `s`: `x` lands directly behind `y`. */
  lemma {:induction false} InsertAfterAt<T>(s: seq<T>, y: T, x: T)
    requires y in s
    ensures InsertAfter(s, y, x) == s[..IndexOf(s, y) + 1] + [x] + s[IndexOf(s, y) + 1..]
    ensures |InsertAfter(s, y, x)| == |s| + 1
    ensures InsertAfter(s, y, x)[IndexOf(s, y)] == y
    ensures InsertAfter(s, y, x)[IndexOf(s, y) + 1] == x
  {
    if s[0] != y {
      assert y in s[1..];
      InsertAfterAt(s[1..], y, x);
      var j := IndexOf(s[1..], y);
      assert IndexOf(s, y) == j + 1;
      assert s[..j + 2] == [s[0]] + s[1..][..j + 1];
      assert s[j + 2..] == s[1..][j + 1..];
    }
  }

  /**
   * "Insert after y" is "insert before y's next sibling", and appending when `y`
   * is the last element.
   */
  lemma {:induction false} InsertAfterIsBeforeNext<T>(s: seq<T>, y: T, x: T)
    requires y in s && NoDup(s)
    ensures IndexOf(s, y) == |s| - 1 ==> InsertAfter(s, y, x) == s + [x]
    ensures IndexOf(s, y) < |s| - 1 ==> InsertAfter(s, y, x) == InsertBefore(s, s[IndexOf(s, y) + 1], x)
  {
    var i := IndexOf(s, y);
    InsertAfterAt(s, y, x);
    if i < |s| - 1 {
      var n := s[i + 1];
      forall k | 0 <= k < i + 1 ensures s[k] != n {
      }
      assert n !in s[..i + 1];
      assert IndexOf(s, n) == i + 1;
      InsertBeforeAt(s, n, x);
    }
  }

  /** Inserting a fresh element adds exactly that element. */
  lemma {:induction false} InsertMultiset<T>(s: seq<T>, y: T, x: T)
    requires y in s
    ensures multiset(InsertBefore(s, y, x)) == multiset(s) + multiset{x}
    ensures multiset(InsertAfter(s, y, x)) == multiset(s) + multiset{x}
  {
    var m := multiset(s[1..]);
    assert multiset(s) == multiset{s[0]} + m by {
      assert s == [s[0]] + s[1..];
    }
    if s[0] == y {
      assert InsertAfter(s, y, x) == [s[0]] + ([x] + s[1..]);
    } else {
      assert y in s[1..];
      InsertMultiset(s[1..], y, x);
    }
  }

  /** Besides `x`, the inserted sequence holds exactly the old elements. */
  lemma {:induction false} InsertKeeps<T>(s: seq<T>, y: T, x: T, c: T)
    requires y in s && c != x
    ensures c in InsertBefore(s, y, x) <==> c in s
    ensures c in InsertAfter(s, y, x) <==> c in s
  {
    InsertMultiset(s, y, x);
    assert c in InsertBefore(s, y, x) <==> c in multiset(InsertBefore(s, y, x));
    assert c in InsertAfter(s, y, x) <==> c in multiset(InsertAfter(s, y, x));
  }

  /** A sequence with a first element is duplicate-free when its tail is and does not hold that element. */
  lemma {:induction false} NoDupCons<T>(a: T, t: seq<T>)
    ensures NoDup([a] + t) <==> a !in t && NoDup(t)
  {
    var s := [a] + t;
    if a !in t && NoDup(t) {
      forall i, j | 0 <= i < j < |s| ensures s[i] != s[j] {
        assert s[j] == t[j - 1];
        if i > 0 {
          assert s[i] == t[i - 1];
        }
      }
    }
    if NoDup(s) {
      forall i, j | 0 <= i < j < |t| ensures t[i] != t[j] {
        assert t[i] == s[i + 1] && t[j] == s[j + 1];
      }
      forall k | 0 <= k < |t| ensures t[k] != a {
        assert s[0] == a && s[k + 1] == t[k];
      }
    }
  }

  /** Inserting a fresh element keeps a duplicate-free sequence duplicate-free. */
  lemma {:induction false} InsertNoDup<T>(s: seq<T>, y: T, x: T)
    requires y in s && NoDup(s) && x !in s
    ensures NoDup(InsertBefore(s, y, x))
    ensures NoDup(InsertAfter(s, y, x))
  {
    assert s == [s[0]] + s[1..];
    NoDupCons(s[0], s[1..]);
    if s[0] == y {
      NoDupCons(x, s);
      NoDupCons(x, s[1..]);
      NoDupCons(s[0], [x] + s[1..]);
      assert [s[0], x] + s[1..] == [s[0]] + ([x] + s[1..]);
    } else {
      assert y in s[1..];
      InsertNoDup(s[1..], y, x);
      InsertKeeps(s[1..], y, x, s[0]);
      NoDupCons(s[0], InsertBefore(s[1..], y, x));
      NoDupCons(s[0], InsertAfter(s[1..], y, x));
    }
  }

  /** Removing a freshly inserted element undoes the insertion. */
  lemma {:induction false} InsertThenRemove<T>(s: seq<T>, y: T, x: T)
    requires x !in s
    ensures RemoveFirst(InsertBefore(s, y, x), x) == s
    ensures RemoveFirst(InsertAfter(s, y, x), x) == s
  {
    if s != [] {
      assert s == [s[0]] + s[1..];
      InsertThenRemove(s[1..], y, x);
    }
  }
}
