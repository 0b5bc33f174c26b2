/** Sequence vocabulary shared by the modules: order-preserving
    subsequences, flattening a list of lists, and the "first occurrences not
    already seen" filter that both deduplication loops of the tag organizer
    compute. */
module Seqs {

  /** `a` is obtained from `b` by deleting zero or more elements, keeping
      the order of the rest. */
  predicate IsSubsequence<T(==)>(a: seq<T>, b: seq<T>)
    decreases |b|
  {
    if |a| == 0 then true
    else if |b| == 0 then false
    else if a[|a| - 1] == b[|b| - 1] then IsSubsequence(a[..|a| - 1], b[..|b| - 1])
    else IsSubsequence(a, b[..|b| - 1])
  }

  lemma {:induction false} SubsequenceRefl<T>(a: seq<T>)
    ensures IsSubsequence(a, a)
    decreases |a|
  {
    if |a| > 0 {
      SubsequenceRefl(a[..|a| - 1]);
    }
  }

  /** Appending an element to the larger side, or dropping the last element
      of the smaller side, keeps the relation. */
  lemma {:induction false} SubsequenceWeaken<T>(a: seq<T>, b: seq<T>, x: T)
    requires IsSubsequence(a, b)
    ensures IsSubsequence(a, b + [x])
    ensures |a| > 0 ==> IsSubsequence(a[..|a| - 1], b)
    decreases |a| + |b|
  {
    assert (b + [x])[..|b + [x]| - 1] == b;
    if |a| > 0 && |b| > 0 {
      var a', b', y := a[..|a| - 1], b[..|b| - 1], b[|b| - 1];
      if a[|a| - 1] == y {
        SubsequenceWeaken(a', b', y);
      } else {
        SubsequenceWeaken(a, b', y);
        SubsequenceWeaken(a', b', y);
      }
      assert b' + [y] == b;
    }
  }

  /** Appending the same element to both sides keeps the relation. */
  lemma {:induction false} SubsequenceExtend<T>(a: seq<T>, b: seq<T>, x: T)
    requires IsSubsequence(a, b)
    ensures IsSubsequence(a + [x], b + [x])
    ensures IsSubsequence(a, b + [x])
  {
    assert (a + [x])[..|a + [x]| - 1] == a;
    assert (b + [x])[..|b + [x]| - 1] == b;
    SubsequenceWeaken(a, b, x);
  }

  lemma {:induction false} SubsequenceMembers<T>(a: seq<T>, b: seq<T>)
    requires IsSubsequence(a, b)
    ensures forall x :: x in a ==> x in b
    ensures |a| <= |b|
    decreases |b|
  {
    if |a| > 0 && |b| > 0 {
      assert b == b[..|b| - 1] + [b[|b| - 1]];
      if a[|a| - 1] == b[|b| - 1] {
        SubsequenceMembers(a[..|a| - 1], b[..|b| - 1]);
        assert a == a[..|a| - 1] + [a[|a| - 1]];
      } else {
        SubsequenceMembers(a, b[..|b| - 1]);
      }
    }
  }

  /** A subsequence as long as the whole is the whole. */
  lemma {:induction false} SubsequenceSameLength<T>(a: seq<T>, b: seq<T>)
    requires IsSubsequence(a, b) && |a| == |b|
    ensures a == b
    decreases |b|
  {
    if |b| > 0 {
      if a[|a| - 1] == b[|b| - 1] {
        SubsequenceSameLength(a[..|a| - 1], b[..|b| - 1]);
        assert a == a[..|a| - 1] + [a[|a| - 1]];
        assert b == b[..|b| - 1] + [b[|b| - 1]];
      } else {
        SubsequenceMembers(a, b[..|b| - 1]);
      }
    }
  }

  lemma {:induction false} SubsequenceTrans<T>(a: seq<T>, b: seq<T>, c: seq<T>)
    requires IsSubsequence(a, b) && IsSubsequence(b, c)
    ensures IsSubsequence(a, c)
    decreases |c|
  {
    if |a| == 0 {
    } else if |c| == 0 {
      SubsequenceMembers(a, b);
    } else if |b| == 0 {
    } else {
      var a', b', c' := a[..|a| - 1], b[..|b| - 1], c[..|c| - 1];
      if b[|b| - 1] == c[|c| - 1] {
        if a[|a| - 1] == b[|b| - 1] {
          SubsequenceTrans(a', b', c');
        } else {
          SubsequenceTrans(a, b', c');
        }
      } else {
        SubsequenceTrans(a, b, c');
      }
      if a[|a| - 1] != c[|c| - 1] {
      } else if b[|b| - 1] == c[|c| - 1] {
      } else {
        SubsequenceWeaken(a, c', c[|c| - 1]);
        assert c' + [c[|c| - 1]] == c;
      }
    }
  }

  /** Dropping one position keeps the rest in order. */
  lemma {:induction false} SubsequenceDrop<T>(b: seq<T>, i: nat)
    requires i < |b|
    ensures IsSubsequence(b[..i] + b[i + 1..], b)
    decreases |b|
  {
    var a := b[..i] + b[i + 1..];
    if i == |b| - 1 {
      assert a == b[..|b| - 1];
      SubsequenceRefl(a);
      SubsequenceExtend(a, a, b[|b| - 1]);
      assert a + [b[|b| - 1]] == b;
    } else {
      var b', x := b[..|b| - 1], b[|b| - 1];
      var a' := b'[..i] + b'[i + 1..];
      SubsequenceDrop(b', i);
      assert b'[..i] == b[..i];
      assert b'[i + 1..] + [x] == b[i + 1..];
      assert a' + [x] == a;
      SubsequenceExtend(a', b', x);
      assert b' + [x] == b;
    }
  }

  /** Concatenation of a list of lists, in order. */
  function Flatten<T>(xss: seq<seq<T>>): seq<T>
  {
    if |xss| == 0 then [] else xss[0] + Flatten(xss[1..])
  }

  lemma {:induction false} FlattenAppend<T>(xss: seq<seq<T>>, yss: seq<seq<T>>)
    ensures Flatten(xss + yss) == Flatten(xss) + Flatten(yss)
    decreases |xss|
  {
    if |xss| > 0 {
      assert (xss + yss)[1..] == xss[1..] + yss;
      FlattenAppend(xss[1..], yss);
    } else {
      assert xss + yss == yss;
    }
  }

  /** No value occurs twice. */
  predicate Distinct<T(==)>(xs: seq<T>) {
    forall i, j :: 0 <= i < j < |xs| ==> xs[i] != xs[j]
  }

  /** The elements of `xs` that are neither in `seen` nor earlier in `xs`,
      in the order of `xs`: position `i` is kept exactly when `xs[i]` is its
      value's first occurrence and is not in `seen`. */
  function Fresh<T(==, !new)>(xs: seq<T>, seen: seq<T>): (r: seq<T>)
    ensures Distinct(r)
    ensures forall x :: x in r <==> x in xs && x !in seen
    ensures IsSubsequence(r, xs)
    decreases |xs|
  {
    if |xs| == 0 then []
    else
      var init, last := xs[..|xs| - 1], xs[|xs| - 1];
      var r := Fresh(init, seen);
      assert xs == init + [last];
      if last !in seen && last !in init then
        SubsequenceExtend(r, init, last);
        r + [last]
      else
        SubsequenceExtend(r, init, last);
        r
  }

  /** A list of distinct values none of which has been seen is kept whole. */
  lemma {:induction false} FreshUnseen<T(!new)>(xs: seq<T>, seen: seq<T>)
    requires Distinct(xs)
    requires forall x :: x in xs ==> x !in seen
    ensures Fresh(xs, seen) == xs
    decreases |xs|
  {
    if |xs| > 0 {
      var init, last := xs[..|xs| - 1], xs[|xs| - 1];
      assert xs == init + [last];
      FreshUnseen(init, seen);
      assert last !in init by {
        forall i | 0 <= i < |init|
          ensures init[i] != last
        {
          assert init[i] == xs[i];
        }
      }
    }
  }

  /** `list.remove(t)`: delete the first occurrence of `t`. */
  function RemoveFirst<T(==)>(p: seq<T>, t: T): (r: seq<T>)
    ensures t !in p ==> r == p
    decreases |p|
  {
    if |p| == 0 then []
    else if p[0] == t then p[1..]
    else [p[0]] + RemoveFirst(p[1..], t)
  }

  /** `t` does not occur before position `i` of `p`. */
  predicate FirstAt<T(==)>(p: seq<T>, t: T, i: nat) {
    i < |p| && p[i] == t && forall j :: 0 <= j < i ==> p[j] != t
  }

  /** `RemoveFirst` deletes the first occurrence, wherever it is. */
  lemma {:induction false} RemoveFirstAt<T>(p: seq<T>, t: T, i: nat)
    requires FirstAt(p, t, i)
    ensures RemoveFirst(p, t) == p[..i] + p[i + 1..]
    decreases i
  {
    if i == 0 {
      assert p[..0] + p[1..] == p[1..];
    } else {
      var q := p[1..];
      assert p[0] != t;
      assert FirstAt(q, t, i - 1) by {
        forall j | 0 <= j < i - 1
          ensures q[j] != t
        {
          assert q[j] == p[j + 1];
        }
      }
      RemoveFirstAt(q, t, i - 1);
      assert RemoveFirst(p, t) == [p[0]] + (q[..i - 1] + q[i..]);
      assert p[..i] == [p[0]] + q[..i - 1];
      assert p[i + 1..] == q[i..];
    }
  }

  /** Removing a present token drops exactly one copy of it and keeps the
      order of the rest. */
  lemma RemoveFirstCount<T>(p: seq<T>, t: T, i: nat)
    requires FirstAt(p, t, i)
    ensures multiset(RemoveFirst(p, t)) == multiset(p) - multiset{t}
    ensures IsSubsequence(RemoveFirst(p, t), p)
  {
    RemoveFirstAt(p, t, i);
    assert p == p[..i] + [t] + p[i + 1..];
    SubsequenceDrop(p, i);
  }

  /** A present value has a first occurrence. */
  lemma {:induction false} FirstOccurrence<T>(p: seq<T>, t: T) returns (i: nat)
    requires t in p
    ensures FirstAt(p, t, i)
    decreases |p|
  {
    if p[0] == t {
      i := 0;
    } else {
      assert p == [p[0]] + p[1..];
      var k := FirstOccurrence(p[1..], t);
      i := k + 1;
      forall j | 0 <= j < i
        ensures p[j] != t
      {
        if j > 0 {
          assert p[j] == p[1..][j - 1];
        }
      }
    }
  }
}
