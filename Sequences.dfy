/**
  Duplicate-free ordered sequences: the list operations an event's callback list
  is built from. `Dedup` is what `list(dict.fromkeys(xs))` computes, `AppendNew`
  is the single-callback add, `RemoveFirst` is Python's `list.remove` on an item
  that is present, and `Without` is the reference filter the others are
  compared with.
 */
module Sequences {

  /** The set of elements of `s`. */
  ghost function Elems<T>(s: seq<T>): set<T> {
    set x | x in s
  }

  /** No element occurs twice in `s`. */
  ghost predicate NoDup<T>(s: seq<T>) {
    forall i, j :: 0 <= i < j < |s| ==> s[i] != s[j]
  }

  /** `s` with `x` added at the end unless `x` is already in `s`; this is how a
      dict inserts a key, and how an event takes one callback. */
  function AppendNew<T(==)>(s: seq<T>, x: T): (r: seq<T>)
    ensures Elems(r) == Elems(s) + {x}
    ensures NoDup(s) ==> NoDup(r)
    ensures x in s ==> r == s
    ensures x !in s ==> |r| == |s| + 1 && r[..|s|] == s && r[|s|] == x
  {
    if x in s then s else s + [x]
  }

  /** The elements of `s`, each once, in the order of their first occurrence:
      the keys of `dict.fromkeys(s)`. */
  function Dedup<T(==)>(s: seq<T>): (d: seq<T>)
    ensures NoDup(d)
    ensures Elems(d) == Elems(s)
    ensures |d| <= |s|
    decreases |s|
  {
    if s == [] then []
    else
      var init := s[..|s| - 1];
      assert s == init + [s[|s| - 1]];
      AppendNew(Dedup(init), s[|s| - 1])
  }

  /** The position of the first occurrence of `x` in `s`. */
  function IndexOf<T(==)>(s: seq<T>, x: T): (i: nat)
    requires x in s
    ensures i < |s| && s[i] == x && x !in s[..i]
  {
    if s[0] == x then 0
    else
      var i := 1 + IndexOf(s[1..], x);
      assert s[..i] == [s[0]] + s[1..][..i - 1];
      i
  }

  /** The elements of `s` that are not in `xs`, in their order in `s`. */
  function Without<T(==)>(s: seq<T>, xs: set<T>): (r: seq<T>)
    ensures Elems(r) == Elems(s) - xs
    ensures |r| <= |s|
    ensures NoDup(s) ==> NoDup(r)
  {
    if s == [] then []
    else
      var rest := Without(s[1..], xs);
      assert s == [s[0]] + s[1..];
      ElemsCons(s[0], s[1..]);
      ElemsCons(s[0], rest);
      if s[0] in xs then rest
      else
        NoDupCons(s[0], rest);
        assert NoDup(s) ==> s[0] !in Elems(rest) by {
          if NoDup(s) { NoDupUncons(s); }
        }
        [s[0]] + rest
  }

  /** `s` with the first occurrence of `x` taken out: Python's `list.remove`. */
  function RemoveFirst<T(==)>(s: seq<T>, x: T): (r: seq<T>)
    requires x in s
    ensures r == s[..IndexOf(s, x)] + s[IndexOf(s, x) + 1..]
  {
    if s[0] == x then s[1..]
    else
      assert s[1..][IndexOf(s[1..], x) + 1..] == s[IndexOf(s, x) + 1..];
      [s[0]] + RemoveFirst(s[1..], x)
  }

  lemma ElemsCons<T>(x: T, t: seq<T>)
    ensures Elems([x] + t) == {x} + Elems(t)
  {
    assert forall y :: y in [x] + t <==> y == x || y in t;
  }

  lemma NoDupUncons<T>(s: seq<T>)
    requires NoDup(s) && s != []
    ensures NoDup(s[1..]) && s[0] !in s[1..]
  {
    assert forall i :: 0 <= i < |s[1..]| ==> s[1..][i] == s[i + 1];
  }

  lemma NoDupCons<T>(x: T, t: seq<T>)
    ensures NoDup(t) && x !in t ==> NoDup([x] + t)
  {
    if NoDup(t) && x !in t {
      forall i, j | 0 <= i < j < |[x] + t| ensures ([x] + t)[i] != ([x] + t)[j] {
        assert ([x] + t)[j] == t[j - 1];
        if i > 0 { assert ([x] + t)[i] == t[i - 1]; }
      }
    }
  }

  lemma IndexOfUnique<T>(s: seq<T>, x: T, i: nat)
    requires i < |s| && s[i] == x && x !in s[..i]
    ensures IndexOf(s, x) == i
  {
  }

  /** A duplicate-free sequence has as many distinct elements as it is long. */
  lemma {:induction false} NoDupCard<T>(s: seq<T>)
    requires NoDup(s)
    ensures |Elems(s)| == |s|
  {
    if s != [] {
      assert Elems(s) == {s[0]} + Elems(s[1..]);
      assert s[0] !in Elems(s[1..]) by {
        forall i | 0 <= i < |s[1..]| ensures s[1..][i] != s[0] {
          assert s[1..][i] == s[i + 1];
        }
      }
      NoDupCard(s[1..]);
    }
  }

  /** The length of the deduplicated list is the number of distinct elements
      (the `len` of a dict built by `dict.fromkeys`). */
  lemma DedupLength<T>(s: seq<T>)
    ensures |Dedup(s)| == |Elems(s)|
  {
    NoDupCard(Dedup(s));
  }

  /** Dedup keeps first-occurrence order: of two entries of `Dedup(s)`, the one
      that comes first is the one that occurs first in `s`. */
  lemma {:induction false} DedupKeepsFirstOccurrenceOrder<T>(s: seq<T>, i: nat, j: nat)
    requires i < j < |Dedup(s)|
    ensures Dedup(s)[i] in s && Dedup(s)[j] in s
    ensures IndexOf(s, Dedup(s)[i]) < IndexOf(s, Dedup(s)[j])
  {
    var d := Dedup(s);
    var init := s[..|s| - 1];
    var x := s[|s| - 1];
    var d0 := Dedup(init);
    assert s == init + [x];
    assert d[i] in Elems(d) && d[j] in Elems(d);
    if j < |d0| {
      DedupKeepsFirstOccurrenceOrder(init, i, j);
      IndexOfPrefix(init, [x], d0[i]);
      IndexOfPrefix(init, [x], d0[j]);
    } else {
      assert x !in d0 && d[j] == x;
      assert x !in init by { assert Elems(d0) == Elems(init); }
      assert d0[i] in Elems(d0);
      IndexOfPrefix(init, [x], d0[i]);
      IndexOfUnique(s, x, |s| - 1);
    }
  }

  lemma IndexOfPrefix<T>(p: seq<T>, q: seq<T>, x: T)
    requires x in p
    ensures x in p + q && IndexOf(p + q, x) == IndexOf(p, x)
  {
    var k := IndexOf(p, x);
    assert (p + q)[..k] == p[..k];
    IndexOfUnique(p + q, x, k);
  }

  /** A duplicate-free sequence is its own deduplication. */
  lemma DedupOfNoDup<T>(s: seq<T>)
    requires NoDup(s)
    ensures Dedup(s) == s
  {
    DedupAppend([], s);
    assert [] + s == s;
    assert Elems<T>([]) == {};
    WithoutNothing(s);
  }

  lemma {:induction false} WithoutNothing<T>(s: seq<T>)
    ensures Without(s, {}) == s
  {
    if s != [] {
      WithoutNothing(s[1..]);
    }
  }

  /** Filtering distributes over concatenation. */
  lemma {:induction false} WithoutAppend<T>(p: seq<T>, q: seq<T>, xs: set<T>)
    ensures Without(p + q, xs) == Without(p, xs) + Without(q, xs)
  {
    if p == [] {
      assert p + q == q;
    } else {
      assert (p + q)[1..] == p[1..] + q;
      WithoutAppend(p[1..], q, xs);
    }
  }

  /** Filtering out `a`, then `b`, is filtering out both. */
  lemma {:induction false} WithoutWithout<T>(s: seq<T>, a: set<T>, b: set<T>)
    ensures Without(Without(s, a), b) == Without(s, a + b)
  {
    if s != [] {
      WithoutWithout(s[1..], a, b);
      var head := if s[0] in a then [] else [s[0]];
      WithoutAppend(head, Without(s[1..], a), b);
      if s[0] !in a {
        assert Without(head, b) == (if s[0] in b then [] else [s[0]]) by {
          assert head[1..] == [];
        }
      }
    }
  }

  /** Deduplicating `a + b`, where `b` has no duplicates, gives the distinct
      elements of `a` in first-occurrence order followed by the elements of `b`
      that are not in `a`, in their order in `b`. */
  lemma {:induction false} DedupAppend<T>(a: seq<T>, b: seq<T>)
    requires NoDup(b)
    ensures Dedup(a + b) == Dedup(a) + Without(b, Elems(a))
    decreases |b|
  {
    if b == [] {
      assert a + b == a;
    } else {
      var init, x := b[..|b| - 1], b[|b| - 1];
      NoDupSplitLast(b);
      assert (a + b)[..|a + b| - 1] == a + init;
      assert Dedup(a + b) == AppendNew(Dedup(a + init), x);
      DedupAppend(a, init);
      var w := Without(init, Elems(a));
      WithoutAppend(init, [x], Elems(a));
      assert Without(b, Elems(a)) == w + Without([x], Elems(a)) by {
        assert b == init + [x];
      }
      assert Without([x], Elems(a)) == (if x in a then [] else [x]) by {
        assert [x][1..] == [];
      }
      assert x !in w;
      if x in a {
        assert x in Dedup(a) by { assert x in Elems(Dedup(a)); }
      } else {
        assert x !in Dedup(a) by { assert Elems(Dedup(a)) == Elems(a); }
        assert x !in Dedup(a) + w;
      }
    }
  }

  /** Taking the last element off a duplicate-free sequence leaves a
      duplicate-free sequence that does not contain that element. */
  lemma NoDupSplitLast<T>(b: seq<T>)
    requires NoDup(b) && b != []
    ensures b == b[..|b| - 1] + [b[|b| - 1]]
    ensures NoDup(b[..|b| - 1]) && b[|b| - 1] !in b[..|b| - 1]
  {
    var init := b[..|b| - 1];
    assert b == init + [b[|b| - 1]];
    forall i | 0 <= i < |init| ensures init[i] != b[|b| - 1] {
      assert init[i] == b[i];
    }
  }
}
