/** Ordering by sort keys, as `sorted(..., key=..., reverse=...)` and SQL
    `ORDER BY` do it: keys are tuples of strings compared component by
    component in code-point order. The sort is a stable insertion sort. */
module Sorting {
  import opened PyStrings

  predicate StrLt(a: string, b: string) {
    LexLe(a, b) && a != b
  }

  /** Python's `<=` on tuples of strings. */
  predicate KeyLe(a: seq<string>, b: seq<string>)
    decreases |a|
  {
    |a| == 0 || (|b| > 0 && (StrLt(a[0], b[0]) || (a[0] == b[0] && KeyLe(a[1..], b[1..]))))
  }

  lemma {:induction false} KeyLeTotal(a: seq<string>, b: seq<string>)
    ensures KeyLe(a, b) || KeyLe(b, a)
  {
    if |a| > 0 && |b| > 0 {
      if a[0] == b[0] {
        KeyLeTotal(a[1..], b[1..]);
      } else {
        LexLeTotal(a[0], b[0]);
      }
    }
  }

  lemma {:induction false} KeyLeTrans(a: seq<string>, b: seq<string>, c: seq<string>)
    requires KeyLe(a, b) && KeyLe(b, c)
    ensures KeyLe(a, c)
  {
    if |a| > 0 {
      assert |b| > 0 && |c| > 0;
      if a[0] == b[0] && b[0] == c[0] {
        KeyLeTrans(a[1..], b[1..], c[1..]);
      } else {
        LexLeRefl(a[0]);
        LexLeRefl(b[0]);
        assert LexLe(a[0], b[0]) && LexLe(b[0], c[0]);
        LexLeTrans(a[0], b[0], c[0]);
        if a[0] == c[0] {
          LexLeAntisym(a[0], b[0]);
          assert false;
        }
      }
    }
  }

  /** An element with key `kx` may come before one with key `ky`. */
  predicate InOrder(kx: seq<string>, ky: seq<string>, desc: bool) {
    if desc then KeyLe(ky, kx) else KeyLe(kx, ky)
  }

  lemma InOrderTotal(kx: seq<string>, ky: seq<string>, desc: bool)
    ensures InOrder(kx, ky, desc) || InOrder(ky, kx, desc)
  {
    KeyLeTotal(kx, ky);
  }

  lemma InOrderTrans(a: seq<string>, b: seq<string>, c: seq<string>, desc: bool)
    requires InOrder(a, b, desc) && InOrder(b, c, desc)
    ensures InOrder(a, c, desc)
  {
    if desc { KeyLeTrans(c, b, a); } else { KeyLeTrans(a, b, c); }
  }

  /** `s` is ordered by `key`, ascending or (when `desc`) descending. */
  ghost predicate SortedBy<T>(s: seq<T>, key: T -> seq<string>, desc: bool) {
    forall i, j :: 0 <= i < j < |s| ==> InOrder(key(s[i]), key(s[j]), desc)
  }

  /** Inserts `x` before the first element it may precede. */
  function Insert<T>(x: T, s: seq<T>, key: T -> seq<string>, desc: bool): (r: seq<T>)
    ensures multiset(r) == multiset(s) + multiset{x}
  {
    if |s| == 0 then [x]
    else if InOrder(key(x), key(s[0]), desc) then [x] + s
    else
      var rest := Insert(x, s[1..], key, desc);
      assert s == [s[0]] + s[1..];
      [s[0]] + rest
  }

  /** `sorted(s, key=key, reverse=desc)`: elements with equal keys keep their
      relative order. */
  function SortBy<T>(s: seq<T>, key: T -> seq<string>, desc: bool): seq<T> {
    if |s| == 0 then [] else Insert(s[0], SortBy(s[1..], key, desc), key, desc)
  }

  /** The elements of `s` whose key is `k`, in their order in `s`. */
  function WithKey<T>(s: seq<T>, key: T -> seq<string>, k: seq<string>): seq<T> {
    if |s| == 0 then [] else (if key(s[0]) == k then [s[0]] else []) + WithKey(s[1..], key, k)
  }

  lemma {:induction false} KeyLeRefl(a: seq<string>)
    ensures KeyLe(a, a)
    decreases |a|
  {
    if |a| > 0 {
      KeyLeRefl(a[1..]);
    }
  }

  lemma WithKeyCons<T>(y: T, u: seq<T>, key: T -> seq<string>, k: seq<string>)
    ensures WithKey([y] + u, key, k) == (if key(y) == k then [y] else []) + WithKey(u, key, k)
  {
    assert ([y] + u)[1..] == u;
  }

  /** Inserting `x` puts it before every element with the same key. */
  lemma {:induction false} InsertWithKey<T>(x: T, t: seq<T>, key: T -> seq<string>, desc: bool, k: seq<string>)
    ensures WithKey(Insert(x, t, key, desc), key, k) == (if key(x) == k then [x] else []) + WithKey(t, key, k)
    decreases |t|, 1
  {
    if |t| == 0 {
      assert Insert(x, t, key, desc) == [x] + t;
      WithKeyCons(x, t, key, k);
    } else if InOrder(key(x), key(t[0]), desc) {
      assert Insert(x, t, key, desc) == [x] + t;
      WithKeyCons(x, t, key, k);
    } else {
      InsertSkip(x, t, key, desc, k);
    }
  }

  /** An element that `x` may not precede has a key other than `x`'s. */
  lemma SkippedKeyDiffers(kx: seq<string>, ky: seq<string>, desc: bool)
    requires !InOrder(kx, ky, desc)
    ensures kx != ky
  {
    KeyLeRefl(kx);
  }

  /** The branch of `InsertWithKey` where `x` goes after the head, which
      then has another key than `x`. */
  lemma {:induction false} InsertSkip<T>(x: T, t: seq<T>, key: T -> seq<string>, desc: bool, k: seq<string>)
    requires |t| > 0 && !InOrder(key(x), key(t[0]), desc)
    ensures WithKey(Insert(x, t, key, desc), key, k) == (if key(x) == k then [x] else []) + WithKey(t, key, k)
    decreases |t|, 0
  {
    var rest := Insert(x, t[1..], key, desc);
    assert Insert(x, t, key, desc) == [t[0]] + rest;
    WithKeyCons(t[0], rest, key, k);
    assert t == [t[0]] + t[1..];
    WithKeyCons(t[0], t[1..], key, k);
    InsertWithKey(x, t[1..], key, desc, k);
    SkippedKeyDiffers(key(x), key(t[0]), desc);
    if key(x) == k {
      SkipMatch(x, t[0], WithKey(rest, key, k), WithKey(t[1..], key, k), key, k);
    } else {
      SkipOther(x, t[0], WithKey(rest, key, k), WithKey(t[1..], key, k), key, k);
    }
  }

  lemma SkipMatch<T>(x: T, y: T, wr: seq<T>, w1: seq<T>, key: T -> seq<string>, k: seq<string>)
    requires key(x) == k && key(y) != k && wr == [x] + w1
    ensures (if key(y) == k then [y] else []) + wr == [x] + ((if key(y) == k then [y] else []) + w1)
  {
    assert (if key(y) == k then [y] else []) == [];
  }

  lemma SkipOther<T>(x: T, y: T, wr: seq<T>, w1: seq<T>, key: T -> seq<string>, k: seq<string>)
    requires key(x) != k && wr == w1
    ensures (if key(y) == k then [y] else []) + wr == (if key(x) == k then [x] else []) + ((if key(y) == k then [y] else []) + w1)
  {
    assert (if key(x) == k then [x] else []) == [];
  }

  /** `sorted` is stable: for every key, the elements with that key are
      listed in their input order. */
  lemma {:induction false} SortByStable<T>(s: seq<T>, key: T -> seq<string>, desc: bool, k: seq<string>)
    ensures WithKey(SortBy(s, key, desc), key, k) == WithKey(s, key, k)
  {
    if |s| > 0 {
      SortByStable(s[1..], key, desc, k);
      InsertWithKey(s[0], SortBy(s[1..], key, desc), key, desc, k);
    }
  }

  lemma {:induction false} InsertSorted<T>(x: T, s: seq<T>, key: T -> seq<string>, desc: bool)
    requires SortedBy(s, key, desc)
    ensures SortedBy(Insert(x, s, key, desc), key, desc)
  {
    if |s| > 0 {
      if InOrder(key(x), key(s[0]), desc) {
        forall j | 0 <= j < |s| ensures InOrder(key(x), key(s[j]), desc) {
          if j > 0 {
            InOrderTrans(key(x), key(s[0]), key(s[j]), desc);
          }
        }
        ConsSorted(x, s, key, desc);
      } else {
        InOrderTotal(key(x), key(s[0]), desc);
        TailSorted(s, key, desc);
        InsertSorted(x, s[1..], key, desc);
        InsertBelow(x, s[1..], key, desc, s[0]);
        ConsSorted(s[0], Insert(x, s[1..], key, desc), key, desc);
      }
    }
  }

  lemma TailSorted<T>(s: seq<T>, key: T -> seq<string>, desc: bool)
    requires |s| > 0 && SortedBy(s, key, desc)
    ensures SortedBy(s[1..], key, desc)
    ensures forall j :: 0 <= j < |s[1..]| ==> InOrder(key(s[0]), key(s[1..][j]), desc)
  {
    forall i, j | 0 <= i < j < |s[1..]| ensures InOrder(key(s[1..][i]), key(s[1..][j]), desc) {
      assert s[1..][i] == s[i + 1] && s[1..][j] == s[j + 1];
    }
    forall j | 0 <= j < |s[1..]| ensures InOrder(key(s[0]), key(s[1..][j]), desc) {
      assert s[1..][j] == s[j + 1];
    }
  }

  /** An element placed before the head of a sorted list that may precede
      all of it gives a sorted list. */
  lemma ConsSorted<T>(y: T, rest: seq<T>, key: T -> seq<string>, desc: bool)
    requires SortedBy(rest, key, desc)
    requires forall j :: 0 <= j < |rest| ==> InOrder(key(y), key(rest[j]), desc)
    ensures SortedBy([y] + rest, key, desc)
  {
    var r := [y] + rest;
    forall i, j | 0 <= i < j < |r| ensures InOrder(key(r[i]), key(r[j]), desc) {
      if i > 0 {
        assert r[i] == rest[i - 1] && r[j] == rest[j - 1];
      } else {
        assert r[j] == rest[j - 1];
      }
    }
  }

  /** What may precede `x` and every element of `s` may precede every
      element of the insertion. */
  lemma InsertBelow<T>(x: T, s: seq<T>, key: T -> seq<string>, desc: bool, y: T)
    requires InOrder(key(y), key(x), desc)
    requires forall j :: 0 <= j < |s| ==> InOrder(key(y), key(s[j]), desc)
    ensures forall j :: 0 <= j < |Insert(x, s, key, desc)| ==> InOrder(key(y), key(Insert(x, s, key, desc)[j]), desc)
  {
    var r := Insert(x, s, key, desc);
    forall j | 0 <= j < |r| ensures InOrder(key(y), key(r[j]), desc) {
      assert r[j] in multiset(r);
      if r[j] != x {
        assert r[j] in multiset(s);
        var k :| 0 <= k < |s| && s[k] == r[j];
      }
    }
  }

  /** The sort returns a permutation of its input, ordered by the key. */
  lemma {:induction false} SortBySpec<T>(s: seq<T>, key: T -> seq<string>, desc: bool)
    ensures multiset(SortBy(s, key, desc)) == multiset(s)
    ensures |SortBy(s, key, desc)| == |s|
    ensures SortedBy(SortBy(s, key, desc), key, desc)
  {
    if |s| > 0 {
      SortBySpec(s[1..], key, desc);
      InsertSorted(s[0], SortBy(s[1..], key, desc), key, desc);
      assert s == [s[0]] + s[1..];
    }
  }

  /** On one-component keys the tuple order is the string order. */
  lemma KeyLeSingle(a: string, b: string)
    requires KeyLe([a], [b])
    ensures LexLe(a, b)
  {
    if a == b { LexLeRefl(a); }
  }

  function SingleKey(s: string): seq<string> {
    [s]
  }

  /** The keys of a map in ascending order, as `ORDER BY key ASC` lists
      them. */
  method SortedKeys<V>(m: map<string, V>) returns (keys: seq<string>)
    ensures |keys| == |m|
    ensures forall k :: k in keys <==> k in m
    ensures SortedBy(keys, SingleKey, false)
  {
    var remaining := m.Keys;
    var acc: seq<string> := [];
    while remaining != {}
      invariant remaining <= m.Keys
      invariant forall k :: k in acc <==> k in m && k !in remaining
      invariant |acc| + |remaining| == |m.Keys|
      decreases remaining
    {
      var k :| k in remaining;
      acc := acc + [k];
      remaining := remaining - {k};
    }
    keys := SortBy(acc, SingleKey, false);
    SortBySpec(acc, SingleKey, false);
    forall k ensures k in keys <==> k in acc {
      assert k in keys <==> k in multiset(keys);
      assert k in acc <==> k in multiset(acc);
    }
  }
}
