/** pandas `drop_duplicates(subset=..., keep='first')` over a sequence of rows:
    a row survives when no earlier row has the same key. */
module Tabular {
  import opened Sequences

  predicate HasKey<T, K(==)>(s: seq<T>, key: T -> K, k: K) {
    exists i :: 0 <= i < |s| && key(s[i]) == k
  }

  /** No two rows share a key. */
  predicate DistinctKeys<T, K(==)>(s: seq<T>, key: T -> K) {
    forall i, j :: 0 <= i < j < |s| ==> key(s[i]) != key(s[j])
  }

  /** The earliest row of `s` whose key is `k`. */
  function FirstWith<T, K(==)>(s: seq<T>, key: T -> K, k: K): (x: T)
    requires HasKey(s, key, k)
    ensures x in s && key(x) == k
    decreases |s|
  {
    if key(s[0]) == k then s[0]
    else
      assert HasKey(s[1..], key, k) by {
        var i :| 0 <= i < |s| && key(s[i]) == k;
        assert i > 0 && key(s[1..][i - 1]) == k;
      }
      FirstWith(s[1..], key, k)
  }

  /** The scan behind `drop_duplicates`: `seen` holds the keys of the rows
      already passed over. */
  function DedupFrom<T, K(==)>(s: seq<T>, key: T -> K, seen: set<K>): (r: seq<T>)
    ensures DistinctKeys(r, key)
    ensures forall i :: 0 <= i < |r| ==> key(r[i]) !in seen
    decreases |s|
  {
    if s == [] then []
    else if key(s[0]) in seen then DedupFrom(s[1..], key, seen)
    else
      var rest := DedupFrom(s[1..], key, seen + {key(s[0])});
      assert forall i :: 0 <= i < |rest| ==> key(rest[i]) != key(s[0]);
      [s[0]] + rest
  }

  /** `df.drop_duplicates(subset=key, keep='first')`. */
  function DropDuplicates<T, K(==)>(s: seq<T>, key: T -> K): seq<T> {
    DedupFrom(s, key, {})
  }

  lemma {:induction false} DedupFromSubseq<T, K>(s: seq<T>, key: T -> K, seen: set<K>)
    ensures IsSubseq(DedupFrom(s, key, seen), s)
    decreases |s|
  {
    if s != [] {
      assert [s[0]] + s[1..] == s;
      if key(s[0]) in seen {
        DedupFromSubseq(s[1..], key, seen);
        SubseqCons(DedupFrom(s[1..], key, seen), s[0], s[1..]);
      } else {
        DedupFromSubseq(s[1..], key, seen + {key(s[0])});
      }
    }
  }

  /** Every key of the input that was not already seen is represented in the output. */
  lemma {:induction false} DedupFromCovers<T, K>(s: seq<T>, key: T -> K, seen: set<K>)
    ensures forall x :: x in s ==> key(x) in seen || HasKey(DedupFrom(s, key, seen), key, key(x))
    decreases |s|
  {
    if s != [] {
      var r := DedupFrom(s, key, seen);
      if key(s[0]) in seen {
        DedupFromCovers(s[1..], key, seen);
      } else {
        var seen' := seen + {key(s[0])};
        DedupFromCovers(s[1..], key, seen');
        var rest := DedupFrom(s[1..], key, seen');
        assert r == [s[0]] + rest;
        forall x | x in s
          ensures key(x) in seen || HasKey(r, key, key(x))
        {
          if key(x) == key(s[0]) {
            assert key(r[0]) == key(x);
          } else if key(x) !in seen {
            assert x in s[1..] by { assert x != s[0]; }
            var i :| 0 <= i < |rest| && key(rest[i]) == key(x);
            assert key(r[i + 1]) == key(x);
          }
        }
      }
    }
  }

  /** Each surviving row is the first row of the input that carries its key. */
  lemma {:induction false} DedupFromKeepsFirst<T, K>(s: seq<T>, key: T -> K, seen: set<K>)
    ensures forall x :: x in DedupFrom(s, key, seen) ==> HasKey(s, key, key(x)) && x == FirstWith(s, key, key(x))
    decreases |s|
  {
    if s != [] {
      var r := DedupFrom(s, key, seen);
      var seen' := if key(s[0]) in seen then seen else seen + {key(s[0])};
      var rest := DedupFrom(s[1..], key, seen');
      DedupFromKeepsFirst(s[1..], key, seen');
      forall x | x in r
        ensures HasKey(s, key, key(x)) && x == FirstWith(s, key, key(x))
      {
        if key(s[0]) !in seen && x == s[0] {
          assert key(s[0]) == key(x);
        } else {
          assert x in rest;
          var j :| 0 <= j < |rest| && rest[j] == x;
          assert key(x) !in seen';
          var i :| 0 <= i < |s[1..]| && key(s[1..][i]) == key(x);
          assert key(s[i + 1]) == key(x);
        }
      }
    }
  }

  /** Rows whose keys are already distinct and unseen all survive. */
  lemma {:induction false} DedupFromDistinct<T, K>(s: seq<T>, key: T -> K, seen: set<K>)
    requires DistinctKeys(s, key)
    requires forall i :: 0 <= i < |s| ==> key(s[i]) !in seen
    ensures DedupFrom(s, key, seen) == s
    decreases |s|
  {
    if s != [] {
      var seen' := seen + {key(s[0])};
      assert forall i :: 0 <= i < |s[1..]| ==> key(s[1..][i]) !in seen' by {
        forall i | 0 <= i < |s[1..]| ensures key(s[1..][i]) !in seen' {
          assert key(s[i + 1]) != key(s[0]);
        }
      }
      DedupFromDistinct(s[1..], key, seen');
      assert [s[0]] + s[1..] == s;
    }
  }

  /** Scanning `a + b` is scanning `a`, then `b` with the keys of `a` seen. */
  lemma {:induction false} DedupFromAppend<T, K>(a: seq<T>, b: seq<T>, key: T -> K, seen: set<K>)
    ensures DedupFrom(a + b, key, seen) == DedupFrom(a, key, seen) + DedupFrom(b, key, seen + (set x | x in a :: key(x)))
    decreases |a|
  {
    if a == [] {
      assert a + b == b;
      assert (set x | x in a :: key(x)) == {};
      assert seen + {} == seen;
    } else {
      var seen' := seen + {key(a[0])};
      assert (a + b)[0] == a[0] && (a + b)[1..] == a[1..] + b;
      var ka := set x | x in a :: key(x);
      var ka' := set x | x in a[1..] :: key(x);
      assert ka == ka' + {key(a[0])} by {
        forall x | x in a ensures x == a[0] || x in a[1..] {
          if x != a[0] {
            var i :| 0 <= i < |a| && a[i] == x;
            assert a[1..][i - 1] == x;
          }
        }
      }
      if key(a[0]) in seen {
        DedupFromAppend(a[1..], b, key, seen);
        assert seen + ka' == seen + ka;
      } else {
        DedupFromAppend(a[1..], b, key, seen');
        assert seen' + ka' == seen + ka;
      }
    }
  }

  /** Rows with distinct keys in front all survive, in front. */
  lemma DropDuplicatesKeepsPrefix<T, K>(a: seq<T>, b: seq<T>, key: T -> K)
    requires DistinctKeys(a, key)
    ensures a <= DropDuplicates(a + b, key)
  {
    DedupFromAppend(a, b, key, {});
    DedupFromDistinct(a, key, {});
  }

  /** Dropping duplicates is idempotent. */
  lemma DropDuplicatesIdempotent<T, K>(s: seq<T>, key: T -> K)
    ensures DropDuplicates(DropDuplicates(s, key), key) == DropDuplicates(s, key)
  {
    DedupFromDistinct(DropDuplicates(s, key), key, {});
  }

  /** What `drop_duplicates(keep='first')` keeps, by value: an order-preserving
      subsequence, one row per key, every input key kept, and the row kept for
      a key is the earliest one carrying it. Positions (which of two equal
      rows survives) are fixed by `DropDuplicatesSnoc`. */
  lemma DropDuplicatesSpec<T, K>(s: seq<T>, key: T -> K)
    ensures IsSubseq(DropDuplicates(s, key), s)
    ensures DistinctKeys(DropDuplicates(s, key), key)
    ensures forall x :: x in s ==> HasKey(DropDuplicates(s, key), key, key(x))
    ensures forall x :: x in DropDuplicates(s, key) ==> HasKey(s, key, key(x)) && x == FirstWith(s, key, key(x))
  {
    DedupFromSubseq(s, key, {});
    DedupFromCovers(s, key, {});
    DedupFromKeepsFirst(s, key, {});
  }

  /** `drop_duplicates(keep='first')` row by row: an empty table stays empty,
      and one more row is kept, at the end, exactly when no earlier row has
      its key. The two equations determine the result, positions and order
      included. */
  lemma DropDuplicatesSnoc<T, K>(s: seq<T>, x: T, key: T -> K)
    ensures DropDuplicates([], key) == []
    ensures DropDuplicates(s + [x], key) == DropDuplicates(s, key) + (if HasKey(s, key, key(x)) then [] else [x])
  {
    var keys := set y | y in s :: key(y);
    DedupFromAppend(s, [x], key, {});
    assert {} + keys == keys;
    assert key(x) in keys <==> HasKey(s, key, key(x)) by {
      if key(x) in keys {
        var y :| y in s && key(y) == key(x);
        var i :| 0 <= i < |s| && s[i] == y;
      }
      if HasKey(s, key, key(x)) {
        var i :| 0 <= i < |s| && key(s[i]) == key(x);
        assert s[i] in s;
      }
    }
    assert [x][1..] == [];
  }

  /** Dropping duplicates after a step that may append one row `x`: `x`
      survives exactly when it was appended and no earlier row has its key. */
  lemma DropDuplicatesMaybeSnoc<T, K>(s: seq<T>, s': seq<T>, x: T, appended: bool, key: T -> K)
    requires s' == s + (if appended then [x] else [])
    ensures DropDuplicates(s', key)
            == DropDuplicates(s, key) + (if appended && !HasKey(s, key, key(x)) then [x] else [])
  {
    DropDuplicatesSnoc(s, x, key);
    if !appended {
      assert s' == s && DropDuplicates(s, key) + [] == DropDuplicates(s, key);
    }
  }

  /** A subsequence of rows with distinct keys has distinct keys. */
  lemma {:induction false} SubseqDistinctKeys<T, K>(a: seq<T>, b: seq<T>, key: T -> K)
    requires IsSubseq(a, b) && DistinctKeys(b, key)
    ensures DistinctKeys(a, key)
    decreases |b|
  {
    if a != [] {
      assert DistinctKeys(b[1..], key) by {
        forall i, j | 0 <= i < j < |b[1..]| ensures key(b[1..][i]) != key(b[1..][j]) {
          assert key(b[i + 1]) != key(b[j + 1]);
        }
      }
      if a[0] == b[0] {
        SubseqDistinctKeys(a[1..], b[1..], key);
        SubseqMembers(a[1..], b[1..]);
        forall i, j | 0 <= i < j < |a| ensures key(a[i]) != key(a[j]) {
          if i == 0 {
            assert a[j] in b[1..] by { assert a[j] == a[1..][j - 1]; }
            var m :| 0 <= m < |b[1..]| && b[1..][m] == a[j];
            assert key(b[0]) != key(b[m + 1]);
          } else {
            assert a[i] == a[1..][i - 1] && a[j] == a[1..][j - 1];
          }
        }
      } else {
        SubseqDistinctKeys(a, b[1..], key);
      }
    }
  }
}
