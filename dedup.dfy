/**
 * Keep-first deduplication of a table's rows on a key, as pandas'
 * `drop_duplicates(subset=..., keep='first')` does it: a row is kept exactly
 * when no earlier row carries the same key, and kept rows stay in their
 * original order.  Rows and keys are generic; the key is any function of a
 * row (the `subset` columns).
 */
module Dedup {

  /** The set of keys that occur among `rows`. */
  function KeysOf<R, K(==)>(rows: seq<R>, key: R -> K): set<K> {
    set i | 0 <= i < |rows| :: key(rows[i])
  }

  /** No two of `rows` share a key. */
  predicate DistinctKeys<R, K(==)>(rows: seq<R>, key: R -> K) {
    forall i, j :: 0 <= i < j < |rows| ==> key(rows[i]) != key(rows[j])
  }

  /**
   * The specification of keep-first deduplication, by the last row: it is
   * kept exactly when its key has not occurred among the rows before it.
   */
  function KeepFirst<R, K(==)>(rows: seq<R>, key: R -> K): (kept: seq<R>)
    ensures |kept| <= |rows|
    ensures KeysOf(kept, key) == KeysOf(rows, key)
    decreases |rows|
  {
    if rows == [] then []
    else
      var init, last := rows[..|rows| - 1], rows[|rows| - 1];
      var prefix := KeepFirst(init, key);
      KeysSnoc(init, last, key);
      if key(last) in KeysOf(init, key) then
        prefix
      else
        KeysSnoc(prefix, last, key);
        prefix + [last]
  }

  lemma KeysSnoc<R, K>(rows: seq<R>, x: R, key: R -> K)
    ensures KeysOf(rows + [x], key) == KeysOf(rows, key) + {key(x)}
  {
    var s := rows + [x];
    forall k | k in KeysOf(s, key) ensures k in KeysOf(rows, key) + {key(x)} {
      var i :| 0 <= i < |s| && key(s[i]) == k;
      if i < |rows| { assert s[i] == rows[i]; }
    }
    forall k | k in KeysOf(rows, key) ensures k in KeysOf(s, key) {
      var i :| 0 <= i < |rows| && key(rows[i]) == k;
      assert s[i] == rows[i];
    }
    assert s[|rows|] == x;
  }

  /** Keep-first deduplication never keeps two rows with the same key. */
  lemma {:induction false} KeepFirstDistinct<R, K>(rows: seq<R>, key: R -> K)
    ensures DistinctKeys(KeepFirst(rows, key), key)
    decreases |rows|
  {
    if rows != [] {
      var init, last := rows[..|rows| - 1], rows[|rows| - 1];
      KeepFirstDistinct(init, key);
      var prefix := KeepFirst(init, key);
      if key(last) !in KeysOf(init, key) {
        var kept := prefix + [last];
        forall i, j | 0 <= i < j < |kept| ensures key(kept[i]) != key(kept[j]) {
          if j == |prefix| {
            assert kept[i] == prefix[i];
            assert key(prefix[i]) in KeysOf(prefix, key);
          } else {
            assert kept[i] == prefix[i] && kept[j] == prefix[j];
          }
        }
      }
    }
  }

  /** Rows whose keys are already distinct are all kept. */
  lemma {:induction false} KeepFirstOfDistinct<R, K>(rows: seq<R>, key: R -> K)
    requires DistinctKeys(rows, key)
    ensures KeepFirst(rows, key) == rows
    decreases |rows|
  {
    if rows != [] {
      var init, last := rows[..|rows| - 1], rows[|rows| - 1];
      assert DistinctKeys(init, key) by {
        forall i, j | 0 <= i < j < |init| ensures key(init[i]) != key(init[j]) {
          assert init[i] == rows[i] && init[j] == rows[j];
        }
      }
      KeepFirstOfDistinct(init, key);
      assert key(last) !in KeysOf(init, key) by {
        forall i | 0 <= i < |init| ensures key(init[i]) != key(last) {
          assert init[i] == rows[i];
        }
      }
      assert init + [last] == rows;
    }
  }

  /** Rows that all carry one key collapse to the first of them. */
  lemma {:induction false} KeepFirstOfOneKey<R, K>(rows: seq<R>, key: R -> K)
    requires rows != []
    requires forall i :: 0 <= i < |rows| ==> key(rows[i]) == key(rows[0])
    ensures KeepFirst(rows, key) == [rows[0]]
    decreases |rows|
  {
    var init := rows[..|rows| - 1];
    if init == [] {
      assert KeepFirst(init, key) == [];
    } else {
      assert init[0] == rows[0];
      KeepFirstOfOneKey(init, key);
      assert key(init[0]) in KeysOf(init, key);
    }
  }

  /** Deduplicating twice is deduplicating once. */
  lemma {:induction false} KeepFirstIdempotent<R, K>(rows: seq<R>, key: R -> K)
    ensures KeepFirst(KeepFirst(rows, key), key) == KeepFirst(rows, key)
  {
    KeepFirstDistinct(rows, key);
    KeepFirstOfDistinct(KeepFirst(rows, key), key);
  }

  /** Rows with distinct keys are as many as their keys. */
  lemma {:induction false} DistinctKeysCount<R, K>(rows: seq<R>, key: R -> K)
    requires DistinctKeys(rows, key)
    ensures |KeysOf(rows, key)| == |rows|
    decreases |rows|
  {
    if rows != [] {
      var init, last := rows[..|rows| - 1], rows[|rows| - 1];
      assert DistinctKeys(init, key) by {
        forall i, j | 0 <= i < j < |init| ensures key(init[i]) != key(init[j]) {
          assert init[i] == rows[i] && init[j] == rows[j];
        }
      }
      DistinctKeysCount(init, key);
      KeysSnoc(init, last, key);
      assert key(last) !in KeysOf(init, key) by {
        forall i | 0 <= i < |init| ensures key(init[i]) != key(last) {
          assert init[i] == rows[i];
        }
      }
      assert init + [last] == rows;
    }
  }

  /** The deduplicated table has exactly one row per distinct key of the input. */
  lemma KeepFirstCount<R, K>(rows: seq<R>, key: R -> K)
    ensures |KeepFirst(rows, key)| == |KeysOf(rows, key)|
  {
    KeepFirstDistinct(rows, key);
    DistinctKeysCount(KeepFirst(rows, key), key);
  }

  /** The row at `i` is the first of `rows` to carry its key. */
  predicate IsFirstAt<R, K(==)>(rows: seq<R>, key: R -> K, i: nat)
    requires i < |rows|
  {
    forall j :: 0 <= j < i ==> key(rows[j]) != key(rows[i])
  }

  /**
   * A reference description of what keep-first keeps, by position: the
   * positions below `n` at which a key occurs for the first time, in
   * increasing order.
   */
  function FirstIndices<R, K(==)>(rows: seq<R>, key: R -> K, n: nat): (idx: seq<nat>)
    requires n <= |rows|
    ensures forall k :: 0 <= k < |idx| ==> idx[k] < n
    ensures forall k, l :: 0 <= k < l < |idx| ==> idx[k] < idx[l]
    ensures forall i :: 0 <= i < n ==> (i in idx <==> IsFirstAt(rows, key, i))
  {
    if n == 0 then []
    else FirstIndices(rows, key, n - 1) + (if IsFirstAt(rows, key, n - 1) then [n - 1] else [])
  }

  /** The rows of `rows` at the positions `idx`, in that order. */
  function Select<R>(rows: seq<R>, idx: seq<nat>): (s: seq<R>)
    requires forall k :: 0 <= k < |idx| ==> idx[k] < |rows|
  {
    seq(|idx|, k requires 0 <= k < |idx| => rows[idx[k]])
  }

  /** Whether a position is a first occurrence depends only on the rows up to it. */
  lemma {:induction false} FirstIndicesPrefix<R, K>(a: seq<R>, b: seq<R>, key: R -> K, m: nat)
    requires m <= |a| && m <= |b| && a[..m] == b[..m]
    ensures FirstIndices(a, key, m) == FirstIndices(b, key, m)
  {
    if m > 0 {
      assert a[..m - 1] == a[..m][..m - 1] == b[..m][..m - 1] == b[..m - 1];
      FirstIndicesPrefix(a, b, key, m - 1);
      forall j | 0 <= j < m ensures a[j] == b[j] {
        assert a[j] == a[..m][j] && b[j] == b[..m][j];
      }
      assert IsFirstAt(a, key, m - 1) == IsFirstAt(b, key, m - 1);
    }
  }

  /** The last row is a first occurrence exactly when its key is new. */
  lemma LastIsFirstIff<R, K>(rows: seq<R>, key: R -> K)
    requires rows != []
    ensures IsFirstAt(rows, key, |rows| - 1) <==> key(rows[|rows| - 1]) !in KeysOf(rows[..|rows| - 1], key)
  {
    var init, last := rows[..|rows| - 1], rows[|rows| - 1];
    if key(last) in KeysOf(init, key) {
      var j :| 0 <= j < |init| && key(init[j]) == key(last);
      assert rows[j] == init[j];
    } else {
      forall j | 0 <= j < |rows| - 1 ensures key(rows[j]) != key(last) {
        assert rows[j] == init[j];
      }
    }
  }

  lemma SelectPrefix<R>(rows: seq<R>, m: nat, idx: seq<nat>)
    requires m <= |rows|
    requires forall k :: 0 <= k < |idx| ==> idx[k] < m
    ensures Select(rows, idx) == Select(rows[..m], idx)
  {
  }

  lemma SelectSnoc<R>(rows: seq<R>, idx: seq<nat>, i: nat)
    requires i < |rows|
    requires forall k :: 0 <= k < |idx| ==> idx[k] < |rows|
    ensures Select(rows, idx + [i]) == Select(rows, idx) + [rows[i]]
  {
  }

  /**
   * Keep-first deduplication keeps exactly the rows at which a key occurs for
   * the first time, in their original order: the output is the subsequence of
   * the input picked out by the first-occurrence positions.
   */
  lemma {:induction false} KeepFirstSelectsFirstOccurrences<R, K>(rows: seq<R>, key: R -> K)
    ensures KeepFirst(rows, key) == Select(rows, FirstIndices(rows, key, |rows|))
    decreases |rows|
  {
    if rows != [] {
      var n := |rows|;
      var init := rows[..n - 1];
      KeepFirstSelectsFirstOccurrences(init, key);
      assert rows[..n - 1] == init[..n - 1];
      FirstIndicesPrefix(rows, init, key, n - 1);
      var idx := FirstIndices(init, key, n - 1);
      SelectPrefix(rows, n - 1, idx);
      LastIsFirstIff(rows, key);
      if IsFirstAt(rows, key, n - 1) {
        SelectSnoc(rows, idx, n - 1);
      } else {
        assert idx + [] == idx;
      }
    }
  }

  /** The image of a finite set under a function is no larger than the set. */
  lemma {:induction false} ImageNoLarger<K, L>(s: set<K>, f: K -> L)
    ensures |(set x | x in s :: f(x))| <= |s|
    decreases s
  {
    if s != {} {
      var x :| x in s;
      ImageNoLarger(s - {x}, f);
      var img, rest := (set y | y in s :: f(y)), (set y | y in s - {x} :: f(y));
      assert img == rest + {f(x)};
    }
  }

  /**
   * Deduplicating on a key that is a function of another key keeps at most as
   * many rows: merging keys can only merge groups.
   */
  lemma {:induction false} CoarserKeyKeepsFewer<R, K, L>(rows: seq<R>, fine: R -> K, coarse: R -> L, f: K -> L)
    requires forall r :: coarse(r) == f(fine(r))
    ensures |KeepFirst(rows, coarse)| <= |KeepFirst(rows, fine)|
  {
    KeepFirstCount(rows, fine);
    KeepFirstCount(rows, coarse);
    var fineKeys := KeysOf(rows, fine);
    assert KeysOf(rows, coarse) == (set k | k in fineKeys :: f(k)) by {
      forall c | c in KeysOf(rows, coarse) ensures c in (set k | k in fineKeys :: f(k)) {
        var i :| 0 <= i < |rows| && coarse(rows[i]) == c;
        assert fine(rows[i]) in fineKeys;
      }
    }
    ImageNoLarger(fineKeys, f);
  }

  /** `g` applied to every row: a column transform. */
  function MapRows<R, S>(g: R -> S, rows: seq<R>): (out: seq<S>)
    ensures |out| == |rows|
  {
    seq(|rows|, i requires 0 <= i < |rows| => g(rows[i]))
  }

  lemma KeysOfMap<R, S, K>(rows: seq<R>, g: R -> S, key: S -> K, pulled: R -> K)
    requires forall r :: pulled(r) == key(g(r))
    ensures KeysOf(MapRows(g, rows), key) == KeysOf(rows, pulled)
  {
    var out := MapRows(g, rows);
    forall c | c in KeysOf(rows, pulled) ensures c in KeysOf(out, key) {
      var i :| 0 <= i < |rows| && pulled(rows[i]) == c;
      assert key(out[i]) == c;
    }
  }

  /**
   * Transforming the rows and then deduplicating on a key equals
   * deduplicating on the key of the transformed row and then transforming
   * the survivors.
   */
  lemma {:induction false} KeepFirstMap<R, S, K>(rows: seq<R>, g: R -> S, key: S -> K, pulled: R -> K)
    requires forall r :: pulled(r) == key(g(r))
    ensures KeepFirst(MapRows(g, rows), key) == MapRows(g, KeepFirst(rows, pulled))
    decreases |rows|
  {
    if rows != [] {
      var n := |rows|;
      var init, last := rows[..n - 1], rows[n - 1];
      var out := MapRows(g, rows);
      KeepFirstMap(init, g, key, pulled);
      assert out[..n - 1] == MapRows(g, init);
      assert out[n - 1] == g(last);
      KeysOfMap(init, g, key, pulled);
      var kept := KeepFirst(init, pulled);
      if key(g(last)) !in KeysOf(MapRows(g, init), key) {
        assert MapRows(g, kept + [last]) == MapRows(g, kept) + [g(last)];
      }
    }
  }

  /**
   * The imperative form of `drop_duplicates(keep='first')`: one pass over the
   * rows with the set of keys seen so far, appending each row whose key is new.
   */
  method DropDuplicates<R, K(==)>(rows: seq<R>, key: R -> K) returns (kept: seq<R>)
    ensures kept == KeepFirst(rows, key)
  {
    kept := [];
    var seen: set<K> := {};
    for i := 0 to |rows|
      invariant kept == KeepFirst(rows[..i], key)
      invariant seen == KeysOf(rows[..i], key)
    {
      assert rows[..i + 1][..i] == rows[..i];
      KeysSnoc(rows[..i], rows[i], key);
      assert rows[..i] + [rows[i]] == rows[..i + 1];
      if key(rows[i]) !in seen {
        kept := kept + [rows[i]];
        seen := seen + {key(rows[i])};
      }
    }
    assert rows[..|rows|] == rows;
  }
}
