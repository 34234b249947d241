/**
 * The list and data-frame operations the pipeline composes: boolean-mask
 * selection, `drop_duplicates`, stable sorting, `value_counts` and slicing.
 */
module Seqs {
  import opened Wrappers

  // ---------- selection ----------

  /** `[x for x in s if p(x)]`, or `df[mask]` for a row mask. */
  function Filter<T(==,!new)>(s: seq<T>, p: T -> bool): (r: seq<T>)
    ensures |r| <= |s|
    ensures forall x :: x in r <==> x in s && p(x)
  {
    if s == [] then []
    else
      assert forall x :: x in s <==> x == s[0] || x in s[1..];
      (if p(s[0]) then [s[0]] else []) + Filter(s[1..], p)
  }

  lemma {:induction false} FilterConcat<T(!new)>(a: seq<T>, b: seq<T>, p: T -> bool)
    ensures Filter(a + b, p) == Filter(a, p) + Filter(b, p)
    decreases |a|
  {
    if a == [] {
      assert a + b == b;
    } else {
      var head := if p(a[0]) then [a[0]] else [];
      var ab := a + b;
      assert ab[0] == a[0] && ab[1..] == a[1..] + b;
      calc {
        Filter(ab, p);
        head + Filter(a[1..] + b, p);
        { FilterConcat(a[1..], b, p); }
        head + (Filter(a[1..], p) + Filter(b, p));
        (head + Filter(a[1..], p)) + Filter(b, p);
        Filter(a, p) + Filter(b, p);
      }
    }
  }

  lemma FilterSnoc<T(!new)>(s: seq<T>, x: T, p: T -> bool)
    ensures Filter(s + [x], p) == Filter(s, p) + (if p(x) then [x] else [])
  {
    FilterConcat(s, [x], p);
    assert [x][1..] == [];
  }

  lemma {:induction false} FilterFilter<T(!new)>(s: seq<T>, p: T -> bool, q: T -> bool, pq: T -> bool)
    requires forall x :: pq(x) == (p(x) && q(x))
    ensures Filter(Filter(s, p), q) == Filter(s, pq)
    decreases |s|
  {
    if s != [] {
      FilterFilter(s[1..], p, q, pq);
      FilterConcat(if p(s[0]) then [s[0]] else [], Filter(s[1..], p), q);
    }
  }

  /** A mask that selects everything changes nothing. */
  lemma {:induction false} FilterAll<T(!new)>(s: seq<T>, p: T -> bool)
    requires forall x :: x in s ==> p(x)
    ensures Filter(s, p) == s
    decreases |s|
  {
    if s != [] {
      FilterAll(s[1..], p);
    }
  }

  /** Masks that agree on every element select the same rows. */
  lemma {:induction false} FilterExt<T(!new)>(s: seq<T>, p: T -> bool, q: T -> bool)
    requires forall x :: x in s ==> p(x) == q(x)
    ensures Filter(s, p) == Filter(s, q)
    decreases |s|
  {
    if s != [] {
      FilterExt(s[1..], p, q);
    }
  }

  // ---------- subsequences ----------

  /** `a` is `b` with some elements left out, in the same order. */
  predicate IsSubseq<T(==,!new)>(a: seq<T>, b: seq<T>)
    decreases |b|
  {
    a == [] || (b != [] && ((a[0] == b[0] && IsSubseq(a[1..], b[1..])) || IsSubseq(a, b[1..])))
  }

  lemma {:induction false} SubseqRefl<T(!new)>(a: seq<T>)
    ensures IsSubseq(a, a)
    decreases |a|
  {
    if a != [] {
      SubseqRefl(a[1..]);
    }
  }

  lemma {:induction false} SubseqTrans<T(!new)>(a: seq<T>, b: seq<T>, c: seq<T>)
    requires IsSubseq(a, b) && IsSubseq(b, c)
    ensures IsSubseq(a, c)
    decreases |c|
  {
    if a != [] {
      if b[0] == c[0] && IsSubseq(b[1..], c[1..]) {
        if a[0] == b[0] && IsSubseq(a[1..], b[1..]) {
          SubseqTrans(a[1..], b[1..], c[1..]);
        } else {
          SubseqTrans(a, b[1..], c[1..]);
        }
      } else {
        SubseqTrans(a, b, c[1..]);
      }
    }
  }

  lemma {:induction false} FilterIsSubseq<T(!new)>(s: seq<T>, p: T -> bool)
    ensures IsSubseq(Filter(s, p), s)
    decreases |s|
  {
    if s != [] {
      FilterIsSubseq(s[1..], p);
      var r := Filter(s, p);
      if p(s[0]) {
        assert r == [s[0]] + Filter(s[1..], p);
        assert r[0] == s[0] && r[1..] == Filter(s[1..], p);
      } else {
        assert r == Filter(s[1..], p);
      }
    }
  }

  /** Every element of a subsequence comes from the longer sequence. */
  lemma {:induction false} SubseqMembers<T(!new)>(a: seq<T>, b: seq<T>)
    requires IsSubseq(a, b)
    ensures forall x :: x in a ==> x in b
    decreases |b|
  {
    if a != [] {
      if a[0] == b[0] && IsSubseq(a[1..], b[1..]) {
        SubseqMembers(a[1..], b[1..]);
        assert forall x :: x in a ==> x == a[0] || x in a[1..];
      } else {
        SubseqMembers(a, b[1..]);
      }
    }
  }

  lemma {:induction false} SubseqLength<T(!new)>(a: seq<T>, b: seq<T>)
    requires IsSubseq(a, b)
    ensures |a| <= |b|
    decreases |b|
  {
    if a != [] {
      if a[0] == b[0] && IsSubseq(a[1..], b[1..]) {
        SubseqLength(a[1..], b[1..]);
      } else {
        SubseqLength(a, b[1..]);
      }
    }
  }

  // ---------- keys and duplicates ----------

  /** No two elements share a key. */
  predicate UniqueBy<T, K(==)>(s: seq<T>, key: T -> K) {
    forall i, j :: 0 <= i < j < |s| ==> key(s[i]) != key(s[j])
  }

  /** The keys that occur in `s`. */
  function KeySet<T(==,!new), K>(s: seq<T>, key: T -> K): set<K> {
    set x | x in s :: key(x)
  }

  lemma KeySetCons<T(!new), K>(x: T, s: seq<T>, key: T -> K)
    ensures KeySet([x] + s, key) == {key(x)} + KeySet(s, key)
  {
    assert forall y :: y in [x] + s <==> y == x || y in s;
  }

  /** A cons has unique keys exactly when its tail does and the head's key is new. */
  lemma UniqueCons<T(!new), K>(x: T, s: seq<T>, key: T -> K)
    ensures UniqueBy([x] + s, key) <==> UniqueBy(s, key) && key(x) !in KeySet(s, key)
  {
    var r := [x] + s;
    if UniqueBy(r, key) {
      forall i, j | 0 <= i < j < |s| ensures key(s[i]) != key(s[j]) {
        assert s[i] == r[i + 1] && s[j] == r[j + 1];
      }
      forall y | y in s ensures key(y) != key(x) {
        var m :| 0 <= m < |s| && s[m] == y;
        assert r[m + 1] == y && r[0] == x;
      }
    }
    if UniqueBy(s, key) && key(x) !in KeySet(s, key) {
      forall i, j | 0 <= i < j < |r| ensures key(r[i]) != key(r[j]) {
        if i == 0 {
          assert r[j] == s[j - 1];
          assert key(s[j - 1]) in KeySet(s, key);
        } else {
          assert r[i] == s[i - 1] && r[j] == s[j - 1];
        }
      }
    }
  }

  /** Leaving elements out keeps keys unique. */
  lemma {:induction false} SubseqUnique<T(!new), K>(a: seq<T>, b: seq<T>, key: T -> K)
    requires IsSubseq(a, b) && UniqueBy(b, key)
    ensures UniqueBy(a, key)
    decreases |b|
  {
    if a != [] {
      assert UniqueBy(b[1..], key) by {
        forall i, j | 0 <= i < j < |b[1..]| ensures key(b[1..][i]) != key(b[1..][j]) {
          assert b[1..][i] == b[i + 1] && b[1..][j] == b[j + 1];
        }
      }
      if a[0] == b[0] && IsSubseq(a[1..], b[1..]) {
        SubseqUnique(a[1..], b[1..], key);
        SubseqMembers(a[1..], b[1..]);
        forall i, j | 0 <= i < j < |a| ensures key(a[i]) != key(a[j]) {
          if i == 0 {
            assert a[j] == a[1..][j - 1];
            assert a[j] in b[1..];
            var m :| 0 <= m < |b[1..]| && b[1..][m] == a[j];
            assert b[m + 1] == a[j];
          } else {
            assert a[i] == a[1..][i - 1] && a[j] == a[1..][j - 1];
          }
        }
      } else {
        SubseqUnique(a, b[1..], key);
      }
    }
  }

  /** Position of the first element whose key is `c`. */
  function FirstIndex<T(==,!new), K(==)>(s: seq<T>, key: T -> K, c: K): (k: nat)
    requires c in KeySet(s, key)
    ensures k < |s| && key(s[k]) == c
    ensures forall j :: 0 <= j < k ==> key(s[j]) != c
    decreases |s|
  {
    if key(s[0]) == c then 0
    else
      assert c in KeySet(s[1..], key) by {
        var x :| x in s && key(x) == c;
        assert x != s[0];
        assert x in s[1..];
      }
      1 + FirstIndex(s[1..], key, c)
  }

  /** `drop_duplicates(subset=key, keep="first")` after the keys in `seen` were already taken. */
  function DedupFrom<T(==,!new), K(==)>(s: seq<T>, key: T -> K, seen: set<K>): seq<T>
    decreases |s|
  {
    if s == [] then []
    else if key(s[0]) in seen then DedupFrom(s[1..], key, seen)
    else [s[0]] + DedupFrom(s[1..], key, seen + {key(s[0])})
  }

  /** `drop_duplicates(subset=key, keep="first")`. */
  function DedupBy<T(==,!new), K(==)>(s: seq<T>, key: T -> K): seq<T> {
    DedupFrom(s, key, {})
  }

  lemma DedupFromProps<T(!new), K>(s: seq<T>, key: T -> K, seen: set<K>)
    ensures IsSubseq(DedupFrom(s, key, seen), s)
    ensures UniqueBy(DedupFrom(s, key, seen), key)
    ensures KeySet(DedupFrom(s, key, seen), key) == KeySet(s, key) - seen
    ensures forall x :: x in DedupFrom(s, key, seen) ==> key(x) in KeySet(s, key)
    ensures forall x :: x in DedupFrom(s, key, seen) ==> x == s[FirstIndex(s, key, key(x))]
  {
    DedupFromSubseq(s, key, seen);
    DedupFromKeys(s, key, seen);
    DedupFromFirst(s, key, seen);
  }

  lemma {:induction false} DedupFromSubseq<T(!new), K>(s: seq<T>, key: T -> K, seen: set<K>)
    ensures IsSubseq(DedupFrom(s, key, seen), s)
    decreases |s|
  {
    if s != [] {
      var r := DedupFrom(s, key, seen);
      if key(s[0]) in seen {
        DedupFromSubseq(s[1..], key, seen);
      } else {
        var t := DedupFrom(s[1..], key, seen + {key(s[0])});
        DedupFromSubseq(s[1..], key, seen + {key(s[0])});
        assert r == [s[0]] + t;
        assert r[0] == s[0] && r[1..] == t;
      }
    }
  }

  lemma {:induction false} DedupFromKeys<T(!new), K>(s: seq<T>, key: T -> K, seen: set<K>)
    ensures UniqueBy(DedupFrom(s, key, seen), key)
    ensures KeySet(DedupFrom(s, key, seen), key) == KeySet(s, key) - seen
    decreases |s|
  {
    if s != [] {
      var r := DedupFrom(s, key, seen);
      assert s == [s[0]] + s[1..];
      KeySetCons(s[0], s[1..], key);
      if key(s[0]) in seen {
        DedupFromKeys(s[1..], key, seen);
      } else {
        var t := DedupFrom(s[1..], key, seen + {key(s[0])});
        DedupFromKeys(s[1..], key, seen + {key(s[0])});
        assert r == [s[0]] + t;
        KeySetCons(s[0], t, key);
        UniqueCons(s[0], t, key);
      }
    }
  }

  lemma {:induction false} DedupFromFirst<T(!new), K>(s: seq<T>, key: T -> K, seen: set<K>)
    ensures forall x :: x in DedupFrom(s, key, seen) ==>
      key(x) in KeySet(s, key) && x == s[FirstIndex(s, key, key(x))]
    decreases |s|
  {
    if s != [] {
      var r := DedupFrom(s, key, seen);
      DedupFromKeys(s, key, seen);
      assert s == [s[0]] + s[1..];
      KeySetCons(s[0], s[1..], key);
      if key(s[0]) in seen {
        DedupFromFirst(s[1..], key, seen);
        forall x | x in r ensures key(x) in KeySet(s, key) && x == s[FirstIndex(s, key, key(x))] {
          assert key(x) in KeySet(r, key);
          assert FirstIndex(s, key, key(x)) == 1 + FirstIndex(s[1..], key, key(x));
        }
      } else {
        var seen' := seen + {key(s[0])};
        var t := DedupFrom(s[1..], key, seen');
        DedupFromFirst(s[1..], key, seen');
        DedupFromKeys(s[1..], key, seen');
        assert r == [s[0]] + t;
        forall x | x in r ensures key(x) in KeySet(s, key) && x == s[FirstIndex(s, key, key(x))] {
          if x != s[0] {
            assert x in t;
            assert key(x) in KeySet(t, key);
            assert FirstIndex(s, key, key(x)) == 1 + FirstIndex(s[1..], key, key(x));
          }
        }
      }
    }
  }

  /** Deduplicating what has no repeated or already-seen key changes nothing. */
  lemma {:induction false} DedupUnique<T(!new), K>(s: seq<T>, key: T -> K, seen: set<K>)
    requires UniqueBy(s, key) && forall x :: x in s ==> key(x) !in seen
    ensures DedupFrom(s, key, seen) == s
    decreases |s|
  {
    if s != [] {
      assert UniqueBy(s[1..], key) by {
        forall i, j | 0 <= i < j < |s[1..]| ensures key(s[1..][i]) != key(s[1..][j]) {
          assert s[1..][i] == s[i + 1] && s[1..][j] == s[j + 1];
        }
      }
      forall x | x in s[1..] ensures key(x) !in seen + {key(s[0])} {
        var m :| 0 <= m < |s[1..]| && s[1..][m] == x;
        assert s[m + 1] == x;
      }
      DedupUnique(s[1..], key, seen + {key(s[0])});
    }
  }

  /**
   * The first `cap` elements whose key is neither in `seen` nor taken
   * before: a loop that skips seen keys, records each key it takes and
   * stops after `cap`.
   */
  function TakeFresh<T(==,!new), K(==)>(s: seq<T>, key: T -> K, seen: set<K>, cap: nat): seq<T>
    decreases |s|
  {
    if s == [] || cap == 0 then []
    else if key(s[0]) in seen then TakeFresh(s[1..], key, seen, cap)
    else [s[0]] + TakeFresh(s[1..], key, seen + {key(s[0])}, cap - 1)
  }

  /** One step of TakeFresh from position `i`, for a loop that walks `s`. */
  lemma TakeFreshStep<T(!new), K>(s: seq<T>, i: nat, key: T -> K, seen: set<K>, cap: nat, acc: seq<T>)
    requires i < |s| && cap > 0
    ensures key(s[i]) in seen ==>
      acc + TakeFresh(s[i..], key, seen, cap) == acc + TakeFresh(s[i + 1..], key, seen, cap)
    ensures key(s[i]) !in seen ==>
      acc + TakeFresh(s[i..], key, seen, cap) == (acc + [s[i]]) + TakeFresh(s[i + 1..], key, seen + {key(s[i])}, cap - 1)
  {
    assert s[i..][0] == s[i] && s[i..][1..] == s[i + 1..];
  }

  /** Skipped duplicates do not use up the cap: the result is a prefix of the deduplicated sequence. */
  lemma {:induction false} TakeFreshIsTakeOfDedup<T(!new), K>(s: seq<T>, key: T -> K, seen: set<K>, cap: nat)
    ensures TakeFresh(s, key, seen, cap) == Take(DedupFrom(s, key, seen), cap)
    decreases |s|
  {
    if s != [] && cap > 0 {
      if key(s[0]) in seen {
        TakeFreshIsTakeOfDedup(s[1..], key, seen, cap);
      } else {
        TakeFreshIsTakeOfDedup(s[1..], key, seen + {key(s[0])}, cap - 1);
        var rest := DedupFrom(s[1..], key, seen + {key(s[0])});
        assert Take([s[0]] + rest, cap) == [s[0]] + Take(rest, cap - 1);
      }
    }
  }

  lemma {:induction false} PrefixIsSubseq<T(!new)>(s: seq<T>, n: nat)
    requires n <= |s|
    ensures IsSubseq(s[..n], s)
    decreases |s|
  {
    if n == 0 {
      assert s[..n] == [];
    } else {
      PrefixIsSubseq(s[1..], n - 1);
      assert s[..n][0] == s[0];
      assert s[..n][1..] == s[1..][..n - 1];
    }
  }

  lemma TakeIsSubseq<T(!new)>(s: seq<T>, n: nat)
    ensures IsSubseq(Take(s, n), s)
  {
    if |s| > n {
      PrefixIsSubseq(s, n);
    } else {
      SubseqRefl(s);
    }
  }

  /** At most `cap` elements are taken, in order, with distinct keys none of which was in `seen`. */
  lemma TakeFreshProps<T(!new), K>(s: seq<T>, key: T -> K, seen: set<K>, cap: nat)
    ensures |TakeFresh(s, key, seen, cap)| <= cap
    ensures IsSubseq(TakeFresh(s, key, seen, cap), s)
    ensures UniqueBy(TakeFresh(s, key, seen, cap), key)
    ensures forall x :: x in TakeFresh(s, key, seen, cap) ==> key(x) !in seen
  {
    TakeFreshIsTakeOfDedup(s, key, seen, cap);
    var d := DedupFrom(s, key, seen);
    DedupFromProps(s, key, seen);
    var t := Take(d, cap);
    TakeIsSubseq(d, cap);
    SubseqTrans(t, d, s);
    SubseqUnique(t, d, key);
    SubseqMembers(t, d);
    forall x | x in t ensures key(x) !in seen {
      assert key(x) in KeySet(d, key);
    }
  }

  /** The key set of two sequences one after the other. */
  lemma KeySetAppend<T(!new), K>(a: seq<T>, b: seq<T>, key: T -> K)
    ensures KeySet(a + b, key) == KeySet(a, key) + KeySet(b, key)
  {
    assert forall x :: x in a + b <==> x in a || x in b;
  }

  /** Appending elements with distinct keys, none of them a key of `a`, keeps keys unique. */
  lemma UniqueAppend<T(!new), K>(a: seq<T>, b: seq<T>, key: T -> K)
    requires UniqueBy(a, key) && UniqueBy(b, key)
    requires forall x :: x in b ==> key(x) !in KeySet(a, key)
    ensures UniqueBy(a + b, key)
  {
    var r := a + b;
    forall i, j | 0 <= i < j < |r| ensures key(r[i]) != key(r[j]) {
      if j >= |a| && i < |a| {
        assert r[j] == b[j - |a|] && r[i] == a[i];
        assert r[j] in b;
      } else if i >= |a| {
        assert r[i] == b[i - |a|] && r[j] == b[j - |a|];
      }
    }
  }

  /**
   * Walks `groups` in order; each group adds the first `cap` of its
   * candidates whose keys are new to what was added before.
   */
  function FreshRuns<S, T(==,!new), K(==)>(groups: seq<S>, cands: S -> seq<T>, key: T -> K, cap: nat): seq<T>
    decreases |groups|
  {
    if groups == [] then []
    else
      var before := FreshRuns(groups[..|groups| - 1], cands, key, cap);
      before + TakeFresh(cands(groups[|groups| - 1]), key, KeySet(before, key), cap)
  }

  /**
   * The result has unique keys, at most `cap` elements per group in total,
   * each a candidate of some group; FreshRunsStep gives each group's share.
   */
  lemma FreshRunsProps<S, T(!new), K>(groups: seq<S>, cands: S -> seq<T>, key: T -> K, cap: nat)
    ensures UniqueBy(FreshRuns(groups, cands, key, cap), key)
    ensures |FreshRuns(groups, cands, key, cap)| <= cap * |groups|
    ensures forall x :: x in FreshRuns(groups, cands, key, cap) ==>
      exists k :: 0 <= k < |groups| && x in cands(groups[k])
  {
    FreshRunsUnique(groups, cands, key, cap);
    FreshRunsBound(groups, cands, key, cap);
    FreshRunsFrom(groups, cands, key, cap);
  }

  /**
   * Group `n` extends the result of the groups before it: it appends at
   * most `cap` elements, all candidates of group `n` in their order, none
   * with a key appended before.
   */
  lemma FreshRunsStep<S, T(!new), K>(groups: seq<S>, cands: S -> seq<T>, key: T -> K, cap: nat, n: nat)
    requires n < |groups|
    ensures var before := FreshRuns(groups[..n], cands, key, cap);
            var after := FreshRuns(groups[..n + 1], cands, key, cap);
            && |before| <= |after| <= |before| + cap
            && after[..|before|] == before
            && IsSubseq(after[|before|..], cands(groups[n]))
            && forall x :: x in after[|before|..] ==> key(x) !in KeySet(before, key)
  {
    var before := FreshRuns(groups[..n], cands, key, cap);
    assert groups[..n + 1][..n] == groups[..n];
    var kept := TakeFresh(cands(groups[n]), key, KeySet(before, key), cap);
    TakeFreshProps(cands(groups[n]), key, KeySet(before, key), cap);
    var after := FreshRuns(groups[..n + 1], cands, key, cap);
    assert after == before + kept;
    assert after[|before|..] == kept;
  }

  lemma {:induction false} FreshRunsUnique<S, T(!new), K>(groups: seq<S>, cands: S -> seq<T>, key: T -> K, cap: nat)
    ensures UniqueBy(FreshRuns(groups, cands, key, cap), key)
    decreases |groups|
  {
    if groups != [] {
      var init := groups[..|groups| - 1];
      var before := FreshRuns(init, cands, key, cap);
      var c := cands(groups[|groups| - 1]);
      FreshRunsUnique(init, cands, key, cap);
      TakeFreshProps(c, key, KeySet(before, key), cap);
      UniqueAppend(before, TakeFresh(c, key, KeySet(before, key), cap), key);
    }
  }

  lemma {:induction false} FreshRunsBound<S, T(!new), K>(groups: seq<S>, cands: S -> seq<T>, key: T -> K, cap: nat)
    ensures |FreshRuns(groups, cands, key, cap)| <= cap * |groups|
    decreases |groups|
  {
    if groups != [] {
      var init := groups[..|groups| - 1];
      var before := FreshRuns(init, cands, key, cap);
      var c := cands(groups[|groups| - 1]);
      FreshRunsBound(init, cands, key, cap);
      TakeFreshProps(c, key, KeySet(before, key), cap);
      MulSucc(cap, |init|);
    }
  }

  lemma MulSucc(a: nat, n: nat)
    ensures a * (n + 1) == a * n + a
  {
  }

  lemma {:induction false} FreshRunsFrom<S, T(!new), K>(groups: seq<S>, cands: S -> seq<T>, key: T -> K, cap: nat)
    ensures forall x :: x in FreshRuns(groups, cands, key, cap) ==>
      exists k :: 0 <= k < |groups| && x in cands(groups[k])
    decreases |groups|
  {
    if groups != [] {
      var init := groups[..|groups| - 1];
      var before := FreshRuns(init, cands, key, cap);
      var last := |groups| - 1;
      var kept := TakeFresh(cands(groups[last]), key, KeySet(before, key), cap);
      FreshRunsFrom(init, cands, key, cap);
      TakeFreshProps(cands(groups[last]), key, KeySet(before, key), cap);
      SubseqMembers(kept, cands(groups[last]));
      forall x | x in before + kept
        ensures exists k :: 0 <= k < |groups| && x in cands(groups[k])
      {
        if x in before {
          var k :| 0 <= k < |init| && x in cands(init[k]);
          assert groups[k] == init[k];
        }
      }
    }
  }

  // ---------- stable sorting ----------

  /** `before` is total and transitive: a sort key compared with `>=` (or `<=`). */
  ghost predicate TotalPreorder<T(!new)>(before: (T, T) -> bool) {
    && (forall x, y :: before(x, y) || before(y, x))
    && (forall x, y, z :: before(x, y) && before(y, z) ==> before(x, z))
  }

  predicate SortedBy<T>(s: seq<T>, before: (T, T) -> bool) {
    forall i, j :: 0 <= i < j < |s| ==> before(s[i], s[j])
  }

  /** Puts `x` in front of the first element it may precede. */
  function Insert<T(==,!new)>(x: T, s: seq<T>, before: (T, T) -> bool): (r: seq<T>)
    ensures |r| == |s| + 1
    ensures r[0] == if s == [] || before(x, s[0]) then x else s[0]
    ensures multiset(r) == multiset(s) + multiset{x}
    decreases |s|
  {
    if s == [] then [x]
    else if before(x, s[0]) then [x] + s
    else
      assert s == [s[0]] + s[1..];
      [s[0]] + Insert(x, s[1..], before)
  }

  /**
   * Python's `sorted(s, key=..., reverse=...)`: a stable sort. Elements that
   * tie keep the order they had in `s`.
   */
  function Sort<T(==,!new)>(s: seq<T>, before: (T, T) -> bool): (r: seq<T>)
    ensures |r| == |s|
    ensures multiset(r) == multiset(s)
    decreases |s|
  {
    if s == [] then []
    else
      assert s == [s[0]] + s[1..];
      Insert(s[0], Sort(s[1..], before), before)
  }

  lemma {:induction false} InsertSorted<T(!new)>(x: T, s: seq<T>, before: (T, T) -> bool)
    requires TotalPreorder(before) && SortedBy(s, before)
    ensures SortedBy(Insert(x, s, before), before)
    decreases |s|
  {
    if s != [] && !before(x, s[0]) {
      InsertSorted(x, s[1..], before);
      var t := Insert(x, s[1..], before);
      assert multiset(t) == multiset(s[1..]) + multiset{x};
      forall y | y in t ensures before(s[0], y) {
        assert y in multiset(t);
        if y != x {
          assert y in s[1..];
        }
      }
    }
  }

  lemma {:induction false} SortSorted<T(!new)>(s: seq<T>, before: (T, T) -> bool)
    requires TotalPreorder(before)
    ensures SortedBy(Sort(s, before), before)
    decreases |s|
  {
    if s != [] {
      SortSorted(s[1..], before);
      InsertSorted(s[0], Sort(s[1..], before), before);
    }
  }

  /** Whether an element ranks level with `c`. */
  function Tied<T>(before: (T, T) -> bool, c: T): T -> bool {
    y => before(y, c) && before(c, y)
  }

  /** The elements of `s` that tie with `c`, in order. */
  function Ties<T(==,!new)>(s: seq<T>, before: (T, T) -> bool, c: T): seq<T> {
    Filter(s, Tied(before, c))
  }

  lemma {:induction false} InsertTies<T(!new)>(x: T, s: seq<T>, before: (T, T) -> bool, c: T)
    requires TotalPreorder(before)
    ensures Ties(Insert(x, s, before), before, c) == Ties([x], before, c) + Ties(s, before, c)
    decreases |s|
  {
    var t := Tied(before, c);
    if s == [] {
    } else if before(x, s[0]) {
      FilterConcat([x], s, t);
    } else {
      NotBothTied(x, s[0], before, c);
      var r := Insert(x, s[1..], before);
      assert Insert(x, s, before) == [s[0]] + r;
      FilterCons(s[0], r, t);
      InsertTies(x, s[1..], before, c);
      assert s == [s[0]] + s[1..];
      FilterCons(s[0], s[1..], t);
      FilterCons(x, [], t);
      assert [x] + [] == [x];
      SwapEmpty(if t(s[0]) then [s[0]] else [], Ties([x], before, c), Ties(s[1..], before, c));
    }
  }

  lemma SwapEmpty<T>(a: seq<T>, b: seq<T>, rest: seq<T>)
    requires a == [] || b == []
    ensures a + (b + rest) == b + (a + rest)
  {
  }

  /** Two elements in strict order cannot both tie with `c`. */
  lemma NotBothTied<T(!new)>(x: T, y: T, before: (T, T) -> bool, c: T)
    requires TotalPreorder(before) && !before(x, y)
    ensures !(Tied(before, c)(x) && Tied(before, c)(y))
  {
  }

  lemma FilterCons<T(!new)>(x: T, s: seq<T>, p: T -> bool)
    ensures Filter([x] + s, p) == (if p(x) then [x] else []) + Filter(s, p)
  {
    assert ([x] + s)[0] == x && ([x] + s)[1..] == s;
  }

  lemma {:induction false} SortStable<T(!new)>(s: seq<T>, before: (T, T) -> bool, c: T)
    requires TotalPreorder(before)
    ensures Ties(Sort(s, before), before, c) == Ties(s, before, c)
    decreases |s|
  {
    if s != [] {
      SortStable(s[1..], before, c);
      InsertTies(s[0], Sort(s[1..], before), before, c);
      FilterConcat([s[0]], s[1..], Tied(before, c));
      assert s == [s[0]] + s[1..];
    }
  }

  /** Sorting keeps the elements and their keys. */
  lemma SortMembers<T(!new), K>(s: seq<T>, before: (T, T) -> bool, key: T -> K)
    ensures forall x :: x in Sort(s, before) <==> x in s
    ensures KeySet(Sort(s, before), key) == KeySet(s, key)
  {
    var r := Sort(s, before);
    assert forall x :: x in r <==> x in multiset(r);
    assert forall x :: x in s <==> x in multiset(s);
  }

  /** `s[k]` may precede every element, and nothing before it may precede it. */
  ghost predicate IsFirstBest<T>(s: seq<T>, before: (T, T) -> bool, k: int) {
    && 0 <= k < |s|
    && (forall j :: 0 <= j < |s| ==> before(s[k], s[j]))
    && (forall j :: 0 <= j < k ==> !before(s[j], s[k]))
  }

  /** The head of a sorted list is the earliest of the best-ranked elements. */
  lemma {:induction false} SortHeadIsFirstBest<T(!new)>(s: seq<T>, before: (T, T) -> bool) returns (k: nat)
    requires TotalPreorder(before) && s != []
    ensures IsFirstBest(s, before, k) && Sort(s, before)[0] == s[k]
    decreases |s|
  {
    if |s| == 1 {
      k := 0;
    } else {
      var t := Sort(s[1..], before);
      var k' := SortHeadIsFirstBest(s[1..], before);
      assert t[0] == s[1..][k'];
      if before(s[0], t[0]) {
        k := 0;
        forall j | 0 <= j < |s| ensures before(s[0], s[j]) {
          if j > 0 {
            assert before(s[1..][k'], s[1..][j - 1]);
          }
        }
      } else {
        k := k' + 1;
        forall j | 0 <= j < |s| ensures before(s[k], s[j]) {
          if j > 0 {
            assert before(s[1..][k'], s[1..][j - 1]);
          }
        }
        forall j | 0 <= j < k ensures !before(s[j], s[k]) {
          if j > 0 {
            assert !before(s[1..][j - 1], s[1..][k']);
          }
        }
      }
    }
  }

  lemma {:induction false} InsertUnique<T(!new), K>(x: T, s: seq<T>, before: (T, T) -> bool, key: T -> K)
    requires UniqueBy(s, key) && key(x) !in KeySet(s, key)
    ensures UniqueBy(Insert(x, s, before), key)
    decreases |s|
  {
    var r := Insert(x, s, before);
    if s == [] {
      assert r == [x];
    } else if before(x, s[0]) {
      assert r == [x] + s;
      UniqueCons(x, s, key);
    } else {
      assert s == [s[0]] + s[1..];
      UniqueCons(s[0], s[1..], key);
      KeySetCons(s[0], s[1..], key);
      InsertUnique(x, s[1..], before, key);
      var t := Insert(x, s[1..], before);
      assert r == [s[0]] + t;
      forall y | y in t ensures key(y) != key(s[0]) {
        assert y in multiset(t);
        if y != x {
          assert key(y) in KeySet(s[1..], key);
        }
      }
      UniqueCons(s[0], t, key);
    }
  }

  /** Sorting keeps keys unique. */
  lemma {:induction false} SortUnique<T(!new), K>(s: seq<T>, before: (T, T) -> bool, key: T -> K)
    requires UniqueBy(s, key)
    ensures UniqueBy(Sort(s, before), key)
    decreases |s|
  {
    if s != [] {
      assert UniqueBy(s[1..], key) by {
        forall i, j | 0 <= i < j < |s[1..]| ensures key(s[1..][i]) != key(s[1..][j]) {
          assert s[1..][i] == s[i + 1] && s[1..][j] == s[j + 1];
        }
      }
      SortUnique(s[1..], before, key);
      var t := Sort(s[1..], before);
      forall y | y in t ensures key(y) != key(s[0]) {
        assert y in multiset(t);
        assert y in s[1..];
        var m :| 0 <= m < |s[1..]| && s[1..][m] == y;
        assert s[m + 1] == y;
      }
      InsertUnique(s[0], t, before, key);
    }
  }

  /** The first `n` of a sorted sequence are sorted, and none of the rest precedes any of them. */
  lemma TakeOfSorted<T(!new)>(s: seq<T>, n: nat, before: (T, T) -> bool)
    requires SortedBy(s, before)
    ensures SortedBy(Take(s, n), before)
    ensures multiset(Take(s, n)) <= multiset(s)
    ensures forall b, k :: b in multiset(s) - multiset(Take(s, n)) && k in Take(s, n) ==> before(k, b)
  {
    var top := Take(s, n);
    var rest := s[|top|..];
    assert s == top + rest;
    assert multiset(s) == multiset(top) + multiset(rest);
    forall b, k | b in multiset(s) - multiset(top) && k in top ensures before(k, b) {
      assert b in multiset(rest);
      assert b in rest;
      var m :| 0 <= m < |rest| && rest[m] == b;
      var i :| 0 <= i < |top| && top[i] == k;
      assert s[|top| + m] == b && s[i] == k;
    }
  }

  /** The ties of a prefix are a prefix of the ties. */
  lemma TakeTies<T(!new)>(s: seq<T>, n: nat, before: (T, T) -> bool, c: T)
    ensures |Ties(Take(s, n), before, c)| <= |Ties(s, before, c)|
    ensures Ties(Take(s, n), before, c) == Ties(s, before, c)[..|Ties(Take(s, n), before, c)|]
  {
    var top := Take(s, n);
    assert s == top + s[|top|..];
    FilterConcat(top, s[|top|..], Tied(before, c));
  }

  // ---------- value_counts ----------

  /** Adds one occurrence of `x` to a tally of (value, count) pairs. */
  function Bump<T(==,!new)>(t: seq<(T, nat)>, x: T): seq<(T, nat)>
    decreases |t|
  {
    if t == [] then [(x, 1)]
    else if t[0].0 == x then [(x, t[0].1 + 1)] + t[1..]
    else [t[0]] + Bump(t[1..], x)
  }

  /** Each distinct value of `s` with the number of times it occurs, in order of first occurrence. */
  function Tally<T(==,!new)>(s: seq<T>): seq<(T, nat)>
    decreases |s|
  {
    if s == [] then [] else Bump(Tally(s[..|s| - 1]), s[|s| - 1])
  }

  function Label<T>(p: (T, nat)): T {
    p.0
  }

  /** The count recorded for `x` (0 if there is none). */
  function Lookup<T(==,!new)>(t: seq<(T, nat)>, x: T): nat
    decreases |t|
  {
    if t == [] then 0 else if t[0].0 == x then t[0].1 else Lookup(t[1..], x)
  }

  function Sum<T>(t: seq<(T, nat)>): nat
    decreases |t|
  {
    if t == [] then 0 else t[0].1 + Sum(t[1..])
  }

  lemma {:induction false} BumpProps<T(!new)>(t: seq<(T, nat)>, x: T)
    requires UniqueBy(t, Label)
    ensures UniqueBy(Bump(t, x), Label)
    ensures KeySet(Bump(t, x), Label) == KeySet(t, Label) + {x}
    ensures forall y :: Lookup(Bump(t, x), y) == Lookup(t, y) + (if y == x then 1 else 0)
    ensures Sum(Bump(t, x)) == Sum(t) + 1
    ensures forall p :: p in Bump(t, x) ==> p.1 > 0 || p in t
    decreases |t|
  {
    var r := Bump(t, x);
    if t == [] {
      assert r == [(x, 1)] + t;
      KeySetCons((x, 1), t, Label);
    } else {
      assert t == [t[0]] + t[1..];
      UniqueCons(t[0], t[1..], Label);
      KeySetCons(t[0], t[1..], Label);
      if t[0].0 == x {
        assert r == [r[0]] + t[1..];
        UniqueCons(r[0], t[1..], Label);
        KeySetCons(r[0], t[1..], Label);
        assert forall p :: p in r <==> p == r[0] || p in t[1..];
      } else {
        BumpProps(t[1..], x);
        var b := Bump(t[1..], x);
        assert r == [t[0]] + b;
        UniqueCons(t[0], b, Label);
        KeySetCons(t[0], b, Label);
        assert forall p :: p in r <==> p == t[0] || p in b;
      }
    }
  }

  /** In a tally with unique labels, each pair holds the count recorded for its label. */
  lemma {:induction false} LookupMember<T(!new)>(t: seq<(T, nat)>, p: (T, nat))
    requires UniqueBy(t, Label) && p in t
    ensures Lookup(t, p.0) == p.1
    decreases |t|
  {
    if t[0] != p {
      assert p in t[1..];
      var m :| 0 <= m < |t[1..]| && t[1..][m] == p;
      assert t[m + 1] == p;
      assert Label(t[0]) != Label(t[m + 1]);
      assert UniqueBy(t[1..], Label) by {
        forall i, j | 0 <= i < j < |t[1..]| ensures Label(t[1..][i]) != Label(t[1..][j]) {
          assert t[1..][i] == t[i + 1] && t[1..][j] == t[j + 1];
        }
      }
      LookupMember(t[1..], p);
    }
  }

  /** What `value_counts()` computes, before it orders the pairs. */
  lemma {:induction false} TallyProps<T(!new)>(s: seq<T>)
    ensures UniqueBy(Tally(s), Label)
    ensures KeySet(Tally(s), Label) == set x | x in s
    ensures forall p :: p in Tally(s) ==> p.1 == multiset(s)[p.0] && p.1 > 0
    ensures Sum(Tally(s)) == |s|
    decreases |s|
  {
    if s != [] {
      var init, x := s[..|s| - 1], s[|s| - 1];
      assert s == init + [x];
      TallyProps(init);
      BumpProps(Tally(init), x);
      var t := Tally(s);
      assert (set y | y in s) == (set y | y in init) + {x};
      forall y ensures Lookup(t, y) == multiset(s)[y] {
        if y in init {
          var p :| p in Tally(init) && p.0 == y by {
            assert y in KeySet(Tally(init), Label);
          }
          LookupMember(Tally(init), p);
        } else {
          LookupZero(Tally(init), y);
          assert multiset(init)[y] == 0;
        }
      }
      forall p | p in t ensures p.1 == multiset(s)[p.0] && p.1 > 0 {
        LookupMember(t, p);
      }
    }
  }

  lemma {:induction false} LookupZero<T(!new)>(t: seq<(T, nat)>, y: T)
    requires y !in KeySet(t, Label)
    ensures Lookup(t, y) == 0
    decreases |t|
  {
    if t != [] {
      assert t[0] in t;
      assert KeySet(t[1..], Label) <= KeySet(t, Label);
      LookupZero(t[1..], y);
    }
  }

  lemma {:induction false} InsertSum<T(!new)>(x: (T, nat), s: seq<(T, nat)>, before: ((T, nat), (T, nat)) -> bool)
    ensures Sum(Insert(x, s, before)) == x.1 + Sum(s)
    decreases |s|
  {
    if s != [] && !before(x, s[0]) {
      InsertSum(x, s[1..], before);
    }
  }

  /** Reordering a tally keeps its total. */
  lemma {:induction false} SortSum<T(!new)>(s: seq<(T, nat)>, before: ((T, nat), (T, nat)) -> bool)
    ensures Sum(Sort(s, before)) == Sum(s)
    decreases |s|
  {
    if s != [] {
      SortSum(s[1..], before);
      InsertSum(s[0], Sort(s[1..], before), before);
    }
  }

  // ---------- slicing ----------

  /** `s[:n]` / `head(n)` for a non-negative `n`. */
  function Take<T>(s: seq<T>, n: nat): (r: seq<T>)
    ensures |r| == if |s| <= n then |s| else n
    ensures r == s[..|r|]
  {
    if |s| <= n then s else s[..n]
  }

  /** `[f(x) for x in s]`. */
  function Map<T, U>(s: seq<T>, f: T -> U): (r: seq<U>)
    ensures |r| == |s|
    ensures forall i :: 0 <= i < |s| ==> r[i] == f(s[i])
  {
    seq(|s|, i requires 0 <= i < |s| => f(s[i]))
  }

  /** `pd.concat(frames)`: the frames one after the other. */
  function Concat<T>(ss: seq<seq<T>>): (r: seq<T>)
    decreases |ss|
  {
    if ss == [] then [] else Concat(ss[..|ss| - 1]) + ss[|ss| - 1]
  }

  /** `[y for x in s if (y := f(x)) is not None]`: the values `f` gives, in order. */
  function Choose<T, U>(s: seq<T>, f: T -> Option<U>): (r: seq<U>)
    ensures |r| <= |s|
    decreases |s|
  {
    if s == [] then []
    else
      var init := Choose(s[..|s| - 1], f);
      match f(s[|s| - 1])
      case Some(y) => init + [y]
      case None => init
  }

  lemma {:induction false} ChooseMembers<T(!new), U(!new)>(s: seq<T>, f: T -> Option<U>)
    ensures forall y :: y in Choose(s, f) <==> exists x :: x in s && f(x) == Some(y)
    decreases |s|
  {
    if s != [] {
      var init := s[..|s| - 1];
      ChooseMembers(init, f);
      assert s == init + [s[|s| - 1]];
      assert forall x :: x in s <==> x in init || x == s[|s| - 1];
    }
  }

  /** The outputs of `f` on the elements of `s`, one after the other. */
  function FlatMap<T, U>(s: seq<T>, f: T -> seq<U>): seq<U>
    decreases |s|
  {
    if s == [] then [] else FlatMap(s[..|s| - 1], f) + f(s[|s| - 1])
  }

  /** When `f` gives one output exactly where `p` holds, there are as many outputs as elements passing `p`. */
  lemma {:induction false} FlatMapCount<T(!new), U>(s: seq<T>, f: T -> seq<U>, p: T -> bool)
    requires forall x :: |f(x)| == (if p(x) then 1 else 0)
    ensures |FlatMap(s, f)| == |Filter(s, p)|
    decreases |s|
  {
    if s != [] {
      var init, x := s[..|s| - 1], s[|s| - 1];
      FlatMapCount(init, f, p);
      assert s == init + [x];
      FilterSnoc(init, x, p);
    }
  }

  /** The number of rows over all frames. */
  function TotalLength<T>(ss: seq<seq<T>>): nat
    decreases |ss|
  {
    if ss == [] then 0 else TotalLength(ss[..|ss| - 1]) + |ss[|ss| - 1]|
  }

  lemma {:induction false} ConcatProps<T(!new)>(ss: seq<seq<T>>)
    ensures |Concat(ss)| == TotalLength(ss)
    ensures forall x :: x in Concat(ss) <==> exists i :: 0 <= i < |ss| && x in ss[i]
    decreases |ss|
  {
    if ss != [] {
      var init := ss[..|ss| - 1];
      ConcatProps(init);
      forall x ensures x in Concat(ss) <==> exists i :: 0 <= i < |ss| && x in ss[i] {
        if x in Concat(init) {
          var i :| 0 <= i < |init| && x in init[i];
          assert x in ss[i];
        }
        if exists i :: 0 <= i < |ss| && x in ss[i] {
          var i :| 0 <= i < |ss| && x in ss[i];
          if i < |init| {
            assert x in init[i];
          }
        }
      }
    }
  }
}
