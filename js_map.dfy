/**
  The part of the ECMAScript `Map` that the order-list merge uses (section 24.1
  of ECMA-262): a map is its list of entries in insertion order; `set` on a key
  already present overwrites that entry's value where it stands, and on a new
  key appends an entry; the constructor `new Map(entries)` calls `set` on each
  entry from first to last; `values()` yields the values in entry order.
  Keys are compared with Dafny equality, which is what SameValueZero is on
  strings.
 */
module JsMap {
  import opened Seqs

  /** The keys of a list of entries, in order. */
  function Keys<K, V>(m: seq<(K, V)>): seq<K> {
    seq(|m|, i requires 0 <= i < |m| => m[i].0)
  }

  /** `Array.from(map.values())`: the values of the entries, in order. */
  function Values<K, V>(m: seq<(K, V)>): seq<V> {
    seq(|m|, i requires 0 <= i < |m| => m[i].1)
  }

  /**
    `Map.prototype.set` (section 24.1.3.9 of ECMA-262): the first entry whose
    key is `k` gets the value `v` in place; without one, `(k, v)` is appended.
   */
  function Set<K(==), V>(m: seq<(K, V)>, k: K, v: V): (r: seq<(K, V)>)
    ensures Keys(r) == if k in Keys(m) then Keys(m) else Keys(m) + [k]
    ensures k in Keys(m) ==> r[IndexOf(Keys(m), k)] == (k, v)
    ensures forall i :: 0 <= i < |m| && !(k in Keys(m) && i == IndexOf(Keys(m), k)) ==> r[i] == m[i]
    ensures k !in Keys(m) ==> r[|m|] == (k, v)
  {
    if k in Keys(m) then m[IndexOf(Keys(m), k) := (k, v)] else m + [(k, v)]
  }

  /**
    `new Map(entries)` (section 24.1.1.1 of ECMA-262): `set` applied to each
    entry in turn, starting from the empty map.
   */
  function FromEntries<K(==), V>(es: seq<(K, V)>): (r: seq<(K, V)>)
    ensures |r| <= |es|
    decreases |es|
  {
    if es == [] then []
    else Set(FromEntries(es[..|es| - 1]), es[|es| - 1].0, es[|es| - 1].1)
  }

  /**
    `m` is what `new Map(es)` holds: each key of `es` exactly once, the keys in
    the order in which they first occur in `es`, and with each key the value of
    the LAST entry of `es` that has that key.
   */
  ghost predicate MapOf<K, V>(m: seq<(K, V)>, es: seq<(K, V)>) {
    && Distinct(Keys(m))
    && (forall j :: 0 <= j < |es| ==> es[j].0 in Keys(m))
    && InFirstOccurrenceOrder(Keys(m), Keys(es))
    && forall i :: 0 <= i < |m| ==> m[i].0 in Keys(es) && m[i] == es[LastIndexOf(Keys(es), m[i].0)]
  }

  lemma {:induction false} FromEntriesSpec<K, V>(es: seq<(K, V)>)
    ensures MapOf(FromEntries(es), es)
    decreases |es|
  {
    if es != [] {
      FromEntriesSpec(es[..|es| - 1]);
      FromEntriesStep(es);
    }
  }

  /** The last `set` call of the constructor keeps MapOf. */
  lemma FromEntriesStep<K, V>(es: seq<(K, V)>)
    requires es != [] && MapOf(FromEntries(es[..|es| - 1]), es[..|es| - 1])
    ensures MapOf(FromEntries(es), es)
  {
    var pre, k, v := es[..|es| - 1], es[|es| - 1].0, es[|es| - 1].1;
    LastEntrySplit(es);
    FromEntriesLast(es);
    SetSpec(pre, FromEntries(pre), k, v);
    MapOfTransfer(Set(FromEntries(pre), k, v), pre + [(k, v)], FromEntries(es), es);
  }

  // Proved apart from any MapOf facts, which keeps FromEntriesStep's proof small and stable.
  lemma LastEntrySplit<K, V>(es: seq<(K, V)>)
    requires es != []
    ensures es[..|es| - 1] + [(es[|es| - 1].0, es[|es| - 1].1)] == es
  {
    assert (es[|es| - 1].0, es[|es| - 1].1) == es[|es| - 1];
  }

  // One unfolding of FromEntries, proved apart for the same reason.
  lemma FromEntriesLast<K, V>(es: seq<(K, V)>)
    requires es != []
    ensures FromEntries(es) == Set(FromEntries(es[..|es| - 1]), es[|es| - 1].0, es[|es| - 1].1)
  {
  }

  // Rewrites MapOf along equalities in a context of its own, so that the solver does not
  // unfold MapOf under FromEntriesStep's hypotheses.
  lemma MapOfTransfer<K, V>(m: seq<(K, V)>, es: seq<(K, V)>, m': seq<(K, V)>, es': seq<(K, V)>)
    requires MapOf(m, es) && m == m' && es == es'
    ensures MapOf(m', es')
  {
  }

  /** One `set` call of the constructor keeps MapOf, with the entry added to `es`. */
  lemma SetSpec<K, V>(pre: seq<(K, V)>, m: seq<(K, V)>, k: K, v: V)
    requires MapOf(m, pre)
    ensures MapOf(Set(m, k, v), pre + [(k, v)])
  {
    SetDistinct(m, k, v);
    SetCovers(pre, m, k, v);
    SetOrder(pre, m, k, v);
    SetValues(pre, m, k, v);
  }

  lemma SetDistinct<K, V>(m: seq<(K, V)>, k: K, v: V)
    requires Distinct(Keys(m))
    ensures Distinct(Keys(Set(m, k, v)))
  {
    if k !in Keys(m) {
      var ks := Keys(m);
      assert Keys(Set(m, k, v)) == ks + [k];
      forall i, j | 0 <= i < j < |ks| + 1 ensures (ks + [k])[i] != (ks + [k])[j] {
        assert (ks + [k])[i] == ks[i];
        if j < |ks| {
          assert (ks + [k])[j] == ks[j];
        }
      }
    }
  }

  lemma SetCovers<K, V>(pre: seq<(K, V)>, m: seq<(K, V)>, k: K, v: V)
    requires forall j :: 0 <= j < |pre| ==> pre[j].0 in Keys(m)
    ensures forall j :: 0 <= j < |pre + [(k, v)]| ==> (pre + [(k, v)])[j].0 in Keys(Set(m, k, v))
  {
    var es, r := pre + [(k, v)], Set(m, k, v);
    forall j | 0 <= j < |es| ensures es[j].0 in Keys(r) {
      if j < |pre| {
        assert es[j] == pre[j];
      } else {
        assert es[j].0 == k;
      }
    }
  }

  lemma SetOrder<K, V>(pre: seq<(K, V)>, m: seq<(K, V)>, k: K, v: V)
    requires MapOf(m, pre)
    ensures InFirstOccurrenceOrder(Keys(Set(m, k, v)), Keys(pre + [(k, v)]))
  {
    var es := pre + [(k, v)];
    assert Keys(es) == Keys(pre) + [k];
    forall x | x in Keys(pre)
      ensures x in Keys(es) && IndexOf(Keys(es), x) == IndexOf(Keys(pre), x)
    {
      IndexOfAppend(Keys(pre), [k], x);
    }
    if k !in Keys(m) {
      SetOrderNewKey(pre, m, k, v);
    }
  }

  lemma SetOrderNewKey<K, V>(pre: seq<(K, V)>, m: seq<(K, V)>, k: K, v: V)
    requires InFirstOccurrenceOrder(Keys(m), Keys(pre))
    requires forall j :: 0 <= j < |pre| ==> pre[j].0 in Keys(m)
    requires k !in Keys(m)
    ensures InFirstOccurrenceOrder(Keys(m) + [k], Keys(pre) + [k])
  {
    var ks, ks' := Keys(m), Keys(pre) + [k];
    assert k !in Keys(pre) by {
      forall j | 0 <= j < |pre| ensures Keys(pre)[j] != k {
        assert Keys(pre)[j] == pre[j].0;
      }
    }
    IndexOfAppendNew(Keys(pre), [k], k);
    forall x | x in Keys(pre)
      ensures x in ks' && IndexOf(ks', x) == IndexOf(Keys(pre), x) < |pre|
    {
      IndexOfAppend(Keys(pre), [k], x);
    }
    var r := ks + [k];
    forall i, j | 0 <= i < j < |r|
      ensures r[i] in ks' && r[j] in ks' && IndexOf(ks', r[i]) < IndexOf(ks', r[j])
    {
      assert r[i] == ks[i];
      if j < |ks| {
        assert r[j] == ks[j];
      }
    }
  }

  lemma SetValues<K, V>(pre: seq<(K, V)>, m: seq<(K, V)>, k: K, v: V)
    requires MapOf(m, pre)
    ensures forall i :: 0 <= i < |Set(m, k, v)| ==>
              Set(m, k, v)[i].0 in Keys(pre + [(k, v)]) &&
              Set(m, k, v)[i] == (pre + [(k, v)])[LastIndexOf(Keys(pre + [(k, v)]), Set(m, k, v)[i].0)]
  {
    forall i | 0 <= i < |Set(m, k, v)|
      ensures Set(m, k, v)[i].0 in Keys(pre + [(k, v)]) &&
              Set(m, k, v)[i] == (pre + [(k, v)])[LastIndexOf(Keys(pre + [(k, v)]), Set(m, k, v)[i].0)]
    {
      SetValueAt(pre, m, k, v, i);
    }
  }

  /** The entry at position `i` after `set` is the last entry with its key. */
  lemma SetValueAt<K, V>(pre: seq<(K, V)>, m: seq<(K, V)>, k: K, v: V, i: int)
    requires Distinct(Keys(m)) && 0 <= i < |Set(m, k, v)|
    requires i < |m| ==> m[i].0 in Keys(pre) && m[i] == pre[LastIndexOf(Keys(pre), m[i].0)]
    ensures Set(m, k, v)[i].0 in Keys(pre + [(k, v)]) &&
            Set(m, k, v)[i] == (pre + [(k, v)])[LastIndexOf(Keys(pre + [(k, v)]), Set(m, k, v)[i].0)]
  {
    var es, r := pre + [(k, v)], Set(m, k, v);
    assert Keys(es) == Keys(pre) + [k];
    if r[i].0 == k {
      LastIndexOfAppend(Keys(pre), [k], k);
      if k in Keys(m) {
        assert Keys(r)[i] == k;
        IndexOfDistinct(Keys(m), i);
      }
    } else {
      assert r[i] == m[i];
      assert Keys(m)[i] == m[i].0;
      LastIndexOfAppendOld(Keys(pre), [k], m[i].0);
    }
  }
}
