/** The value-level meaning of building fragments. Each pass of the builder walks the
    records in order and, for record j, makes sure the fragment of (shard of ids[j], field)
    has a standard view and sets a set of bits in it. What a pass adds is a Layer (a
    set of bits per fragment key); the store after the pass is the store before it,
    merged with that layer. */
module Layers {
  import opened Words
  import opened Encoding
  import opened FragmentStore

  /** Bits to set in the standard view, per fragment key. */
  type Layer = map<FragmentKey, set<u64>>

  function LayerAt(l: Layer, k: FragmentKey): set<u64>
  {
    if k in l then l[k] else {}
  }

  /** Sets the bits b in the standard view of vm, creating the view if needed. */
  function WithStandard(vm: ViewMap, b: set<u64>): ViewMap
  {
    vm[Standard := (if Standard in vm then vm[Standard] else {}) + b]
  }

  /** GetOrCreate(k, standard) followed by DirectAdd of every bit of b. */
  function Put(st: Store, k: FragmentKey, b: set<u64>): Store
  {
    st[k := WithStandard(ViewsAt(st, k), b)]
  }

  /** The store st after every key of l has been created and given its bits. */
  function Merge(st: Store, l: Layer): Store
  {
    map k | k in st.Keys + l.Keys :: if k in l then WithStandard(ViewsAt(st, k), l[k]) else st[k]
  }

  function Extend(l: Layer, k: FragmentKey, b: set<u64>): Layer
  {
    l[k := LayerAt(l, k) + b]
  }

  function Union(a: Layer, b: Layer): Layer
  {
    map k | k in a.Keys + b.Keys :: LayerAt(a, k) + LayerAt(b, k)
  }

  /** One pass of the builder: the field whose fragments it fills and, per record,
      the bits that record contributes. */
  datatype Pass = Pass(field: u64, contrib: seq<set<u64>>)

  /** The fragment keys the first n records of a pass look up. */
  function PassKeys(ids: seq<u64>, w: Width, p: Pass, n: nat): set<FragmentKey>
    requires n <= |ids|
  {
    set j | 0 <= j < n :: FragmentKey(ShardOf(ids[j], w), p.field)
  }

  /** The bits the first n records of a pass set in shard s. */
  function PassBits(ids: seq<u64>, w: Width, p: Pass, n: nat, s: u64): set<u64>
    requires n <= |ids| && n <= |p.contrib|
  {
    set j, x | 0 <= j < n && ShardOf(ids[j], w) == s && x in p.contrib[j] :: x
  }

  /** What the first n records of a pass add to the store. */
  function PassLayer(ids: seq<u64>, w: Width, p: Pass, n: nat): Layer
    requires n <= |ids| && n <= |p.contrib|
  {
    map k | k in PassKeys(ids, w, p, n) :: PassBits(ids, w, p, n, k.shard)
  }

  /** The key set of the union of the layers of all passes in ps. */
  function UnionKeys(ids: seq<u64>, w: Width, ps: set<Pass>): set<FragmentKey>
  {
    set p, j | p in ps && 0 <= j < |ids| :: FragmentKey(ShardOf(ids[j], w), p.field)
  }

  /** The bits the passes in ps set at key k. */
  function UnionBits(ids: seq<u64>, w: Width, ps: set<Pass>, k: FragmentKey): set<u64>
  {
    set p, j, x | p in ps && p.field == k.field && 0 <= j < |ids| && j < |p.contrib|
                  && ShardOf(ids[j], w) == k.shard && x in p.contrib[j] :: x
  }

  /** What all passes in ps, run to completion in any order, add to the store. */
  function UnionPasses(ids: seq<u64>, w: Width, ps: set<Pass>): Layer
  {
    map k | k in UnionKeys(ids, w, ps) :: UnionBits(ids, w, ps, k)
  }

  /** Every pass in ps has one contribution per record. */
  predicate Fits(ids: seq<u64>, ps: set<Pass>)
  {
    forall p :: p in ps ==> |p.contrib| == |ids|
  }

  // ---------------------------------------------------------------------------
  // The algebra of Put and Merge

  lemma WithStandardTwice(vm: ViewMap, a: set<u64>, b: set<u64>)
    ensures WithStandard(WithStandard(vm, a), b) == WithStandard(vm, a + b)
  {
    var old_ := if Standard in vm then vm[Standard] else {};
    assert (old_ + a) + b == old_ + (a + b);
  }

  lemma WithStandardNothing(vm: ViewMap)
    requires Standard in vm
    ensures WithStandard(vm, {}) == vm
  {
    assert vm[Standard] + {} == vm[Standard];
  }

  /** A GetOrCreate of the standard view is a Put of no bits. */
  lemma GetOrCreateIsPut(st: Store, k: FragmentKey)
    ensures GetOrCreateSpec(st, k, Standard) == Put(st, k, {})
  {
    var vm := ViewsAt(st, k);
    if Standard in vm {
      assert k in st;
      WithStandardNothing(vm);
    } else {
      var none: set<u64> := {};
      assert none + none == none;
    }
  }

  /** Once the standard view exists, a Put of no bits changes nothing: a cache hit
      behaves as a repeated GetOrCreate. */
  lemma PutNothingPresent(st: Store, k: FragmentKey)
    requires k in st && Standard in st[k]
    ensures Put(st, k, {}) == st
  {
    WithStandardNothing(st[k]);
  }

  /** DirectAdd on an existing standard view is a Put of one bit. */
  lemma AddBitIsPut(st: Store, k: FragmentKey, x: u64)
    requires k in st && Standard in st[k]
    ensures AddBitSpec(st, k, Standard, x) == Put(st, k, {x})
  {
  }

  lemma PutPut(st: Store, k: FragmentKey, a: set<u64>, b: set<u64>)
    ensures Put(Put(st, k, a), k, b) == Put(st, k, a + b)
  {
    WithStandardTwice(ViewsAt(st, k), a, b);
  }

  /** Putting bits after merging a layer is merging the extended layer. */
  lemma PutMerge(st: Store, l: Layer, k: FragmentKey, b: set<u64>)
    ensures Put(Merge(st, l), k, b) == Merge(st, Extend(l, k, b))
  {
    var lhs, rhs := Put(Merge(st, l), k, b), Merge(st, Extend(l, k, b));
    assert lhs.Keys == rhs.Keys;
    forall k' | k' in lhs
      ensures lhs[k'] == rhs[k']
    {
      if k' == k {
        WithStandardTwice(ViewsAt(st, k), LayerAt(l, k), b);
        if k !in l {
          assert {} + b == b;
        }
      }
    }
  }

  /** The views of a key after a merge. */
  lemma ViewsAtMerge(st: Store, l: Layer, k: FragmentKey)
    ensures k in Merge(st, l) <==> k in st || k in l
    ensures ViewsAt(Merge(st, l), k) == if k in l then WithStandard(ViewsAt(st, k), l[k]) else ViewsAt(st, k)
  {
  }

  lemma UnionAt(a: Layer, b: Layer, k: FragmentKey)
    ensures k in Union(a, b) <==> k in a || k in b
    ensures LayerAt(Union(a, b), k) == LayerAt(a, k) + LayerAt(b, k)
  {
  }

  /** The views of k after merging a and then b, as one expression. */
  lemma ViewsAtMergeMerge(st: Store, a: Layer, b: Layer, k: FragmentKey)
    ensures ViewsAt(Merge(Merge(st, a), b), k)
         == if k in a || k in b then WithStandard(ViewsAt(st, k), LayerAt(a, k) + LayerAt(b, k))
            else ViewsAt(st, k)
  {
    var vm := ViewsAt(st, k);
    ViewsAtMerge(st, a, k);
    ViewsAtMerge(Merge(st, a), b, k);
    if k in a && k in b {
      WithStandardTwice(vm, a[k], b[k]);
    } else if k in b {
      assert LayerAt(a, k) + LayerAt(b, k) == b[k];
    } else if k in a {
      assert LayerAt(a, k) + LayerAt(b, k) == a[k];
    }
  }

  lemma MergeMergeAt(st: Store, a: Layer, b: Layer, k: FragmentKey)
    ensures k in Merge(Merge(st, a), b) <==> k in Merge(st, Union(a, b))
    ensures ViewsAt(Merge(Merge(st, a), b), k) == ViewsAt(Merge(st, Union(a, b)), k)
  {
    ViewsAtMerge(st, a, k);
    ViewsAtMerge(Merge(st, a), b, k);
    ViewsAtMerge(st, Union(a, b), k);
    UnionAt(a, b, k);
    ViewsAtMergeMerge(st, a, b, k);
  }

  /** Two stores with the same keys and the same views at every key are equal. */
  lemma StoreEq(x: Store, y: Store)
    requires forall k :: (k in x <==> k in y) && ViewsAt(x, k) == ViewsAt(y, k)
    ensures x == y
  {
    assert x.Keys == y.Keys;
    forall k | k in x
      ensures x[k] == y[k]
    {
      assert ViewsAt(x, k) == ViewsAt(y, k);
    }
  }

  /** Merging two layers one after the other is merging their union. */
  lemma MergeMerge(st: Store, a: Layer, b: Layer)
    ensures Merge(Merge(st, a), b) == Merge(st, Union(a, b))
  {
    var lhs, rhs := Merge(Merge(st, a), b), Merge(st, Union(a, b));
    forall k
      ensures (k in lhs <==> k in rhs) && ViewsAt(lhs, k) == ViewsAt(rhs, k)
    {
      MergeMergeAt(st, a, b, k);
    }
    StoreEq(lhs, rhs);
  }

  lemma MergeEmpty(st: Store)
    ensures Merge(st, map[]) == st
  {
  }

  // ---------------------------------------------------------------------------
  // Passes, one record at a time

  lemma PassLayerZero(ids: seq<u64>, w: Width, p: Pass)
    requires |p.contrib| == |ids|
    ensures PassLayer(ids, w, p, 0) == map[]
  {
  }

  /** Bits of record n join the bits of the records before it. */
  lemma {:induction false} PassBitsStep(ids: seq<u64>, w: Width, p: Pass, n: nat, s: u64)
    requires n < |ids| && |p.contrib| == |ids|
    ensures PassBits(ids, w, p, n + 1, s)
         == PassBits(ids, w, p, n, s) + (if ShardOf(ids[n], w) == s then p.contrib[n] else {})
  {
    var lhs := PassBits(ids, w, p, n + 1, s);
    var rhs := PassBits(ids, w, p, n, s) + (if ShardOf(ids[n], w) == s then p.contrib[n] else {});
    forall x | x in lhs
      ensures x in rhs
    {
      var j :| 0 <= j < n + 1 && ShardOf(ids[j], w) == s && x in p.contrib[j];
      if j < n {
        assert x in PassBits(ids, w, p, n, s);
      }
    }
    forall x | x in rhs
      ensures x in lhs
    {
      if x in PassBits(ids, w, p, n, s) {
        var j :| 0 <= j < n && ShardOf(ids[j], w) == s && x in p.contrib[j];
        assert 0 <= j < n + 1;
      } else {
        assert 0 <= n < n + 1 && ShardOf(ids[n], w) == s && x in p.contrib[n];
      }
    }
  }

  /** Record n of a pass extends the layer of the records before it. This is the
      step the builder's loop over records takes. */
  lemma {:induction false} PassLayerStep(ids: seq<u64>, w: Width, p: Pass, n: nat)
    requires n < |ids| && |p.contrib| == |ids|
    ensures PassLayer(ids, w, p, n + 1)
         == Extend(PassLayer(ids, w, p, n), FragmentKey(ShardOf(ids[n], w), p.field), p.contrib[n])
  {
    var key := FragmentKey(ShardOf(ids[n], w), p.field);
    var lhs := PassLayer(ids, w, p, n + 1);
    var rhs := Extend(PassLayer(ids, w, p, n), key, p.contrib[n]);
    assert PassKeys(ids, w, p, n + 1) == PassKeys(ids, w, p, n) + {key} by {
      forall k | k in PassKeys(ids, w, p, n + 1)
        ensures k in PassKeys(ids, w, p, n) + {key}
      {
        var j :| 0 <= j < n + 1 && k == FragmentKey(ShardOf(ids[j], w), p.field);
        if j < n {
          assert k in PassKeys(ids, w, p, n);
        }
      }
    }
    assert lhs.Keys == rhs.Keys;
    forall k | k in lhs
      ensures lhs[k] == rhs[k]
    {
      PassBitsStep(ids, w, p, n, k.shard);
      assert k.field == p.field by {
        var j :| 0 <= j < n + 1 && k == FragmentKey(ShardOf(ids[j], w), p.field);
      }
      if k == key && key !in PassKeys(ids, w, p, n) {
        assert PassBits(ids, w, p, n, k.shard) == {};
      }
    }
  }

  // ---------------------------------------------------------------------------
  // Passes in any order

  lemma UnionPassesEmpty(ids: seq<u64>, w: Width)
    ensures UnionPasses(ids, w, {}) == map[]
  {
  }

  lemma {:induction false} UnionKeysAdd(ids: seq<u64>, w: Width, ps: set<Pass>, p: Pass)
    ensures UnionKeys(ids, w, ps + {p}) == UnionKeys(ids, w, ps) + PassKeys(ids, w, p, |ids|)
  {
    var n := |ids|;
    forall k | k in UnionKeys(ids, w, ps + {p})
      ensures k in UnionKeys(ids, w, ps) + PassKeys(ids, w, p, n)
    {
      var q, j :| q in ps + {p} && 0 <= j < n && k == FragmentKey(ShardOf(ids[j], w), q.field);
      if q in ps {
        assert k in UnionKeys(ids, w, ps);
      } else {
        assert k in PassKeys(ids, w, p, n);
      }
    }
    forall k | k in UnionKeys(ids, w, ps)
      ensures k in UnionKeys(ids, w, ps + {p})
    {
      var q, j :| q in ps && 0 <= j < n && k == FragmentKey(ShardOf(ids[j], w), q.field);
      assert q in ps + {p};
    }
    forall k | k in PassKeys(ids, w, p, n)
      ensures k in UnionKeys(ids, w, ps + {p})
    {
      var j :| 0 <= j < n && k == FragmentKey(ShardOf(ids[j], w), p.field);
      assert p in ps + {p};
    }
  }

  /** A bit some pass of ps + {p} sets at k is set by a pass of ps or by p. */
  lemma {:induction false} UnionBitsAddSound(ids: seq<u64>, w: Width, ps: set<Pass>, p: Pass, k: FragmentKey, x: u64)
    requires |p.contrib| == |ids|
    requires x in UnionBits(ids, w, ps + {p}, k)
    ensures x in UnionBits(ids, w, ps, k)
         || (p.field == k.field && x in PassBits(ids, w, p, |ids|, k.shard))
  {
    var q, j :| q in ps + {p} && q.field == k.field && 0 <= j < |ids| && j < |q.contrib|
                && ShardOf(ids[j], w) == k.shard && x in q.contrib[j];
    if q in ps {
      assert x in UnionBits(ids, w, ps, k);
    } else {
      assert x in PassBits(ids, w, p, |ids|, k.shard);
    }
  }

  /** A bit a pass of ps, or p itself, sets at k is set by some pass of ps + {p}. */
  lemma {:induction false} UnionBitsAddComplete(ids: seq<u64>, w: Width, ps: set<Pass>, p: Pass, k: FragmentKey, x: u64)
    requires |p.contrib| == |ids|
    requires x in UnionBits(ids, w, ps, k)
          || (p.field == k.field && x in PassBits(ids, w, p, |ids|, k.shard))
    ensures x in UnionBits(ids, w, ps + {p}, k)
  {
    if x in UnionBits(ids, w, ps, k) {
      var q, j :| q in ps && q.field == k.field && 0 <= j < |ids| && j < |q.contrib|
                  && ShardOf(ids[j], w) == k.shard && x in q.contrib[j];
      assert q in ps + {p};
    } else {
      var j :| 0 <= j < |ids| && ShardOf(ids[j], w) == k.shard && x in p.contrib[j];
      assert p in ps + {p};
    }
  }

  /** Two layers with the same keys and the same bits at every key are equal. */
  lemma LayerEq(x: Layer, y: Layer)
    requires forall k :: (k in x <==> k in y) && LayerAt(x, k) == LayerAt(y, k)
    ensures x == y
  {
    assert x.Keys == y.Keys;
    forall k | k in x
      ensures x[k] == y[k]
    {
      assert LayerAt(x, k) == LayerAt(y, k);
    }
  }

  lemma UnionPassesAt(ids: seq<u64>, w: Width, ps: set<Pass>, k: FragmentKey)
    ensures LayerAt(UnionPasses(ids, w, ps), k) == if k in UnionKeys(ids, w, ps) then UnionBits(ids, w, ps, k) else {}
  {
  }

  lemma PassLayerAt(ids: seq<u64>, w: Width, p: Pass, k: FragmentKey)
    requires |p.contrib| == |ids|
    ensures LayerAt(PassLayer(ids, w, p, |ids|), k) == if k in PassKeys(ids, w, p, |ids|) then PassBits(ids, w, p, |ids|, k.shard) else {}
  {
  }

  /** Keys a pass does not look up get no bits from the union of passes. */
  lemma UnionBitsOutside(ids: seq<u64>, w: Width, ps: set<Pass>, k: FragmentKey)
    requires k !in UnionKeys(ids, w, ps)
    ensures UnionBits(ids, w, ps, k) == {}
  {
  }

  lemma PassBitsOutside(ids: seq<u64>, w: Width, p: Pass, k: FragmentKey)
    requires |p.contrib| == |ids|
    requires k !in PassKeys(ids, w, p, |ids|) && p.field == k.field
    ensures PassBits(ids, w, p, |ids|, k.shard) == {}
  {
  }

  lemma {:induction false} UnionPassesAddAt(ids: seq<u64>, w: Width, ps: set<Pass>, p: Pass, k: FragmentKey)
    requires |p.contrib| == |ids|
    ensures LayerAt(UnionPasses(ids, w, ps + {p}), k)
         == LayerAt(UnionPasses(ids, w, ps), k) + LayerAt(PassLayer(ids, w, p, |ids|), k)
  {
    var lhs := UnionBits(ids, w, ps + {p}, k);
    var a := UnionBits(ids, w, ps, k);
    var b := if p.field == k.field then PassBits(ids, w, p, |ids|, k.shard) else {};
    forall x | x in lhs
      ensures x in a + b
    {
      UnionBitsAddSound(ids, w, ps, p, k, x);
    }
    forall x | x in a + b
      ensures x in lhs
    {
      UnionBitsAddComplete(ids, w, ps, p, k, x);
    }
    UnionKeysAdd(ids, w, ps, p);
    UnionPassesAt(ids, w, ps + {p}, k);
    UnionPassesAt(ids, w, ps, k);
    PassLayerAt(ids, w, p, k);
    if k !in UnionKeys(ids, w, ps) {
      UnionBitsOutside(ids, w, ps, k);
    }
    if k !in PassKeys(ids, w, p, |ids|) {
      if p.field == k.field {
        PassBitsOutside(ids, w, p, k);
      }
      if k !in UnionKeys(ids, w, ps + {p}) {
        UnionBitsOutside(ids, w, ps + {p}, k);
      }
    } else {
      assert p.field == k.field by {
        var j :| 0 <= j < |ids| && k == FragmentKey(ShardOf(ids[j], w), p.field);
      }
    }
  }

  /** Adding a pass to a set of passes adds its complete layer: the result does not
      depend on the order in which the passes run. */
  lemma {:induction false} UnionPassesAdd(ids: seq<u64>, w: Width, ps: set<Pass>, p: Pass)
    requires |p.contrib| == |ids|
    ensures UnionPasses(ids, w, ps + {p}) == Union(UnionPasses(ids, w, ps), PassLayer(ids, w, p, |ids|))
  {
    var lhs := UnionPasses(ids, w, ps + {p});
    var a, b := UnionPasses(ids, w, ps), PassLayer(ids, w, p, |ids|);
    UnionKeysAdd(ids, w, ps, p);
    forall k
      ensures (k in lhs <==> k in Union(a, b)) && LayerAt(lhs, k) == LayerAt(Union(a, b), k)
    {
      UnionAt(a, b, k);
      UnionPassesAddAt(ids, w, ps, p, k);
    }
    LayerEq(lhs, Union(a, b));
  }

  // ---------------------------------------------------------------------------
  // How the builder's loops use the algebra

  /** One more record of a pass: the GetOrCreate (or the cache hit) of its fragment
      followed by its bits takes the store from the layer of the first n records to the
      layer of the first n + 1. */
  lemma PassAdvance(st0: Store, ids: seq<u64>, w: Width, p: Pass, n: nat, next: nat, prev: Store)
    requires n < |ids| && |p.contrib| == |ids| && next == n + 1
    requires prev == Merge(st0, PassLayer(ids, w, p, n))
    ensures var key := FragmentKey(ShardOf(ids[n], w), p.field);
      Put(Put(prev, key, {}), key, p.contrib[n]) == Merge(st0, PassLayer(ids, w, p, next))
  {
    var key := FragmentKey(ShardOf(ids[n], w), p.field);
    PutPut(prev, key, {}, p.contrib[n]);
    assert {} + p.contrib[n] == p.contrib[n];
    PutMerge(st0, PassLayer(ids, w, p, n), key, p.contrib[n]);
    PassLayerStep(ids, w, p, n);
  }

  /** A complete pass after the passes ps is the union of ps and that pass. */
  lemma RunPass(st0: Store, ids: seq<u64>, w: Width, ps: set<Pass>, p: Pass)
    requires |p.contrib| == |ids|
    ensures Merge(Merge(st0, UnionPasses(ids, w, ps)), PassLayer(ids, w, p, |ids|))
         == Merge(st0, UnionPasses(ids, w, ps + {p}))
  {
    MergeMerge(st0, UnionPasses(ids, w, ps), PassLayer(ids, w, p, |ids|));
    UnionPassesAdd(ids, w, ps, p);
  }

  /** Before any pass the store is what it was. */
  lemma NoPasses(st0: Store, ids: seq<u64>, w: Width)
    ensures Merge(st0, UnionPasses(ids, w, {})) == st0
  {
    UnionPassesEmpty(ids, w);
    MergeEmpty(st0);
  }

  /** The store after the first n records of pass p, record by record: each record
      looks up (or creates) the standard view of its fragment, then sets its bits. */
  function PassRun(st0: Store, ids: seq<u64>, w: Width, p: Pass, n: nat): Store
    requires n <= |ids| && n <= |p.contrib|
  {
    if n == 0 then st0
    else
      var key := FragmentKey(ShardOf(ids[n - 1], w), p.field);
      Put(Put(PassRun(st0, ids, w, p, n - 1), key, {}), key, p.contrib[n - 1])
  }

  /** Running the first n records of a pass is merging their layer. */
  lemma {:induction false} PassRunIsMerge(st0: Store, ids: seq<u64>, w: Width, p: Pass, n: nat)
    requires n <= |ids| && |p.contrib| == |ids|
    ensures PassRun(st0, ids, w, p, n) == Merge(st0, PassLayer(ids, w, p, n))
  {
    if n == 0 {
      PassLayerZero(ids, w, p);
      MergeEmpty(st0);
    } else {
      PassRunIsMerge(st0, ids, w, p, n - 1);
      PassAdvance(st0, ids, w, p, n - 1, n, PassRun(st0, ids, w, p, n - 1));
    }
  }

  /** A complete run of pass p after the passes ps leaves the union of ps and p. */
  lemma RunAfter(st0: Store, ids: seq<u64>, w: Width, ps: set<Pass>, p: Pass, before: Store, after: Store)
    requires |p.contrib| == |ids|
    requires before == Merge(st0, UnionPasses(ids, w, ps))
    requires after == PassRun(before, ids, w, p, |ids|)
    ensures after == Merge(st0, UnionPasses(ids, w, ps + {p}))
  {
    PassRunIsMerge(before, ids, w, p, |ids|);
    RunPass(st0, ids, w, ps, p);
  }

  /** The step of a pass's loop: record j's lookup, then its bits. */
  lemma RunStep(st0: Store, ids: seq<u64>, w: Width, p: Pass, j: nat, mid: Store, after: Store)
    requires j < |ids| && j < |p.contrib|
    requires mid == Put(PassRun(st0, ids, w, p, j), FragmentKey(ShardOf(ids[j], w), p.field), {})
    requires after == Put(mid, FragmentKey(ShardOf(ids[j], w), p.field), p.contrib[j])
    ensures after == PassRun(st0, ids, w, p, j + 1)
  {
  }
}
