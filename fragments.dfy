/** The fragment store: (shard, field) -> view name -> bitmap, with creation on first
    access and pruning of empty views on read. A roaring bitmap is modelled by the set
    of its bits. */
module FragmentStore {
  import opened Words

  datatype Option<T> = None | Some(value: T)

  datatype FragmentKey = FragmentKey(shard: u64, field: u64)

  type View = string

  /** The view "" that the API treats as the standard view. */
  const Standard: View := ""

  /** A fragment: view name -> the bits of its bitmap. */
  type ViewMap = map<View, set<u64>>

  /** A whole store. */
  type Store = map<FragmentKey, ViewMap>

  /** The place of a bitmap in the store: what a bitmap pointer handed out by
      GetOrCreate refers to. */
  datatype BitmapRef = BitmapRef(key: FragmentKey, view: View)

  /** The views of a key; an absent key has none. */
  function ViewsAt(st: Store, k: FragmentKey): ViewMap
  {
    if k in st then st[k] else map[]
  }

  /** What GetOrCreate does to the store's value. */
  function GetOrCreateSpec(st: Store, k: FragmentKey, v: View): Store
  {
    var vm := ViewsAt(st, k);
    if v in vm then st else st[k := vm[v := {}]]
  }

  /** GetOrCreate adds at most the key k and the view v, with an empty bitmap, and
      leaves every other key and every existing view as they were. */
  lemma GetOrCreateFrame(st: Store, k: FragmentKey, v: View)
    ensures var r := GetOrCreateSpec(st, k, v);
      && r.Keys == st.Keys + {k}
      && r[k].Keys == ViewsAt(st, k).Keys + {v}
      && (v in ViewsAt(st, k) ==> r == st)
      && (v !in ViewsAt(st, k) ==> r[k][v] == {})
      && (forall v' :: v' in ViewsAt(st, k) ==> r[k][v'] == ViewsAt(st, k)[v'])
      && (forall k' :: k' in st && k' != k ==> r[k'] == st[k'])
  {
  }

  /** Setting bit x in view v of key k. */
  function AddBitSpec(st: Store, k: FragmentKey, v: View, x: u64): Store
    requires k in st && v in st[k]
  {
    st[k := st[k][v := st[k][v] + {x}]]
  }

  /** The non-empty views of a fragment. */
  function Pruned(vm: ViewMap): ViewMap
  {
    map v | v in vm && vm[v] != {} :: vm[v]
  }

  /** What GetViewMap does to the store's value. */
  function PruneSpec(st: Store, k: FragmentKey): Store
  {
    if k in st then st[k := Pruned(st[k])] else st
  }

  /** What DeleteView does to the store's value. */
  function DeleteViewSpec(st: Store, k: FragmentKey, v: View): Store
  {
    if k in st then st[k := Pruned(st[k]) - {v}] else st
  }

  /** Pruning keeps exactly the non-empty views, with their bits, and is idempotent. */
  lemma PrunedKeepsNonEmpty(vm: ViewMap)
    ensures forall v :: v in Pruned(vm) <==> v in vm && vm[v] != {}
    ensures forall v :: v in Pruned(vm) ==> Pruned(vm)[v] == vm[v]
    ensures Pruned(Pruned(vm)) == Pruned(vm)
  {
  }

  /** GetOrCreate is idempotent: a second call with the same key and view changes nothing. */
  lemma GetOrCreateIdempotent(st: Store, k: FragmentKey, v: View)
    ensures GetOrCreateSpec(GetOrCreateSpec(st, k, v), k, v) == GetOrCreateSpec(st, k, v)
  {
  }

  /** After DeleteView, a read of the same key shows neither the deleted view nor any empty
      view, and every other non-empty view is still there, with its bits. */
  lemma DeleteThenRead(st: Store, k: FragmentKey, v: View)
    requires k in st
    ensures var after := PruneSpec(DeleteViewSpec(st, k, v), k);
      k in after && v !in after[k] &&
      (forall v' :: v' in after[k] <==> v' in st[k] && v' != v && st[k][v'] != {}) &&
      (forall v' :: v' in after[k] ==> after[k][v'] == st[k][v'])
  {
  }

  /** Fragments: the Go map of view maps, updated in place. */
  class Fragments {
    var m: Store

    /** make(Fragments) */
    constructor ()
      ensures m == map[]
    {
      m := map[];
    }

    /** Returns the bitmap at (shard, field, view), creating an empty one (and the view
        map of the key) on first access. */
    method GetOrCreate(shard: u64, field: u64, view: View) returns (bm: BitmapRef)
      modifies this
      ensures bm == BitmapRef(FragmentKey(shard, field), view)
      ensures bm.key in m && bm.view in m[bm.key]
      ensures m == GetOrCreateSpec(old(m), FragmentKey(shard, field), view)
    {
      var key := FragmentKey(shard, field);
      var viewMap: ViewMap := map[];
      if key in m {
        viewMap := m[key];
      }
      if view !in viewMap {
        // a missing view map is created together with its first bitmap
        m := m[key := viewMap[view := {}]];
      }
      bm := BitmapRef(key, view);
    }

    /** DirectAdd on a bitmap the store holds: the bit shows up at that place and
        nowhere else. */
    method DirectAdd(bm: BitmapRef, x: u64)
      requires bm.key in m && bm.view in m[bm.key]
      modifies this
      ensures m == AddBitSpec(old(m), bm.key, bm.view, x)
    {
      m := m[bm.key := m[bm.key][bm.view := m[bm.key][bm.view] + {x}]];
    }

    /** Returns the view map of (shard, field), or None when the key is absent; before
        returning, it deletes every view whose bitmap has no bit set. */
    method GetViewMap(shard: u64, field: u64) returns (r: Option<ViewMap>)
      modifies this
      ensures FragmentKey(shard, field) !in old(m) ==> r == None && m == old(m)
      ensures m == PruneSpec(old(m), FragmentKey(shard, field))
      ensures FragmentKey(shard, field) in old(m) ==> FragmentKey(shard, field) in m && r == Some(m[FragmentKey(shard, field)])
    {
      var key := FragmentKey(shard, field);
      if key !in m {
        return None;
      }
      ghost var vm0 := m[key];
      var pending := m[key].Keys;
      while pending != {}
        invariant key in m && m == old(m)[key := m[key]]
        invariant pending <= vm0.Keys
        invariant m[key] == map v | v in vm0 && (v in pending || vm0[v] != {}) :: vm0[v]
        decreases pending
      {
        var v :| v in pending;
        if |m[key][v]| == 0 {
          m := m[key := m[key] - {v}];
        }
        pending := pending - {v};
      }
      assert m[key] == Pruned(vm0);
      r := Some(m[key]);
    }

    /** Removes a named view of (shard, field), after pruning its empty views; no effect
        when the key is absent. */
    method DeleteView(shard: u64, field: u64, view: View)
      modifies this
      ensures m == DeleteViewSpec(old(m), FragmentKey(shard, field), view)
    {
      var vm := GetViewMap(shard, field);
      if vm == None {
        return;
      }
      m := m[FragmentKey(shard, field) := vm.value - {view}];
    }
  }
}
