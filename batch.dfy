/** The batch: it collects records (a position id and per-column values), translates
    each value to a row id as it arrives, and builds the fragments (shard, field) ->
    view -> bitmap that the collected records amount to. */
module Batches {
  import opened Words
  import opened Encoding
  import opened FragmentStore
  import opened Layers
  import opened TestTranslators

  /** One record: its position id and, for each value, the column it belongs to. */
  datatype Row = Row(id: u64, columns: seq<u64>, values: seq<seq<u8>>)

  /** The row ids of slot i; a slot never written reads as empty (Go's zero value). */
  function SlotOf(m: map<nat, seq<u64>>, i: nat): seq<u64>
  {
    if i in m then m[i] else []
  }

  /** s padded with the nil sentinel up to length n. */
  function Padded(s: seq<u64>, n: nat): (r: seq<u64>)
    ensures |r| == if |s| < n then n else |s|
    ensures r[..|s|] == s
    ensures forall j :: |s| <= j < |r| ==> r[j] == NilSentinel
    decreases n - |s|
  {
    if |s| < n then Padded(s + [NilSentinel], n) else s
  }

  /** The first n values of a record translated one after the other: the ids in order
      and the dictionary afterwards. */
  function Translations(t: Dict, columns: seq<u64>, values: seq<seq<u8>>, n: nat): (r: (seq<u64>, Dict))
    requires n <= |values| <= |columns| && |t| + n <= MaxInt && Dense(t)
    ensures |r.0| == n && |t| <= |r.1| <= |t| + n && Dense(r.1)
  {
    if n == 0 then ([], t)
    else
      var p := Translations(t, columns, values, n - 1);
      TranslatedDense(p.1, columns[n - 1], values[n - 1]);
      var q := Translated(p.1, columns[n - 1], values[n - 1]);
      (p.0 + [q.0], q.1)
  }

  /** Translating one more value extends the ids by its id: the step of Add's loop,
      from the ids acc and dictionary d of the first n values to those of n + 1. */
  lemma TranslationsStep(t: Dict, columns: seq<u64>, values: seq<seq<u8>>, n: nat,
                         acc: seq<u64>, d: Dict, x: u64, d': Dict)
    requires n + 1 <= |values| <= |columns| && |t| + n + 1 <= MaxInt && Dense(t)
    requires acc == Translations(t, columns, values, n).0 && d == Translations(t, columns, values, n).1
    requires (x, d') == Translated(d, columns[n], values[n])
    ensures acc + [x] == Translations(t, columns, values, n + 1).0
    ensures d' == Translations(t, columns, values, n + 1).1
  {
  }

  /** Translating never changes the id of a key already in the dictionary. */
  lemma {:induction false} TranslationsKeep(t: Dict, columns: seq<u64>, values: seq<seq<u8>>, n: nat)
    requires n <= |values| <= |columns| && |t| + n <= MaxInt && Dense(t)
    ensures var r := Translations(t, columns, values, n);
            forall k :: k in t ==> k in r.1 && r.1[k] == t[k]
  {
    if n > 0 {
      var p := Translations(t, columns, values, n - 1);
      TranslationsKeep(t, columns, values, n - 1);
      TranslatedKeeps(p.1, columns[n - 1], values[n - 1]);
    }
  }

  /** The i-th id is the id the final dictionary holds for the i-th (column, value)
      pair. */
  lemma {:induction false} TranslationsFind(t: Dict, columns: seq<u64>, values: seq<seq<u8>>, n: nat)
    requires n <= |values| <= |columns| && |t| + n <= MaxInt && Dense(t)
    ensures var r := Translations(t, columns, values, n);
            forall i :: 0 <= i < n ==> Key(columns[i], values[i]) in r.1 && r.1[Key(columns[i], values[i])] == r.0[i]
  {
    if n > 0 {
      var r := Translations(t, columns, values, n);
      var p := Translations(t, columns, values, n - 1);
      var q := Translated(p.1, columns[n - 1], values[n - 1]);
      TranslationsFind(t, columns, values, n - 1);
      TranslatedKeeps(p.1, columns[n - 1], values[n - 1]);
      assert r == (p.0 + [q.0], q.1);
      forall i | 0 <= i < n
        ensures Key(columns[i], values[i]) in r.1 && r.1[Key(columns[i], values[i])] == r.0[i]
      {
        if i < n - 1 {
          assert r.0[i] == p.0[i];
        }
      }
    }
  }

  /** Starting from a dense dictionary, every id a record's values get lies in
      1..|dictionary|: never 0 and never the nil sentinel. */
  lemma TranslationsIds(t: Dict, columns: seq<u64>, values: seq<seq<u8>>, n: nat)
    requires n <= |values| <= |columns| && |t| + n <= MaxInt && Dense(t)
    ensures var r := Translations(t, columns, values, n);
            forall i :: 0 <= i < n ==> 1 <= r.0[i] <= |r.1| && r.0[i] != NilSentinel
  {
    var r := Translations(t, columns, values, n);
    TranslationsFind(t, columns, values, n);
    forall i | 0 <= i < n
      ensures 1 <= r.0[i] <= |r.1|
    {
      assert r.1[Key(columns[i], values[i])] == r.0[i];
    }
  }

  /** Slot i of m padded with the nil sentinel up to length n, then id x appended:
      what Add does for one value. */
  function AppendAt(m: map<nat, seq<u64>>, i: nat, n: nat, x: u64): map<nat, seq<u64>>
  {
    m[i := Padded(SlotOf(m, i), n) + [x]]
  }

  /** The slots after Add has appended the ids xs, value i to slot i, for a record at
      position n. */
  function AddedRows(m: map<nat, seq<u64>>, xs: seq<u64>, n: nat): map<nat, seq<u64>>
  {
    if |xs| == 0 then m
    else AppendAt(AddedRows(m, xs[..|xs| - 1], n), |xs| - 1, n, xs[|xs| - 1])
  }

  /** The step of Add's loop: appending one more id. */
  lemma AddedRowsStep(m: map<nat, seq<u64>>, xs: seq<u64>, x: u64, n: nat,
                      before: map<nat, seq<u64>>, after: map<nat, seq<u64>>)
    requires before == AddedRows(m, xs, n)
    requires after == AppendAt(before, |xs|, n, x)
    ensures after == AddedRows(m, xs + [x], n)
  {
    assert (xs + [x])[..|xs|] == xs;
  }

  /** Add creates exactly the slots of its values. */
  lemma {:induction false} AddedRowsKeys(m: map<nat, seq<u64>>, xs: seq<u64>, n: nat)
    ensures forall k: nat :: k in AddedRows(m, xs, n) <==> k in m || k < |xs|
  {
    if |xs| > 0 {
      AddedRowsKeys(m, xs[..|xs| - 1], n);
    }
  }

  /** Add leaves the slots past its values as they were. */
  lemma {:induction false} AddedRowsKeep(m: map<nat, seq<u64>>, xs: seq<u64>, n: nat)
    ensures forall k: nat :: k in m && k >= |xs| ==> k in AddedRows(m, xs, n) && AddedRows(m, xs, n)[k] == m[k]
  {
    if |xs| > 0 {
      AddedRowsKeep(m, xs[..|xs| - 1], n);
    }
  }

  /** Slot i of value i is the old slot padded to the record's position, followed by
      the value's id. */
  lemma {:induction false} AddedRowsSlot(m: map<nat, seq<u64>>, xs: seq<u64>, n: nat)
    ensures forall k :: 0 <= k < |xs| ==>
              k in AddedRows(m, xs, n) && AddedRows(m, xs, n)[k] == Padded(SlotOf(m, k), n) + [xs[k]]
  {
    if |xs| > 0 {
      var ys := xs[..|xs| - 1];
      AddedRowsSlot(m, ys, n);
      AddedRowsKeep(m, ys, n);
      AddedRowsKeys(m, ys, n);
      assert SlotOf(AddedRows(m, ys, n), |ys|) == SlotOf(m, |ys|);
    }
  }

  /** When no slot is longer than the n records before this one, every slot of a value
      of the new record has exactly n + 1 entries and no slot has more. */
  lemma AddedRowsLengths(m: map<nat, seq<u64>>, xs: seq<u64>, n: nat)
    requires forall k :: k in m ==> |m[k]| <= n
    ensures forall k :: 0 <= k < |xs| ==> k in AddedRows(m, xs, n) && |AddedRows(m, xs, n)[k]| == n + 1
    ensures forall k :: k in AddedRows(m, xs, n) ==> |AddedRows(m, xs, n)[k]| <= n + 1
  {
    AddedRowsKeys(m, xs, n);
    AddedRowsKeep(m, xs, n);
    AddedRowsSlot(m, xs, n);
  }

  // ---------------------------------------------------------------------------
  // What each pass of makeFragments contributes, record by record

  /** The existence pass: record j sets its offset in the Exists fragment. */
  function ExistencePass(ids: seq<u64>, w: Width): Pass
  {
    Pass(Exists, seq(|ids|, j requires 0 <= j < |ids| => {InShard(ids[j], w)}))
  }

  /** The pass over one single-value slot: record j sets the bit of its row id unless
      the id is the nil sentinel or the slot stops before j. */
  function RowIDsPass(field: u64, ids: seq<u64>, rows: seq<u64>, w: Width): Pass
  {
    Pass(field, seq(|ids|, j requires 0 <= j < |ids| =>
      if j < |rows| && rows[j] != NilSentinel then {BitPos(rows[j], ids[j], w)} else {}))
  }

  /** The bits of a set of row ids of the record at position col. */
  function RowBits(rows: seq<u64>, col: u64, w: Width): set<u64>
  {
    set r | r in rows :: BitPos(r, col, w)
  }

  /** The pass over one multi-value field: record j sets one bit per row id of its set;
      records past the end of the sets have the empty set. */
  function RowIDSetsPass(field: u64, ids: seq<u64>, sets: seq<seq<u64>>, w: Width): Pass
  {
    Pass(field, seq(|ids|, j requires 0 <= j < |ids| =>
      if j < |sets| then RowBits(sets[j], ids[j], w) else {}))
  }

  /** A list of sets re-sliced up to length n: the positions it gains hold the
      empty set. */
  function Resliced(sets: seq<seq<u64>>, n: nat): (r: seq<seq<u64>>)
    ensures |r| == if |sets| < n then n else |sets|
    ensures forall j :: 0 <= j < |r| ==> r[j] == if j < |sets| then sets[j] else []
  {
    if |sets| < n then sets + seq(n - |sets|, _ => []) else sets
  }

  /** Every slot i in keys with row ids is written to the fragments of column i. */
  predicate ColumnsCover(rowIDs: map<nat, seq<u64>>, columns: seq<u64>)
  {
    forall i :: i in rowIDs && rowIDs[i] != [] ==> i < |columns|
  }

  function RowIDsPasses(ids: seq<u64>, rowIDs: map<nat, seq<u64>>, columns: seq<u64>, w: Width, keys: set<nat>): set<Pass>
    requires ColumnsCover(rowIDs, columns)
  {
    set i | i in keys && i in rowIDs && rowIDs[i] != [] :: RowIDsPass(columns[i], ids, rowIDs[i], w)
  }

  function RowIDSetsPasses(ids: seq<u64>, rowIDSets: map<u64, seq<seq<u64>>>, w: Width, keys: set<u64>): set<Pass>
  {
    set f | f in keys && f in rowIDSets && rowIDSets[f] != [] :: RowIDSetsPass(f, ids, rowIDSets[f], w)
  }

  /** All passes makeFragments runs. */
  function AllPasses(ids: seq<u64>, rowIDs: map<nat, seq<u64>>, columns: seq<u64>,
                     rowIDSets: map<u64, seq<seq<u64>>>, w: Width): set<Pass>
    requires ColumnsCover(rowIDs, columns)
  {
    {ExistencePass(ids, w)} + RowIDsPasses(ids, rowIDs, columns, w, rowIDs.Keys)
      + RowIDSetsPasses(ids, rowIDSets, w, rowIDSets.Keys)
  }

  /** The fragments the collected records amount to. */
  function Built(ids: seq<u64>, rowIDs: map<nat, seq<u64>>, columns: seq<u64>,
                 rowIDSets: map<u64, seq<seq<u64>>>, w: Width): Store
    requires ColumnsCover(rowIDs, columns)
  {
    Merge(map[], UnionPasses(ids, w, AllPasses(ids, rowIDs, columns, rowIDSets, w)))
  }

  /** One more slot seen adds its pass, if the slot has row ids. */
  lemma RowIDsPassesStep(ids: seq<u64>, rowIDs: map<nat, seq<u64>>, columns: seq<u64>, w: Width, seen: set<nat>, i: nat)
    requires ColumnsCover(rowIDs, columns) && i in rowIDs
    ensures RowIDsPasses(ids, rowIDs, columns, w, seen + {i})
         == RowIDsPasses(ids, rowIDs, columns, w, seen)
            + (if rowIDs[i] != [] then {RowIDsPass(columns[i], ids, rowIDs[i], w)} else {})
  {
  }

  /** One more field seen adds its pass, if the field has sets. */
  lemma RowIDSetsPassesStep(ids: seq<u64>, rowIDSets: map<u64, seq<seq<u64>>>, w: Width, seen: set<u64>, f: u64)
    requires f in rowIDSets
    ensures RowIDSetsPasses(ids, rowIDSets, w, seen + {f})
         == RowIDSetsPasses(ids, rowIDSets, w, seen)
            + (if rowIDSets[f] != [] then {RowIDSetsPass(f, ids, rowIDSets[f], w)} else {})
  {
  }

  /** The step of the loop over single-value slots: slot i, if it has row ids, runs
      its pass; either way the slots seen grow by i. */
  lemma AfterSlot(st0: Store, ids: seq<u64>, w: Width, rowIDs: map<nat, seq<u64>>, columns: seq<u64>,
                  done: set<Pass>, seen: set<nat>, i: nat, before: Store, after: Store)
    requires ColumnsCover(rowIDs, columns) && i in rowIDs
    requires before == Merge(st0, UnionPasses(ids, w, done + RowIDsPasses(ids, rowIDs, columns, w, seen)))
    requires rowIDs[i] != [] ==> after == PassRun(before, ids, w, RowIDsPass(columns[i], ids, rowIDs[i], w), |ids|)
    requires rowIDs[i] == [] ==> after == before
    ensures after == Merge(st0, UnionPasses(ids, w, done + RowIDsPasses(ids, rowIDs, columns, w, seen + {i})))
  {
    var ps := RowIDsPasses(ids, rowIDs, columns, w, seen);
    RowIDsPassesStep(ids, rowIDs, columns, w, seen, i);
    if rowIDs[i] != [] {
      var p := RowIDsPass(columns[i], ids, rowIDs[i], w);
      RunAfter(st0, ids, w, done + ps, p, before, after);
      assert done + ps + {p} == done + (ps + {p});
    } else {
      assert ps + {} == ps;
    }
  }

  /** The step of the loop over multi-value fields. */
  lemma AfterField(st0: Store, ids: seq<u64>, w: Width, rowIDSets: map<u64, seq<seq<u64>>>,
                   done: set<Pass>, seen: set<u64>, f: u64, before: Store, after: Store)
    requires f in rowIDSets
    requires before == Merge(st0, UnionPasses(ids, w, done + RowIDSetsPasses(ids, rowIDSets, w, seen)))
    requires rowIDSets[f] != [] ==> after == PassRun(before, ids, w, RowIDSetsPass(f, ids, rowIDSets[f], w), |ids|)
    requires rowIDSets[f] == [] ==> after == before
    ensures after == Merge(st0, UnionPasses(ids, w, done + RowIDSetsPasses(ids, rowIDSets, w, seen + {f})))
  {
    var ps := RowIDSetsPasses(ids, rowIDSets, w, seen);
    RowIDSetsPassesStep(ids, rowIDSets, w, seen, f);
    if rowIDSets[f] != [] {
      var p := RowIDSetsPass(f, ids, rowIDSets[f], w);
      RunAfter(st0, ids, w, done + ps, p, before, after);
      assert done + ps + {p} == done + (ps + {p});
    } else {
      assert ps + {} == ps;
    }
  }

  lemma RowBitsStep(rows: seq<u64>, k: nat, col: u64, w: Width)
    requires k < |rows|
    ensures RowBits(rows[..k + 1], col, w) == RowBits(rows[..k], col, w) + {BitPos(rows[k], col, w)}
  {
    assert rows[..k + 1] == rows[..k] + [rows[k]];
  }

  /** The cached bitmap pointer refers to the standard view of key, which exists. */
  predicate Cached(st: Store, bm: Option<BitmapRef>, key: FragmentKey)
  {
    bm == Some(BitmapRef(key, Standard)) && key in st && Standard in st[key]
  }

  lemma RowIDsPassAt(field: u64, ids: seq<u64>, rows: seq<u64>, w: Width, j: nat)
    requires j < |ids|
    ensures RowIDsPass(field, ids, rows, w).contrib[j]
         == if j < |rows| && rows[j] != NilSentinel then {BitPos(rows[j], ids[j], w)} else {}
  {
  }

  lemma RowIDSetsPassAt(field: u64, ids: seq<u64>, sets: seq<seq<u64>>, w: Width, j: nat)
    requires j < |ids|
    ensures RowIDSetsPass(field, ids, sets, w).contrib[j]
         == RowBits(if j < |sets| then sets[j] else [], ids[j], w)
  {
  }

  class Batch {
    /** shardWidth(): the shard width the build uses. */
    const W: Width
    var ids: seq<u64>
    var rowIDs: map<nat, seq<u64>>
    var columns: seq<u64>
    var translate: TestTranslator?
    var frags: Fragments
    var rowIDSets: map<u64, seq<seq<u64>>>

    /** Between calls the fragments are empty, and no slot is longer than the list of
        record ids. */
    ghost predicate Valid()
      reads this, frags
    {
      && frags.m == map[]
      && (forall i :: i in rowIDs ==> |rowIDs[i]| <= |ids|)
    }

    /** New() */
    constructor (w: Width)
      ensures Valid() && W == w
      ensures ids == [] && rowIDs == map[] && columns == [] && translate == null && rowIDSets == map[]
      ensures fresh(frags)
    {
      W := w;
      ids := [];
      rowIDs := map[];
      columns := [];
      translate := null;
      frags := new Fragments();
      rowIDSets := map[];
    }

    method Reset()
      modifies this
      ensures Valid() && fresh(frags)
      ensures ids == [] && rowIDs == map[] && columns == [] && translate == null && rowIDSets == map[]
    {
      frags := new Fragments();
      ids := [];
      rowIDs := map[];
      rowIDSets := map[];
      columns := [];
      translate := null;
    }

    method WithTranslator(t: TestTranslator?) returns (r: Batch)
      modifies this
      ensures r == this && translate == t
      ensures ids == old(ids) && rowIDs == old(rowIDs) && columns == old(columns)
      ensures frags == old(frags) && rowIDSets == old(rowIDSets)
    {
      translate := t;
      r := this;
    }

    method WithColumns(cols: seq<u64>) returns (r: Batch)
      modifies this
      ensures r == this && columns == cols
      ensures ids == old(ids) && rowIDs == old(rowIDs) && translate == old(translate)
      ensures frags == old(frags) && rowIDSets == old(rowIDSets)
    {
      columns := cols;
      r := this;
    }

    /** Appends the record's id and, for each value i, pads slot i with the nil sentinel
        up to the record's position and appends the value's translated row id. A record
        without values only appends its id, and needs no translator. */
    method Add(record: Row)
      requires Valid()
      requires |record.values| <= |record.columns|
      requires |record.values| > 0 ==> translate != null && translate.Valid() && |translate.t| + |record.values| <= MaxInt
      modifies this, translate
      ensures translate == old(translate) && Valid()
      ensures ids == old(ids) + [record.id]
      ensures columns == old(columns) && frags == old(frags) && rowIDSets == old(rowIDSets)
      ensures |record.values| == 0 ==> rowIDs == old(rowIDs) && (translate != null ==> translate.t == old(translate.t))
      ensures |record.values| > 0 ==> (
        && translate.Valid()
        && var tr := Translations(old(translate.t), record.columns, record.values, |record.values|);
           translate.t == tr.1 && rowIDs == AddedRows(old(rowIDs), tr.0, |old(ids)|))
    {
      ghost var rows0 := rowIDs;
      ids := ids + [record.id];
      AddValues(record.columns, record.values, |ids| - 1);
      if |record.values| > 0 {
        AddedRowsLengths(rows0, Translations(old(translate.t), record.columns, record.values, |record.values|).0, |ids| - 1);
      }
    }

    /** The loop of Add over the record's values, at record position curPos; there is
        nothing to do, and no translator is called, when there are no values. */
    method AddValues(cols: seq<u64>, values: seq<seq<u8>>, curPos: nat)
      requires |values| <= |cols|
      requires |values| > 0 ==> translate != null && translate.Valid() && |translate.t| + |values| <= MaxInt
      modifies this, translate
      ensures translate == old(translate)
      ensures ids == old(ids) && columns == old(columns) && frags == old(frags) && rowIDSets == old(rowIDSets)
      ensures |values| == 0 ==> rowIDs == old(rowIDs) && (translate != null ==> translate.t == old(translate.t))
      ensures |values| > 0 ==> (
        && translate.Valid()
        && var tr := Translations(old(translate.t), cols, values, |values|);
           translate.t == tr.1 && rowIDs == AddedRows(old(rowIDs), tr.0, curPos))
    {
      if |values| == 0 {
        return;
      }
      ghost var t0 := translate.t;
      ghost var rows0 := rowIDs;
      ghost var acc: seq<u64> := [];
      for i := 0 to |values|
        invariant translate == old(translate) && translate.Valid()
        invariant ids == old(ids) && columns == old(columns) && frags == old(frags) && rowIDSets == old(rowIDSets)
        invariant acc == Translations(t0, cols, values, i).0
        invariant translate.t == Translations(t0, cols, values, i).1
        invariant rowIDs == AddedRows(rows0, acc, curPos)
      {
        ghost var d, before := translate.t, rowIDs;
        var rowID := AddValue(i, curPos, cols[i], values[i]);
        TranslationsStep(t0, cols, values, i, acc, d, rowID, translate.t);
        AddedRowsStep(rows0, acc, rowID, curPos, before, rowIDs);
        acc := acc + [rowID];
      }
    }

    /** One value of Add: pads slot i with the nil sentinel up to the record's
        position, translates the value and appends its row id. */
    method AddValue(i: nat, curPos: nat, column: u64, value: seq<u8>) returns (rowID: u64)
      requires translate != null && translate.Valid()
      requires Key(column, value) in translate.t || |translate.t| < MaxInt
      modifies this, translate
      ensures translate == old(translate) && translate.Valid()
      ensures (rowID, translate.t) == Translated(old(translate.t), column, value)
      ensures rowIDs == AppendAt(old(rowIDs), i, curPos, rowID)
      ensures ids == old(ids) && columns == old(columns)
      ensures frags == old(frags) && rowIDSets == old(rowIDSets)
    {
      PadSlot(i, curPos);
      var slot := SlotOf(rowIDs, i);
      rowID := translate.Translate(column, value);
      rowIDs := rowIDs[i := slot + [rowID]];
    }

    /** The padding loop of Add: slot i gets the nil sentinel appended until it is n
        long; the other slots stay. */
    method PadSlot(i: nat, n: nat)
      modifies this
      ensures SlotOf(rowIDs, i) == Padded(SlotOf(old(rowIDs), i), n)
      ensures |SlotOf(old(rowIDs), i)| < n ==> rowIDs == old(rowIDs)[i := SlotOf(rowIDs, i)]
      ensures |SlotOf(old(rowIDs), i)| >= n ==> rowIDs == old(rowIDs)
      ensures ids == old(ids) && columns == old(columns) && translate == old(translate)
      ensures frags == old(frags) && rowIDSets == old(rowIDSets)
    {
      ghost var before := rowIDs;
      while |SlotOf(rowIDs, i)| < n
        invariant Padded(SlotOf(rowIDs, i), n) == Padded(SlotOf(before, i), n)
        invariant rowIDs == before || (|SlotOf(before, i)| < n && rowIDs == before[i := SlotOf(rowIDs, i)])
        invariant ids == old(ids) && columns == old(columns) && translate == old(translate)
        invariant frags == old(frags) && rowIDSets == old(rowIDSets)
        decreases n - |SlotOf(rowIDs, i)|
      {
        rowIDs := rowIDs[i := SlotOf(rowIDs, i) + [NilSentinel]];
      }
    }

    /** Returns the fragments the collected records amount to and leaves the batch with
        an empty store; the collected records stay. */
    method Build() returns (o: Fragments)
      requires Valid() && ColumnsCover(rowIDs, columns)
      modifies this, frags
      ensures Valid() && fresh(frags) && o == old(frags)
      ensures ids == old(ids) && rowIDs == old(rowIDs) && columns == old(columns)
      ensures translate == old(translate) && rowIDSets == old(rowIDSets)
      ensures o.m == Built(ids, rowIDs, columns, rowIDSets, W)
    {
      o := MakeFragments();
      frags := new Fragments();
    }

    /** Runs the existence pass, one pass per written single-value slot and one pass per
        multi-value field, on the current store. */
    method MakeFragments() returns (o: Fragments)
      requires ColumnsCover(rowIDs, columns)
      modifies frags
      ensures o == frags
      ensures frags.m == Merge(old(frags.m), UnionPasses(ids, W, AllPasses(ids, rowIDs, columns, rowIDSets, W)))
    {
      ghost var st0 := frags.m;
      NoPasses(st0, ids, W);
      FillExistence();
      RunAfter(st0, ids, W, {}, ExistencePass(ids, W), st0, frags.m);
      ghost var first: set<Pass> := {ExistencePass(ids, W)};
      assert {} + first == first;
      FillAllRowIDs(st0, first);
      ghost var second := first + RowIDsPasses(ids, rowIDs, columns, W, rowIDs.Keys);
      FillAllRowIDSets(st0, second);
      o := frags;
    }

    /** The single-value passes of makeFragments: one per slot with row ids, in any
        order, after the passes done. */
    method FillAllRowIDs(ghost st0: Store, ghost done: set<Pass>)
      requires ColumnsCover(rowIDs, columns)
      requires frags.m == Merge(st0, UnionPasses(ids, W, done))
      modifies frags
      ensures frags.m == Merge(st0, UnionPasses(ids, W, done + RowIDsPasses(ids, rowIDs, columns, W, rowIDs.Keys)))
    {
      var keys := rowIDs.Keys;
      ghost var seen: set<nat> := {};
      assert RowIDsPasses(ids, rowIDs, columns, W, seen) == {};
      assert done + {} == done;
      while keys != {}
        invariant keys + seen == rowIDs.Keys && keys !! seen
        invariant frags.m == Merge(st0, UnionPasses(ids, W, done + RowIDsPasses(ids, rowIDs, columns, W, seen)))
        decreases keys
      {
        var i :| i in keys;
        var rows := rowIDs[i];
        ghost var before := frags.m;
        if |rows| != 0 {
          FillRowIDs(i, rows);
        }
        AfterSlot(st0, ids, W, rowIDs, columns, done, seen, i, before, frags.m);
        keys := keys - {i};
        seen := seen + {i};
      }
    }

    /** The multi-value passes of makeFragments: one per field with sets, in any order,
        after the passes done. */
    method FillAllRowIDSets(ghost st0: Store, ghost done: set<Pass>)
      requires frags.m == Merge(st0, UnionPasses(ids, W, done))
      modifies frags
      ensures frags.m == Merge(st0, UnionPasses(ids, W, done + RowIDSetsPasses(ids, rowIDSets, W, rowIDSets.Keys)))
    {
      var fields := rowIDSets.Keys;
      ghost var seen: set<u64> := {};
      assert RowIDSetsPasses(ids, rowIDSets, W, seen) == {};
      assert done + {} == done;
      while fields != {}
        invariant fields + seen == rowIDSets.Keys && fields !! seen
        invariant frags.m == Merge(st0, UnionPasses(ids, W, done + RowIDSetsPasses(ids, rowIDSets, W, seen)))
        decreases fields
      {
        var f :| f in fields;
        var sets := rowIDSets[f];
        ghost var before := frags.m;
        if |sets| != 0 {
          FillRowIDSets(f, sets);
        }
        AfterField(st0, ids, W, rowIDSets, done, seen, f, before, frags.m);
        fields := fields - {f};
        seen := seen + {f};
      }
    }

    /** The shard cache of a pass: when record position col lies in another shard than
        the cached one, look up (or create) the standard view of (shard, field) and
        cache it; otherwise keep the cached bitmap. Either way the store is as after a
        GetOrCreate of that view. */
    method Lookup(curShard: u64, curBM: Option<BitmapRef>, col: u64, field: u64) returns (shard: u64, bm: Option<BitmapRef>)
      requires curShard != MaxU64 ==> Cached(frags.m, curBM, FragmentKey(curShard, field))
      modifies frags
      ensures shard == ShardOf(col, W) && Cached(frags.m, bm, FragmentKey(shard, field))
      ensures frags.m == Put(old(frags.m), FragmentKey(shard, field), {})
    {
      ShardNeverSentinel(col, W);
      shard, bm := curShard, curBM;
      if ShardOf(col, W) != curShard {
        shard := ShardOf(col, W);
        var ref := frags.GetOrCreate(shard, field, Standard);
        bm := Some(ref);
        GetOrCreateIsPut(old(frags.m), FragmentKey(shard, field));
      } else {
        PutNothingPresent(frags.m, FragmentKey(shard, field));
      }
    }

    /** The existence pass: each record's offset in the Exists fragment of its shard,
        looking the bitmap up again only when the shard changes. */
    method FillExistence()
      modifies frags
      ensures frags.m == PassRun(old(frags.m), ids, W, ExistencePass(ids, W), |ids|)
    {
      ghost var st0 := frags.m;
      ghost var p := ExistencePass(ids, W);
      var curBM: Option<BitmapRef> := None;
      var curShard: u64 := MaxU64;
      for j := 0 to |ids|
        invariant frags.m == PassRun(st0, ids, W, p, j)
        invariant curShard != MaxU64 ==> Cached(frags.m, curBM, FragmentKey(curShard, Exists))
      {
        var col := ids[j];
        ghost var key := FragmentKey(ShardOf(col, W), Exists);
        curShard, curBM := Lookup(curShard, curBM, col, Exists);
        ghost var mid := frags.m;
        frags.DirectAdd(curBM.value, InShard(col, W));
        AddBitIsPut(mid, key, InShard(col, W));
        RunStep(st0, ids, W, p, j, mid, frags.m);
      }
    }

    /** Sets the bit of one record's row id, unless it is the nil sentinel, in the
        cached bitmap. */
    method AddRowID(bm: Option<BitmapRef>, key: FragmentKey, row: u64, col: u64)
      requires Cached(frags.m, bm, key)
      modifies frags
      ensures Cached(frags.m, bm, key)
      ensures frags.m == Put(old(frags.m), key, if row != NilSentinel then {BitPos(row, col, W)} else {})
    {
      if row != NilSentinel {
        AddBitIsPut(frags.m, key, BitPos(row, col, W));
        frags.DirectAdd(bm.value, BitPos(row, col, W));
      } else {
        PutNothingPresent(frags.m, key);
      }
    }

    /** The pass over single-value slot i: each record's row id, unless it is the nil
        sentinel, in the fragment of column i; positions past the end of the slot count
        as nil. */
    method FillRowIDs(i: nat, rows: seq<u64>)
      requires i < |columns|
      modifies frags
      ensures frags.m == PassRun(old(frags.m), ids, W, RowIDsPass(columns[i], ids, rows, W), |ids|)
    {
      ghost var st0 := frags.m;
      var field := columns[i];
      ghost var p := RowIDsPass(field, ids, rows, W);
      var curShard: u64 := MaxU64;
      var curBM: Option<BitmapRef> := None;
      for j := 0 to |ids|
        invariant frags.m == PassRun(st0, ids, W, p, j)
        invariant curShard != MaxU64 ==> Cached(frags.m, curBM, FragmentKey(curShard, field))
      {
        var col := ids[j];
        var row := if j < |rows| then rows[j] else NilSentinel;
        var key := FragmentKey(ShardOf(col, W), field);
        curShard, curBM := Lookup(curShard, curBM, col, field);
        ghost var mid := frags.m;
        RowIDsPassAt(field, ids, rows, W, j);
        AddRowID(curBM, key, row, col);
        RunStep(st0, ids, W, p, j, mid, frags.m);
      }
    }

    /** The pass over multi-value field f: every row id of each record's set, in the
        fragment of f. A list of sets shorter than the records is extended with empty
        sets first. */
    method FillRowIDSets(f: u64, sets0: seq<seq<u64>>)
      modifies frags
      ensures frags.m == PassRun(old(frags.m), ids, W, RowIDSetsPass(f, ids, sets0, W), |ids|)
    {
      ghost var st0 := frags.m;
      ghost var p := RowIDSetsPass(f, ids, sets0, W);
      var sets := Resliced(sets0, |ids|);
      var curShard: u64 := MaxU64;
      var curBM: Option<BitmapRef> := None;
      for j := 0 to |ids|
        invariant frags.m == PassRun(st0, ids, W, p, j)
        invariant curShard != MaxU64 ==> Cached(frags.m, curBM, FragmentKey(curShard, f))
      {
        var col, rows := ids[j], sets[j];
        RowIDSetsPassAt(f, ids, sets0, W, j);
        var key := FragmentKey(ShardOf(col, W), f);
        curShard, curBM := Lookup(curShard, curBM, col, f);
        ghost var mid := frags.m;
        AddRowSet(curBM, key, rows, col);
        RunStep(st0, ids, W, p, j, mid, frags.m);
      }
    }

    /** Sets one bit per row id of a record's set in the cached bitmap. */
    method AddRowSet(bm: Option<BitmapRef>, key: FragmentKey, rows: seq<u64>, col: u64)
      requires Cached(frags.m, bm, key)
      modifies frags
      ensures Cached(frags.m, bm, key)
      ensures frags.m == Put(old(frags.m), key, RowBits(rows, col, W))
    {
      ghost var st0 := frags.m;
      PutNothingPresent(st0, key);
      assert RowBits(rows[..0], col, W) == {};
      for k := 0 to |rows|
        invariant Cached(frags.m, bm, key)
        invariant frags.m == Put(st0, key, RowBits(rows[..k], col, W))
      {
        ghost var cur := frags.m;
        AddBitIsPut(cur, key, BitPos(rows[k], col, W));
        frags.DirectAdd(bm.value, BitPos(rows[k], col, W));
        PutPut(st0, key, RowBits(rows[..k], col, W), {BitPos(rows[k], col, W)});
        RowBitsStep(rows, k, col, W);
      }
      assert rows[..|rows|] == rows;
    }
  }
}
