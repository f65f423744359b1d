/** What the fragments built from a batch contain: which keys exist, which views they
    have, and which bits are set, stated directly in terms of the record ids, the
    single-value slots and the multi-value fields. */
module BuildProperties {
  import opened Words
  import opened Encoding
  import opened FragmentStore
  import opened Layers
  import opened Batches

  /** Where a bit x of record j in the fragments of field can come from: the
      existence pass, a single-value slot written to that column, or the multi-value
      list of that field. */
  predicate BitFrom(ids: seq<u64>, rowIDs: map<nat, seq<u64>>, columns: seq<u64>,
                    rowIDSets: map<u64, seq<seq<u64>>>, w: Width, field: u64, j: nat, x: u64)
    requires j < |ids|
  {
    || (field == Exists && x == InShard(ids[j], w))
    || (exists i :: i in rowIDs && i < |columns| && columns[i] == field && j < |rowIDs[i]|
                    && rowIDs[i][j] != NilSentinel && x == BitPos(rowIDs[i][j], ids[j], w))
    || (field in rowIDSets && j < |rowIDSets[field]|
        && exists r :: r in rowIDSets[field][j] && x == BitPos(r, ids[j], w))
  }

  /** A field some pass of the build writes to: the existence field, the column of a
      slot with row ids, or a multi-value field with sets. */
  predicate Written(rowIDs: map<nat, seq<u64>>, columns: seq<u64>, rowIDSets: map<u64, seq<seq<u64>>>, field: u64)
  {
    || field == Exists
    || (exists i :: i in rowIDs && i < |columns| && rowIDs[i] != [] && columns[i] == field)
    || (field in rowIDSets && rowIDSets[field] != [])
  }

  /** Neither a slot's column nor a multi-value field is the existence field. */
  predicate NoExistsField(rowIDs: map<nat, seq<u64>>, columns: seq<u64>, rowIDSets: map<u64, seq<seq<u64>>>)
  {
    && (forall i :: i in rowIDs && i < |columns| && rowIDs[i] != [] ==> columns[i] != Exists)
    && (Exists in rowIDSets ==> rowIDSets[Exists] == [])
  }

  /** The offsets the existence bitmap of shard s should hold. */
  function ExistenceBits(ids: seq<u64>, w: Width, s: u64): set<u64>
  {
    set id | id in ids && ShardOf(id, w) == s :: InShard(id, w)
  }

  /** The distinct record ids in shard s. */
  function IdsInShard(ids: seq<u64>, w: Width, s: u64): set<u64>
  {
    set id | id in ids && ShardOf(id, w) == s
  }

  /** Every built key has exactly the standard view, holding the bits every pass
      together sets at that key. */
  lemma BuiltAt(ids: seq<u64>, rowIDs: map<nat, seq<u64>>, columns: seq<u64>,
                rowIDSets: map<u64, seq<seq<u64>>>, w: Width, k: FragmentKey)
    requires ColumnsCover(rowIDs, columns)
    ensures var b := Built(ids, rowIDs, columns, rowIDSets, w);
            var ps := AllPasses(ids, rowIDs, columns, rowIDSets, w);
            && (k in b <==> k in UnionKeys(ids, w, ps))
            && (k in b ==> b[k] == map[Standard := UnionBits(ids, w, ps, k)])
  {
    var ps := AllPasses(ids, rowIDs, columns, rowIDSets, w);
    var l := UnionPasses(ids, w, ps);
    if k in l {
      assert ViewsAt(map[], k) == map[];
      assert {} + l[k] == l[k];
    }
  }

  /** The passes the build runs, one by one. */
  lemma AllPassesMembers(ids: seq<u64>, rowIDs: map<nat, seq<u64>>, columns: seq<u64>,
                         rowIDSets: map<u64, seq<seq<u64>>>, w: Width, p: Pass)
    requires ColumnsCover(rowIDs, columns)
    ensures p in AllPasses(ids, rowIDs, columns, rowIDSets, w) <==>
      || p == ExistencePass(ids, w)
      || (exists i :: i in rowIDs && rowIDs[i] != [] && p == RowIDsPass(columns[i], ids, rowIDs[i], w))
      || (exists f :: f in rowIDSets && rowIDSets[f] != [] && p == RowIDSetsPass(f, ids, rowIDSets[f], w))
  {
  }

  /** The keys of the built fragments: one per shard that holds a record and per
      field some pass writes to. A key exists even when its pass sets no bit in it
      (every record looks its bitmap up). */
  lemma BuiltKeys(ids: seq<u64>, rowIDs: map<nat, seq<u64>>, columns: seq<u64>,
                  rowIDSets: map<u64, seq<seq<u64>>>, w: Width, k: FragmentKey)
    requires ColumnsCover(rowIDs, columns)
    ensures k in Built(ids, rowIDs, columns, rowIDSets, w) <==>
      && (exists j :: 0 <= j < |ids| && ShardOf(ids[j], w) == k.shard)
      && Written(rowIDs, columns, rowIDSets, k.field)
  {
    var ps := AllPasses(ids, rowIDs, columns, rowIDSets, w);
    BuiltAt(ids, rowIDs, columns, rowIDSets, w, k);
    if k in UnionKeys(ids, w, ps) {
      var p, j :| p in ps && 0 <= j < |ids| && k == FragmentKey(ShardOf(ids[j], w), p.field);
      AllPassesMembers(ids, rowIDs, columns, rowIDSets, w, p);
    }
    if (exists j :: 0 <= j < |ids| && ShardOf(ids[j], w) == k.shard) && Written(rowIDs, columns, rowIDSets, k.field) {
      var j :| 0 <= j < |ids| && ShardOf(ids[j], w) == k.shard;
      var p: Pass;
      if k.field == Exists {
        p := ExistencePass(ids, w);
      } else if exists i :: i in rowIDs && i < |columns| && rowIDs[i] != [] && columns[i] == k.field {
        var i :| i in rowIDs && i < |columns| && rowIDs[i] != [] && columns[i] == k.field;
        p := RowIDsPass(columns[i], ids, rowIDs[i], w);
      } else {
        p := RowIDSetsPass(k.field, ids, rowIDSets[k.field], w);
      }
      AllPassesMembers(ids, rowIDs, columns, rowIDSets, w, p);
      assert k in UnionKeys(ids, w, ps) by {
        assert p in ps && k == FragmentKey(ShardOf(ids[j], w), p.field);
      }
    }
  }

  /** Without records the build produces no fragments. */
  lemma NoRecordsNoFragments(rowIDs: map<nat, seq<u64>>, columns: seq<u64>,
                             rowIDSets: map<u64, seq<seq<u64>>>, w: Width)
    requires ColumnsCover(rowIDs, columns)
    ensures Built([], rowIDs, columns, rowIDSets, w) == map[]
  {
    forall k | k in Built([], rowIDs, columns, rowIDSets, w)
      ensures false
    {
      BuiltKeys([], rowIDs, columns, rowIDSets, w, k);
    }
  }

  /** Soundness: every bit of a built fragment was set by a record of the fragment's
      shard, through the existence pass, a slot written to the fragment's column
      whose entry is not the nil sentinel, or a row id in the record's set of the
      fragment's field. In particular a sentinel entry, or a record past the end of a
      slot, sets nothing. */
  lemma BuiltBitSource(ids: seq<u64>, rowIDs: map<nat, seq<u64>>, columns: seq<u64>,
                       rowIDSets: map<u64, seq<seq<u64>>>, w: Width, k: FragmentKey, x: u64)
    requires ColumnsCover(rowIDs, columns)
    requires k in Built(ids, rowIDs, columns, rowIDSets, w)
    ensures Standard in Built(ids, rowIDs, columns, rowIDSets, w)[k]
    ensures x in Built(ids, rowIDs, columns, rowIDSets, w)[k][Standard] ==>
      exists j :: 0 <= j < |ids| && ShardOf(ids[j], w) == k.shard
                  && BitFrom(ids, rowIDs, columns, rowIDSets, w, k.field, j, x)
  {
    var ps := AllPasses(ids, rowIDs, columns, rowIDSets, w);
    BuiltAt(ids, rowIDs, columns, rowIDSets, w, k);
    if x in Built(ids, rowIDs, columns, rowIDSets, w)[k][Standard] {
      assert x in UnionBits(ids, w, ps, k);
      var p, j :| p in ps && p.field == k.field && 0 <= j < |ids| && j < |p.contrib|
                  && ShardOf(ids[j], w) == k.shard && x in p.contrib[j];
      AllPassesMembers(ids, rowIDs, columns, rowIDSets, w, p);
      if p == ExistencePass(ids, w) {
        assert BitFrom(ids, rowIDs, columns, rowIDSets, w, k.field, j, x);
      } else if exists i :: i in rowIDs && rowIDs[i] != [] && p == RowIDsPass(columns[i], ids, rowIDs[i], w) {
        var i :| i in rowIDs && rowIDs[i] != [] && p == RowIDsPass(columns[i], ids, rowIDs[i], w);
        RowIDsPassAt(columns[i], ids, rowIDs[i], w, j);
        assert BitFrom(ids, rowIDs, columns, rowIDSets, w, k.field, j, x);
      } else {
        var f :| f in rowIDSets && rowIDSets[f] != [] && p == RowIDSetsPass(f, ids, rowIDSets[f], w);
        RowIDSetsPassAt(f, ids, rowIDSets[f], w, j);
        assert j < |rowIDSets[f]|;
        var r :| r in rowIDSets[f][j] && x == BitPos(r, ids[j], w);
        assert BitFrom(ids, rowIDs, columns, rowIDSets, w, k.field, j, x);
      }
    }
  }

  /** The bit a pass sets for record j is in the built fragment of the record's shard
      and the pass's field. */
  lemma ContributionIsBuilt(ids: seq<u64>, rowIDs: map<nat, seq<u64>>, columns: seq<u64>,
                            rowIDSets: map<u64, seq<seq<u64>>>, w: Width, p: Pass, j: nat, x: u64)
    requires ColumnsCover(rowIDs, columns)
    requires p in AllPasses(ids, rowIDs, columns, rowIDSets, w)
    requires j < |ids| && j < |p.contrib| && x in p.contrib[j]
    ensures var b := Built(ids, rowIDs, columns, rowIDSets, w);
            var k := FragmentKey(ShardOf(ids[j], w), p.field);
            k in b && Standard in b[k] && x in b[k][Standard]
  {
    var ps := AllPasses(ids, rowIDs, columns, rowIDSets, w);
    var k := FragmentKey(ShardOf(ids[j], w), p.field);
    assert k in UnionKeys(ids, w, ps);
    assert x in UnionBits(ids, w, ps, k);
    BuiltAt(ids, rowIDs, columns, rowIDSets, w, k);
  }

  /** Completeness for single-value slots: the row id of record j in slot i, unless it
      is the nil sentinel, is set at rowID*W + id%W in the fragment of column i and the
      record's shard. */
  lemma RowIDBitSet(ids: seq<u64>, rowIDs: map<nat, seq<u64>>, columns: seq<u64>,
                    rowIDSets: map<u64, seq<seq<u64>>>, w: Width, i: nat, j: nat)
    requires ColumnsCover(rowIDs, columns)
    requires i in rowIDs && j < |ids| && j < |rowIDs[i]| && rowIDs[i][j] != NilSentinel
    ensures var b := Built(ids, rowIDs, columns, rowIDSets, w);
            var k := FragmentKey(ShardOf(ids[j], w), columns[i]);
            k in b && Standard in b[k] && BitPos(rowIDs[i][j], ids[j], w) in b[k][Standard]
  {
    var p := RowIDsPass(columns[i], ids, rowIDs[i], w);
    AllPassesMembers(ids, rowIDs, columns, rowIDSets, w, p);
    RowIDsPassAt(columns[i], ids, rowIDs[i], w, j);
    ContributionIsBuilt(ids, rowIDs, columns, rowIDSets, w, p, j, BitPos(rowIDs[i][j], ids[j], w));
  }

  /** Completeness for multi-value fields: every row id r in the set of record j of
      field f is set at r*W + id%W in the fragment of f and the record's shard. */
  lemma RowSetBitSet(ids: seq<u64>, rowIDs: map<nat, seq<u64>>, columns: seq<u64>,
                     rowIDSets: map<u64, seq<seq<u64>>>, w: Width, f: u64, j: nat, r: u64)
    requires ColumnsCover(rowIDs, columns)
    requires f in rowIDSets && j < |ids| && j < |rowIDSets[f]| && r in rowIDSets[f][j]
    ensures var b := Built(ids, rowIDs, columns, rowIDSets, w);
            var k := FragmentKey(ShardOf(ids[j], w), f);
            k in b && Standard in b[k] && BitPos(r, ids[j], w) in b[k][Standard]
  {
    var p := RowIDSetsPass(f, ids, rowIDSets[f], w);
    AllPassesMembers(ids, rowIDs, columns, rowIDSets, w, p);
    RowIDSetsPassAt(f, ids, rowIDSets[f], w, j);
    ContributionIsBuilt(ids, rowIDs, columns, rowIDSets, w, p, j, BitPos(r, ids[j], w));
  }

  /** The existence fragment of shard s exists exactly when some record lies in s, and,
      when no column is the existence field, it holds exactly the in-shard offsets of
      the records of s. */
  lemma ExistenceFragment(ids: seq<u64>, rowIDs: map<nat, seq<u64>>, columns: seq<u64>,
                          rowIDSets: map<u64, seq<seq<u64>>>, w: Width, s: u64)
    requires ColumnsCover(rowIDs, columns)
    ensures var b := Built(ids, rowIDs, columns, rowIDSets, w);
            FragmentKey(s, Exists) in b <==> exists j :: 0 <= j < |ids| && ShardOf(ids[j], w) == s
    ensures var b := Built(ids, rowIDs, columns, rowIDSets, w);
            FragmentKey(s, Exists) in b && NoExistsField(rowIDs, columns, rowIDSets) ==>
              b[FragmentKey(s, Exists)] == map[Standard := ExistenceBits(ids, w, s)]
  {
    var b := Built(ids, rowIDs, columns, rowIDSets, w);
    var k := FragmentKey(s, Exists);
    BuiltKeys(ids, rowIDs, columns, rowIDSets, w, k);
    if k in b && NoExistsField(rowIDs, columns, rowIDSets) {
      BuiltAt(ids, rowIDs, columns, rowIDSets, w, k);
      var bits := b[k][Standard];
      forall x | x in bits
        ensures x in ExistenceBits(ids, w, s)
      {
        BuiltBitSource(ids, rowIDs, columns, rowIDSets, w, k, x);
        var j :| 0 <= j < |ids| && ShardOf(ids[j], w) == s && BitFrom(ids, rowIDs, columns, rowIDSets, w, Exists, j, x);
        assert ids[j] in ids;
      }
      forall x | x in ExistenceBits(ids, w, s)
        ensures x in bits
      {
        var id :| id in ids && ShardOf(id, w) == s && x == InShard(id, w);
        var j :| 0 <= j < |ids| && ids[j] == id;
        var p := ExistencePass(ids, w);
        AllPassesMembers(ids, rowIDs, columns, rowIDSets, w, p);
        assert p.contrib[j] == {InShard(id, w)};
        ContributionIsBuilt(ids, rowIDs, columns, rowIDSets, w, p, j, x);
      }
      assert bits == ExistenceBits(ids, w, s);
    }
  }

  /** The bits slot rows should set in shard s: one per record of s whose entry
      exists and is not the nil sentinel. */
  function SlotBits(ids: seq<u64>, rows: seq<u64>, w: Width, s: u64): set<u64>
  {
    set j | 0 <= j < |ids| && j < |rows| && rows[j] != NilSentinel && ShardOf(ids[j], w) == s
      :: BitPos(rows[j], ids[j], w)
  }

  /** The bits the multi-value list sets should set in shard s: one per row id of each
      record's set. */
  function SetBits(ids: seq<u64>, sets: seq<seq<u64>>, w: Width, s: u64): set<u64>
  {
    set j, r | 0 <= j < |ids| && j < |sets| && r in sets[j] && ShardOf(ids[j], w) == s
      :: BitPos(r, ids[j], w)
  }

  /** Field c is written by slot i alone. */
  predicate OnlySlot(rowIDs: map<nat, seq<u64>>, columns: seq<u64>, rowIDSets: map<u64, seq<seq<u64>>>, i: nat)
    requires ColumnsCover(rowIDs, columns) && i in rowIDs && rowIDs[i] != []
  {
    && columns[i] != Exists
    && (forall i' :: i' in rowIDs && i' < |columns| && i' != i && rowIDs[i'] != [] ==> columns[i'] != columns[i])
    && (columns[i] in rowIDSets ==> rowIDSets[columns[i]] == [])
  }

  /** Field f is written by its multi-value list alone. */
  predicate OnlySets(rowIDs: map<nat, seq<u64>>, columns: seq<u64>, f: u64)
  {
    && f != Exists
    && (forall i :: i in rowIDs && i < |columns| && rowIDs[i] != [] ==> columns[i] != f)
  }

  /** A single-value fragment whose column no other pass writes holds exactly the
      bits of its slot: rowID*W + id%W for every record of the shard, none for a nil
      sentinel entry or a record past the end of the slot. */
  lemma SingleValueFragment(ids: seq<u64>, rowIDs: map<nat, seq<u64>>, columns: seq<u64>,
                            rowIDSets: map<u64, seq<seq<u64>>>, w: Width, i: nat, s: u64)
    requires ColumnsCover(rowIDs, columns) && i in rowIDs && rowIDs[i] != []
    requires OnlySlot(rowIDs, columns, rowIDSets, i)
    requires FragmentKey(s, columns[i]) in Built(ids, rowIDs, columns, rowIDSets, w)
    ensures Built(ids, rowIDs, columns, rowIDSets, w)[FragmentKey(s, columns[i])]
         == map[Standard := SlotBits(ids, rowIDs[i], w, s)]
  {
    var b := Built(ids, rowIDs, columns, rowIDSets, w);
    var k := FragmentKey(s, columns[i]);
    var rows := rowIDs[i];
    BuiltAt(ids, rowIDs, columns, rowIDSets, w, k);
    var bits := b[k][Standard];
    forall x | x in bits
      ensures x in SlotBits(ids, rows, w, s)
    {
      BuiltBitSource(ids, rowIDs, columns, rowIDSets, w, k, x);
      var j :| 0 <= j < |ids| && ShardOf(ids[j], w) == s && BitFrom(ids, rowIDs, columns, rowIDSets, w, k.field, j, x);
      var i' :| i' in rowIDs && i' < |columns| && columns[i'] == k.field && j < |rowIDs[i']|
                && rowIDs[i'][j] != NilSentinel && x == BitPos(rowIDs[i'][j], ids[j], w);
      assert i' == i;
    }
    forall x | x in SlotBits(ids, rows, w, s)
      ensures x in bits
    {
      var j :| 0 <= j < |ids| && j < |rows| && rows[j] != NilSentinel && ShardOf(ids[j], w) == s
               && x == BitPos(rows[j], ids[j], w);
      RowIDBitSet(ids, rowIDs, columns, rowIDSets, w, i, j);
    }
    assert bits == SlotBits(ids, rows, w, s);
  }

  /** A multi-value fragment whose field no other pass writes holds exactly one bit
      per row id in the sets of the records of the shard; records past the end of the
      list have the empty set. */
  lemma MultiValueFragment(ids: seq<u64>, rowIDs: map<nat, seq<u64>>, columns: seq<u64>,
                           rowIDSets: map<u64, seq<seq<u64>>>, w: Width, f: u64, s: u64)
    requires ColumnsCover(rowIDs, columns) && f in rowIDSets
    requires OnlySets(rowIDs, columns, f)
    requires FragmentKey(s, f) in Built(ids, rowIDs, columns, rowIDSets, w)
    ensures Built(ids, rowIDs, columns, rowIDSets, w)[FragmentKey(s, f)]
         == map[Standard := SetBits(ids, rowIDSets[f], w, s)]
  {
    var b := Built(ids, rowIDs, columns, rowIDSets, w);
    var k := FragmentKey(s, f);
    var sets := rowIDSets[f];
    BuiltAt(ids, rowIDs, columns, rowIDSets, w, k);
    var bits := b[k][Standard];
    forall x | x in bits
      ensures x in SetBits(ids, sets, w, s)
    {
      BuiltBitSource(ids, rowIDs, columns, rowIDSets, w, k, x);
      var j :| 0 <= j < |ids| && ShardOf(ids[j], w) == s && BitFrom(ids, rowIDs, columns, rowIDSets, w, f, j, x);
      var r :| r in sets[j] && x == BitPos(r, ids[j], w);
    }
    forall x | x in SetBits(ids, sets, w, s)
      ensures x in bits
    {
      var j, r :| 0 <= j < |ids| && j < |sets| && r in sets[j] && ShardOf(ids[j], w) == s
                  && x == BitPos(r, ids[j], w);
      RowSetBitSet(ids, rowIDs, columns, rowIDSets, w, f, j, r);
    }
    assert bits == SetBits(ids, sets, w, s);
  }

  /** Below the wrap bound, every bit of such a single-value fragment decodes back to
      a record of the shard and its row id: dividing by W gives the row id, and the
      remainder is the record's offset in the shard. */
  lemma SingleValueBitDecodes(ids: seq<u64>, rowIDs: map<nat, seq<u64>>, columns: seq<u64>,
                              rowIDSets: map<u64, seq<seq<u64>>>, w: Width, i: nat, s: u64, x: u64)
    requires ColumnsCover(rowIDs, columns) && i in rowIDs && rowIDs[i] != []
    requires OnlySlot(rowIDs, columns, rowIDSets, i)
    requires forall j :: 0 <= j < |rowIDs[i]| && rowIDs[i][j] != NilSentinel ==> rowIDs[i][j] < TWO64 / w
    requires FragmentKey(s, columns[i]) in Built(ids, rowIDs, columns, rowIDSets, w)
    requires x in Built(ids, rowIDs, columns, rowIDSets, w)[FragmentKey(s, columns[i])][Standard]
    ensures exists j :: 0 <= j < |ids| && j < |rowIDs[i]| && ShardOf(ids[j], w) == s
                        && x / w == rowIDs[i][j] && x % w == InShard(ids[j], w)
  {
    var rows := rowIDs[i];
    SingleValueFragment(ids, rowIDs, columns, rowIDSets, w, i, s);
    assert x in SlotBits(ids, rows, w, s);
    var j :| 0 <= j < |ids| && j < |rows| && rows[j] != NilSentinel && ShardOf(ids[j], w) == s
             && x == BitPos(rows[j], ids[j], w);
    BitPosRoundTrip(rows[j], ids[j], w);
  }

  /** Within one shard, the offset determines the record id. */
  lemma InShardInjective(a: u64, c: u64, w: Width)
    requires ShardOf(a, w) == ShardOf(c, w) && InShard(a, w) == InShard(c, w)
    ensures a == c
  {
    ColumnDecomposes(a, w);
    ColumnDecomposes(c, w);
  }

  /** The offsets of a set of ids of one shard are as many as the ids. */
  lemma {:induction false} OffsetsCard(a: set<u64>, w: Width, s: u64)
    requires forall id :: id in a ==> ShardOf(id, w) == s
    ensures |set id | id in a :: InShard(id, w)| == |a|
  {
    if a != {} {
      var id :| id in a;
      var rest := a - {id};
      OffsetsCard(rest, w, s);
      var small := set c | c in rest :: InShard(c, w);
      var big := set c | c in a :: InShard(c, w);
      assert big == small + {InShard(id, w)};
      assert InShard(id, w) !in small by {
        forall c | c in rest
          ensures InShard(c, w) != InShard(id, w)
        {
          if InShard(c, w) == InShard(id, w) {
            InShardInjective(c, id, w);
          }
        }
      }
    }
  }

  /** The existence bitmap of a shard counts the distinct record ids in it. */
  lemma ExistenceCount(ids: seq<u64>, w: Width, s: u64)
    ensures |ExistenceBits(ids, w, s)| == |IdsInShard(ids, w, s)|
  {
    var a := IdsInShard(ids, w, s);
    OffsetsCard(a, w, s);
    assert ExistenceBits(ids, w, s) == set id | id in a :: InShard(id, w);
  }

  /** A two-record batch with W = 16: records 12 (shard 0) and 19 = W+3 (shard 1).
      Single-value slot 0 writes column 1 and holds rows 5 and 9; multi-value field 2
      has no set for record 12 and the set {1, 2} for record 19. */
  const SceneIds: seq<u64> := [12, 19]
  const SceneRows: map<nat, seq<u64>> := map[0 := [5, 9]]
  const SceneColumns: seq<u64> := [1]
  const SceneSets: map<u64, seq<seq<u64>>> := map[2 := [[], [1, 2]]]
  const SceneWidth: Width := 16

  function SceneBuilt(): Store
  {
    Built(SceneIds, SceneRows, SceneColumns, SceneSets, SceneWidth)
  }

  /** Each of the four (shard, field) pairs of the two-record batch gets a fragment. */
  lemma SceneKey(k: FragmentKey)
    requires k.shard <= 1 && 1 <= k.field <= 2
    ensures k in SceneBuilt()
  {
    BuiltKeys(SceneIds, SceneRows, SceneColumns, SceneSets, SceneWidth, k);
    var j := k.shard;
    assert ShardOf(SceneIds[j], SceneWidth) == k.shard;
    if k.field == 1 {
      assert Written(SceneRows, SceneColumns, SceneSets, k.field) by {
        assert 0 in SceneRows && 0 < |SceneColumns| && SceneRows[0] != [] && SceneColumns[0] == k.field;
      }
    }
  }

  lemma SceneSlotBits()
    ensures SlotBits(SceneIds, SceneRows[0], SceneWidth, 0) == {92}
    ensures SlotBits(SceneIds, SceneRows[0], SceneWidth, 1) == {147}
  {
    var rows := SceneRows[0];
    assert rows == [5, 9] && SceneIds[0] == 12 && SceneIds[1] == 19;
    assert ShardOf(12, SceneWidth) == 0 && ShardOf(19, SceneWidth) == 1;
    assert BitPos(5, 12, SceneWidth) == 92 && BitPos(9, 19, SceneWidth) == 147;
    forall s: u64 | s <= 1
      ensures SlotBits(SceneIds, rows, SceneWidth, s) == {BitPos(rows[s], SceneIds[s], SceneWidth)}
    {
      var bits := SlotBits(SceneIds, rows, SceneWidth, s);
      assert BitPos(rows[s], SceneIds[s], SceneWidth) in bits;
      forall x | x in bits
        ensures x == BitPos(rows[s], SceneIds[s], SceneWidth)
      {
        var j :| 0 <= j < |SceneIds| && j < |rows| && rows[j] != NilSentinel && ShardOf(SceneIds[j], SceneWidth) == s
                 && x == BitPos(rows[j], SceneIds[j], SceneWidth);
        assert j == s;
      }
    }
  }

  lemma SceneSetBits()
    ensures SetBits(SceneIds, SceneSets[2], SceneWidth, 0) == {}
    ensures SetBits(SceneIds, SceneSets[2], SceneWidth, 1) == {19, 35}
  {
    var sets := SceneSets[2];
    assert ShardOf(12, SceneWidth) == 0 && ShardOf(19, SceneWidth) == 1;
    assert BitPos(1, 19, SceneWidth) == 19 && BitPos(2, 19, SceneWidth) == 35;
    assert 1 in sets[1] && 2 in sets[1];
  }

  lemma SceneSingle()
    ensures var b := SceneBuilt();
      && FragmentKey(0, 1) in b && b[FragmentKey(0, 1)] == map[Standard := {92}]
      && FragmentKey(1, 1) in b && b[FragmentKey(1, 1)] == map[Standard := {147}]
  {
    SceneKey(FragmentKey(0, 1));
    SceneKey(FragmentKey(1, 1));
    assert OnlySlot(SceneRows, SceneColumns, SceneSets, 0);
    SingleValueFragment(SceneIds, SceneRows, SceneColumns, SceneSets, SceneWidth, 0, 0);
    SingleValueFragment(SceneIds, SceneRows, SceneColumns, SceneSets, SceneWidth, 0, 1);
    SceneSlotBits();
  }

  lemma SceneMulti()
    ensures var b := SceneBuilt();
      && FragmentKey(1, 2) in b && b[FragmentKey(1, 2)] == map[Standard := {19, 35}]
      && FragmentKey(0, 2) in b && b[FragmentKey(0, 2)] == map[Standard := {}]
  {
    SceneKey(FragmentKey(0, 2));
    SceneKey(FragmentKey(1, 2));
    assert OnlySets(SceneRows, SceneColumns, 2);
    MultiValueFragment(SceneIds, SceneRows, SceneColumns, SceneSets, SceneWidth, 2, 0);
    MultiValueFragment(SceneIds, SceneRows, SceneColumns, SceneSets, SceneWidth, 2, 1);
    SceneSetBits();
  }

  /** The two-record batch: the single-value bits land at 5*16+12 in shard 0 and
      9*16+3 in shard 1, the set bits at 1*16+3 and 2*16+3 in shard 1, and shard 0
      gets a fragment of field 2 with an empty bitmap, because the pass looked its
      bitmap up for record 12 although it set no bit there. */
  lemma SceneFragments()
    ensures var b := SceneBuilt();
      && FragmentKey(0, 1) in b && b[FragmentKey(0, 1)] == map[Standard := {92}]
      && FragmentKey(1, 1) in b && b[FragmentKey(1, 1)] == map[Standard := {147}]
      && FragmentKey(1, 2) in b && b[FragmentKey(1, 2)] == map[Standard := {19, 35}]
      && FragmentKey(0, 2) in b && b[FragmentKey(0, 2)] == map[Standard := {}]
  {
    SceneSingle();
    SceneMulti();
  }
}
