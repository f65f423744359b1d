/** The translator that turns a (column, value) pair into a row id: the dictionary
    implementation the batch is used with. A key seen before gets its old id back; a
    new key gets the next id, counting from 1. */
module TestTranslators {
  import opened Words

  /** A translation key. The source formats the column in decimal, a colon and the
      value in hexadecimal into one string; that format is injective, so the pair
      stands for it. */
  datatype Key = Key(column: u64, value: seq<u8>)

  type Dict = map<Key, u64>

  /** The ids handed out so far lie in 1..|t| and no two keys share one (there are as
      many ids as keys). */
  ghost predicate Dense(t: Dict)
  {
    (forall k :: k in t ==> 1 <= t[k] <= |t|) && |t.Values| == |t|
  }

  /** One translation on the dictionary as a value: the id and the new dictionary. */
  function Translated(t: Dict, column: u64, value: seq<u8>): (r: (u64, Dict))
    requires Key(column, value) in t || |t| < MaxInt
    ensures Key(column, value) in r.1 && r.1[Key(column, value)] == r.0
    ensures Key(column, value) in t ==> r.1 == t
    ensures Key(column, value) !in t ==> r.0 == |t| + 1 && r.1 == t[Key(column, value) := r.0]
  {
    var k := Key(column, value);
    if k in t then (t[k], t) else (|t| + 1, t[k := |t| + 1])
  }

  /** Translating keeps every key and its id and adds at most the one key. */
  lemma TranslatedKeeps(t: Dict, column: u64, value: seq<u8>)
    requires Key(column, value) in t || |t| < MaxInt
    ensures var r := Translated(t, column, value);
            && (forall k :: k in t ==> k in r.1 && r.1[k] == t[k])
            && r.1.Keys == t.Keys + {Key(column, value)}
            && (Key(column, value) !in t ==> |r.1| == |t| + 1)
  {
  }

  /** A map has no more values than keys. */
  lemma {:induction false} ValuesCard(t: Dict)
    ensures |t.Values| <= |t|
  {
    if |t| > 0 {
      var k :| k in t;
      var rest := t - {k};
      ValuesCard(rest);
      assert t.Values <= rest.Values + {t[k]} by {
        forall x | x in t.Values
          ensures x in rest.Values + {t[k]}
        {
          var k' :| k' in t && t[k'] == x;
          if k' != k {
            assert rest[k'] == x;
          }
        }
      }
    }
  }

  /** In a dense dictionary two keys never share an id. */
  lemma DenseInjective(t: Dict, k1: Key, k2: Key)
    requires Dense(t) && k1 in t && k2 in t && k1 != k2
    ensures t[k1] != t[k2]
  {
    var rest := t - {k1};
    assert rest.Keys == t.Keys - {k1};
    assert k2 in rest && rest[k2] == t[k2];
    ValuesCard(rest);
    assert t.Values == rest.Values + {t[k1]} by {
      forall x | x in t.Values
        ensures x in rest.Values + {t[k1]}
      {
        var k' :| k' in t && t[k'] == x;
        if k' != k1 {
          assert rest[k'] == x;
        }
      }
      forall x | x in rest.Values
        ensures x in t.Values
      {
        var k' :| k' in rest && rest[k'] == x;
        assert t[k'] == x;
      }
    }
  }

  /** Adding a key with a fresh id adds that id to the values. */
  lemma ValuesAdd(t: Dict, k: Key, v: u64)
    requires k !in t && v !in t.Values
    ensures t[k := v].Values == t.Values + {v}
  {
    var u := t[k := v];
    forall x | x in u.Values
      ensures x in t.Values + {v}
    {
      var k' :| k' in u && u[k'] == x;
      if k' != k {
        assert t[k'] == x;
      }
    }
    forall x | x in t.Values + {v}
      ensures x in u.Values
    {
      if x != v {
        var k' :| k' in t && t[k'] == x;
        assert u[k'] == x;
      } else {
        assert u[k] == x;
      }
    }
  }

  /** Translating keeps the dictionary dense, so the id returned is never 0 and
      never the nil sentinel. */
  lemma TranslatedDense(t: Dict, column: u64, value: seq<u8>)
    requires Dense(t) && |t| <= MaxInt && (Key(column, value) in t || |t| < MaxInt)
    ensures Dense(Translated(t, column, value).1)
    ensures 1 <= Translated(t, column, value).0 <= |Translated(t, column, value).1|
    ensures Translated(t, column, value).0 != NilSentinel
  {
    var k := Key(column, value);
    if k !in t {
      var n := |t| + 1;
      assert n !in t.Values by {
        forall k' | k' in t
          ensures t[k'] != n
        {
        }
      }
      ValuesAdd(t, k, n);
    }
  }

  /** Translating the same key a second time returns the same id and leaves the
      dictionary as it was. */
  lemma TranslateAgain(t: Dict, column: u64, value: seq<u8>)
    requires Key(column, value) in t || |t| < MaxInt
    ensures var r := Translated(t, column, value);
            Translated(r.1, column, value) == r
  {
  }

  /** Distinct keys in a dense dictionary have distinct ids; in particular the same
      value under two columns gets two ids. */
  lemma DistinctKeysDistinctIds(t: Dict, c1: u64, c2: u64, v1: seq<u8>, v2: seq<u8>)
    requires Dense(t) && |t| <= MaxInt && (Key(c1, v1) in t || |t| < MaxInt)
    requires var t1 := Translated(t, c1, v1).1; Key(c2, v2) in t1 || |t1| < MaxInt
    requires Key(c1, v1) != Key(c2, v2)
    ensures var r1 := Translated(t, c1, v1);
            Translated(r1.1, c2, v2).0 != r1.0
  {
    var r1 := Translated(t, c1, v1);
    TranslatedDense(t, c1, v1);
    var r2 := Translated(r1.1, c2, v2);
    TranslatedDense(r1.1, c2, v2);
    TranslatedKeeps(r1.1, c2, v2);
    DenseInjective(r2.1, Key(c1, v1), Key(c2, v2));
  }

  /** The ids 1..n. */
  function Ids(n: nat): (r: set<u64>)
    requires n < TWO64
    ensures forall i :: i in r <==> 1 <= i <= n
    ensures |r| == n
  {
    if n == 0 then {} else Ids(n - 1) + {n}
  }

  /** The ids of a dense dictionary are exactly 1..|t|. */
  lemma DenseValues(t: Dict)
    requires Dense(t)
    requires |t| <= MaxInt
    ensures t.Values == Ids(|t|)
  {
    var range := Ids(|t|);
    assert t.Values <= range;
    assert |range - t.Values| == 0;
  }

  /** The dictionary translator; its one field is the dictionary. */
  class TestTranslator {
    var t: Dict

    ghost predicate Valid()
      reads this
    {
      Dense(t) && |t| <= MaxInt
    }

    constructor ()
      ensures Valid() && t == map[]
    {
      t := map[];
    }

    method Translate(column: u64, value: seq<u8>) returns (a: u64)
      requires Valid() && (Key(column, value) in t || |t| < MaxInt)
      modifies this
      ensures Valid()
      ensures (a, t) == Translated(old(t), column, value)
      ensures a != 0 && a != NilSentinel
    {
      TranslatedDense(t, column, value);
      var k := Key(column, value);
      if k in t {
        a := t[k];
      } else {
        a := |t| + 1;
        t := t[k := a];
      }
    }
  }
}
