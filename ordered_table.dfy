/**
 * A byte-keyed table and the order in which Badger's iterator visits it:
 * every key once, in ascending `bytes.Compare` order.
 */
module OrderedTable {
  import opened Octets

  type Table = map<Bytes, Bytes>

  predicate IsLeast(k: Bytes, keys: set<Bytes>) {
    k in keys && forall j :: j in keys ==> LexLe(k, j)
  }

  ghost predicate StrictlyAscending(ks: seq<Bytes>) {
    forall i, j :: 0 <= i < j < |ks| ==> LexLt(ks[i], ks[j])
  }

  /** Every finite non-empty key set has a least key. */
  lemma {:induction false} LeastExists(keys: set<Bytes>)
    requires keys != {}
    ensures exists k :: IsLeast(k, keys)
    decreases |keys|
  {
    var x :| x in keys;
    LexLeReflexive(x);
    if keys == {x} {
      assert IsLeast(x, keys);
    } else {
      LeastExists(keys - {x});
      var y :| IsLeast(y, keys - {x});
      LexLeTotal(x, y);
      if LexLe(x, y) {
        forall j | j in keys
          ensures LexLe(x, j)
        {
          if j != x {
            LexLeTransitive(x, y, j);
          }
        }
        assert IsLeast(x, keys);
      } else {
        assert IsLeast(y, keys);
      }
    }
  }

  lemma LeastUnique(k1: Bytes, k2: Bytes, keys: set<Bytes>)
    requires IsLeast(k1, keys) && IsLeast(k2, keys)
    ensures k1 == k2
  {
    LexLeAntisymmetric(k1, k2);
  }

  ghost function Least(keys: set<Bytes>): (k: Bytes)
    requires keys != {}
    ensures IsLeast(k, keys)
  {
    LeastExists(keys);
    var k :| IsLeast(k, keys);
    k
  }

  /** The keys of a table in the order the iterator yields them. */
  ghost function Ascending(keys: set<Bytes>): (ks: seq<Bytes>)
    ensures |ks| == |keys|
    decreases |keys|
  {
    if keys == {} then [] else var k := Least(keys); [k] + Ascending(keys - {k})
  }

  lemma {:induction false} AscendingMembers(keys: set<Bytes>)
    ensures forall k :: k in Ascending(keys) <==> k in keys
    decreases |keys|
  {
    if keys != {} {
      AscendingMembers(keys - {Least(keys)});
    }
  }

  lemma {:induction false} AscendingSorted(keys: set<Bytes>)
    ensures StrictlyAscending(Ascending(keys))
    decreases |keys|
  {
    if keys != {} {
      var k := Least(keys);
      AscendingSorted(keys - {k});
      AscendingMembers(keys - {k});
      var rest := Ascending(keys - {k});
      assert forall j :: j in rest ==> LexLt(k, j);
    }
  }

  /** Positions the iterator on the least key not yet visited. */
  method FirstKey(keys: set<Bytes>) returns (k: Bytes)
    requires keys != {}
    ensures IsLeast(k, keys)
    ensures k == Least(keys)
  {
    LeastExists(keys);
    k :| IsLeast(k, keys);
    LeastUnique(k, Least(keys), keys);
  }

  /** The iterator's listing starts with the least key and continues with the listing of the others. */
  lemma AscendingFirst(keys: set<Bytes>, k: Bytes)
    requires IsLeast(k, keys)
    ensures Ascending(keys) == [k] + Ascending(keys - {k})
  {
    LeastUnique(k, Least(keys), keys);
  }

  /** Any strictly ascending listing of a key set is the iterator's listing. */
  lemma {:induction false} AscendingUnique(ks: seq<Bytes>, keys: set<Bytes>)
    requires StrictlyAscending(ks)
    requires forall k :: k in ks <==> k in keys
    ensures ks == Ascending(keys)
    decreases |ks|
  {
    AscendingMembers(keys);
    if ks == [] {
      assert keys == {};
    } else {
      var k := ks[0];
      assert k in keys;
      forall j | j in keys
        ensures LexLe(k, j)
      {
        var i :| 0 <= i < |ks| && ks[i] == j;
        if i == 0 {
          LexLeReflexive(k);
        }
      }
      LeastUnique(k, Least(keys), keys);
      assert k !in ks[1..] by {
        forall i | 1 <= i < |ks|
          ensures ks[i] != k
        {
          assert LexLt(ks[0], ks[i]);
        }
      }
      assert forall j :: j in ks[1..] <==> j in keys - {k} by {
        forall j
          ensures j in ks[1..] <==> j in keys - {k}
        {
          assert j in ks <==> j == k || j in ks[1..];
        }
      }
      AscendingUnique(ks[1..], keys - {k});
      assert ks == [k] + ks[1..];
    }
  }

  /** The table after writing each key-value pair in turn, later writes winning. */
  function PutAll(t: Table, ks: seq<Bytes>, vs: seq<Bytes>): (r: Table)
    requires |ks| == |vs|
    decreases |ks|
  {
    if ks == [] then t
    else var n := |ks| - 1; PutAll(t, ks[..n], vs[..n])[ks[n] := vs[n]]
  }

  /** Writing distinct keys: each holds its own value, the key set grows by exactly them, other keys are untouched. */
  lemma {:induction false} PutAllContents(t: Table, ks: seq<Bytes>, vs: seq<Bytes>)
    requires |ks| == |vs|
    requires forall i, j :: 0 <= i < j < |ks| ==> ks[i] != ks[j]
    ensures forall k :: k in PutAll(t, ks, vs) <==> k in t || k in ks
    ensures forall i :: 0 <= i < |ks| ==> PutAll(t, ks, vs)[ks[i]] == vs[i]
    ensures forall k :: k in t && k !in ks ==> PutAll(t, ks, vs)[k] == t[k]
    decreases |ks|
  {
    if ks != [] {
      var n := |ks| - 1;
      PutAllContents(t, ks[..n], vs[..n]);
      assert ks == ks[..n] + [ks[n]];
      forall i | 0 <= i < n
        ensures PutAll(t, ks, vs)[ks[i]] == vs[i]
      {
        assert ks[i] != ks[n] && ks[..n][i] == ks[i] && vs[..n][i] == vs[i];
      }
    }
  }
}
