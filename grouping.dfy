/**
 * The split step of a group-by: readings are gathered into groups, one per
 * key that occurs, listed in ascending key order (pandas' `groupby` sorts
 * its keys by default), each group holding the SCADAVALUEs of its readings
 * in input order.
 */
module Grouping {
  import opened Readings

  datatype Group = Group(key: Key, values: seq<real>)

  /**
   * Reference definition of a bucket: the values of the readings of `rs`
   * whose key is `k`, in input order.
   */
  function Bucket(kind: Kind, rs: seq<Reading>, k: Key): seq<real>
  {
    if rs == [] then []
    else
      var r := rs[|rs| - 1];
      Bucket(kind, rs[..|rs| - 1], k) + (if KeyOf(kind, r) == k then [r.scadaValue] else [])
  }

  /** The positions of the readings whose key is `k`. */
  ghost function Positions(kind: Kind, rs: seq<Reading>, k: Key): set<int>
  {
    set i | 0 <= i < |rs| && KeyOf(kind, rs[i]) == k
  }

  /** The keys that occur in some reading. */
  ghost function ReadingKeys(kind: Kind, rs: seq<Reading>): set<Key>
  {
    set i | 0 <= i < |rs| :: KeyOf(kind, rs[i])
  }

  /** The keys of a list of groups. */
  ghost function GroupKeys(gs: seq<Group>): set<Key>
  {
    set i | 0 <= i < |gs| :: gs[i].key
  }

  /** The group keys are strictly ascending, so no key has two groups. */
  predicate Ascending(gs: seq<Group>)
  {
    forall i, j :: 0 <= i < j < |gs| ==> KeyLess(gs[i].key, gs[j].key)
  }

  predicate NoEmptyGroup(gs: seq<Group>)
  {
    forall i :: 0 <= i < |gs| ==> gs[i].values != []
  }

  /** The number of values held by all groups together. */
  function Size(gs: seq<Group>): nat
  {
    if gs == [] then 0 else |gs[0].values| + Size(gs[1..])
  }

  /** The values of the first group with key `k`; none if there is no such group. */
  function Lookup(gs: seq<Group>, k: Key): seq<real>
  {
    if gs == [] then []
    else if gs[0].key == k then gs[0].values
    else Lookup(gs[1..], k)
  }

  /** Adds value `v` under key `k`: appended to the group of `k`, or in a new group at its place in key order. */
  function AddTo(gs: seq<Group>, k: Key, v: real): seq<Group>
  {
    if gs == [] then [Group(k, [v])]
    else if gs[0].key == k then [Group(k, gs[0].values + [v])] + gs[1..]
    else if KeyLess(k, gs[0].key) then [Group(k, [v])] + gs
    else [gs[0]] + AddTo(gs[1..], k, v)
  }

  /** Groups the readings of `rs` by their key under `kind`, one reading after the other. */
  function GroupBy(kind: Kind, rs: seq<Reading>): seq<Group>
  {
    if rs == [] then []
    else
      var r := rs[|rs| - 1];
      AddTo(GroupBy(kind, rs[..|rs| - 1]), KeyOf(kind, r), r.scadaValue)
  }

  /** A bucket holds one value per reading with its key. */
  lemma {:induction false} BucketSize(kind: Kind, rs: seq<Reading>, k: Key)
    ensures |Bucket(kind, rs, k)| == |Positions(kind, rs, k)|
  {
    if rs != [] {
      var n := |rs| - 1;
      BucketSize(kind, rs[..n], k);
      if KeyOf(kind, rs[n]) == k {
        assert Positions(kind, rs, k) == Positions(kind, rs[..n], k) + {n};
      } else {
        assert Positions(kind, rs, k) == Positions(kind, rs[..n], k);
      }
    }
  }

  /** A bucket holds exactly the values of the readings with its key. */
  lemma {:induction false} BucketMembers(kind: Kind, rs: seq<Reading>, k: Key, v: real)
    ensures v in Bucket(kind, rs, k) <==> exists i :: 0 <= i < |rs| && KeyOf(kind, rs[i]) == k && rs[i].scadaValue == v
  {
    if rs != [] {
      var n := |rs| - 1;
      BucketMembers(kind, rs[..n], k, v);
      if v in Bucket(kind, rs[..n], k) {
        var i :| 0 <= i < n && KeyOf(kind, rs[..n][i]) == k && rs[..n][i].scadaValue == v;
        assert rs[i] == rs[..n][i];
      }
      if exists i :: 0 <= i < |rs| && KeyOf(kind, rs[i]) == k && rs[i].scadaValue == v {
        var i :| 0 <= i < |rs| && KeyOf(kind, rs[i]) == k && rs[i].scadaValue == v;
        if i < n {
          assert rs[..n][i] == rs[i];
        }
      }
    }
  }

  lemma GroupKeysCons(gs: seq<Group>)
    requires gs != []
    ensures GroupKeys(gs) == {gs[0].key} + GroupKeys(gs[1..])
  {
    forall k | k in GroupKeys(gs) ensures k in {gs[0].key} + GroupKeys(gs[1..]) {
      var i :| 0 <= i < |gs| && gs[i].key == k;
      if i > 0 {
        assert gs[1..][i - 1] == gs[i];
      }
    }
    forall k | k in GroupKeys(gs[1..]) ensures k in GroupKeys(gs) {
      var i :| 0 <= i < |gs| - 1 && gs[1..][i].key == k;
      assert gs[i + 1] == gs[1..][i];
    }
  }

  lemma {:induction false} LookupAbsent(gs: seq<Group>, k: Key)
    requires k !in GroupKeys(gs)
    ensures Lookup(gs, k) == []
  {
    if gs != [] {
      GroupKeysCons(gs);
      LookupAbsent(gs[1..], k);
    }
  }

  /** In an ascending list, looking up a group's key finds that group. */
  lemma {:induction false} LookupAt(gs: seq<Group>, p: int)
    requires Ascending(gs) && 0 <= p < |gs|
    ensures Lookup(gs, gs[p].key) == gs[p].values
  {
    if p > 0 {
      KeyLessIrreflexive(gs[0].key);
      assert Ascending(gs[1..]);
      LookupAt(gs[1..], p - 1);
      assert gs[1..][p - 1] == gs[p];
    }
  }

  /** Adding a value adds its key to the keys and one value to the size, and keeps every group non-empty. */
  lemma {:induction false} AddToKeysAndSize(gs: seq<Group>, k: Key, v: real)
    ensures GroupKeys(AddTo(gs, k, v)) == GroupKeys(gs) + {k}
    ensures Size(AddTo(gs, k, v)) == Size(gs) + 1
    ensures NoEmptyGroup(gs) ==> NoEmptyGroup(AddTo(gs, k, v))
  {
    var res := AddTo(gs, k, v);
    GroupKeysCons(res);
    if gs != [] {
      GroupKeysCons(gs);
      if gs[0].key == k {
        assert res[1..] == gs[1..];
      } else if KeyLess(k, gs[0].key) {
        assert res[1..] == gs;
      } else {
        AddToKeysAndSize(gs[1..], k, v);
        assert res[1..] == AddTo(gs[1..], k, v);
      }
    }
  }

  /** Every key of an ascending list that is below its first key is absent from it. */
  lemma BelowFirstIsAbsent(gs: seq<Group>, k: Key)
    requires Ascending(gs) && gs != [] && KeyLess(k, gs[0].key)
    ensures forall j :: 0 <= j < |gs| ==> KeyLess(k, gs[j].key)
    ensures k !in GroupKeys(gs)
  {
    forall j | 0 <= j < |gs| ensures KeyLess(k, gs[j].key) {
      if j > 0 {
        KeyLessTransitive(k, gs[0].key, gs[j].key);
      }
    }
    if k in GroupKeys(gs) {
      var j :| 0 <= j < |gs| && gs[j].key == k;
      KeyLessIrreflexive(k);
      assert false;
    }
  }

  /** A group whose key is below every key of an ascending list can be put in front of it. */
  lemma ConsAscending(g: Group, gs: seq<Group>)
    requires Ascending(gs)
    requires forall j :: 0 <= j < |gs| ==> KeyLess(g.key, gs[j].key)
    ensures Ascending([g] + gs)
  {
    var res := [g] + gs;
    forall i, j | 0 <= i < j < |res| ensures KeyLess(res[i].key, res[j].key) {
      assert res[j] == gs[j - 1];
      if i > 0 {
        assert res[i] == gs[i - 1];
      }
    }
  }

  /** A lower bound of all keys and of `k` stays a lower bound of all keys after adding under `k`. */
  lemma {:induction false} AddToBounded(gs: seq<Group>, k: Key, v: real, lo: Key)
    requires forall j :: 0 <= j < |gs| ==> KeyLess(lo, gs[j].key)
    requires KeyLess(lo, k)
    ensures forall j :: 0 <= j < |AddTo(gs, k, v)| ==> KeyLess(lo, AddTo(gs, k, v)[j].key)
  {
    var res := AddTo(gs, k, v);
    if gs != [] && gs[0].key != k && !KeyLess(k, gs[0].key) {
      AddToBounded(gs[1..], k, v, lo);
      assert forall j :: 1 <= j < |res| ==> res[j] == AddTo(gs[1..], k, v)[j - 1];
    }
  }

  /** Adding a value keeps the groups in ascending key order. */
  lemma {:induction false} AddToAscending(gs: seq<Group>, k: Key, v: real)
    requires Ascending(gs)
    ensures Ascending(AddTo(gs, k, v))
  {
    if gs != [] {
      if gs[0].key == k {
        var res := AddTo(gs, k, v);
        assert forall i :: 0 <= i < |res| ==> res[i].key == gs[i].key;
      } else if KeyLess(k, gs[0].key) {
        BelowFirstIsAbsent(gs, k);
        ConsAscending(Group(k, [v]), gs);
      } else {
        KeyLessTotal(k, gs[0].key);
        assert Ascending(gs[1..]);
        AddToAscending(gs[1..], k, v);
        AddToBounded(gs[1..], k, v, gs[0].key);
        ConsAscending(gs[0], AddTo(gs[1..], k, v));
      }
    }
  }

  /** Adding `v` under `k` appends `v` to what `k` looks up and changes no other key's values. */
  lemma {:induction false} AddToLookup(gs: seq<Group>, k: Key, v: real, k': Key)
    requires Ascending(gs)
    ensures Lookup(AddTo(gs, k, v), k') == Lookup(gs, k') + (if k' == k then [v] else [])
  {
    var res := AddTo(gs, k, v);
    if gs != [] {
      if gs[0].key == k {
        assert res[1..] == gs[1..];
      } else if KeyLess(k, gs[0].key) {
        BelowFirstIsAbsent(gs, k);
        LookupAbsent(gs, k);
        assert res[1..] == gs;
      } else {
        assert Ascending(gs[1..]);
        AddToLookup(gs[1..], k, v, k');
        assert res[1..] == AddTo(gs[1..], k, v);
      }
    }
  }

  /**
   * The groups of `rs` are ascending and non-empty, their keys are the keys
   * that occur in `rs`, they hold |rs| values together, and the group of
   * each key holds exactly that key's bucket.
   */
  lemma {:induction false} GroupByProperties(kind: Kind, rs: seq<Reading>)
    ensures Ascending(GroupBy(kind, rs)) && NoEmptyGroup(GroupBy(kind, rs))
    ensures GroupKeys(GroupBy(kind, rs)) == ReadingKeys(kind, rs)
    ensures Size(GroupBy(kind, rs)) == |rs|
    ensures forall k :: Lookup(GroupBy(kind, rs), k) == Bucket(kind, rs, k)
  {
    if rs == [] {
      assert ReadingKeys(kind, rs) == {};
    } else {
      var n := |rs| - 1;
      GroupByProperties(kind, rs[..n]);
      var gs, k, v := GroupBy(kind, rs[..n]), KeyOf(kind, rs[n]), rs[n].scadaValue;
      AddToKeysAndSize(gs, k, v);
      AddToAscending(gs, k, v);
      forall k' ensures Lookup(GroupBy(kind, rs), k') == Bucket(kind, rs, k') {
        AddToLookup(gs, k, v, k');
      }
      assert ReadingKeys(kind, rs) == ReadingKeys(kind, rs[..n]) + {KeyOf(kind, rs[n])} by {
        forall k | k in ReadingKeys(kind, rs) ensures k in ReadingKeys(kind, rs[..n]) + {KeyOf(kind, rs[n])} {
          var i :| 0 <= i < |rs| && KeyOf(kind, rs[i]) == k;
          if i < n {
            assert rs[..n][i] == rs[i];
          }
        }
        forall k | k in ReadingKeys(kind, rs[..n]) ensures k in ReadingKeys(kind, rs) {
          var i :| 0 <= i < n && KeyOf(kind, rs[..n][i]) == k;
          assert rs[i] == rs[..n][i];
        }
      }
    }
  }
}
