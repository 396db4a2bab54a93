/**
 * A Python `dict` with string keys as the scripts use it: `d[k] = v`
 * overwrites the value of a present key in place and appends a new key at
 * the end, and `d.values()` iterates in first-insertion order.
 */
module OrderedMaps {
  import opened Wrappers

  /** No key occurs twice in `keys`. */
  ghost predicate Distinct(keys: seq<string>) {
    forall i, j :: 0 <= i < j < |keys| ==> keys[i] != keys[j]
  }

  datatype OrderedMap<V> = OrderedMap(keys: seq<string>, entries: map<string, V>) {

    /** The key order lists every key of `entries` exactly once. */
    ghost predicate Valid() {
      Distinct(keys) && (forall k :: k in entries <==> k in keys)
    }

    /** `d[k] = v`. */
    function Put(k: string, v: V): (m: OrderedMap<V>)
      requires Valid()
      ensures m.Valid()
      ensures m.entries.Keys == entries.Keys + {k} && m.entries[k] == v
      ensures forall k' :: k' in entries && k' != k ==> m.entries[k'] == entries[k']
      ensures |keys| <= |m.keys| && m.keys[..|keys|] == keys
      ensures |m.keys| == if k in entries then |keys| else |keys| + 1
    {
      if k in entries then OrderedMap(keys, entries[k := v])
      else
        var m := OrderedMap(keys + [k], entries[k := v]);
        assert m.keys[..|keys|] == keys;
        m
    }

    /** `list(d.values())`: the values in key order. */
    function Values(): (vs: seq<V>)
      requires Valid()
      ensures |vs| == |keys|
      ensures forall i :: 0 <= i < |keys| ==> vs[i] == entries[keys[i]]
    {
      seq(|keys|, i requires 0 <= i < |keys| => entries[keys[i]])
    }
  }

  /** `{}`. */
  function Empty<V>(): (m: OrderedMap<V>)
    ensures m.Valid() && m.keys == [] && m.entries == map[]
  {
    OrderedMap([], map[])
  }

  /** `len(d)`: the number of distinct keys. */
  lemma {:induction false} DistinctCardinality(keys: seq<string>)
    requires Distinct(keys)
    ensures |set k | k in keys| == |keys|
  {
    if keys != [] {
      var init := keys[..|keys| - 1];
      var last := keys[|keys| - 1];
      assert keys == init + [last];
      DistinctCardinality(init);
      assert (set k | k in keys) == (set k | k in init) + {last};
      assert last !in (set k | k in init);
    }
  }

  /**
   * A sequence of `d[k] = v` statements run from `{}`; `None` is a step that
   * assigns nothing (a line the caller's loop skips).
   */
  function Assign<V>(ops: seq<Option<(string, V)>>): (m: OrderedMap<V>)
    ensures m.Valid()
  {
    if ops == [] then Empty()
    else
      var prev := Assign(ops[..|ops| - 1]);
      var op := ops[|ops| - 1];
      if op.None? then prev else prev.Put(op.value.0, op.value.1)
  }

  /** Running one more step of a prefix. */
  lemma AssignStep<V>(ops: seq<Option<(string, V)>>, n: nat)
    requires n < |ops|
    ensures Assign(ops[..n + 1]) ==
      if ops[n].None? then Assign(ops[..n]) else Assign(ops[..n]).Put(ops[n].value.0, ops[n].value.1)
  {
    assert ops[..n + 1][..n] == ops[..n];
  }

  /** The keys some step assigns. */
  ghost function AssignedKeys<V>(ops: seq<Option<(string, V)>>): set<string> {
    set i | 0 <= i < |ops| && ops[i].Some? :: ops[i].value.0
  }

  /** Some step before `j` assigns key `k`. */
  ghost predicate AssignedBefore<V>(ops: seq<Option<(string, V)>>, k: string, j: int) {
    exists i :: 0 <= i < j && i < |ops| && ops[i].Some? && ops[i].value.0 == k
  }

  /** The keys assigned by a prefix, extended by the last step's. */
  lemma AssignedKeysSnoc<V>(ops: seq<Option<(string, V)>>)
    requires ops != []
    ensures var n := |ops| - 1;
      AssignedKeys(ops) == AssignedKeys(ops[..n]) + (if ops[n].Some? then {ops[n].value.0} else {})
  {
    var n := |ops| - 1;
    var init := ops[..n];
    assert forall i :: 0 <= i < n ==> init[i] == ops[i];
  }

  /** The dict holds exactly the keys some step assigns. */
  lemma {:induction false} AssignKeys<V>(ops: seq<Option<(string, V)>>)
    ensures Assign(ops).entries.Keys == AssignedKeys(ops)
  {
    if ops != [] {
      AssignKeys(ops[..|ops| - 1]);
      AssignedKeysSnoc(ops);
    }
  }

  /** `len(d)` is the number of distinct keys assigned. */
  lemma AssignCount<V>(ops: seq<Option<(string, V)>>)
    ensures |Assign(ops).keys| == |AssignedKeys(ops)|
  {
    var m := Assign(ops);
    AssignKeys(ops);
    DistinctCardinality(m.keys);
    assert (set k | k in m.keys) == m.entries.Keys;
  }

  /** A last step that does not assign `k` leaves the value of `k` as it was. */
  lemma AssignOtherKey<V>(ops: seq<Option<(string, V)>>, k: string)
    requires ops != [] && k in Assign(ops[..|ops| - 1]).entries
    requires ops[|ops| - 1].Some? ==> ops[|ops| - 1].value.0 != k
    ensures k in Assign(ops).entries
    ensures Assign(ops).entries[k] == Assign(ops[..|ops| - 1]).entries[k]
  {
  }

  /** Last write wins: a key holds the value of the last step that assigns it. */
  lemma {:induction false} AssignLastWins<V>(ops: seq<Option<(string, V)>>, j: nat)
    requires j < |ops| && ops[j].Some?
    requires forall i :: j < i < |ops| && ops[i].Some? ==> ops[i].value.0 != ops[j].value.0
    ensures ops[j].value.0 in Assign(ops).entries
    ensures Assign(ops).entries[ops[j].value.0] == ops[j].value.1
  {
    var n := |ops| - 1;
    if j < n {
      var init := ops[..n];
      assert init[j] == ops[j];
      forall i | j < i < n && init[i].Some? ensures init[i].value.0 != init[j].value.0 {
        assert init[i] == ops[i];
      }
      AssignLastWins(init, j);
      AssignOtherKey(ops, ops[j].value.0);
    } else {
      assert Assign(ops) == Assign(ops[..n]).Put(ops[n].value.0, ops[n].value.1);
    }
  }

  /** A step before `j` in a prefix is a step before `j` in the whole. */
  lemma AssignedBeforeExtend<V>(ops: seq<Option<(string, V)>>, n: nat, k: string, j: int)
    requires n <= |ops| && j <= n && AssignedBefore(ops[..n], k, j)
    ensures AssignedBefore(ops, k, j)
  {
    var i :| 0 <= i < j && ops[..n][i].Some? && ops[..n][i].value.0 == k;
    assert ops[..n][i] == ops[i];
  }

  /**
   * Keys are kept in order of first assignment: of two keys, the earlier one
   * is assigned by some step before every step that assigns the later one.
   */
  lemma {:induction false} AssignFirstSeenOrder<V>(ops: seq<Option<(string, V)>>)
    ensures var keys := Assign(ops).keys;
      forall p, q, j :: 0 <= p < q < |keys| && 0 <= j < |ops| && ops[j].Some? && ops[j].value.0 == keys[q] ==>
        AssignedBefore(ops, keys[p], j)
  {
    if ops != [] {
      var n := |ops| - 1;
      var init := ops[..n];
      AssignFirstSeenOrder(init);
      AssignKeys(init);
      var m0 := Assign(init);
      var k0 := m0.keys;
      var keys := Assign(ops).keys;
      assert keys[..|k0|] == k0;
      forall p, q, j | 0 <= p < q < |keys| && 0 <= j < |ops| && ops[j].Some? && ops[j].value.0 == keys[q]
        ensures AssignedBefore(ops, keys[p], j)
      {
        assert keys[p] == k0[p];
        if j < n {
          assert init[j] == ops[j];
          assert keys[q] in AssignedKeys(init);
          assert keys[q] in k0;
          var qi :| 0 <= qi < |k0| && k0[qi] == keys[q];
          assert keys[qi] == keys[q];
          assert qi == q;
          assert AssignedBefore(init, k0[p], j);
          AssignedBeforeExtend(ops, n, keys[p], j);
        } else if keys[q] in m0.entries {
          var qi :| 0 <= qi < |k0| && k0[qi] == keys[q];
          assert keys[qi] == keys[q];
          assert qi == q;
          var i :| 0 <= i < n && init[i].Some? && init[i].value.0 == keys[q];
          assert AssignedBefore(init, k0[p], i);
          AssignedBeforeExtend(ops, n, keys[p], i);
        } else {
          assert k0[p] in AssignedKeys(init);
          var i :| 0 <= i < n && init[i].Some? && init[i].value.0 == k0[p];
          assert AssignedBefore(init, k0[p], n);
          AssignedBeforeExtend(ops, n, keys[p], n);
        }
      }
    }
  }

  /** Every stored value was assigned to its key by some step. */
  lemma {:induction false} AssignValuesFrom<V>(ops: seq<Option<(string, V)>>, k: string)
    requires k in Assign(ops).entries
    ensures exists i :: 0 <= i < |ops| && ops[i] == Some((k, Assign(ops).entries[k]))
  {
    var n := |ops| - 1;
    var init := ops[..n];
    if ops[n].Some? && ops[n].value.0 == k {
      assert ops[n] == Some((k, Assign(ops).entries[k]));
    } else {
      AssignValuesFrom(init, k);
      var i :| 0 <= i < n && init[i] == Some((k, Assign(init).entries[k]));
      assert ops[i] == init[i];
    }
  }
}
