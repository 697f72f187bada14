/** A Python `dict` from strings to strings as a value: the keys in insertion
    order and the key-to-value map. Assigning to an existing key replaces its
    value but keeps its position; assigning to a new key appends it. */
module PyDict {

  datatype Dict = Dict(keys: seq<string>, values: map<string, string>)

  /** The keys are distinct and are exactly the keys of the map. */
  ghost predicate Valid(d: Dict)
  {
    && (forall i, j :: 0 <= i < j < |d.keys| ==> d.keys[i] != d.keys[j])
    && d.values.Keys == set k | k in d.keys
  }

  /** `{}` */
  function Empty(): (d: Dict)
    ensures Valid(d) && |d.keys| == 0 && d.values == map[]
  {
    Dict([], map[])
  }

  /** `len(d) == 0`, which is when `not d` holds in Python. */
  predicate IsEmpty(d: Dict)
  {
    |d.values| == 0
  }

  /** `d[k] = v` */
  function Put(d: Dict, k: string, v: string): Dict
  {
    if k in d.values then Dict(d.keys, d.values[k := v]) else Dict(d.keys + [k], d.values[k := v])
  }

  /** Assigning binds `k` to `v` and leaves every other key as it was; the
      existing keys keep their positions, and `k` is appended only if new. */
  lemma PutBinds(d: Dict, k: string, v: string)
    ensures Put(d, k, v).values == d.values[k := v]
    ensures |d.keys| <= |Put(d, k, v).keys| && Put(d, k, v).keys[..|d.keys|] == d.keys
    ensures k in d.values ==> Put(d, k, v).keys == d.keys
    ensures k !in d.values ==> Put(d, k, v).keys == d.keys + [k]
  {
  }

  /** Assigning keeps the keys distinct and in step with the map. */
  lemma PutKeepsValid(d: Dict, k: string, v: string)
    requires Valid(d)
    ensures Valid(Put(d, k, v))
  {
    if k !in d.values {
      var r := Put(d, k, v);
      assert r.keys[|d.keys|] == k;
      assert forall i :: 0 <= i < |d.keys| ==> r.keys[i] == d.keys[i];
    }
  }

  /** Assigning the same key twice is the second assignment alone: the key
      keeps the position of its first insertion and the last value wins. */
  lemma PutOverwrite(d: Dict, k: string, a: string, b: string)
    ensures Put(Put(d, k, a), k, b) == Put(d, k, b)
  {
    PutBinds(d, k, a);
    PutBinds(Put(d, k, a), k, b);
    PutBinds(d, k, b);
  }

  /** Reassigning a key its current value leaves the dictionary as it was. */
  lemma PutSameValue(d: Dict, k: string)
    requires k in d.values
    ensures Put(d, k, d.values[k]) == d
  {
    PutBinds(d, k, d.values[k]);
  }

  /** The dictionary built by assigning the pairs of `ps` one after the other,
      starting from `{}`. */
  function FromPairs(ps: seq<(string, string)>): Dict
  {
    if ps == [] then Empty()
    else
      var last := ps[|ps| - 1];
      Put(FromPairs(ps[..|ps| - 1]), last.0, last.1)
  }

  /** Every dictionary built by assignments satisfies the dictionary invariant. */
  lemma {:induction false} FromPairsValid(ps: seq<(string, string)>)
    ensures Valid(FromPairs(ps))
  {
    if ps != [] {
      var init, last := ps[..|ps| - 1], ps[|ps| - 1];
      FromPairsValid(init);
      PutKeepsValid(FromPairs(init), last.0, last.1);
    }
  }

  /** The index of the first pair of `ps` whose key is `k`. */
  function FirstIndex(ps: seq<(string, string)>, k: string): (i: nat)
    requires Assigns(ps, k)
    ensures i < |ps| && ps[i].0 == k
    ensures forall j :: 0 <= j < i ==> ps[j].0 != k
  {
    if ps[0].0 == k then 0
    else
      assert Assigns(ps[1..], k) by {
        var j :| 0 <= j < |ps| && ps[j].0 == k;
        assert ps[1..][j - 1].0 == k;
      }
      1 + FirstIndex(ps[1..], k)
  }

  /** A key is in the built dictionary exactly when some pair assigns it. */
  lemma {:induction false} FromPairsHasKey(ps: seq<(string, string)>, k: string)
    ensures k in FromPairs(ps).values <==> Assigns(ps, k)
  {
    if ps != [] {
      var init, last := ps[..|ps| - 1], ps[|ps| - 1];
      FromPairsLastHasKey(ps, k);
      FromPairsHasKey(init, k);
      if k in FromPairs(init).values {
        var j :| 0 <= j < |init| && init[j].0 == k;
        assert ps[j].0 == k;
      }
      if j :| 0 <= j < |ps| && ps[j].0 == k {
        if j < |init| {
          assert init[j].0 == k;
        }
      }
    }
  }

  /** The last pair adds its key to the keys assigned before it. */
  lemma FromPairsLastHasKey(ps: seq<(string, string)>, k: string)
    requires ps != []
    ensures var init, last := ps[..|ps| - 1], ps[|ps| - 1];
      k in FromPairs(ps).values <==> k == last.0 || k in FromPairs(init).values
  {
    var init, last := ps[..|ps| - 1], ps[|ps| - 1];
    assert FromPairs(ps) == Put(FromPairs(init), last.0, last.1);
    PutBinds(FromPairs(init), last.0, last.1);
  }

  /** The value of a key is the one given by the last pair that assigns it. */
  lemma {:induction false} FromPairsLastWins(ps: seq<(string, string)>, i: nat)
    requires i < |ps|
    requires forall j :: i < j < |ps| ==> ps[j].0 != ps[i].0
    ensures ps[i].0 in FromPairs(ps).values
    ensures FromPairs(ps).values[ps[i].0] == ps[i].1
  {
    var init, last := ps[..|ps| - 1], ps[|ps| - 1];
    FromPairsUnfold(ps);
    PutBinds(FromPairs(init), last.0, last.1);
    if i < |ps| - 1 {
      FromPairsLastWins(init, i);
    }
  }

  /** Some pair of `ps` assigns `k`. */
  predicate Assigns(ps: seq<(string, string)>, k: string)
  {
    exists j :: 0 <= j < |ps| && ps[j].0 == k
  }

  /** `x` and `y` are both assigned, `x` for the first time before `y`. */
  predicate FirstAssignedBefore(ps: seq<(string, string)>, x: string, y: string)
  {
    Assigns(ps, x) && Assigns(ps, y) && FirstIndex(ps, x) < FirstIndex(ps, y)
  }

  /** The keys of the built dictionary are listed in first-assignment order. */
  predicate KeysInFirstAssignmentOrder(ps: seq<(string, string)>)
  {
    var keys := FromPairs(ps).keys;
    forall a, b :: 0 <= a < b < |keys| ==> FirstAssignedBefore(ps, keys[a], keys[b])
  }

  /** The keys keep the order in which they were first assigned. */
  lemma {:induction false} FromPairsKeyOrder(ps: seq<(string, string)>)
    ensures KeysInFirstAssignmentOrder(ps)
  {
    if ps != [] {
      FromPairsKeyOrder(ps[..|ps| - 1]);
      forall a, b | 0 <= a < b < |FromPairs(ps).keys|
        ensures FirstAssignedBefore(ps, FromPairs(ps).keys[a], FromPairs(ps).keys[b])
      {
        KeyOrderStep(ps, a, b);
      }
    }
  }

  /** One pair of keys, given the order for all but the last pair. */
  lemma KeyOrderStep(ps: seq<(string, string)>, a: nat, b: nat)
    requires ps != []
    requires KeysInFirstAssignmentOrder(ps[..|ps| - 1])
    requires a < b < |FromPairs(ps).keys|
    ensures FirstAssignedBefore(ps, FromPairs(ps).keys[a], FromPairs(ps).keys[b])
  {
    var init, last := ps[..|ps| - 1], ps[|ps| - 1];
    var p, d := FromPairs(init), FromPairs(ps);
    FromPairsUnfold(ps);
    PutBinds(p, last.0, last.1);
    FromPairsValid(init);
    var x, y := d.keys[a], d.keys[b];
    assert x == p.keys[a];
    if b < |p.keys| {
      assert y == p.keys[b];
      assert FirstAssignedBefore(init, x, y);
      FirstIndexPrefix(ps, |ps| - 1, x);
      FirstIndexPrefix(ps, |ps| - 1, y);
    } else {
      // `y` was appended by the last pair, so no earlier pair assigns it
      assert last.0 !in p.values;
      assert d.keys == p.keys + [last.0];
      FromPairsHasKey(init, x);
      FromPairsHasKey(init, last.0);
      NewKeyComesLast(ps, x);
    }
  }

  /** A key assigned before the last pair, when the last pair's key is new,
      is first assigned before it. */
  lemma NewKeyComesLast(ps: seq<(string, string)>, x: string)
    requires ps != [] && Assigns(ps[..|ps| - 1], x)
    requires !Assigns(ps[..|ps| - 1], ps[|ps| - 1].0)
    ensures FirstAssignedBefore(ps, x, ps[|ps| - 1].0)
  {
    FirstIndexPrefix(ps, |ps| - 1, x);
    FirstIndexOfNewKey(ps, ps[|ps| - 1].0);
  }

  /** The last pair alone decides the dictionary built from `ps`, given the one built before it. */
  lemma FromPairsUnfold(ps: seq<(string, string)>)
    requires ps != []
    ensures FromPairs(ps) == Put(FromPairs(ps[..|ps| - 1]), ps[|ps| - 1].0, ps[|ps| - 1].1)
  {
  }

  /** A key that only the last pair assigns is first assigned there. */
  lemma FirstIndexOfNewKey(ps: seq<(string, string)>, k: string)
    requires ps != [] && ps[|ps| - 1].0 == k
    requires !Assigns(ps[..|ps| - 1], k)
    ensures Assigns(ps, k) && FirstIndex(ps, k) == |ps| - 1
  {
  }

  /** The first index of a key that already occurs in a prefix is found in that prefix. */
  lemma FirstIndexPrefix(ps: seq<(string, string)>, n: nat, k: string)
    requires n <= |ps|
    requires Assigns(ps[..n], k)
    ensures Assigns(ps, k)
    ensures FirstIndex(ps[..n], k) == FirstIndex(ps, k)
  {
    var j :| 0 <= j < n && ps[..n][j].0 == k;
    assert ps[j].0 == k;
    var x := FirstIndex(ps[..n], k);
    var y := FirstIndex(ps, k);
    assert ps[x].0 == k;
    assert x >= y;
    assert ps[..n][y].0 == k;
  }
}
