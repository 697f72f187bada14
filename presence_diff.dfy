/** Which clients count as connected: those seen in both the previous and the
    current scan whose last-seen time moved between the two. */
module PresenceDiff {
  import opened PyDict

  /** `k` is in both scans and its last-seen time differs. */
  predicate Changed(prev: Dict, cur: Dict, k: string)
  {
    k in cur.values && k in prev.values && cur.values[k] != prev.values[k]
  }

  /** The identifiers of `ks` that changed, in the order of `ks`. */
  function ChangedAmong(prev: Dict, cur: Dict, ks: seq<string>): seq<string>
  {
    if ks == [] then []
    else
      var k := ks[|ks| - 1];
      ChangedAmong(prev, cur, ks[..|ks| - 1]) + (if Changed(prev, cur, k) then [k] else [])
  }

  /** The changed identifiers, in the current scan's key order. */
  function Diff(prev: Dict, cur: Dict): seq<string>
  {
    ChangedAmong(prev, cur, cur.keys)
  }

  /** The loop over the current scan's keys, appending each one that the
      previous scan also holds with a different last-seen time. */
  method CalculateCurrentClients(prevData: Dict, newData: Dict) returns (currClients: seq<string>)
    requires Valid(newData)
    ensures currClients == Diff(prevData, newData)
  {
    currClients := [];
    var i := 0;
    while i < |newData.keys|
      invariant i <= |newData.keys|
      invariant currClients == ChangedAmong(prevData, newData, newData.keys[..i])
    {
      var clientMac := newData.keys[i];
      assert newData.keys[..i + 1][..i] == newData.keys[..i];
      if clientMac in prevData.values {
        var newLastSeen := newData.values[clientMac];
        var oldLastSeen := prevData.values[clientMac];
        if newLastSeen != oldLastSeen {
          currClients := currClients + [clientMac];
        }
      }
      i := i + 1;
    }
    assert newData.keys[..i] == newData.keys;
  }

  /** `a` is `b` with some elements left out, order kept. */
  predicate IsSubsequence(a: seq<string>, b: seq<string>)
    decreases |b|
  {
    a == [] ||
    (b != [] &&
     (IsSubsequence(a, b[..|b| - 1]) ||
      (a[|a| - 1] == b[|b| - 1] && IsSubsequence(a[..|a| - 1], b[..|b| - 1]))))
  }

  predicate Distinct(s: seq<string>)
  {
    forall i, j :: 0 <= i < j < |s| ==> s[i] != s[j]
  }

  lemma {:induction false} ChangedAmongHas(prev: Dict, cur: Dict, ks: seq<string>, k: string)
    ensures k in ChangedAmong(prev, cur, ks) <==> k in ks && Changed(prev, cur, k)
  {
    if ks != [] {
      var init := ks[..|ks| - 1];
      ChangedAmongHas(prev, cur, init, k);
      assert ks == init + [ks[|ks| - 1]];
    }
  }

  lemma {:induction false} ChangedAmongOrder(prev: Dict, cur: Dict, ks: seq<string>)
    ensures IsSubsequence(ChangedAmong(prev, cur, ks), ks)
    ensures Distinct(ks) ==> Distinct(ChangedAmong(prev, cur, ks))
  {
    if ks != [] {
      var init, k := ks[..|ks| - 1], ks[|ks| - 1];
      var r, before := ChangedAmong(prev, cur, ks), ChangedAmong(prev, cur, init);
      ChangedAmongOrder(prev, cur, init);
      if Distinct(ks) {
        assert Distinct(init) by {
          forall i, j | 0 <= i < j < |init| ensures init[i] != init[j] {
            assert init[i] == ks[i] && init[j] == ks[j];
          }
        }
      }
      if Changed(prev, cur, k) {
        assert r == before + [k];
        assert r[..|r| - 1] == before;
        if Distinct(ks) {
          ChangedAmongHas(prev, cur, init, k);
          assert k !in init by {
            forall i | 0 <= i < |init| ensures init[i] != k {
              assert init[i] == ks[i];
            }
          }
          assert k !in before;
        }
      } else {
        assert r == before;
      }
    }
  }

  /** A client is reported exactly when both scans hold it with different
      last-seen times: a client new in this scan, or one that has disappeared
      since the previous scan, is never reported. */
  lemma DiffHas(prev: Dict, cur: Dict, k: string)
    requires Valid(cur)
    ensures k in Diff(prev, cur) <==> Changed(prev, cur, k)
    ensures k in cur.values && k !in prev.values ==> k !in Diff(prev, cur)
    ensures k !in cur.values ==> k !in Diff(prev, cur)
  {
    ChangedAmongHas(prev, cur, cur.keys, k);
  }

  /** The reported clients follow the current scan's key order, each once. */
  lemma DiffOrder(prev: Dict, cur: Dict)
    requires Valid(cur)
    ensures IsSubsequence(Diff(prev, cur), cur.keys)
    ensures Distinct(Diff(prev, cur))
  {
    ChangedAmongOrder(prev, cur, cur.keys);
  }

  /** Comparing a scan with itself reports no client. */
  lemma {:induction false} DiffSelfEmpty(d: Dict)
    ensures Diff(d, d) == []
  {
    ChangedAmongNone(d, d.keys);
  }

  lemma {:induction false} ChangedAmongNone(d: Dict, ks: seq<string>)
    ensures ChangedAmong(d, d, ks) == []
  {
    if ks != [] {
      ChangedAmongNone(d, ks[..|ks| - 1]);
    }
  }
}
