/** The replay cache: records of accepted passcodes, identified by the
    string hash of the code and stamped with the second they were accepted. */
module ReplayCache {
  import opened Binary

  /** One accepted passcode: its hash code and the time it was accepted. */
  datatype Hash = Hash(value: Int32, time: int)

  /** A record is kept while `now - time <= expire`. */
  predicate Fresh(h: Hash, now: int, expire: int)
  {
    now - h.time <= expire
  }

  /** The records that survive a prune at `now`, in their original order. */
  function Prune(hashes: seq<Hash>, now: int, expire: int): (r: seq<Hash>)
    ensures |r| <= |hashes|
  {
    if hashes == [] then []
    else if Fresh(hashes[0], now, expire) then [hashes[0]] + Prune(hashes[1..], now, expire)
    else Prune(hashes[1..], now, expire)
  }

  /** Every survivor is fresh, and exactly the fresh records survive. */
  lemma {:induction false} PruneKeepsExactlyFresh(hashes: seq<Hash>, now: int, expire: int)
    ensures forall k :: 0 <= k < |Prune(hashes, now, expire)| ==> Fresh(Prune(hashes, now, expire)[k], now, expire)
    ensures forall h :: h in Prune(hashes, now, expire) <==> h in hashes && Fresh(h, now, expire)
  {
    if hashes != [] {
      PruneKeepsExactlyFresh(hashes[1..], now, expire);
      assert forall h :: h in hashes <==> h == hashes[0] || h in hashes[1..];
    }
  }

  /** Some record carries the hash code `value`. */
  predicate Contains(hashes: seq<Hash>, value: Int32)
  {
    exists k :: 0 <= k < |hashes| && hashes[k].value == value
  }

  /** Pruning works record by record: it distributes over concatenation, so the
      survivors keep their relative order. */
  lemma {:induction false} PruneAppend(a: seq<Hash>, b: seq<Hash>, now: int, expire: int)
    ensures Prune(a + b, now, expire) == Prune(a, now, expire) + Prune(b, now, expire)
  {
    if a != [] {
      assert a + b != [] && (a + b)[0] == a[0] && (a + b)[1..] == a[1..] + b;
      PruneAppend(a[1..], b, now, expire);
    } else {
      assert a + b == b;
    }
  }

  /** Pruning one more record of `hashes`: the record is kept exactly when it is fresh. */
  lemma PruneSnoc(hashes: seq<Hash>, j: nat, now: int, expire: int)
    requires j < |hashes|
    ensures Prune(hashes[..j + 1], now, expire)
         == Prune(hashes[..j], now, expire) + (if Fresh(hashes[j], now, expire) then [hashes[j]] else [])
  {
    assert hashes[..j + 1] == hashes[..j] + [hashes[j]];
    PruneAppend(hashes[..j], [hashes[j]], now, expire);
    assert [hashes[j]][1..] == [];
  }

  /** The list during a prune: the survivors so far, then the records not yet visited.
      The next record sits at index |kept|, and removing it leaves kept + the rest. */
  lemma SplitAt(kept: seq<Hash>, original: seq<Hash>, j: nat)
    requires j < |original|
    ensures (kept + original[j..])[|kept|] == original[j]
    ensures (kept + original[j..])[..|kept|] + (kept + original[j..])[|kept| + 1..] == kept + original[j + 1..]
    ensures kept + original[j..] == (kept + [original[j]]) + original[j + 1..]
  {
    var s := kept + original[j..];
    assert s[..|kept|] == kept;
    assert s[|kept| + 1..] == original[j + 1..];
  }

  /** Looking up a hash code in a list extended by one record. */
  lemma ContainsSnoc(hashes: seq<Hash>, h: Hash, value: Int32)
    ensures Contains(hashes + [h], value) <==> Contains(hashes, value) || h.value == value
  {
    if Contains(hashes, value) {
      var k :| 0 <= k < |hashes| && hashes[k].value == value;
      assert (hashes + [h])[k] == hashes[k];
    }
    if h.value == value {
      assert (hashes + [h])[|hashes|] == h;
    }
  }

  /** Exactly the expired records are removed: pruning a list of fresh records changes
      nothing, so a second prune at the same time is a no-op. */
  lemma {:induction false} PruneIdempotent(hashes: seq<Hash>, now: int, expire: int)
    ensures Prune(Prune(hashes, now, expire), now, expire) == Prune(hashes, now, expire)
  {
    if hashes != [] {
      PruneIdempotent(hashes[1..], now, expire);
      if Fresh(hashes[0], now, expire) {
        var rest := Prune(hashes[1..], now, expire);
        assert ([hashes[0]] + rest)[1..] == rest;
      }
    }
  }

  /** A record that is still fresh at `now` blocks its hash code after the prune. */
  lemma RecordSurvivesPrune(hashes: seq<Hash>, h: Hash, now: int, expire: int)
    requires h in hashes && Fresh(h, now, expire)
    ensures Contains(Prune(hashes, now, expire), h.value)
  {
    var r := Prune(hashes, now, expire);
    PruneKeepsExactlyFresh(hashes, now, expire);
    assert h in r;
    var k :| 0 <= k < |r| && r[k] == h;
  }
}
