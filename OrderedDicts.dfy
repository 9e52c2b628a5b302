/**
 * Python dicts with string keys, as the style index uses them: entries are iterated in the order their
 * keys were first inserted, and assigning to a key that is already present replaces its value where
 * it stands.
 */
module OrderedDicts {
  import opened Wrappers

  /** The entries of a dict, in iteration order. */
  type Dict<V> = seq<(string, V)>

  /** The keys, in iteration order. */
  function Keys<V>(d: Dict<V>): (ks: seq<string>)
    ensures |ks| == |d|
  {
    if d == [] then [] else [d[0].0] + Keys(d[1..])
  }

  /** The i-th key is the key of the i-th entry. */
  lemma {:induction false} KeysAt<V>(d: Dict<V>)
    ensures forall i :: 0 <= i < |d| ==> Keys(d)[i] == d[i].0
  {
    if d != [] {
      KeysAt(d[1..]);
    }
  }

  predicate UniqueKeys<V>(d: Dict<V>) {
    forall i, j :: 0 <= i < j < |d| ==> d[i].0 != d[j].0
  }

  /** `d.get(k)`: the value stored under k, `None` when k is not a key. */
  function Get<V>(d: Dict<V>, k: string): (r: Option<V>)
    ensures r.None? <==> k !in Keys(d)
  {
    if d == [] then None else if d[0].0 == k then Some(d[0].1) else Get(d[1..], k)
  }

  /** `d[k] = v`: afterwards k maps to v. */
  function Put<V>(d: Dict<V>, k: string, v: V): (r: Dict<V>)
    ensures Get(r, k) == Some(v)
  {
    if d == [] then [(k, v)]
    else if d[0].0 == k then
      var r := [(k, v)] + d[1..];
      assert r[1..] == d[1..];
      r
    else
      var r := [d[0]] + Put(d[1..], k, v);
      assert r[1..] == Put(d[1..], k, v);
      r
  }

  /** Assigning to k leaves every other key with its value, or absent. */
  lemma {:induction false} PutOther<V>(d: Dict<V>, k: string, v: V, k': string)
    requires k' != k
    ensures Get(Put(d, k, v), k') == Get(d, k')
  {
    if d != [] && d[0].0 != k && d[0].0 != k' {
      PutOther(d[1..], k, v, k');
      assert Put(d, k, v)[1..] == Put(d[1..], k, v);
    }
  }

  /** The value of a present key is replaced where it stands and a new key is appended at the end:
      the order of the old keys is unchanged. */
  lemma {:induction false} PutKeys<V>(d: Dict<V>, k: string, v: V)
    ensures Keys(Put(d, k, v)) == if k in Keys(d) then Keys(d) else Keys(d) + [k]
  {
    if d != [] {
      var r := Put(d, k, v);
      assert r[1..] == if d[0].0 == k then d[1..] else Put(d[1..], k, v);
      assert Keys(r) == [d[0].0] + Keys(r[1..]);
      assert Keys(d) == [d[0].0] + Keys(d[1..]);
      if d[0].0 != k {
        PutKeys(d[1..], k, v);
      }
    }
  }

  /** Assigning keeps the keys distinct. */
  lemma PutKeepsKeysUnique<V>(d: Dict<V>, k: string, v: V)
    requires UniqueKeys(d)
    ensures UniqueKeys(Put(d, k, v))
  {
    var r := Put(d, k, v);
    PutKeys(d, k, v);
    KeysAt(d);
    KeysAt(r);
    forall i, j | 0 <= i < j < |r| ensures r[i].0 != r[j].0 {
      var ks, kr := Keys(d), Keys(r);
      assert r[i].0 == kr[i] && r[j].0 == kr[j];
      if j < |d| {
        assert kr[i] == ks[i] && kr[j] == ks[j];
      } else {
        assert kr[j] == k && k !in ks && kr[i] == ks[i];
      }
    }
  }

  /** A second assignment to the same key overrides the first. */
  lemma {:induction false} PutPut<V>(d: Dict<V>, k: string, v1: V, v2: V)
    ensures Put(Put(d, k, v1), k, v2) == Put(d, k, v2)
  {
    if d != [] && d[0].0 != k {
      PutPut(d[1..], k, v1, v2);
      assert Put(d, k, v1)[1..] == Put(d[1..], k, v1);
    }
  }

  // ---------------------------------------------------------------------------------------------
  // Dicts built by a sequence of assignments

  /** The dict that successive assignments `d[k] = v`, one per entry and in order, build from an
      empty dict. */
  function FromEntries<V>(entries: seq<(string, V)>): Dict<V> {
    if entries == [] then []
    else
      var last := entries[|entries| - 1];
      Put(FromEntries(entries[..|entries| - 1]), last.0, last.1)
  }

  lemma FromEntriesStep<V>(entries: seq<(string, V)>, e: (string, V))
    ensures FromEntries(entries + [e]) == Put(FromEntries(entries), e.0, e.1)
  {
    assert (entries + [e])[..|entries|] == entries;
  }

  /** A key maps to the value of its last entry. */
  lemma {:induction false} LastEntryWins<V>(entries: seq<(string, V)>, j: nat)
    requires j < |entries|
    requires forall k :: j < k < |entries| ==> entries[k].0 != entries[j].0
    ensures Get(FromEntries(entries), entries[j].0) == Some(entries[j].1)
  {
    if j < |entries| - 1 {
      var init, last := entries[..|entries| - 1], entries[|entries| - 1];
      assert forall k :: j < k < |init| ==> init[k] == entries[k];
      LastEntryWins(init, j);
      PutOther(FromEntries(init), last.0, last.1, entries[j].0);
    }
  }

  /** The keys of the entries, in order. */
  function Firsts<V>(entries: seq<(string, V)>): (ks: seq<string>)
    ensures |ks| == |entries|
  {
    seq(|entries|, i requires 0 <= i < |entries| => entries[i].0)
  }

  /** Listing the first components of entries is the same as taking the keys of the dict they form. */
  lemma FirstsAreKeys<V>(entries: seq<(string, V)>)
    ensures Firsts(entries) == Keys(entries)
  {
    KeysAt(entries);
  }

  lemma FirstsStep<V>(entries: seq<(string, V)>, e: (string, V))
    ensures Firsts(entries + [e]) == Firsts(entries) + [e.0]
  {
  }

  /** The number of occurrences of k in ks. */
  function Count(ks: seq<string>, k: string): nat {
    if ks == [] then 0 else Count(ks[..|ks| - 1], k) + if ks[|ks| - 1] == k then 1 else 0
  }

  /** Each key of ks, in order of first occurrence, with the number of times it occurs. */
  function Tally(ks: seq<string>): Dict<nat> {
    if ks == [] then []
    else
      var k := ks[|ks| - 1];
      Put<nat>(Tally(ks[..|ks| - 1]), k, Count(ks, k))
  }

  /** Looking a key up in the tally gives its number of occurrences, and `None` if it does not occur. */
  lemma {:induction false} TallyCounts(ks: seq<string>, k: string)
    ensures Get(Tally(ks), k) == if Count(ks, k) > 0 then Some(Count(ks, k)) else None
  {
    if ks != [] {
      var init, last := ks[..|ks| - 1], ks[|ks| - 1];
      TallyCounts(init, k);
      assert Tally(ks) == Put<nat>(Tally(init), last, Count(ks, last));
      assert Count(ks, k) == Count(init, k) + if last == k then 1 else 0;
      if k != last {
        PutOther<nat>(Tally(init), last, Count(ks, last), k);
      }
    }
  }

  /** Count is the multiplicity of k in the multiset of ks. */
  lemma {:induction false} CountIsMultiplicity(ks: seq<string>, k: string)
    ensures Count(ks, k) == multiset(ks)[k]
  {
    if ks != [] {
      CountIsMultiplicity(ks[..|ks| - 1], k);
      assert ks == ks[..|ks| - 1] + [ks[|ks| - 1]];
    }
  }

  /** `counts.get(k, 0) + 1`. */
  function Incremented(counts: Dict<nat>, k: string): nat {
    Get(counts, k).GetOr(0) + 1
  }

  /** `counts[k] = counts.get(k, 0) + 1` extends the tally by one more occurrence of k. */
  lemma TallyStep(ks: seq<string>, k: string)
    ensures Tally(ks + [k]) == Put(Tally(ks), k, Incremented(Tally(ks), k))
  {
    var all := ks + [k];
    assert all[..|all| - 1] == ks && all[|all| - 1] == k;
    assert Tally(all) == Put<nat>(Tally(ks), k, Count(all, k));
    TallyCounts(ks, k);
    assert Count(all, k) == Count(ks, k) + 1;
  }

  /** Counting the keys of some entries gives the keys, in the same order, of the dict the entries
      build. */
  lemma {:induction false} TallyKeys<V>(entries: seq<(string, V)>)
    ensures Keys(Tally(Firsts(entries))) == Keys(FromEntries(entries))
  {
    if entries != [] {
      var init, last := entries[..|entries| - 1], entries[|entries| - 1];
      var ks := Firsts(entries);
      TallyKeys(init);
      assert ks[..|ks| - 1] == Firsts(init) && ks[|ks| - 1] == last.0;
      PutKeys<nat>(Tally(Firsts(init)), last.0, Count(ks, last.0));
      PutKeys(FromEntries(init), last.0, last.1);
    }
  }

  /** No key is counted twice. */
  lemma {:induction false} TallyKeysUnique(ks: seq<string>)
    ensures UniqueKeys(Tally(ks))
  {
    if ks != [] {
      var k := ks[|ks| - 1];
      TallyKeysUnique(ks[..|ks| - 1]);
      PutKeepsKeysUnique<nat>(Tally(ks[..|ks| - 1]), k, Count(ks, k));
    }
  }
}
