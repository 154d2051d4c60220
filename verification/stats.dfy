/** Added/removed line counts and the maps that sum them per key, as
    `parseNumStatPerFile` and `parseNumStatPerAuthor` build them
    (GitUtil.rb:167-225). A record is one accepted numstat line: the key it
    is filed under and its counts. */
module Stats {

  datatype Stat = Stat(added: int, removed: int) {
    function Plus(other: Stat): Stat {
      Stat(added + other.added, removed + other.removed)
    }
  }

  const Zero := Stat(0, 0)

  lemma PlusZero(a: Stat)
    ensures a.Plus(Zero) == a && Zero.Plus(a) == a
  {
  }

  lemma PlusAssoc(a: Stat, b: Stat, c: Stat)
    ensures a.Plus(b).Plus(c) == a.Plus(b.Plus(c))
  {
  }

  type Record = (string, Stat)

  /** One step of the fold: add `d` into the entry for `k`, creating it with
      `d` itself when `k` is new. */
  function AddStat(m: map<string, Stat>, k: string, d: Stat): (r: map<string, Stat>)
    ensures r.Keys == m.Keys + {k}
    ensures r[k] == (if k in m then m[k].Plus(d) else d)
    ensures forall j :: j in m && j != k ==> r[j] == m[j]
  {
    if k in m then m[k := m[k].Plus(d)] else m[k := d]
  }

  /** Two additions under one key are one addition of their sum. */
  lemma AddStatTwice(m: map<string, Stat>, k: string, a: Stat, b: Stat)
    ensures AddStat(AddStat(m, k, a), k, b) == AddStat(m, k, a.Plus(b))
  {
  }

  /** Fold the records into `m`, first record first. */
  function Accumulate(m: map<string, Stat>, recs: seq<Record>): map<string, Stat>
    decreases |recs|
  {
    if recs == [] then m else Accumulate(AddStat(m, recs[0].0, recs[0].1), recs[1..])
  }

  /** Some record is filed under `k`. */
  predicate HasKey(recs: seq<Record>, k: string) {
    exists i :: 0 <= i < |recs| && recs[i].0 == k
  }

  /** The sum of the counts of the records filed under `k`. */
  function SumFor(recs: seq<Record>, k: string): Stat {
    if recs == [] then Zero
    else (if recs[0].0 == k then recs[0].1 else Zero).Plus(SumFor(recs[1..], k))
  }

  /** The sum of the counts of all records. */
  function Total(recs: seq<Record>): Stat {
    if recs == [] then Zero else recs[0].1.Plus(Total(recs[1..]))
  }

  function Get(m: map<string, Stat>, k: string): Stat {
    if k in m then m[k] else Zero
  }

  /** A key is among two record lists joined iff it is among one of them. */
  lemma HasKeyAppend(a: seq<Record>, b: seq<Record>, k: string)
    ensures HasKey(a + b, k) <==> HasKey(a, k) || HasKey(b, k)
  {
    if HasKey(a + b, k) {
      var i :| 0 <= i < |a + b| && (a + b)[i].0 == k;
      if i >= |a| {
        assert b[i - |a|].0 == k;
      }
    }
    if HasKey(b, k) {
      var i :| 0 <= i < |b| && b[i].0 == k;
      assert (a + b)[|a| + i].0 == k;
    }
    if HasKey(a, k) {
      var i :| 0 <= i < |a| && a[i].0 == k;
      assert (a + b)[i].0 == k;
    }
  }

  /** A key is among the records iff it is the first one's or among the rest. */
  lemma HasKeyCons(recs: seq<Record>, k: string)
    requires recs != []
    ensures HasKey(recs, k) <==> recs[0].0 == k || HasKey(recs[1..], k)
  {
    if HasKey(recs, k) && k != recs[0].0 {
      var i :| 0 <= i < |recs| && recs[i].0 == k;
      assert recs[1..][i - 1].0 == k;
    }
    if HasKey(recs[1..], k) {
      var i :| 0 <= i < |recs[1..]| && recs[1..][i].0 == k;
      assert recs[i + 1].0 == k;
    }
  }

  /** What a single record adds to the sum filed under `k`. */
  function Share(x: Record, k: string): Stat {
    if x.0 == k then x.1 else Zero
  }

  /** Filing the first record before summing the rest gives the same entry. */
  lemma AddStatShare(m: map<string, Stat>, recs: seq<Record>, k: string)
    requires recs != []
    ensures Get(AddStat(m, recs[0].0, recs[0].1), k).Plus(SumFor(recs[1..], k)) == Get(m, k).Plus(SumFor(recs, k))
  {
    var x, rest := recs[0], recs[1..];
    var m' := AddStat(m, x.0, x.1);
    var g, sh, tail := Get(m, k), Share(x, k), SumFor(rest, k);
    assert SumFor(recs, k) == sh.Plus(tail);
    assert Get(m', k) == g.Plus(sh) by {
      if x.0 != k {
        assert sh == Zero;
        assert Get(m', k) == g;
        PlusZero(g);
      } else if k in m {
        assert m'[k] == m[k].Plus(x.1);
      } else {
        assert m'[k] == x.1;
        assert g == Zero;
        PlusZero(x.1);
      }
    }
    PlusAssoc(g, sh, tail);
  }

  /** The keys of the folded map are the starting keys plus the keys of the
      records, and each entry is its starting value plus the sum of the
      records filed under it. */
  lemma {:induction false} AccumulateEntries(m: map<string, Stat>, recs: seq<Record>)
    ensures forall k :: k in Accumulate(m, recs) <==> k in m || HasKey(recs, k)
    ensures forall k :: k in Accumulate(m, recs) ==> Accumulate(m, recs)[k] == Get(m, k).Plus(SumFor(recs, k))
    decreases |recs|
  {
    if recs != [] {
      var m', rest := AddStat(m, recs[0].0, recs[0].1), recs[1..];
      var a := Accumulate(m', rest);
      assert Accumulate(m, recs) == a;
      AccumulateEntries(m', rest);
      forall k
        ensures k in a <==> k in m || HasKey(recs, k)
      {
        HasKeyCons(recs, k);
      }
      forall k | k in a
        ensures a[k] == Get(m, k).Plus(SumFor(recs, k))
      {
        AddStatShare(m, recs, k);
      }
    }
  }

  lemma {:induction false} SumForAppend(a: seq<Record>, b: seq<Record>, k: string)
    ensures SumFor(a + b, k) == SumFor(a, k).Plus(SumFor(b, k))
    decreases |a|
  {
    if a == [] {
      assert a + b == b;
    } else {
      assert (a + b)[0] == a[0];
      assert (a + b)[1..] == a[1..] + b;
      SumForAppend(a[1..], b, k);
    }
  }

  lemma SumForRemoveAt(b: seq<Record>, j: nat, k: string)
    requires j < |b|
    ensures SumFor(b, k) == Share(b[j], k).Plus(SumFor(b[..j] + b[j + 1..], k))
  {
    var pre, post := b[..j], b[j + 1..];
    assert b == pre + ([b[j]] + post);
    SumForAppend(pre, [b[j]] + post, k);
    SumForAppend(pre, post, k);
    assert ([b[j]] + post)[1..] == post;
  }

  lemma MultisetRemoveAt<T>(a: seq<T>, b: seq<T>, j: nat)
    requires multiset(a) == multiset(b) && a != [] && j < |b| && b[j] == a[0]
    ensures multiset(a[1..]) == multiset(b[..j] + b[j + 1..])
  {
    var pre, post := b[..j], b[j + 1..];
    assert b == pre + [b[j]] + post;
    assert a == [a[0]] + a[1..];
    assert multiset(a[1..]) == multiset(a) - multiset{a[0]};
    assert multiset(pre + post) == multiset(b) - multiset{a[0]};
  }

  /** The sum filed under a key depends only on which records there are, not
      on their order. */
  lemma {:induction false} SumForPermutation(a: seq<Record>, b: seq<Record>, k: string)
    requires multiset(a) == multiset(b)
    ensures SumFor(a, k) == SumFor(b, k)
    decreases |a|
  {
    if a == [] {
      assert |b| == |multiset(b)| == 0;
    } else {
      assert a[0] in multiset(b);
      var j :| 0 <= j < |b| && b[j] == a[0];
      MultisetRemoveAt(a, b, j);
      SumForPermutation(a[1..], b[..j] + b[j + 1..], k);
      SumForRemoveAt(b, j, k);
    }
  }

  /** Some element of a non-empty set. */
  ghost function Pick(keys: set<string>): (k: string)
    requires keys != {}
    ensures k in keys
  {
    var k :| k in keys; k
  }

  function GetInt(m: map<string, int>, k: string): int {
    if k in m then m[k] else 0
  }

  /** The sum of the entries of `m` under the keys in `keys`. */
  ghost function SetSum(m: map<string, int>, keys: set<string>): int
    decreases keys
  {
    if keys == {} then 0
    else
      var k := Pick(keys);
      GetInt(m, k) + SetSum(m, keys - {k})
  }

  lemma {:induction false} SetSumRemove(m: map<string, int>, keys: set<string>, k: string)
    requires k in keys
    ensures SetSum(m, keys) == GetInt(m, k) + SetSum(m, keys - {k})
    decreases keys
  {
    var j := Pick(keys);
    if j != k {
      assert keys - {k} - {j} == keys - {j} - {k};
      SetSumRemove(m, keys - {j}, k);
      SetSumRemove(m, keys - {k}, j);
    }
  }

  lemma {:induction false} SetSumFrame(m: map<string, int>, m': map<string, int>, keys: set<string>)
    requires forall k :: k in keys ==> GetInt(m, k) == GetInt(m', k)
    ensures SetSum(m, keys) == SetSum(m', keys)
    decreases keys
  {
    if keys != {} {
      SetSumFrame(m, m', keys - {Pick(keys)});
    }
  }

  /** Setting the entry for `k` to `v` changes the sum of all entries by the
      difference between `v` and the old entry. */
  lemma SetSumUpdate(m: map<string, int>, k: string, v: int)
    ensures SetSum(m[k := v], m[k := v].Keys) == SetSum(m, m.Keys) - GetInt(m, k) + v
  {
    var m' := m[k := v];
    var others := m.Keys - {k};
    assert m'.Keys - {k} == others;
    SetSumRemove(m', m'.Keys, k);
    SetSumFrame(m, m', others);
    if k in m {
      SetSumRemove(m, m.Keys, k);
    } else {
      assert m.Keys == others;
    }
  }

  function AddedOf(m: map<string, Stat>): map<string, int> {
    map k | k in m :: m[k].added
  }

  function RemovedOf(m: map<string, Stat>): map<string, int> {
    map k | k in m :: m[k].removed
  }

  /** The sum of all entries of `m`, added and removed counted apart. */
  ghost function MapTotal(m: map<string, Stat>): Stat {
    Stat(SetSum(AddedOf(m), m.Keys), SetSum(RemovedOf(m), m.Keys))
  }

  /** The added counts after `AddStat`: one entry raised by `d.added`. */
  lemma AddedOfAddStat(m: map<string, Stat>, k: string, d: Stat)
    ensures AddedOf(AddStat(m, k, d)) == AddedOf(m)[k := Get(m, k).added + d.added]
    ensures SetSum(AddedOf(AddStat(m, k, d)), AddStat(m, k, d).Keys) == SetSum(AddedOf(m), m.Keys) + d.added
  {
    var m' := AddStat(m, k, d);
    var a := AddedOf(m);
    assert AddedOf(m') == a[k := Get(m, k).added + d.added];
    SetSumUpdate(a, k, Get(m, k).added + d.added);
    assert a.Keys == m.Keys;
    assert a[k := Get(m, k).added + d.added].Keys == m'.Keys;
    assert GetInt(a, k) == Get(m, k).added;
  }

  /** The removed counts after `AddStat`: one entry raised by `d.removed`. */
  lemma RemovedOfAddStat(m: map<string, Stat>, k: string, d: Stat)
    ensures RemovedOf(AddStat(m, k, d)) == RemovedOf(m)[k := Get(m, k).removed + d.removed]
    ensures SetSum(RemovedOf(AddStat(m, k, d)), AddStat(m, k, d).Keys) == SetSum(RemovedOf(m), m.Keys) + d.removed
  {
    var m' := AddStat(m, k, d);
    var a := RemovedOf(m);
    assert RemovedOf(m') == a[k := Get(m, k).removed + d.removed];
    SetSumUpdate(a, k, Get(m, k).removed + d.removed);
    assert a.Keys == m.Keys;
    assert a[k := Get(m, k).removed + d.removed].Keys == m'.Keys;
    assert GetInt(a, k) == Get(m, k).removed;
  }

  /** Adding `d` under any key raises the sum of all entries by exactly `d`. */
  lemma MapTotalAddStat(m: map<string, Stat>, k: string, d: Stat)
    ensures MapTotal(AddStat(m, k, d)) == MapTotal(m).Plus(d)
  {
    AddedOfAddStat(m, k, d);
    RemovedOfAddStat(m, k, d);
  }

  /** Folding records into a map adds exactly their total to the sum of its entries. */
  lemma {:induction false} AccumulateTotal(m: map<string, Stat>, recs: seq<Record>)
    ensures MapTotal(Accumulate(m, recs)) == MapTotal(m).Plus(Total(recs))
    decreases |recs|
  {
    if recs != [] {
      var m', rest := AddStat(m, recs[0].0, recs[0].1), recs[1..];
      assert Accumulate(m, recs) == Accumulate(m', rest);
      assert Total(recs) == recs[0].1.Plus(Total(rest));
      MapTotalAddStat(m, recs[0].0, recs[0].1);
      AccumulateTotal(m', rest);
      PlusAssoc(MapTotal(m), recs[0].1, Total(rest));
    }
  }

  /** The folded map depends only on which records there are, not on their order. */
  lemma AccumulatePermutation(a: seq<Record>, b: seq<Record>)
    requires multiset(a) == multiset(b)
    ensures Accumulate(map[], a) == Accumulate(map[], b)
  {
    AccumulateEntries(map[], a);
    AccumulateEntries(map[], b);
    forall k
      ensures HasKey(a, k) <==> HasKey(b, k)
    {
      if HasKey(a, k) {
        var i :| 0 <= i < |a| && a[i].0 == k;
        assert a[i] in multiset(b);
      }
      if HasKey(b, k) {
        var i :| 0 <= i < |b| && b[i].0 == k;
        assert b[i] in multiset(a);
      }
    }
    forall k | k in Accumulate(map[], a)
      ensures Accumulate(map[], a)[k] == Accumulate(map[], b)[k]
    {
      SumForPermutation(a, b, k);
    }
  }

  /** The map folded from nothing sums to the total of its records. */
  lemma AccumulateTotalFromEmpty(recs: seq<Record>)
    ensures MapTotal(Accumulate(map[], recs)) == Total(recs)
  {
    AccumulateTotal(map[], recs);
    var e: map<string, Stat> := map[];
    assert e.Keys == {};
    assert MapTotal(e) == Zero;
  }
}
