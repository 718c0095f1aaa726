/** Python's insertion-ordered `dict` with string keys, as the vote tallies and the per-choice
    series use it: a sequence of (key, value) entries in insertion order. */
module Dict {

  type Dict<V> = seq<(string, V)>

  function Keys<V>(d: Dict<V>): seq<string> {
    seq(|d|, j requires 0 <= j < |d| => d[j].0)
  }

  predicate Distinct(ks: seq<string>) {
    forall a, b :: 0 <= a < b < |ks| ==> ks[a] != ks[b]
  }

  /** No key occurs twice, which every Python dict satisfies. */
  predicate WellFormed<V>(d: Dict<V>) {
    forall a, b :: 0 <= a < b < |d| ==> d[a].0 != d[b].0
  }

  /** `k in d` */
  predicate Has<V>(d: Dict<V>, k: string) {
    exists j :: 0 <= j < |d| && d[j].0 == k
  }

  /** The position of key `k`. */
  function IndexOf<V>(d: Dict<V>, k: string): (j: nat)
    requires Has(d, k)
    ensures j < |d| && d[j].0 == k
    ensures forall i :: 0 <= i < j ==> d[i].0 != k
  {
    if d[0].0 == k then 0
    else
      assert Has(d[1..], k) by {
        var i :| 0 <= i < |d| && d[i].0 == k;
        assert d[1..][i - 1].0 == k;
      }
      1 + IndexOf(d[1..], k)
  }

  /** `d[k]` */
  function Get<V>(d: Dict<V>, k: string): V
    requires Has(d, k)
  {
    d[IndexOf(d, k)].1
  }

  /** `d[k] = v`: an existing key keeps its position, a new key goes to the end. */
  function Assign<V>(d: Dict<V>, k: string, v: V): Dict<V> {
    if Has(d, k) then d[IndexOf(d, k) := (k, v)] else d + [(k, v)]
  }

  /** `d[k] += inc` */
  function Increment(d: Dict<int>, k: string, inc: int): Dict<int>
    requires Has(d, k)
  {
    Assign(d, k, Get(d, k) + inc)
  }

  /** `sum(d.values())` */
  function Sum(d: Dict<int>): int {
    if d == [] then 0 else d[0].1 + Sum(d[1..])
  }

  predicate NonNegative(d: Dict<int>) {
    forall j :: 0 <= j < |d| ==> d[j].1 >= 0
  }

  /** The keys of `ks` in order of first occurrence. */
  function Dedup(ks: seq<string>): (r: seq<string>)
    ensures Distinct(r)
    ensures forall k :: k in r <==> k in ks
  {
    if ks == [] then []
    else
      var d := Dedup(ks[..|ks| - 1]);
      var last := ks[|ks| - 1];
      assert ks == ks[..|ks| - 1] + [last];
      if last in d then d else d + [last]
  }

  /** One entry `(k, v)` per element of `ks`, in order. */
  function Fill<V>(ks: seq<string>, v: V): Dict<V> {
    seq(|ks|, j requires 0 <= j < |ks| => (ks[j], v))
  }

  /** The comprehension `{k: v for k in ks}`: assign every key in turn to an empty dict. */
  function FromKeys<V>(ks: seq<string>, v: V): Dict<V> {
    if ks == [] then [] else Assign(FromKeys(ks[..|ks| - 1], v), ks[|ks| - 1], v)
  }

  /** `[(c, v) for c, v in d.items() if v > 0]` */
  function PositiveItems(d: Dict<int>): Dict<int> {
    if d == [] then [] else (if d[0].1 > 0 then [d[0]] else []) + PositiveItems(d[1..])
  }

  /** `[c for c, v in d.items() if v > 0]` */
  function PositiveChoices(d: Dict<int>): seq<string> {
    if d == [] then [] else (if d[0].1 > 0 then [d[0].0] else []) + PositiveChoices(d[1..])
  }

  /** `[v for v in d.values() if v > 0]` */
  function PositiveVotes(d: Dict<int>): seq<int> {
    if d == [] then [] else (if d[0].1 > 0 then [d[0].1] else []) + PositiveVotes(d[1..])
  }

  // ---------------------------------------------------------------------------------------
  // Lookup and update

  /** In a well-formed dict, the entry at position `j` is what its key looks up. */
  lemma GetAt<V>(d: Dict<V>, j: nat)
    requires WellFormed(d) && j < |d|
    ensures Has(d, d[j].0) && IndexOf(d, d[j].0) == j && Get(d, d[j].0) == d[j].1
  {
  }

  /** Assigning to a key touches only that key's entry and keeps the dict well formed;
      assigning to a new key appends it. */
  lemma AssignEffect<V>(d: Dict<V>, k: string, v: V)
    requires WellFormed(d)
    ensures WellFormed(Assign(d, k, v)) && Has(Assign(d, k, v), k) && Get(Assign(d, k, v), k) == v
    ensures Has(d, k) ==> Keys(Assign(d, k, v)) == Keys(d)
    ensures !Has(d, k) ==> Assign(d, k, v) == d + [(k, v)]
    ensures forall j :: 0 <= j < |d| ==> Assign(d, k, v)[j] == if d[j].0 == k then (k, v) else d[j]
    ensures forall k' :: k' != k ==> (Has(Assign(d, k, v), k') <==> Has(d, k'))
  {
    var r := Assign(d, k, v);
    if Has(d, k) {
      GetAt(d, IndexOf(d, k));
      GetAt(r, IndexOf(d, k));
    } else {
      GetAt(r, |d|);
    }
  }

  /** Replacing the value of entry `j` changes the sum by the difference. */
  lemma {:induction false} SumUpdate(d: Dict<int>, j: nat, k: string, v: int)
    requires j < |d|
    ensures Sum(d[j := (k, v)]) == Sum(d) - d[j].1 + v
  {
    if j > 0 {
      SumUpdate(d[1..], j - 1, k, v);
      assert d[j := (k, v)][1..] == d[1..][j - 1 := (k, v)];
    }
  }

  /** `d[k] += inc` replaces the one entry whose key is `k`. */
  lemma IncrementAt(d: Dict<int>, k: string, inc: int) returns (j: nat)
    requires WellFormed(d) && Has(d, k)
    ensures j < |d| && d[j].0 == k && Get(d, k) == d[j].1
    ensures forall i :: 0 <= i < |d| && i != j ==> d[i].0 != k
    ensures Increment(d, k, inc) == d[j := (k, d[j].1 + inc)]
  {
    j := IndexOf(d, k);
  }

  /** `d[k] += inc` keeps the keys and their order, and the key now holds its old value plus
      `inc`. */
  lemma IncrementLookup(d: Dict<int>, k: string, inc: int)
    requires WellFormed(d) && Has(d, k)
    ensures WellFormed(Increment(d, k, inc)) && Keys(Increment(d, k, inc)) == Keys(d)
    ensures Has(Increment(d, k, inc), k) && Get(Increment(d, k, inc), k) == Get(d, k) + inc
  {
    var j := IncrementAt(d, k, inc);
    var r := d[j := (k, d[j].1 + inc)];
    assert Keys(r) == Keys(d);
    assert WellFormed(r) by {
      forall a, b | 0 <= a < b < |r| ensures r[a].0 != r[b].0 {
        assert r[a].0 == d[a].0 && r[b].0 == d[b].0;
      }
    }
    GetAt(r, j);
  }

  /** `d[k] += inc` on a present key: the key's count grows by `inc`, every other entry stays
      where and what it was, and the total grows by `inc`. */
  lemma IncrementEffect(d: Dict<int>, k: string, inc: int)
    requires WellFormed(d) && Has(d, k)
    ensures WellFormed(Increment(d, k, inc)) && Keys(Increment(d, k, inc)) == Keys(d)
    ensures Has(Increment(d, k, inc), k)
    ensures Get(Increment(d, k, inc), k) == Get(d, k) + inc
    ensures forall j :: 0 <= j < |d| ==>
      Increment(d, k, inc)[j] == if d[j].0 == k then (k, d[j].1 + inc) else d[j]
    ensures Sum(Increment(d, k, inc)) == Sum(d) + inc
  {
    IncrementLookup(d, k, inc);
    IncrementEntries(d, k, inc);
    IncrementSum(d, k, inc);
  }

  lemma IncrementEntries(d: Dict<int>, k: string, inc: int)
    requires WellFormed(d) && Has(d, k)
    ensures |Increment(d, k, inc)| == |d|
    ensures forall j :: 0 <= j < |d| ==>
      Increment(d, k, inc)[j] == if d[j].0 == k then (k, d[j].1 + inc) else d[j]
  {
    var j := IncrementAt(d, k, inc);
  }

  lemma IncrementSum(d: Dict<int>, k: string, inc: int)
    requires WellFormed(d) && Has(d, k)
    ensures Sum(Increment(d, k, inc)) == Sum(d) + inc
  {
    var j := IncrementAt(d, k, inc);
    SumUpdate(d, j, k, d[j].1 + inc);
  }

  /** Incrementing keeps every count non-negative when the increment is. */
  lemma IncrementNonNegative(d: Dict<int>, k: string, inc: int)
    requires WellFormed(d) && Has(d, k) && NonNegative(d) && inc >= 0
    ensures NonNegative(Increment(d, k, inc))
  {
    IncrementEffect(d, k, inc);
  }

  // ---------------------------------------------------------------------------------------
  // Building a dict from a list of keys

  /** The keys of a list without repetitions are kept as they are. */
  lemma {:induction false} DedupDistinct(ks: seq<string>)
    requires Distinct(ks)
    ensures Dedup(ks) == ks
  {
    if ks != [] {
      var init := ks[..|ks| - 1];
      assert Distinct(init);
      DedupDistinct(init);
      assert ks[|ks| - 1] !in init;
      assert init + [ks[|ks| - 1]] == ks;
    }
  }

  /** A repeated key appears once, at its first position. */
  lemma DedupRepeated(ks: seq<string>, k: string)
    requires k in ks
    ensures Dedup(ks + [k]) == Dedup(ks)
  {
    assert (ks + [k])[..|ks + [k]| - 1] == ks;
  }

  /** The keys come in order of first occurrence: a key seen before adds nothing, a new key
      goes at the end. */
  lemma DedupAppend(ks: seq<string>, k: string)
    ensures Dedup(ks + [k]) == if k in ks then Dedup(ks) else Dedup(ks) + [k]
  {
    assert (ks + [k])[..|ks + [k]| - 1] == ks;
  }

  /** `{k: v for k in ks}` has one entry per distinct key, in order of first occurrence, each
      holding `v`. */
  lemma {:induction false} FromKeysIsFill<V>(ks: seq<string>, v: V)
    ensures FromKeys(ks, v) == Fill(Dedup(ks), v)
  {
    if ks != [] {
      var init, last := ks[..|ks| - 1], ks[|ks| - 1];
      FromKeysIsFill(init, v);
      var f := Fill(Dedup(init), v);
      assert Keys(f) == Dedup(init);
      if last in Dedup(init) {
        assert Has(f, last) by {
          var i :| 0 <= i < |Dedup(init)| && Dedup(init)[i] == last;
          assert f[i].0 == last;
        }
        assert f[IndexOf(f, last)] == (last, v);
        assert Assign(f, last, v) == f;
      } else {
        forall j | 0 <= j < |f| ensures f[j].0 != last {
          assert f[j].0 == Dedup(init)[j];
        }
        assert Fill(Dedup(init) + [last], v) == f + [(last, v)];
      }
    }
  }

  /** The entries of `Fill` are well formed when its keys are distinct, and their keys are
      exactly the given list. */
  lemma FillShape<V>(ks: seq<string>, v: V)
    requires Distinct(ks)
    ensures WellFormed(Fill(ks, v)) && Keys(Fill(ks, v)) == ks
    ensures forall j :: 0 <= j < |ks| ==> Fill(ks, v)[j].1 == v
    ensures forall k :: Has(Fill(ks, v), k) <==> k in ks
  {
    var f := Fill(ks, v);
    forall k | k in ks ensures Has(f, k) {
      var i :| 0 <= i < |ks| && ks[i] == k;
      assert f[i].0 == k;
    }
  }

  /** A dict whose every count is zero sums to zero. */
  lemma {:induction false} SumFillZero(ks: seq<string>)
    ensures Sum(Fill(ks, 0)) == 0
  {
    if ks != [] {
      SumFillZero(ks[1..]);
      assert Fill(ks, 0)[1..] == Fill(ks[1..], 0);
    }
  }

  /** The comprehension `{k: 0 for k in ks}`: every distinct key once, each at 0, summing to 0. */
  lemma ZeroTally(ks: seq<string>)
    ensures WellFormed(FromKeys(ks, 0)) && Keys(FromKeys(ks, 0)) == Dedup(ks)
    ensures NonNegative(FromKeys(ks, 0)) && Sum(FromKeys(ks, 0)) == 0
    ensures forall k :: Has(FromKeys(ks, 0), k) <==> k in ks
    ensures forall k :: k in ks ==> Get(FromKeys(ks, 0), k) == 0
  {
    FromKeysIsFill(ks, 0);
    FillShape(Dedup(ks), 0);
    SumFillZero(Dedup(ks));
    forall k | k in ks ensures Get(FromKeys(ks, 0), k) == 0 {
      var f := FromKeys(ks, 0);
      assert Has(f, k);
      assert f[IndexOf(f, k)].1 == 0;
    }
  }

  // ---------------------------------------------------------------------------------------
  // The chart inputs: entries with a positive count

  /** An entry is kept exactly when it is in the dict and its count is positive. */
  lemma {:induction false} PositiveItemsMembers(d: Dict<int>, x: (string, int))
    ensures x in PositiveItems(d) <==> x in d && x.1 > 0
  {
    if d != [] {
      PositiveItemsMembers(d[1..], x);
      assert d == [d[0]] + d[1..];
    }
  }

  /** Filtering keeps the order of the entries: it distributes over concatenation. */
  lemma {:induction false} PositiveItemsConcat(a: Dict<int>, b: Dict<int>)
    ensures PositiveItems(a + b) == PositiveItems(a) + PositiveItems(b)
  {
    if a == [] {
      assert a + b == b;
    } else {
      var ab := a + b;
      assert ab[0] == a[0];
      assert ab[1..] == a[1..] + b;
      PositiveItemsConcat(a[1..], b);
      assert PositiveItems(ab) == (if a[0].1 > 0 then [a[0]] else []) + PositiveItems(a[1..] + b);
    }
  }

  /** The label list and the value list are the two columns of the kept entries, position by
      position: `zip(*items)` of the histogram and the pair of lists of the pie agree. */
  lemma {:induction false} PositiveListsAligned(d: Dict<int>)
    ensures |PositiveChoices(d)| == |PositiveItems(d)| && |PositiveVotes(d)| == |PositiveItems(d)|
    ensures forall j :: 0 <= j < |PositiveItems(d)| ==>
      PositiveItems(d)[j] == (PositiveChoices(d)[j], PositiveVotes(d)[j])
  {
    if d != [] {
      PositiveListsAligned(d[1..]);
    }
  }

  /** Nothing is kept exactly when no count is positive: the "no votes" case of the charts. */
  lemma {:induction false} NoPositiveItems(d: Dict<int>)
    ensures PositiveItems(d) == [] <==> forall j :: 0 <= j < |d| ==> d[j].1 <= 0
  {
    if d != [] {
      NoPositiveItems(d[1..]);
      assert forall j :: 1 <= j < |d| ==> d[j] == d[1..][j - 1];
    }
  }

  /** The kept values sum to the dict's total when no count is negative. */
  lemma {:induction false} PositiveVotesSum(d: Dict<int>)
    requires NonNegative(d)
    ensures Sum(PositiveItems(d)) == Sum(d)
  {
    if d != [] {
      PositiveVotesSum(d[1..]);
      if d[0].1 > 0 {
        assert ([d[0]] + PositiveItems(d[1..]))[1..] == PositiveItems(d[1..]);
      } else {
        assert [] + PositiveItems(d[1..]) == PositiveItems(d[1..]);
      }
    }
  }
}
