/** pickRandomDistinct (screens/FinderScreen.tsx:37-46): deduplicate games by
    id through an insertion-ordered Map, shuffle the values in place with
    Fisher-Yates, return the first min(n, count) of them.

    Math.random() is a stream `rand` of integers u < RandomScale, each standing
    for the double u / RandomScale (the generator's values are multiples of
    2^-53); the k-th call of Math.random() in a run reads rand(k). */
module PickRandom {
  import opened Models

  const RandomScale: nat := 0x20_0000_0000_0000

  /** Every value is one Math.random() can return: in [0, 1). */
  ghost predicate RandomStream(rand: nat -> nat) {
    forall k :: rand(k) < RandomScale
  }

  /** Math.floor(Math.random() * m) for the draw u. */
  function ScaledDraw(u: nat, m: nat): nat {
    u * m / RandomScale
  }

  /** A draw scaled by m lies in 0..m-1. */
  lemma ScaledDrawRange(u: nat, m: nat)
    requires u < RandomScale && m >= 1
    ensures ScaledDraw(u, m) < m
  {
    assert u * m <= (RandomScale - 1) * m by {
      MulMonotone(u, RandomScale - 1, m);
    }
    assert (RandomScale - 1) * m < RandomScale * m;
    DivBelow(u * m, RandomScale, m);
  }

  /** Every value in 0..m-1 is the scaled image of some draw, so the range
      above is exact. */
  lemma ScaledDrawOnto(k: nat, m: nat)
    requires k < m <= RandomScale
    ensures var u := (k * RandomScale + m - 1) / m;
      u < RandomScale && ScaledDraw(u, m) == k
  {
    var u := (k * RandomScale + m - 1) / m;
    var x := k * RandomScale + m - 1;
    assert u * m <= x && x < u * m + m by {
      DivBounds(x, m);
    }
    assert k * RandomScale <= u * m < k * RandomScale + RandomScale;
    DivBetween(u * m, RandomScale, k);
    assert (m - 1) * RandomScale + m - 1 < m * RandomScale;
    MulMonotone(k, m - 1, RandomScale);
    assert u * m < m * RandomScale;
    MulCancel(u, RandomScale, m);
  }

  lemma MulMonotone(a: nat, b: nat, c: nat)
    requires a <= b
    ensures a * c <= b * c
  {
  }

  lemma MulCancel(a: nat, b: nat, c: nat)
    requires c > 0 && a * c < b * c
    ensures a < b
  {
    if a >= b {
      MulMonotone(b, a, c);
    }
  }

  lemma DivBounds(x: nat, d: nat)
    requires d > 0
    ensures (x / d) * d <= x < (x / d) * d + d
  {
  }

  lemma DivBelow(x: nat, d: nat, m: nat)
    requires d > 0 && x < d * m
    ensures x / d < m
  {
    DivBounds(x, d);
    if x / d >= m {
      MulMonotone(m, x / d, d);
    }
  }

  lemma DivBetween(x: nat, d: nat, k: nat)
    requires d > 0 && k * d <= x < k * d + d
    ensures x / d == k
  {
    DivBounds(x, d);
    var q := x / d;
    if q < k {
      MulMonotone(q + 1, k, d);
    } else if q > k {
      MulMonotone(k + 1, q, d);
    }
  }

  /* ---------------------------------------------------------------------
     Deduplication by id: what `new Map(...)` then `Array.from(values())`
     produces.
     --------------------------------------------------------------------- */

  function Ids(games: seq<Game>): set<int> {
    set g | g in games :: g.id
  }

  predicate DistinctIds(s: seq<Game>) {
    forall i, j :: 0 <= i < j < |s| ==> s[i].id != s[j].id
  }

  /** No element occurs twice. */
  predicate NoRepeats<T(==)>(s: seq<T>) {
    forall i, j :: 0 <= i < j < |s| ==> s[i] != s[j]
  }

  /** The distinct ids, in the order of their first appearance. */
  function FirstIds(games: seq<Game>): (ids: seq<int>)
    ensures NoRepeats(ids)
    ensures forall id :: id in ids <==> id in Ids(games)
  {
    if games == [] then []
    else
      var init := games[..|games| - 1];
      var last := games[|games| - 1];
      assert games == init + [last];
      var ids := FirstIds(init);
      if last.id in ids then ids else ids + [last.id]
  }

  /** The last record carrying id. */
  function LastWith(games: seq<Game>, id: int): (g: Game)
    requires id in Ids(games)
    ensures g.id == id
    ensures exists k :: 0 <= k < |games| && games[k] == g && forall k' :: k < k' < |games| ==> games[k'].id != id
  {
    var init := games[..|games| - 1];
    var last := games[|games| - 1];
    assert games == init + [last];
    if last.id == id then last
    else
      assert id in Ids(init);
      LastWith(init, id)
  }

  /** One record per id: the last one carrying it, at the place where the id
      first appeared. */
  function Dedup(games: seq<Game>): seq<Game> {
    var ids := FirstIds(games);
    seq(|ids|, i requires 0 <= i < |ids| => LastWith(games, ids[i]))
  }

  /** The first position at which id appears. */
  function FirstIndex(games: seq<Game>, id: int): (k: nat)
    requires id in Ids(games)
    ensures k < |games| && games[k].id == id
    ensures forall k' :: 0 <= k' < k ==> games[k'].id != id
  {
    if games[0].id == id then 0
    else
      assert games == [games[0]] + games[1..];
      assert id in Ids(games[1..]);
      1 + FirstIndex(games[1..], id)
  }

  /** Array.from(unique.values()).slice(0, Math.min(n, len)): the number of
      elements kept. A negative end counts back from the array's end. */
  function SliceLength(n: int, len: nat): (r: nat)
    ensures r <= len
  {
    var end := if n < len then n else len;
    if end >= 0 then end
    else if len + end >= 0 then len + end
    else 0
  }

  /** The number of Math.random() calls Fisher-Yates makes on len elements. */
  function ShuffleDraws(len: nat): nat {
    if len > 1 then len - 1 else 0
  }

  /* ---------------------------------------------------------------------
     Properties of the deduplication
     --------------------------------------------------------------------- */

  /** A sequence without repetitions has as many elements as its set. */
  lemma {:induction false} DistinctCard(ids: seq<int>)
    requires NoRepeats(ids)
    ensures |set id | id in ids| == |ids|
  {
    if ids != [] {
      var rest := ids[1..];
      DistinctCard(rest);
      assert (set id | id in ids) == {ids[0]} + (set id | id in rest);
      assert ids[0] !in rest;
    }
  }

  /** Dedup keeps one record per id: as many as there are distinct ids, no
      two sharing one, each the last record carrying its id. */
  lemma DedupFacts(games: seq<Game>)
    ensures |Dedup(games)| == |Ids(games)|
    ensures DistinctIds(Dedup(games))
    ensures forall g :: g in Dedup(games) ==> g.id in Ids(games) && g == LastWith(games, g.id)
    ensures forall id :: id in Ids(games) ==> LastWith(games, id) in Dedup(games)
  {
    var ids := FirstIds(games);
    DistinctCard(ids);
    DedupDistinct(games);
    assert (set id | id in ids) == Ids(games);
    forall id | id in Ids(games)
      ensures LastWith(games, id) in Dedup(games)
    {
      var i :| 0 <= i < |ids| && ids[i] == id;
      assert Dedup(games)[i] == LastWith(games, id);
    }
  }

  /** The records of Dedup carry the first ids, so no two share an id. */
  lemma DedupDistinct(games: seq<Game>)
    ensures DistinctIds(Dedup(games))
  {
    var ids, d := FirstIds(games), Dedup(games);
    assert forall i :: 0 <= i < |d| ==> d[i].id == ids[i];
  }

  lemma {:induction false} FirstIndexOfPrefix(games: seq<Game>, id: int)
    requires games != [] && id in Ids(games[..|games| - 1])
    ensures FirstIndex(games, id) == FirstIndex(games[..|games| - 1], id)
  {
    var init := games[..|games| - 1];
    var a, b := FirstIndex(games, id), FirstIndex(init, id);
    assert games[b] == init[b];
    assert a <= b;
    assert games[a] == init[a];
  }

  /** The records of Dedup come in the order in which their ids first
      appeared in the input. */
  lemma {:induction false} DedupOrder(games: seq<Game>, i: nat, j: nat)
    requires i < j < |Dedup(games)|
    ensures FirstIndex(games, Dedup(games)[i].id) < FirstIndex(games, Dedup(games)[j].id)
  {
    var ids := FirstIds(games);
    assert Dedup(games)[i].id == ids[i] && Dedup(games)[j].id == ids[j];
    var init := games[..|games| - 1];
    var last := games[|games| - 1];
    assert games == init + [last];
    var before := FirstIds(init);
    assert ids[i] in before;
    FirstIndexOfPrefix(games, ids[i]);
    if j < |before| {
      assert ids[j] in before;
      FirstIndexOfPrefix(games, ids[j]);
      assert Dedup(init)[i].id == before[i] && Dedup(init)[j].id == before[j];
      DedupOrder(init, i, j);
    } else {
      assert ids[j] == last.id && last.id !in before;
      assert last.id !in Ids(init);
      assert FirstIndex(games, ids[j]) == |games| - 1;
    }
  }

  /* ---------------------------------------------------------------------
     Permutations preserve distinctness
     --------------------------------------------------------------------- */

  lemma MultisetSplit(s: seq<Game>, p: nat)
    requires p < |s|
    ensures multiset(s) == multiset(s[..p]) + multiset{s[p]} + multiset(s[p + 1..])
  {
    assert s == s[..p] + [s[p]] + s[p + 1..];
  }

  /** Distinct ids make every record occur at most once. */
  lemma {:induction false} CountAtMostOne(b: seq<Game>)
    requires DistinctIds(b)
    ensures forall x :: multiset(b)[x] <= 1
  {
    if b != [] {
      var rest := b[1..];
      CountAtMostOne(rest);
      assert b == [b[0]] + rest;
      assert forall k :: 0 <= k < |rest| ==> rest[k].id != b[0].id;
      assert b[0] !in rest;
    }
  }

  lemma NoRepeat(a: seq<Game>, i: nat, j: nat)
    requires i < j < |a|
    requires forall x :: multiset(a)[x] <= 1
    ensures a[i] != a[j]
  {
    MultisetSplit(a, i);
    assert a[i + 1..][j - i - 1] == a[j];
    assert a[j] in multiset(a[i + 1..]);
    assert multiset(a)[a[i]] == multiset(a[..i])[a[i]] + 1 + multiset(a[i + 1..])[a[i]];
  }

  /** A rearrangement of records with distinct ids has distinct ids. */
  lemma PermutationDistinct(a: seq<Game>, b: seq<Game>)
    requires multiset(a) == multiset(b) && DistinctIds(b)
    ensures DistinctIds(a)
  {
    CountAtMostOne(b);
    forall i, j | 0 <= i < j < |a|
      ensures a[i].id != a[j].id
    {
      NoRepeat(a, i, j);
      assert a[i] in multiset(b) && a[j] in multiset(b);
      var p :| 0 <= p < |b| && b[p] == a[i];
      var q :| 0 <= q < |b| && b[q] == a[j];
      if p < q {
        assert b[p].id != b[q].id;
      } else {
        assert b[q].id != b[p].id;
      }
    }
  }

  /* ---------------------------------------------------------------------
     The Map of line 38 and the shuffle of lines 41-44
     --------------------------------------------------------------------- */

  /** A Map<number, RawgGame>: its keys in insertion order and its entries. */
  class IdMap {
    var keys: seq<int>
    var entries: map<int, Game>

    ghost predicate Valid()
      reads this
    {
      && NoRepeats(keys)
      && (forall i :: 0 <= i < |keys| ==> keys[i] in entries)
      && (forall id :: id in entries ==> id in keys)
    }

    constructor ()
      ensures Valid() && keys == [] && entries == map[]
    {
      keys := [];
      entries := map[];
    }

    /** unique.set(id, g): a new key goes last, an existing one keeps its place. */
    method Set(id: int, g: Game)
      requires Valid()
      modifies this
      ensures Valid()
      ensures keys == if id in old(keys) then old(keys) else old(keys) + [id]
      ensures entries == old(entries)[id := g]
    {
      if id !in entries {
        keys := keys + [id];
      }
      entries := entries[id := g];
    }

    /** Array.from(unique.values()) */
    method Values() returns (arr: array<Game>)
      requires Valid()
      ensures fresh(arr) && arr.Length == |keys|
      ensures forall i :: 0 <= i < |keys| ==> arr[i] == entries[keys[i]]
    {
      var ks, es := keys, entries;
      arr := new Game[|ks|](i requires 0 <= i < |ks| && ks[i] in es => es[ks[i]]);
    }
  }

  /** The descending Fisher-Yates loop: position i swaps with a drawn
      j in 0..i, for i from the last index down to 1. */
  method Shuffle(arr: array<Game>, rand: nat -> nat, cursor: nat) returns (next: nat)
    requires RandomStream(rand)
    modifies arr
    ensures next == cursor + ShuffleDraws(arr.Length)
    ensures multiset(arr[..]) == multiset(old(arr[..]))
  {
    next := cursor;
    var i := arr.Length - 1;
    while i > 0
      invariant -1 <= i < arr.Length
      invariant arr.Length > 0 ==> i >= 0
      invariant next == cursor + (arr.Length - 1 - i)
      invariant multiset(arr[..]) == multiset(old(arr[..]))
    {
      var u := rand(next);
      ScaledDrawRange(u, i + 1);
      var j := ScaledDraw(u, i + 1);
      arr[i], arr[j] := arr[j], arr[i];
      next := next + 1;
      i := i - 1;
    }
  }

  /** Extending a prefix by one record: the new id goes last if it is new,
      and that record becomes the last one carrying its id. */
  lemma PrefixStep(games: seq<Game>, k: nat)
    requires k < |games|
    ensures Ids(games[..k + 1]) == Ids(games[..k]) + {games[k].id}
    ensures FirstIds(games[..k + 1]) ==
      if games[k].id in FirstIds(games[..k]) then FirstIds(games[..k]) else FirstIds(games[..k]) + [games[k].id]
    ensures LastWith(games[..k + 1], games[k].id) == games[k]
    ensures forall id :: id in Ids(games[..k]) && id != games[k].id ==> LastWith(games[..k + 1], id) == LastWith(games[..k], id)
  {
    var prefix := games[..k + 1];
    assert prefix[..k] == games[..k] && prefix[k] == games[k];
    assert prefix == games[..k] + [games[k]];
  }

  /** Lines 38-40: the Map keyed by id, then the array of its values. */
  method DedupById(games: seq<Game>) returns (arr: array<Game>)
    ensures fresh(arr) && arr[..] == Dedup(games)
  {
    var unique := new IdMap();
    for k := 0 to |games|
      invariant unique.Valid()
      invariant unique.keys == FirstIds(games[..k])
      invariant forall id :: id in unique.entries ==> id in Ids(games[..k]) && unique.entries[id] == LastWith(games[..k], id)
    {
      PrefixStep(games, k);
      unique.Set(games[k].id, games[k]);
    }
    assert games[..|games|] == games;
    arr := unique.Values();
  }

  /** pickRandomDistinct(games, n), reading Math.random() from rand(cursor)
      on; also returns where the next Math.random() call reads. */
  method PickRandomDistinct(games: seq<Game>, n: int, rand: nat -> nat, cursor: nat)
    returns (picked: seq<Game>, next: nat)
    requires RandomStream(rand)
    ensures |picked| == SliceLength(n, |Ids(games)|)
    ensures DistinctIds(picked)
    ensures forall g :: g in picked ==> g.id in Ids(games) && g == LastWith(games, g.id)
    ensures multiset(picked) <= multiset(Dedup(games))
    ensures n >= |Ids(games)| ==> multiset(picked) == multiset(Dedup(games))
    ensures next == cursor + ShuffleDraws(|Ids(games)|)
  {
    var arr := DedupById(games);
    DedupFacts(games);
    next := Shuffle(arr, rand, cursor);
    var m := SliceLength(n, arr.Length);
    picked := arr[..m];
    ShuffledPrefix(arr[..], games, m);
  }

  /** Any prefix of a permutation of Dedup(games) holds distinct ids, each
      with the record the Map kept for it. */
  lemma ShuffledPrefix(pool: seq<Game>, games: seq<Game>, m: nat)
    requires multiset(pool) == multiset(Dedup(games)) && m <= |pool|
    ensures DistinctIds(pool[..m])
    ensures forall g :: g in pool[..m] ==> g.id in Ids(games) && g == LastWith(games, g.id)
    ensures multiset(pool[..m]) <= multiset(Dedup(games))
    ensures m == |pool| ==> multiset(pool[..m]) == multiset(Dedup(games))
  {
    DedupFacts(games);
    PermutationDistinct(pool, Dedup(games));
    var picked := pool[..m];
    assert DistinctIds(picked) by {
      forall i, j | 0 <= i < j < m
        ensures picked[i].id != picked[j].id
      {
        assert picked[i] == pool[i] && picked[j] == pool[j];
      }
    }
    assert multiset(pool) == multiset(picked) + multiset(pool[m..]) by {
      assert pool == picked + pool[m..];
    }
    forall g | g in picked
      ensures g.id in Ids(games) && g == LastWith(games, g.id)
    {
      assert g in multiset(Dedup(games));
    }
  }
}
