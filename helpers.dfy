/** src/helpers.ts: the embedding index that pairs code strings with the dense
    integer labels of the HNSW structure, and `dedupeByProperty`. */
module Helpers {
  import opened Wrappers
  import opened Hnsw

  /** The `k` of `searchNearest` when the caller gives none. */
  const DefaultK: nat := 10

  /** One element of the `items` array given to `addItems`. */
  datatype Item = Item(code: string, emb: Vector)

  /** One element of `searchNearest(...).neighbors`: `code` is `undefined`
      when no code was recorded at the label the library returned. */
  datatype Neighbor = Neighbor(code: Option<string>, distance: real)

  function CodesOf(items: seq<Item>): (codes: seq<string>)
    ensures |codes| == |items|
    ensures forall i :: 0 <= i < |items| ==> codes[i] == items[i].code
  {
    seq(|items|, i requires 0 <= i < |items| => items[i].code)
  }

  /** The points `addItems` hands to the library: item i gets label `first + i`. */
  function PointsOf(items: seq<Item>, first: nat): (points: seq<Point>)
    ensures |points| == |items|
    ensures forall i :: 0 <= i < |items| ==> points[i] == Point(items[i].emb, first + i)
  {
    seq(|items|, i requires 0 <= i < |items| => Point(items[i].emb, first + i))
  }

  ghost predicate Distinct<X>(s: seq<X>)
  {
    forall i, j :: 0 <= i < j < |s| ==> s[i] != s[j]
  }

  // ---------------------------------------------------------------------------
  // The two maps of the index, as functions of the codes added so far.

  /** `positionToId` after `added` went through `addItem` in order. */
  ghost function Positions(added: seq<string>): map<nat, string>
  {
    if added == [] then map[]
    else Positions(added[..|added| - 1])[|added| - 1 := added[|added| - 1]]
  }

  /** `idToPosition` after `added` went through `addItem` in order. */
  ghost function LatestPositions(added: seq<string>): map<string, nat>
  {
    if added == [] then map[]
    else LatestPositions(added[..|added| - 1])[added[|added| - 1] := |added| - 1]
  }

  /** Position p holds the p-th code added, and only positions handed out are mapped. */
  lemma {:induction false} PositionsSpec(added: seq<string>)
    ensures forall p: nat :: p in Positions(added) <==> p < |added|
    ensures forall p: nat :: p < |added| ==> Positions(added)[p] == added[p]
  {
    if added != [] {
      PositionsSpec(added[..|added| - 1]);
    }
  }

  /** Every code added maps to the LAST position it was added at. */
  lemma {:induction false} LatestPositionsSpec(added: seq<string>)
    ensures var m := LatestPositions(added);
      && m.Keys == set c | c in added
      && (forall c :: c in m ==> m[c] < |added| && added[m[c]] == c)
      && (forall c, p :: c in m && m[c] < p < |added| ==> added[p] != c)
  {
    if added != [] {
      var q := added[..|added| - 1];
      LatestPositionsSpec(q);
      assert added == q + [added[|added| - 1]];
    }
  }

  /** The two maps are inverse bijections of each other. */
  ghost predicate MutualInverses(idToPosition: map<string, nat>, positionToId: map<nat, string>)
  {
    && (forall c :: c in idToPosition ==>
          idToPosition[c] in positionToId && positionToId[idToPosition[c]] == c)
    && (forall p :: p in positionToId ==>
          positionToId[p] in idToPosition && idToPosition[positionToId[p]] == p)
  }

  lemma ItemsStep(items: seq<Item>, i: nat, first: nat)
    requires i < |items|
    ensures CodesOf(items[..i + 1]) == CodesOf(items[..i]) + [items[i].code]
    ensures PointsOf(items[..i + 1], first) == PointsOf(items[..i], first) + [Point(items[i].emb, first + i)]
  {
  }

  /** The maps are mutual inverses exactly when no code was added twice. */
  lemma InverseIffDistinct(added: seq<string>)
    ensures MutualInverses(LatestPositions(added), Positions(added)) <==> Distinct(added)
  {
    var ids, pos := LatestPositions(added), Positions(added);
    PositionsSpec(added);
    LatestPositionsSpec(added);
    if Distinct(added) {
      forall c | c in ids
        ensures ids[c] in pos && pos[ids[c]] == c
      {
        assert added[ids[c]] == c;
      }
      forall p | p in pos
        ensures pos[p] in ids && ids[pos[p]] == p
      {
        var c := added[p];
        assert pos[p] == c && c in added;
        assert added[ids[c]] == c;
      }
      assert MutualInverses(ids, pos);
    } else {
      var i, j :| 0 <= i < j < |added| && added[i] == added[j];
      var c := added[i];
      assert i in pos && pos[i] == c;
      assert j in pos && pos[j] == c;
      assert ids[c] != i;
    }
  }

  /** Adding a code again moves `idToPosition` to the new position while the
      old `positionToId` entry still names the code, so the maps stop being
      inverses. */
  lemma ReAddLeavesStaleEntry(added: seq<string>, p: nat)
    requires p < |added|
    ensures var again := added + [added[p]];
      && LatestPositions(again)[added[p]] == |added|
      && p in Positions(again) && Positions(again)[p] == added[p]
      && |added| in Positions(again) && Positions(again)[|added|] == added[p]
      && !MutualInverses(LatestPositions(again), Positions(again))
  {
    var again := added + [added[p]];
    assert again[..|again| - 1] == added;
    PositionsSpec(again);
    assert again[p] == again[|added|];
    InverseIffDistinct(again);
  }

  // ---------------------------------------------------------------------------

  /** `EmbeddingIndex`: an HNSW structure plus the two maps between code
      strings and the structure's integer labels. It never rejects a code
      itself; a re-added code gets a new position. */
  class EmbeddingIndex {
    const index: HierarchicalNsw
    var idToPosition: map<string, nat>
    var positionToId: map<nat, string>
    var currentPosition: nat
    /** The codes added so far, in order; item p went in at position p. */
    ghost var added: seq<string>

    ghost predicate Valid()
      reads this, index
    {
      && currentPosition == |added|
      && positionToId == Positions(added)
      && idToPosition == LatestPositions(added)
      && |index.points| == |added|
      && (forall p :: 0 <= p < |index.points| ==> index.points[p].position == p)
    }

    /** What a valid index's maps hold: `positionToId` maps each position
        handed out to the code added there and nothing else; `idToPosition`
        maps each code added to the last position it went in at; and the two
        are inverses exactly when no code was added twice. */
    lemma MapsTrackAdded()
      requires Valid()
      ensures currentPosition == |added|
      ensures forall p: nat :: p in positionToId <==> p < |added|
      ensures forall p: nat :: p < |added| ==> positionToId[p] == added[p]
      ensures forall c :: c in idToPosition <==> c in added
      ensures forall c :: c in idToPosition ==>
        && idToPosition[c] < |added| && added[idToPosition[c]] == c
        && (forall p :: idToPosition[c] < p < |added| ==> added[p] != c)
      ensures MutualInverses(idToPosition, positionToId) <==> Distinct(added)
    {
      PositionsSpec(added);
      LatestPositionsSpec(added);
      InverseIffDistinct(added);
    }

    constructor (dimension: nat, maxElements: nat,
                 accepts: (seq<Point>, Vector, nat) -> bool,
                 knn: (seq<Point>, Vector, nat) -> Knn)
      ensures Valid() && fresh(index)
      ensures index.dimension == dimension && index.maxElements == maxElements
      ensures index.accepts == accepts && index.knn == knn
      ensures added == [] && currentPosition == 0
      ensures idToPosition == map[] && positionToId == map[]
    {
      index := new HierarchicalNsw(dimension, maxElements, accepts, knn);
      idToPosition := map[];
      positionToId := map[];
      currentPosition := 0;
      added := [];
    }

    /** `addItem(code, embedding)`: `ok == false` stands for the exception
        `addPoint` throws, which leaves the maps and the counter as they were. */
    method AddItem(code: string, embedding: Vector) returns (ok: bool)
      requires Valid()
      modifies this, index
      ensures Valid()
      ensures ok == index.accepts(old(index.points), embedding, old(currentPosition))
      ensures ok ==>
        && added == old(added) + [code]
        && currentPosition == old(currentPosition) + 1
        && positionToId == old(positionToId)[old(currentPosition) := code]
        && idToPosition == old(idToPosition)[code := old(currentPosition)]
        && index.points == old(index.points) + [Point(embedding, old(currentPosition))]
      ensures !ok ==>
        && added == old(added)
        && currentPosition == old(currentPosition)
        && positionToId == old(positionToId)
        && idToPosition == old(idToPosition)
        && index.points == old(index.points)
    {
      ok := index.AddPoint(embedding, currentPosition);
      if ok {
        idToPosition := idToPosition[code := currentPosition];
        positionToId := positionToId[currentPosition := code];
        currentPosition := currentPosition + 1;
        added := added + [code];
        assert added[..|added| - 1] == old(added);
      }
    }

    /** `addItems(items)`: `addItem` on each item in order. The first item the
        library rejects ends the loop (the exception propagates); the result
        names it. */
    method AddItems(items: seq<Item>) returns (failedAt: Option<nat>)
      requires Valid()
      modifies this, index
      ensures Valid()
      ensures failedAt.Some? ==> failedAt.value < |items|
      ensures var n := if failedAt.Some? then failedAt.value else |items|;
        && added == old(added) + CodesOf(items[..n])
        && currentPosition == old(currentPosition) + n
        && (forall i :: 0 <= i < n ==> added[old(currentPosition) + i] == items[i].code)
        && index.points == old(index.points) + PointsOf(items[..n], old(currentPosition))
        && (failedAt.Some? ==> !index.accepts(index.points, items[n].emb, currentPosition))
    {
      var i := 0;
      while i < |items|
        invariant 0 <= i <= |items|
        invariant Valid()
        invariant currentPosition == old(currentPosition) + i
        invariant added == old(added) + CodesOf(items[..i])
        invariant index.points == old(index.points) + PointsOf(items[..i], old(currentPosition))
      {
        var ok := AddItem(items[i].code, items[i].emb);
        if !ok {
          return Some(i);
        }
        ItemsStep(items, i, old(currentPosition));
        i := i + 1;
      }
      return None;
    }

    /** `searchNearest(queryEmbedding, k = 10)`: one result per label the
        library returns, in the library's order, pairing
        `positionToId.get(label)` with the label's distance. */
    function SearchNearest(queryEmbedding: Vector, k: nat := DefaultK): (r: seq<Neighbor>)
      reads this, index
      ensures var result := index.SearchKnn(queryEmbedding, k);
        && |r| == |result.neighbors|
        && forall i :: 0 <= i < |r| ==>
          && r[i].distance == result.distances[i]
          && (r[i].code.Some? <==> result.neighbors[i] in positionToId)
          && (r[i].code.Some? ==> r[i].code.value == positionToId[result.neighbors[i]])
    {
      var result, ids := index.SearchKnn(queryEmbedding, k), positionToId;
      seq(|result.neighbors|, i requires 0 <= i < |result.neighbors| =>
        Neighbor(Get(ids, result.neighbors[i]), result.distances[i]))
    }

    /** On a valid index, result i of `searchNearest` names the code added at
        the label the library returned, and is `undefined` exactly when that
        label was never handed out. */
    lemma SearchNearestNamesAddedCodes(queryEmbedding: Vector, k: nat)
      requires Valid()
      ensures var r := SearchNearest(queryEmbedding, k);
        var labels := index.SearchKnn(queryEmbedding, k).neighbors;
        forall i :: 0 <= i < |r| ==>
          && (r[i].code.Some? <==> labels[i] < currentPosition)
          && (r[i].code.Some? ==> r[i].code.value == added[labels[i]])
    {
      PositionsSpec(added);
    }

    /** Every code a search names is one that was added to the index. */
    lemma SearchNearestCodesWereAdded(queryEmbedding: Vector, k: nat)
      requires Valid()
      ensures var r := SearchNearest(queryEmbedding, k);
        forall i :: 0 <= i < |r| && r[i].code.Some? ==> r[i].code.value in added
    {
      SearchNearestNamesAddedCodes(queryEmbedding, k);
    }
  }

  // ---------------------------------------------------------------------------
  // dedupeByProperty: a JavaScript Map filled by `map.set(item[property], item)`.

  /** The property values of `arr`, in order. */
  function KeysOf<T, K>(key: T -> K, arr: seq<T>): (ks: seq<K>)
    ensures |ks| == |arr|
    ensures forall i :: 0 <= i < |arr| ==> ks[i] == key(arr[i])
  {
    seq(|arr|, i requires 0 <= i < |arr| => key(arr[i]))
  }

  /** The first index of `v` in `s`, or `|s|` when `v` does not occur. */
  function IndexOf<K(==)>(s: seq<K>, v: K): (i: nat)
    ensures i <= |s|
    ensures i < |s| ==> s[i] == v
    ensures forall j :: 0 <= j < i ==> s[j] != v
  {
    if s == [] then 0
    else
      var i := IndexOf(s[..|s| - 1], v);
      if i < |s| - 1 then i else if s[|s| - 1] == v then |s| - 1 else |s|
  }

  /** The last index of an element of `arr` whose key is `k`, or -1. */
  function LastIndex<T, K(==)>(key: T -> K, arr: seq<T>, k: K): (i: int)
    ensures -1 <= i < |arr|
    ensures 0 <= i ==> key(arr[i]) == k
    ensures forall j :: i < j < |arr| ==> key(arr[j]) != k
  {
    if arr == [] then -1
    else if key(arr[|arr| - 1]) == k then |arr| - 1
    else LastIndex(key, arr[..|arr| - 1], k)
  }

  /** `map.set(key(item), item)` on a Map listed as its values in insertion
      order: an existing key keeps its place and takes the new value, a new
      key goes last. */
  function MapSet<T, K(==)>(key: T -> K, entries: seq<T>, item: T): seq<T>
  {
    var i := IndexOf(KeysOf(key, entries), key(item));
    if i < |entries| then entries[i := item] else entries + [item]
  }

  /** `Array.from(map.values())` after `map.set` on every element of `arr` in order. */
  function Dedupe<T, K(==)>(key: T -> K, arr: seq<T>): seq<T>
  {
    if arr == [] then [] else MapSet(key, Dedupe(key, arr[..|arr| - 1]), arr[|arr| - 1])
  }

  /** Reference definition: the distinct elements of `s`, each at its first occurrence. */
  function FirstOccurrences<K(==)>(s: seq<K>): seq<K>
  {
    if s == [] then []
    else
      var p := FirstOccurrences(s[..|s| - 1]);
      if s[|s| - 1] in p then p else p + [s[|s| - 1]]
  }

  lemma {:induction false} FirstOccurrencesSpec<K>(s: seq<K>)
    ensures Distinct(FirstOccurrences(s))
    ensures forall v :: v in FirstOccurrences(s) ==> v in s
    ensures forall v :: v in s ==> v in FirstOccurrences(s)
    ensures |FirstOccurrences(s)| <= |s|
  {
    if s != [] {
      var q := s[..|s| - 1];
      FirstOccurrencesSpec(q);
      assert s == q + [s[|s| - 1]];
    }
  }

  /** The elements of `FirstOccurrences(s)` come in the order of their first
      index in `s`. */
  lemma {:induction false} FirstOccurrencesOrder<K>(s: seq<K>)
    ensures var f := FirstOccurrences(s);
      forall i, j :: 0 <= i < j < |f| ==> IndexOf(s, f[i]) < IndexOf(s, f[j])
  {
    if s != [] {
      var q := s[..|s| - 1];
      FirstOccurrencesOrder(q);
      FirstOccurrencesSpec(q);
      var f, fq, x := FirstOccurrences(s), FirstOccurrences(q), s[|s| - 1];
      assert s[..|s| - 1] == q;
      assert f == if x in fq then fq else fq + [x];
      forall v | v in q
        ensures IndexOf(s, v) == IndexOf(q, v) < |q|
      {
      }
      forall i, j | 0 <= i < j < |f|
        ensures IndexOf(s, f[i]) < IndexOf(s, f[j])
      {
        assert f[i] == fq[i] && fq[i] in fq && fq[i] in q;
        assert IndexOf(s, f[i]) == IndexOf(q, fq[i]) < |q|;
        if j < |fq| {
          assert f[j] == fq[j] && fq[j] in fq && fq[j] in q;
          assert IndexOf(s, f[j]) == IndexOf(q, fq[j]);
          assert IndexOf(q, fq[i]) < IndexOf(q, fq[j]);
        } else {
          assert f[j] == x && x !in q;
          assert IndexOf(s, x) == |q|;
        }
      }
    }
  }

  lemma KeysOfPrefix<T, K>(key: T -> K, arr: seq<T>, n: nat)
    requires n <= |arr|
    ensures KeysOf(key, arr[..n]) == KeysOf(key, arr)[..n]
  {
  }

  /** `map.set` on a Map whose keys are distinct: an existing key keeps its
      place, a new key goes last. */
  lemma MapSetKeys<T, K>(key: T -> K, d: seq<T>, x: T)
    requires Distinct(KeysOf(key, d))
    ensures var ks := KeysOf(key, d);
      KeysOf(key, MapSet(key, d, x)) == if key(x) in ks then ks else ks + [key(x)]
  {
    var ks := KeysOf(key, d);
    var i := IndexOf(ks, key(x));
    if key(x) in ks {
      assert i < |d|;
      assert KeysOf(key, d[i := x]) == ks;
    } else {
      assert KeysOf(key, d + [x]) == ks + [key(x)];
    }
  }

  /** The keys of the result are the keys of the input, each once, in the
      order of their first insertion. */
  lemma {:induction false} DedupeKeysAreFirstOccurrences<T, K>(key: T -> K, arr: seq<T>)
    ensures KeysOf(key, Dedupe(key, arr)) == FirstOccurrences(KeysOf(key, arr))
  {
    if arr != [] {
      var q, x := arr[..|arr| - 1], arr[|arr| - 1];
      DedupeKeysAreFirstOccurrences(key, q);
      KeysOfPrefix(key, arr, |arr| - 1);
      FirstOccurrencesSpec(KeysOf(key, q));
      MapSetKeys(key, Dedupe(key, q), x);
    }
  }

  /** The element kept under each key is the last input element with that key. */
  lemma {:induction false} DedupeKeepsLast<T, K>(key: T -> K, arr: seq<T>)
    ensures var d := Dedupe(key, arr);
      forall i :: 0 <= i < |d| ==>
        0 <= LastIndex(key, arr, key(d[i])) && d[i] == arr[LastIndex(key, arr, key(d[i]))]
  {
    if arr != [] {
      var q, x := arr[..|arr| - 1], arr[|arr| - 1];
      DedupeKeepsLast(key, q);
      var d := Dedupe(key, q);
      DedupeKeysAreFirstOccurrences(key, q);
      FirstOccurrencesSpec(KeysOf(key, q));
      var ks := KeysOf(key, d);
      var f := IndexOf(ks, key(x));
      var d' := Dedupe(key, arr);
      forall i | 0 <= i < |d'|
        ensures 0 <= LastIndex(key, arr, key(d'[i])) && d'[i] == arr[LastIndex(key, arr, key(d'[i]))]
      {
        if i == f {
          assert d'[i] == x;
        } else {
          assert d'[i] == d[i];
          assert ks[i] != key(x);
        }
      }
    }
  }

  /** One `map.set(key(x), x)` on the Map kept as its keys in insertion
      order and a map from key to value: the pair still lists `MapSet`'s
      result. */
  lemma MapSetStep<T, K>(key: T -> K, d: seq<T>, keys: seq<K>, values: map<K, T>, x: T)
    requires keys == KeysOf(key, d) && Distinct(keys)
    requires forall k :: k in values <==> k in keys
    requires forall n :: 0 <= n < |keys| ==> values[keys[n]] == d[n]
    ensures var keys' := if key(x) in values then keys else keys + [key(x)];
      var values', d' := values[key(x) := x], MapSet(key, d, x);
      && keys' == KeysOf(key, d')
      && Distinct(keys')
      && (forall k :: k in values' <==> k in keys')
      && (forall n :: 0 <= n < |keys'| ==> values'[keys'[n]] == d'[n])
  {
    MapSetKeys(key, d, x);
  }

  /** One turn of the loop over `arr`: after `map.set(key(arr[i]), arr[i])`
      the key list and the key-to-value map list `Dedupe` of the longer prefix. */
  lemma DedupeStep<T, K>(key: T -> K, arr: seq<T>, i: nat, keys: seq<K>, values: map<K, T>)
    requires i < |arr|
    requires keys == KeysOf(key, Dedupe(key, arr[..i])) && Distinct(keys)
    requires forall k :: k in values <==> k in keys
    requires forall n :: 0 <= n < |keys| ==> values[keys[n]] == Dedupe(key, arr[..i])[n]
    ensures var x := arr[i];
      var keys' := if key(x) in values then keys else keys + [key(x)];
      var values', d' := values[key(x) := x], Dedupe(key, arr[..i + 1]);
      && keys' == KeysOf(key, d')
      && Distinct(keys')
      && (forall k :: k in values' <==> k in keys')
      && (forall n :: 0 <= n < |keys'| ==> values'[keys'[n]] == d'[n])
  {
    assert arr[..i + 1][..i] == arr[..i];
    MapSetStep(key, Dedupe(key, arr[..i]), keys, values, arr[i]);
  }

  /** `dedupeByProperty(property, arr)`, with `key` reading the property.
      The local Map is kept as its keys in insertion order and a map from key
      to value; the result lists the values in key order. */
  method DedupeByProperty<T, K(==)>(key: T -> K, arr: seq<T>) returns (r: seq<T>)
    ensures r == Dedupe(key, arr)
    ensures |r| <= |arr|
    ensures Distinct(KeysOf(key, r))
    ensures KeysOf(key, r) == FirstOccurrences(KeysOf(key, arr))
    ensures forall i :: 0 <= i < |r| ==>
      0 <= LastIndex(key, arr, key(r[i])) && r[i] == arr[LastIndex(key, arr, key(r[i]))]
  {
    var keys: seq<K> := [];
    var values: map<K, T> := map[];
    var i := 0;
    while i < |arr|
      invariant 0 <= i <= |arr|
      invariant keys == KeysOf(key, Dedupe(key, arr[..i]))
      invariant Distinct(keys)
      invariant forall k :: k in values <==> k in keys
      invariant forall n :: 0 <= n < |keys| ==> values[keys[n]] == Dedupe(key, arr[..i])[n]
    {
      var item := arr[i];
      DedupeStep(key, arr, i, keys, values);
      if key(item) !in values {
        keys := keys + [key(item)];
      }
      values := values[key(item) := item];
      i := i + 1;
    }
    assert arr[..i] == arr;
    var d := Dedupe(key, arr);
    r := [];
    var n := 0;
    while n < |keys|
      invariant 0 <= n <= |keys|
      invariant r == d[..n]
    {
      r := r + [values[keys[n]]];
      n := n + 1;
    }
    DedupeKeysAreFirstOccurrences(key, arr);
    FirstOccurrencesSpec(KeysOf(key, arr));
    DedupeKeepsLast(key, arr);
  }
}
