/**
 `_dist_extraction` of app/distribution.py: turns a list of histograms (each a
 mapping from a value to how often it occurs) into the sorted list of every
 value seen, and a table counting how many histograms share each count
 vector over those values.
 */
module Distribution {

  /** One histogram: a value (an energy or a spin total) and its frequency. */
  type Histogram = map<int, int>

  /** A count vector, the list that `tuple(...)` turns into a dictionary key. */
  type Vector = seq<int>

  /** What `_dist_extraction` returns: `'states'` and `'counts'`. */
  datatype Extraction = Extraction(states: seq<int>, counts: map<Vector, int>)

  // ---------------------------------------------------------------------------
  // The sorted keys
  // ---------------------------------------------------------------------------

  /** `set(sum([list(i.keys()) for i in dist], []))`: every key of every
      histogram, and nothing else. */
  function AllKeys(dist: seq<Histogram>): (r: set<int>)
    ensures forall k :: k in r <==> exists i :: 0 <= i < |dist| && k in dist[i]
  {
    if dist == [] then {}
    else
      var prev := dist[..|dist| - 1];
      var r := AllKeys(prev) + dist[|dist| - 1].Keys;
      assert forall i :: 0 <= i < |prev| ==> prev[i] == dist[i];
      r
  }

  /** A non-empty set of integers has a least element. */
  lemma {:induction false} LeastExists(s: set<int>)
    requires s != {}
    ensures exists m :: m in s && forall x :: x in s ==> m <= x
    decreases |s|
  {
    if forall x :: x !in s {
      assert false;
    }
    var y :| y in s;
    var t := s - {y};
    if t == {} {
      assert s == {y};
      assert y in s && forall x :: x in s ==> y <= x;
    } else {
      LeastExists(t);
      var m :| m in t && forall x :: x in t ==> m <= x;
      var least := if y < m then y else m;
      forall x | x in s
        ensures least <= x
      {
        if x != y {
          assert x in t;
        }
      }
      assert least in s && forall x :: x in s ==> least <= x;
    }
  }

  predicate StrictlyAscending(s: seq<int>) {
    forall a, b :: 0 <= a < b < |s| ==> s[a] < s[b]
  }

  /** The least element of a non-empty set. */
  function Least(s: set<int>): (m: int)
    requires s != {}
    ensures m in s && forall x :: x in s ==> m <= x
  {
    LeastExists(s);
    var m :| m in s && forall x :: x in s ==> m <= x; m
  }

  /** `list(...)` followed by `.sort()`: the elements of s in ascending order,
      each once. */
  function SortedElements(s: set<int>): (r: seq<int>)
    ensures StrictlyAscending(r)
    ensures forall x :: x in r <==> x in s
    ensures |r| == |s|
    decreases |s|
  {
    if s == {} then []
    else
      var m := Least(s);
      var rest := SortedElements(s - {m});
      assert forall a :: 0 <= a < |rest| ==> m < rest[a];
      [m] + rest
  }

  // ---------------------------------------------------------------------------
  // Count vectors
  // ---------------------------------------------------------------------------

  /** `i.get(j, 0)`. */
  function Get(m: Histogram, k: int): int {
    if k in m then m[k] else 0
  }

  /** `[i.get(j, 0) for j in dist_keys]`. */
  function VectorOf(m: Histogram, keys: seq<int>): (r: Vector)
    ensures |r| == |keys|
  {
    seq(|keys|, j requires 0 <= j < |keys| => Get(m, keys[j]))
  }

  /** Over a key list that covers both histograms, two histograms get the same
      vector exactly when they agree on every value (an absent value counting
      as 0). */
  lemma VectorsAgree(m1: Histogram, m2: Histogram, keys: seq<int>)
    requires forall k :: k in m1 || k in m2 ==> k in keys
    ensures VectorOf(m1, keys) == VectorOf(m2, keys) <==> forall k :: Get(m1, k) == Get(m2, k)
  {
    var v1, v2 := VectorOf(m1, keys), VectorOf(m2, keys);
    if v1 == v2 {
      forall k
        ensures Get(m1, k) == Get(m2, k)
      {
        if k in keys {
          var j :| 0 <= j < |keys| && keys[j] == k;
          assert v1[j] == Get(m1, k) && v2[j] == Get(m2, k);
        }
      }
    }
  }

  /** `dist_values`: one vector per histogram, in the order of the input. */
  function Vectors(dist: seq<Histogram>, keys: seq<int>): (r: seq<Vector>)
    ensures |r| == |dist|
  {
    seq(|dist|, i requires 0 <= i < |dist| => VectorOf(dist[i], keys))
  }

  /** A vector occurs in `dist_values` exactly when some histogram yields it. */
  lemma InVectors(dist: seq<Histogram>, keys: seq<int>, v: Vector)
    ensures v in Vectors(dist, keys) <==> exists i :: 0 <= i < |dist| && v == VectorOf(dist[i], keys)
  {
    var values := Vectors(dist, keys);
    if v in values {
      var i :| 0 <= i < |values| && values[i] == v;
      assert v == VectorOf(dist[i], keys);
    }
    if exists i :: 0 <= i < |dist| && v == VectorOf(dist[i], keys) {
      var i :| 0 <= i < |dist| && v == VectorOf(dist[i], keys);
      assert values[i] == v;
    }
  }

  // ---------------------------------------------------------------------------
  // Counting equal vectors
  // ---------------------------------------------------------------------------

  /** `dist_values.count(v)`: how many entries of vs equal v. */
  function Occurrences(vs: seq<Vector>, v: Vector): (r: nat)
    ensures r <= |vs|
  {
    if vs == [] then 0
    else Occurrences(vs[..|vs| - 1], v) + (if vs[|vs| - 1] == v then 1 else 0)
  }

  /** Counting by `list.count` agrees with the multiplicity in the multiset of
      the list, so an entry that occurs is counted at least once. */
  lemma {:induction false} OccurrencesMultiset(vs: seq<Vector>, v: Vector)
    ensures Occurrences(vs, v) == multiset(vs)[v]
    ensures v in vs <==> Occurrences(vs, v) >= 1
  {
    if vs != [] {
      var prev := vs[..|vs| - 1];
      OccurrencesMultiset(prev, v);
      assert vs == prev + [vs[|vs| - 1]];
    }
  }

  /** The loop of `_dist_extraction` that fills `dist_counts`: for each vector
      in turn, store its number of occurrences under it. */
  method CountVectors(vs: seq<Vector>) returns (counts: map<Vector, int>)
    ensures forall v :: v in counts <==> v in vs
    ensures forall v :: v in counts ==> counts[v] == Occurrences(vs, v) >= 1
  {
    counts := map[];
    for i := 0 to |vs|
      invariant forall v :: v in counts <==> v in vs[..i]
      invariant forall v :: v in counts ==> counts[v] == Occurrences(vs, v)
    {
      counts := counts[vs[i] := Occurrences(vs, vs[i])];
      assert vs[..i + 1] == vs[..i] + [vs[i]];
    }
    assert vs[..|vs|] == vs;
    forall v | v in counts
      ensures counts[v] >= 1
    {
      OccurrencesMultiset(vs, v);
    }
  }

  // ---------------------------------------------------------------------------
  // The sum of the counts
  // ---------------------------------------------------------------------------

  /** A non-empty table has a key. */
  lemma KeyExists(m: map<Vector, int>)
    requires m != map[]
    ensures exists k :: k in m
  {
    if forall k :: k !in m {
      assert false;
    }
  }

  /** Some key of a non-empty table. */
  ghost function AnyKey(m: map<Vector, int>): (k: Vector)
    requires m != map[]
    ensures k in m
  {
    KeyExists(m);
    var k :| k in m; k
  }

  /** The sum of the values of a table. */
  ghost function Total(m: map<Vector, int>): int
    decreases |m.Keys|
  {
    if m == map[] then 0
    else
      var k := AnyKey(m);
      assert m.Keys - {k} < m.Keys;
      m[k] + Total(m - {k})
  }

  /** Removing every copy of k from a multiset removes ms[k] elements. */
  lemma {:induction false} DropAll(ms: multiset<Vector>, k: Vector)
    ensures |ms| == |ms[k := 0]| + ms[k]
    decreases ms[k]
  {
    if ms[k] > 0 {
      var fewer := ms - multiset{k};
      assert ms == fewer + multiset{k};
      assert fewer[k := 0] == ms[k := 0];
      DropAll(fewer, k);
    } else {
      assert ms[k := 0] == ms;
    }
  }

  /** A table that holds the multiplicity of each element of a multiset, and
      only those, sums to the size of the multiset. */
  lemma {:induction false} TotalIsSize(m: map<Vector, int>, ms: multiset<Vector>)
    requires forall v :: v in m <==> v in ms
    requires forall v :: v in m ==> m[v] == ms[v]
    ensures Total(m) == |ms|
    decreases |m.Keys|
  {
    if m == map[] {
      forall v
        ensures ms[v] == 0
      {
        assert v !in m;
      }
      assert ms == multiset{};
    } else {
      var k := AnyKey(m);
      var rest := ms[k := 0];
      DropAll(ms, k);
      assert m.Keys - {k} < m.Keys;
      TotalIsSize(m - {k}, rest);
    }
  }

  // ---------------------------------------------------------------------------
  // The whole extraction
  // ---------------------------------------------------------------------------

  /** `_dist_extraction`. `'states'` lists every value of every histogram in
      ascending order, each once; `'counts'` maps each histogram's count vector
      over those values to the number of histograms that share it. */
  method DistExtraction(dist: seq<Histogram>) returns (r: Extraction)
    ensures StrictlyAscending(r.states)
    ensures forall k :: k in r.states <==> exists i :: 0 <= i < |dist| && k in dist[i]
    ensures forall v :: v in r.counts <==> exists i :: 0 <= i < |dist| && v == VectorOf(dist[i], r.states)
    ensures forall v :: v in r.counts ==> r.counts[v] == Occurrences(Vectors(dist, r.states), v) >= 1
    ensures Total(r.counts) == |dist|
    ensures dist == [] ==> r.states == [] && r.counts == map[]
  {
    var keys := SortedElements(AllKeys(dist));
    var values := Vectors(dist, keys);
    var counts := CountVectors(values);
    r := Extraction(keys, counts);
    forall v
      ensures v in counts <==> exists i :: 0 <= i < |dist| && v == VectorOf(dist[i], keys)
    {
      InVectors(dist, keys, v);
    }
    CountsTotal(dist, keys, counts);
    if dist == [] {
      assert counts == map[];
    }
  }

  /** The counts add up to the number of histograms. */
  lemma CountsTotal(dist: seq<Histogram>, keys: seq<int>, counts: map<Vector, int>)
    requires forall v :: v in counts <==> v in Vectors(dist, keys)
    requires forall v :: v in counts ==> counts[v] == Occurrences(Vectors(dist, keys), v)
    ensures Total(counts) == |dist|
  {
    var vs := Vectors(dist, keys);
    forall v | v in counts
      ensures counts[v] == multiset(vs)[v]
    {
      OccurrencesMultiset(vs, v);
    }
    TotalIsSize(counts, multiset(vs));
  }
}
