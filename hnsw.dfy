/** The `hnswlib-node` HierarchicalNSW structure, which the embedding index
    delegates to. Its graph and its cosine distances are foreign code: the
    model keeps only what it was given (the accepted points, in order) and
    treats both of its answers as oracles fixed when it is created. */
module Hnsw {

  type Vector = seq<real>

  /** A point handed to `addPoint`: the vector and the integer label. */
  datatype Point = Point(vector: Vector, position: nat)

  /** What `searchKnn` returns: labels and their distances, as parallel arrays. */
  datatype KnnResult = KnnResult(neighbors: seq<nat>, distances: seq<real>)

  type Knn = r: KnnResult | |r.neighbors| == |r.distances| witness KnnResult([], [])

  class HierarchicalNsw {
    /** The vector length and the capacity the structure was created with.
        The library checks them inside `addPoint`; the model does not read
        them itself, because `accepts` stands for those checks. */
    const dimension: nat
    const maxElements: nat
    /** Whether `addPoint(v, position)` returns normally on a structure holding
        `points`; it throws otherwise. The oracle is fixed per structure, so it
        carries this structure's `dimension` and `maxElements`: a vector of
        another length, or a new label once `maxElements` points are held, is
        rejected by it. */
    const accepts: (seq<Point>, Vector, nat) -> bool
    /** The answer of `searchKnn(q, k)` on a structure holding `points`. */
    const knn: (seq<Point>, Vector, nat) -> Knn
    /** The points added so far, in order. */
    var points: seq<Point>

    /** `new HierarchicalNSW('cosine', dimension)` followed by `initIndex(maxElements)`. */
    constructor (dimension: nat, maxElements: nat,
                 accepts: (seq<Point>, Vector, nat) -> bool,
                 knn: (seq<Point>, Vector, nat) -> Knn)
      ensures this.dimension == dimension && this.maxElements == maxElements
      ensures this.accepts == accepts && this.knn == knn
      ensures points == []
    {
      this.dimension := dimension;
      this.maxElements := maxElements;
      this.accepts := accepts;
      this.knn := knn;
      points := [];
    }

    /** `addPoint(vector, position)`: `ok == false` stands for the exception. */
    method AddPoint(vector: Vector, position: nat) returns (ok: bool)
      modifies this
      ensures ok == accepts(old(points), vector, position)
      ensures points == if ok then old(points) + [Point(vector, position)] else old(points)
    {
      ok := accepts(points, vector, position);
      if ok {
        points := points + [Point(vector, position)];
      }
    }

    /** `searchKnn(query, k)` on the current points: labels and distances
        come as parallel arrays, and the answer depends only on the points
        accepted so far, the query and `k`. */
    function SearchKnn(query: Vector, k: nat): (r: Knn)
      reads this
      ensures |r.neighbors| == |r.distances|
      ensures r == knn(points, query, k)
    {
      knn(points, query, k)
    }
  }
}
