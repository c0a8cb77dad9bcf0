/** The distance filter of `retrieve` in app.py: the store's parallel result lists are zipped,
    entries whose distance is missing or within the threshold are kept in order, and each kept
    entry's metadata is copied with a `"distance"` key added. */
module Retrieval {
  import opened Wrappers
  import opened Index

  /** One `(txt, m)` pair handed on to prompt assembly. */
  datatype Passage = Passage(text: string, meta: Metadata)

  /** An entry is kept when its distance is missing or at most the threshold. */
  predicate Keeps(dist: Option<real>, maxDistance: real)
  {
    dist.None? || dist.value <= maxDistance
  }

  /** The metadata value Python stores for a distance (a float, or `None`). */
  function DistanceValue(dist: Option<real>): MetaValue
  {
    match dist
    case None => Null
    case Some(d) => Num(d)
  }

  /** A copy of the metadata (empty for a missing one) with the key `"distance"` set to the
      distance. */
  function WithDistance(meta: Option<Metadata>, dist: Option<real>): (m: Metadata)
    ensures "distance" in m && m["distance"] == DistanceValue(dist)
    ensures forall key | key != "distance" :: key in m <==> key in ValueOr(meta, map[])
    ensures forall key | key in m && key != "distance" :: m[key] == ValueOr(meta, map[])[key]
  {
    ValueOr(meta, map[])["distance" := DistanceValue(dist)]
  }

  /** Length of `zip(docs, metas, dists)`: the shortest of the three. */
  function ZipLength<A, B, C>(a: seq<A>, b: seq<B>, c: seq<C>): (n: nat)
    ensures n <= |a| && n <= |b| && n <= |c|
    ensures n == |a| || n == |b| || n == |c|
  {
    if |a| <= |b| && |a| <= |c| then |a| else if |b| <= |c| then |b| else |c|
  }

  /** The positions below `n` whose distance passes the filter, in increasing order. */
  function KeptIndices(dists: seq<Option<real>>, n: nat, maxDistance: real): (idx: seq<nat>)
    requires n <= |dists|
    ensures forall k | 0 <= k < |idx| :: idx[k] < n && Keeps(dists[idx[k]], maxDistance)
    ensures forall i | 0 <= i < n && Keeps(dists[i], maxDistance) :: i in idx
    ensures forall k, l | 0 <= k < l < |idx| :: idx[k] < idx[l]
  {
    if n == 0 then []
    else KeptIndices(dists, n - 1, maxDistance) + (if Keeps(dists[n - 1], maxDistance) then [n - 1] else [])
  }

  /** The entry the loop appends for position `i`. */
  function KeptEntry(docs: seq<string>, metas: seq<Option<Metadata>>, dists: seq<Option<real>>, i: nat): Passage
    requires i < |docs| && i < |metas| && i < |dists|
  {
    Passage(docs[i], WithDistance(metas[i], dists[i]))
  }

  /** The loop of `retrieve` over `zip(docs, metas, dists)`. */
  method FilterByDistance(docs: seq<string>, metas: seq<Option<Metadata>>, dists: seq<Option<real>>,
                          maxDistance: real)
    returns (pairs: seq<Passage>)
    ensures |pairs| == |KeptIndices(dists, ZipLength(docs, metas, dists), maxDistance)|
    ensures forall k | 0 <= k < |pairs| ::
      pairs[k] == KeptEntry(docs, metas, dists, KeptIndices(dists, ZipLength(docs, metas, dists), maxDistance)[k])
    ensures |pairs| <= ZipLength(docs, metas, dists)
    ensures forall k | 0 <= k < |pairs| ::
      && "distance" in pairs[k].meta
      && (|| pairs[k].meta["distance"] == Null
          || (pairs[k].meta["distance"].Num? && pairs[k].meta["distance"].r <= maxDistance))
  {
    var n := ZipLength(docs, metas, dists);
    pairs := [];
    for i := 0 to n
      invariant |pairs| == |KeptIndices(dists, i, maxDistance)|
      invariant forall k | 0 <= k < |pairs| ::
        pairs[k] == KeptEntry(docs, metas, dists, KeptIndices(dists, i, maxDistance)[k])
    {
      if dists[i].None? || dists[i].value <= maxDistance {
        var m := WithDistance(metas[i], dists[i]);
        pairs := pairs + [Passage(docs[i], m)];
      }
      assert KeptIndices(dists, i + 1, maxDistance) ==
        KeptIndices(dists, i, maxDistance) + (if Keeps(dists[i], maxDistance) then [i] else []);
    }
    KeptIndicesBound(dists, n, maxDistance);
  }

  /** At most one kept position per zipped entry. */
  lemma {:induction false} KeptIndicesBound(dists: seq<Option<real>>, n: nat, maxDistance: real)
    requires n <= |dists|
    ensures |KeptIndices(dists, n, maxDistance)| <= n
  {
    if n > 0 {
      KeptIndicesBound(dists, n - 1, maxDistance);
    }
  }
}
