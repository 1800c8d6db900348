/** The node-index reconciler behind `get_planetoid_index_map`: every node of
    the original graph, in its original order, is matched to the node of the
    independently indexed reference graph (the Planetoid benchmark) whose
    feature vector is identical; ties are broken by neighbour counts, and the
    result must be one reference position per source node.

    Feature vectors are sequences over an element type that is only ever
    compared for exact equality. Neighbour counts are total functions from a
    node's position in its own graph to its number of neighbours. */
module IndexMap {
  import opened Outcomes
  import opened Positions

  /** The two ways reconciliation fails. */
  datatype ReconcileError =
    | MatchCountsDiffer    // some node has zero or several candidates left
    | WeightVectorsDiffer  // a matched pair of feature vectors is not equal

  // ---------------------------------------------------------------------
  // Candidate matching
  // ---------------------------------------------------------------------

  /** `arrays_equal(arrays, array)`: the positions of the rows of `arrays`
      equal to the vector, ascending and without duplicates. */
  function ArraysEqual<E(==)>(arrays: seq<seq<E>>, vector: seq<E>): (r: seq<nat>)
    ensures Increasing(r)
    ensures forall j: nat :: j in r <==> j < |arrays| && arrays[j] == vector
  {
    IndicesWhere(arrays, row => row == vector)
  }

  /** The candidate lists: for each source row, in source order, every
      reference position holding an identical row. */
  function Candidates<E(==)>(reference: seq<seq<E>>, source: seq<seq<E>>): (r: seq<seq<nat>>)
    ensures |r| == |source|
    ensures forall i :: 0 <= i < |r| ==> Increasing(r[i])
    ensures forall i: nat, j: nat :: i < |r| ==> (j in r[i] <==> j < |reference| && reference[j] == source[i])
  {
    seq(|source|, i requires 0 <= i < |source| => ArraysEqual(reference, source[i]))
  }

  lemma CandidatesAppend<E>(reference: seq<seq<E>>, a: seq<seq<E>>, b: seq<seq<E>>)
    ensures Candidates(reference, a + b) == Candidates(reference, a) + Candidates(reference, b)
  {
    var whole, left, right := Candidates(reference, a + b), Candidates(reference, a), Candidates(reference, b);
    assert forall i :: 0 <= i < |whole| ==> whole[i] == (left + right)[i] by {
      forall i | 0 <= i < |whole| ensures whole[i] == (left + right)[i] {
        if i < |a| {
          assert (a + b)[i] == a[i];
        } else {
          assert (a + b)[i] == b[i - |a|];
        }
      }
    }
  }

  /** The sequential branch: one full scan of the reference rows per source
      row, appending each candidate list in turn. */
  method MatchSequential<E(==)>(reference: seq<seq<E>>, source: seq<seq<E>>) returns (indexMap: seq<seq<nat>>)
    ensures indexMap == Candidates(reference, source)
  {
    indexMap := [];
    for i := 0 to |source|
      invariant indexMap == Candidates(reference, source[..i])
    {
      assert source[..i + 1] == source[..i] + [source[i]];
      CandidatesAppend(reference, source[..i], [source[i]]);
      indexMap := indexMap + [ArraysEqual(reference, source[i])];
    }
    assert source[..|source|] == source;
  }

  /** The chunk size handed to the worker pool: `max(n // (workers + 2), 1)`. */
  function ChunkSize(n: nat, workers: nat): (c: nat)
    ensures c >= 1
    ensures c == 1 || c * (workers + 2) <= n
    ensures n >= 1 ==> c <= n
  {
    var q := n / (workers + 2);
    if q > 1 then q else 1
  }

  /** The worker pool's result: the source rows cut into consecutive chunks
      of `chunk` rows, each chunk matched independently, and the per-row
      results put back together in source order. */
  function ChunkedCandidates<E(==)>(reference: seq<seq<E>>, source: seq<seq<E>>, chunk: nat): (r: seq<seq<nat>>)
    requires chunk >= 1
    ensures |r| == |source|
    ensures forall i :: 0 <= i < |r| ==> r[i] == ArraysEqual(reference, source[i])
    decreases |source|
  {
    if |source| <= chunk then Candidates(reference, source)
    else
      var head, tail := source[..chunk], source[chunk..];
      var rest := ChunkedCandidates(reference, tail, chunk);
      assert forall i :: chunk <= i < |source| ==> tail[i - chunk] == source[i];
      Candidates(reference, head) + rest
  }

  /** The parallel branch, with the chunk size it derives from the number of
      workers. */
  function ParallelCandidates<E(==)>(reference: seq<seq<E>>, source: seq<seq<E>>, workers: nat): (r: seq<seq<nat>>)
    ensures |r| == |source|
    ensures forall i :: 0 <= i < |r| ==> r[i] == ArraysEqual(reference, source[i])
  {
    ChunkedCandidates(reference, source, ChunkSize(|source|, workers))
  }

  /** Chunking never changes the result, whatever the chunk size. */
  lemma {:induction false} ChunkedAgrees<E>(reference: seq<seq<E>>, source: seq<seq<E>>, chunk: nat)
    requires chunk >= 1
    ensures ChunkedCandidates(reference, source, chunk) == Candidates(reference, source)
    decreases |source|
  {
    if |source| > chunk {
      ChunkedAgrees(reference, source[chunk..], chunk);
      CandidatesAppend(reference, source[..chunk], source[chunk..]);
      assert source[..chunk] + source[chunk..] == source;
    }
  }

  /** The parallel and the sequential branch produce the same candidate
      lists: one per source row, in source order. */
  lemma ParallelAgrees<E>(reference: seq<seq<E>>, source: seq<seq<E>>, workers: nat)
    ensures ParallelCandidates(reference, source, workers) == Candidates(reference, source)
  {
    ChunkedAgrees(reference, source, ChunkSize(|source|, workers));
  }

  // ---------------------------------------------------------------------
  // Disambiguation
  // ---------------------------------------------------------------------

  /** The candidates whose neighbour count is `degree`, in their order. */
  function KeepDegree(cands: seq<nat>, degree: nat, refDegree: nat -> nat): (r: seq<nat>)
    ensures forall j :: j in r <==> j in cands && refDegree(j) == degree
    ensures Increasing(cands) ==> Increasing(r)
    ensures |r| <= |cands|
  {
    if |cands| == 0 then []
    else
      var init, last := cands[..|cands| - 1], cands[|cands| - 1];
      var front := KeepDegree(init, degree, refDegree);
      assert cands == init + [last];
      assert forall j :: j in cands <==> j in init || j == last;
      assert Increasing(cands) ==> forall i :: 0 <= i < |front| ==> front[i] < last by {
        if Increasing(cands) {
          forall i | 0 <= i < |front| ensures front[i] < last {
            assert front[i] in init;
            var k :| 0 <= k < |init| && init[k] == front[i];
            assert cands[k] == front[i];
          }
        }
      }
      if refDegree(last) == degree then front + [last] else front
  }

  /** The source positions with more than one candidate, in ascending order. */
  function AmbiguousPositions(indexMap: seq<seq<nat>>): (r: seq<nat>)
    ensures Increasing(r)
    ensures forall i: nat :: i in r <==> i < |indexMap| && |indexMap[i]| > 1
  {
    IndicesWhere(indexMap, (v: seq<nat>) => |v| > 1)
  }

  /** The candidate lists after disambiguation: a list with more than one
      candidate keeps those whose neighbour count equals the source node's;
      every other list is left as it is. */
  function Disambiguated(indexMap: seq<seq<nat>>, srcDegree: nat -> nat, refDegree: nat -> nat): (r: seq<seq<nat>>)
    ensures |r| == |indexMap|
    ensures forall i :: 0 <= i < |r| && |indexMap[i]| <= 1 ==> r[i] == indexMap[i]
    ensures forall i, j :: 0 <= i < |r| && |indexMap[i]| > 1 ==>
      (j in r[i] <==> j in indexMap[i] && refDegree(j) == srcDegree(i))
    ensures forall i :: 0 <= i < |r| && Increasing(indexMap[i]) ==> Increasing(r[i])
    ensures forall i :: 0 <= i < |r| && |indexMap[i]| > 1 ==> r[i] == KeepDegree(indexMap[i], srcDegree(i), refDegree)
  {
    var r := seq(|indexMap|, i requires 0 <= i < |indexMap| =>
      if |indexMap[i]| > 1 then KeepDegree(indexMap[i], srcDegree(i), refDegree) else indexMap[i]);
    assert forall i :: 0 <= i < |r| && |indexMap[i]| > 1 ==> r[i] == KeepDegree(indexMap[i], srcDegree(i), refDegree);
    r
  }

  /** The disambiguation pass: collect the ambiguous positions first, then
      rewrite the candidate list at each of them. */
  method Disambiguate(indexMap: seq<seq<nat>>, srcDegree: nat -> nat, refDegree: nat -> nat) returns (r: seq<seq<nat>>)
    ensures r == Disambiguated(indexMap, srcDegree, refDegree)
  {
    var ambiguous := AmbiguousPositions(indexMap);
    r := indexMap;
    for k := 0 to |ambiguous|
      invariant |r| == |indexMap|
      invariant forall i :: 0 <= i < |r| ==>
        r[i] == if i in ambiguous[..k] then KeepDegree(indexMap[i], srcDegree(i), refDegree) else indexMap[i]
    {
      var i := ambiguous[k];
      assert i in ambiguous;
      assert i !in ambiguous[..k] by {
        forall t | 0 <= t < k ensures ambiguous[..k][t] != i {
          assert ambiguous[t] < ambiguous[k];
        }
      }
      assert ambiguous[..k + 1] == ambiguous[..k] + [i];
      r := r[i := KeepDegree(r[i], srcDegree(i), refDegree)];
    }
    assert ambiguous[..|ambiguous|] == ambiguous;
  }

  // ---------------------------------------------------------------------
  // Validation, flattening and the whole reconciliation
  // ---------------------------------------------------------------------

  /** Every candidate in every list is a position of a reference row. */
  predicate Within(indexMap: seq<seq<nat>>, m: nat) {
    forall i, k :: 0 <= i < |indexMap| && 0 <= k < |indexMap[i]| ==> indexMap[i][k] < m
  }

  /** The lists the matcher and the disambiguation pass hand to validation
      only ever name reference positions. */
  lemma DisambiguatedWithin<E>(reference: seq<seq<E>>, source: seq<seq<E>>, srcDegree: nat -> nat, refDegree: nat -> nat)
    ensures Within(Disambiguated(Candidates(reference, source), srcDegree, refDegree), |reference|)
  {
    var candidates := Candidates(reference, source);
    var indexMap := Disambiguated(candidates, srcDegree, refDegree);
    forall i, k | 0 <= i < |indexMap| && 0 <= k < |indexMap[i]| ensures indexMap[i][k] < |reference| {
      var j := indexMap[i][k];
      assert j in indexMap[i];
      if |candidates[i]| > 1 {
        assert indexMap[i] == KeepDegree(candidates[i], srcDegree(i), refDegree);
      } else {
        assert indexMap[i] == candidates[i];
      }
    }
  }

  /** The distinct candidate-list lengths: `set(len(m) for m in index_map)`. */
  function LengthSet(indexMap: seq<seq<nat>>): (r: set<nat>)
    ensures forall i :: 0 <= i < |indexMap| ==> |indexMap[i]| in r
    ensures forall n :: n in r ==> exists i :: 0 <= i < |indexMap| && |indexMap[i]| == n
  {
    set i | 0 <= i < |indexMap| :: |indexMap[i]|
  }

  /** The set of lengths is exactly {1} when there is at least one list and
      every list has one element; an empty list of lists gives the empty set. */
  lemma LengthSetIsOne(indexMap: seq<seq<nat>>)
    ensures LengthSet(indexMap) == {1} <==> |indexMap| > 0 && forall i :: 0 <= i < |indexMap| ==> |indexMap[i]| == 1
  {
    if LengthSet(indexMap) == {1} {
      assert 1 in LengthSet(indexMap);
      forall i | 0 <= i < |indexMap| ensures |indexMap[i]| == 1 {
        assert |indexMap[i]| in LengthSet(indexMap);
      }
    }
    if |indexMap| > 0 && forall i :: 0 <= i < |indexMap| ==> |indexMap[i]| == 1 {
      assert |indexMap[0]| in LengthSet(indexMap);
    }
  }

  /** `[i for i in index_map for i in i]`: every candidate list, concatenated. */
  function Flatten(indexMap: seq<seq<nat>>): (r: seq<nat>)
    ensures (forall i :: 0 <= i < |indexMap| ==> |indexMap[i]| == 1) ==>
      |r| == |indexMap| && forall i :: 0 <= i < |indexMap| ==> r[i] == indexMap[i][0]
  {
    if |indexMap| == 0 then []
    else Flatten(indexMap[..|indexMap| - 1]) + indexMap[|indexMap| - 1]
  }

  /** The two checks on the disambiguated lists, then the flattened map.
      The lengths must form exactly the set {1}; then every matched pair of
      rows must be equal. */
  function Validate<E(==)>(indexMap: seq<seq<nat>>, source: seq<seq<E>>, reference: seq<seq<E>>): (r: Result<seq<nat>, ReconcileError>)
    requires |indexMap| == |source|
    requires Within(indexMap, |reference|)
    ensures r == Failure(MatchCountsDiffer) <==> |indexMap| == 0 || exists i :: 0 <= i < |indexMap| && |indexMap[i]| != 1
    ensures r == Failure(WeightVectorsDiffer) <==>
      && |indexMap| > 0
      && (forall i :: 0 <= i < |indexMap| ==> |indexMap[i]| == 1)
      && exists i :: 0 <= i < |indexMap| && reference[indexMap[i][0]] != source[i]
    ensures r.Success? ==>
      && |r.value| == |source|
      && forall i :: 0 <= i < |source| ==>
           indexMap[i] == [r.value[i]] && r.value[i] < |reference| && reference[r.value[i]] == source[i]
  {
    LengthSetIsOne(indexMap);
    if LengthSet(indexMap) != {1} then
      Failure(MatchCountsDiffer)
    else if exists i :: 0 <= i < |indexMap| && reference[indexMap[i][0]] != source[i] then
      Failure(WeightVectorsDiffer)
    else
      assert forall i :: 0 <= i < |indexMap| ==> indexMap[i] == [indexMap[i][0]];
      Success(Flatten(indexMap))
  }

  /** The whole reconciliation, as a function of its inputs: match,
      disambiguate, validate, flatten. On success the map has one entry per
      source node, every entry is a reference position, and the rows it
      pairs are identical; an empty source always fails. */
  function Reconcile<E(==)>(source: seq<seq<E>>, reference: seq<seq<E>>, srcDegree: nat -> nat, refDegree: nat -> nat): (r: Result<seq<nat>, ReconcileError>)
    ensures r.Success? ==>
      && |r.value| == |source|
      && forall i :: 0 <= i < |source| ==> r.value[i] < |reference| && reference[r.value[i]] == source[i]
    ensures |source| == 0 ==> r == Failure(MatchCountsDiffer)
  {
    var indexMap := Disambiguated(Candidates(reference, source), srcDegree, refDegree);
    DisambiguatedWithin(reference, source, srcDegree, refDegree);
    Validate(indexMap, source, reference)
  }

  /** The row comparison can never fail after exact matching: the only way
      reconciliation fails is the candidate-count check. */
  lemma NeverWeightMismatch<E>(source: seq<seq<E>>, reference: seq<seq<E>>, srcDegree: nat -> nat, refDegree: nat -> nat)
    ensures Reconcile(source, reference, srcDegree, refDegree) != Failure(WeightVectorsDiffer)
  {
    var candidates := Candidates(reference, source);
    var indexMap := Disambiguated(candidates, srcDegree, refDegree);
    DisambiguatedWithin(reference, source, srcDegree, refDegree);
    forall i | 0 <= i < |indexMap| && |indexMap[i]| == 1
      ensures reference[indexMap[i][0]] == source[i]
    {
      assert indexMap[i][0] in indexMap[i];
      assert indexMap[i][0] in candidates[i];
    }
  }

  /** Two reference nodes with the same row and the same neighbour count as
      one source node leave that node ambiguous, and reconciliation fails
      rather than pick one. */
  lemma FatalOnAmbiguity<E>(source: seq<seq<E>>, reference: seq<seq<E>>, srcDegree: nat -> nat, refDegree: nat -> nat,
                            i: nat, j1: nat, j2: nat)
    requires i < |source| && j1 < |reference| && j2 < |reference| && j1 != j2
    requires reference[j1] == source[i] && reference[j2] == source[i]
    requires refDegree(j1) == srcDegree(i) && refDegree(j2) == srcDegree(i)
    ensures Reconcile(source, reference, srcDegree, refDegree) == Failure(MatchCountsDiffer)
  {
    var candidates := Candidates(reference, source);
    var indexMap := Disambiguated(candidates, srcDegree, refDegree);
    DisambiguatedWithin(reference, source, srcDegree, refDegree);
    TwoMembers(candidates[i], j1, j2);
    assert j1 in indexMap[i] && j2 in indexMap[i];
    TwoMembers(indexMap[i], j1, j2);
  }

  /** A reference node with the same row and the same neighbour count as
      source node `i` survives matching and disambiguation. */
  lemma CorrespondentSurvives<E>(source: seq<seq<E>>, reference: seq<seq<E>>, srcDegree: nat -> nat, refDegree: nat -> nat,
                                 i: nat, j: nat)
    requires i < |source| && j < |reference|
    requires reference[j] == source[i] && refDegree(j) == srcDegree(i)
    ensures j in Disambiguated(Candidates(reference, source), srcDegree, refDegree)[i]
  {
    var candidates := Candidates(reference, source);
    assert j in candidates[i];
  }

  /** If a true correspondence `pi` exists, pairing every source node with a
      reference node of identical row and equal neighbour count, then a
      successful reconciliation returns exactly `pi`. */
  lemma RecoversCorrespondence<E>(source: seq<seq<E>>, reference: seq<seq<E>>, srcDegree: nat -> nat, refDegree: nat -> nat,
                                  pi: seq<nat>)
    requires |pi| == |source|
    requires forall i :: 0 <= i < |pi| ==> pi[i] < |reference| && reference[pi[i]] == source[i] && refDegree(pi[i]) == srcDegree(i)
    ensures Reconcile(source, reference, srcDegree, refDegree).Success? ==>
      Reconcile(source, reference, srcDegree, refDegree).value == pi
  {
    var indexMap := Disambiguated(Candidates(reference, source), srcDegree, refDegree);
    DisambiguatedWithin(reference, source, srcDegree, refDegree);
    var v := Validate(indexMap, source, reference);
    assert Reconcile(source, reference, srcDegree, refDegree) == v;
    if v.Success? {
      var r := v.value;
      forall i | 0 <= i < |pi| ensures r[i] == pi[i] {
        CorrespondentSurvives(source, reference, srcDegree, refDegree, i, pi[i]);
        assert indexMap[i] == [r[i]];
      }
    }
  }

  /** Injective on the source positions. */
  predicate Injective(s: seq<nat>) {
    forall a, b :: 0 <= a < b < |s| ==> s[a] != s[b]
  }

  /** The map is not checked to be injective; it is whenever a true
      correspondence exists that is injective itself. */
  lemma InjectiveUnderCorrespondence<E>(source: seq<seq<E>>, reference: seq<seq<E>>, srcDegree: nat -> nat, refDegree: nat -> nat,
                                            pi: seq<nat>)
    requires |pi| == |source| && Injective(pi)
    requires forall i :: 0 <= i < |pi| ==> pi[i] < |reference| && reference[pi[i]] == source[i] && refDegree(pi[i]) == srcDegree(i)
    ensures Reconcile(source, reference, srcDegree, refDegree).Success? ==>
      Injective(Reconcile(source, reference, srcDegree, refDegree).value)
  {
    RecoversCorrespondence(source, reference, srcDegree, refDegree, pi);
  }

  // ---------------------------------------------------------------------
  // The cache in front of it all
  // ---------------------------------------------------------------------

  /** `get_planetoid_index_map`: a stored map is returned as it is, with no
      matching at all; otherwise the map is computed (sequentially when at
      most one worker is asked for, in chunks otherwise), validated, stored
      and returned. A failed validation stores nothing. Returns the result
      and the cache slot's new content. */
  method GetPlanetoidIndexMap<E(==)>(cache: Option<seq<nat>>, source: seq<seq<E>>, reference: seq<seq<E>>,
                                     srcDegree: nat -> nat, refDegree: nat -> nat, maxWorkers: nat)
    returns (result: Result<seq<nat>, ReconcileError>, stored: Option<seq<nat>>)
    ensures cache.Some? ==> result == Success(cache.value) && stored == cache
    ensures cache.None? ==> result == Reconcile(source, reference, srcDegree, refDegree)
    ensures cache.None? ==> stored == if result.Success? then Some(result.value) else None
  {
    if cache.Some? {
      return Success(cache.value), cache;
    }
    var candidates;
    if maxWorkers <= 1 {
      candidates := MatchSequential(reference, source);
    } else {
      candidates := ParallelCandidates(reference, source, maxWorkers);
      ParallelAgrees(reference, source, maxWorkers);
    }
    var indexMap := Disambiguate(candidates, srcDegree, refDegree);
    DisambiguatedWithin(reference, source, srcDegree, refDegree);
    result := Validate(indexMap, source, reference);
    stored := if result.Success? then Some(result.value) else None;
  }

  /** The worked example: source rows [1,0], [1,0], [0,1] with neighbour
      counts 2, 3, 1, against reference rows [0,1], [1,0], [1,0] with
      neighbour counts 1, 3, 2. */
  function ExampleSource(): seq<seq<int>> { [[1, 0], [1, 0], [0, 1]] }

  function ExampleReference(): seq<seq<int>> { [[0, 1], [1, 0], [1, 0]] }

  function ExampleSourceDegree(i: nat): nat {
    if i == 0 then 2 else if i == 1 then 3 else 1
  }

  function ExampleReferenceDegree(j: nat): nat {
    if j == 0 then 1 else if j == 1 then 3 else 2
  }

  /** The first two source rows each match reference rows 1 and 2; the
      third matches reference row 0 only. */
  lemma ExampleCandidates()
    ensures Candidates(ExampleReference(), ExampleSource()) == [[1, 2], [1, 2], [0]]
  {
    var source, reference := ExampleSource(), ExampleReference();
    var candidates := Candidates(reference, source);
    assert reference[0] != source[0] by { assert reference[0][0] != source[0][0]; }
    assert reference[1] != source[2] by { assert reference[1][0] != source[2][0]; }
    assert reference[2] != source[2] by { assert reference[2][0] != source[2][0]; }
    SameMembers(candidates[0], [1, 2]);
    SameMembers(candidates[1], [1, 2]);
    SameMembers(candidates[2], [0]);
  }

  /** Neighbour counts pick reference row 2 for the first source row and
      reference row 1 for the second. */
  lemma ExampleDisambiguated()
    ensures Disambiguated([[1, 2], [1, 2], [0]], ExampleSourceDegree, ExampleReferenceDegree) == [[2], [1], [0]]
  {
    var m: seq<seq<nat>> := [[1, 2], [1, 2], [0]];
    var indexMap := Disambiguated(m, ExampleSourceDegree, ExampleReferenceDegree);
    assert ExampleReferenceDegree(1) == 3 && ExampleReferenceDegree(2) == 2;
    assert ExampleSourceDegree(0) == 2 && ExampleSourceDegree(1) == 3;
    assert indexMap[2] == m[2];
    KeepDegreePair(1, 2, ExampleSourceDegree(0), ExampleReferenceDegree);
    KeepDegreePair(1, 2, ExampleSourceDegree(1), ExampleReferenceDegree);
    assert indexMap[0] == KeepDegree(m[0], ExampleSourceDegree(0), ExampleReferenceDegree);
    assert indexMap[1] == KeepDegree(m[1], ExampleSourceDegree(1), ExampleReferenceDegree);
    assert indexMap[0] == [2];
    assert indexMap[1] == [1];
    assert |indexMap| == 3;
    assert indexMap == [indexMap[0], indexMap[1], indexMap[2]];
  }

  /** `KeepDegree` on a list of two candidates. */
  lemma KeepDegreePair(a: nat, b: nat, degree: nat, refDegree: nat -> nat)
    ensures KeepDegree([a, b], degree, refDegree)
         == (if refDegree(a) == degree then [a] else []) + (if refDegree(b) == degree then [b] else [])
  {
    assert [a, b][..1] == [a];
    assert [a][..0] == [];
  }

  /** Each of the three lists is a single, correct match. */
  lemma ExampleValidated()
    ensures Validate([[2], [1], [0]], ExampleSource(), ExampleReference()) == Success([2, 1, 0])
  {
    var source, reference := ExampleSource(), ExampleReference();
    var indexMap: seq<seq<nat>> := [[2], [1], [0]];
    LengthSetIsOne(indexMap);
    assert reference[2] == source[0] && reference[1] == source[1] && reference[0] == source[2];
    var r := Validate(indexMap, source, reference);
    assert r.value == [2, 1, 0] by {
      assert indexMap[0] == [r.value[0]] && indexMap[1] == [r.value[1]] && indexMap[2] == [r.value[2]];
    }
  }

  /** The two equal source rows are told apart by their neighbour counts,
      and the map is [2, 1, 0]. */
  lemma WorkedExample()
    ensures Reconcile(ExampleSource(), ExampleReference(), ExampleSourceDegree, ExampleReferenceDegree) == Success([2, 1, 0])
  {
    ExampleCandidates();
    ExampleDisambiguated();
    ExampleValidated();
  }
}
