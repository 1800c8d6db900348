/** The time-window snapshot of a graph data object: keep the node-level or
    edge-level items whose time lies in [startTime, endTime], both ends
    included, and on request the items of the other level that still
    connect to them. The object is filtered in place and returned. */
module Snapshot {
  import opened Outcomes
  import opened Positions

  // ---------------------------------------------------------------------
  // Masks and what they select
  // ---------------------------------------------------------------------

  /** `value[mask]`: the items at the positions where the mask is set, in
      their original order. */
  function Masked<T>(s: seq<T>, mask: seq<bool>): (r: seq<T>)
    requires |s| == |mask|
    ensures |r| == Count(mask)
  {
    if |s| == 0 then []
    else
      var n := |s| - 1;
      assert mask == mask[..n] + [mask[n]];
      CountSnoc(mask[..n], mask[n]);
      Masked(s[..n], mask[..n]) + (if mask[n] then [s[n]] else [])
  }

  /** The `j`-th kept item is the item at the `j`-th set position of the
      mask: the relative order of the kept items is the original one. */
  lemma {:induction false} MaskedKeepsOrder<T>(s: seq<T>, mask: seq<bool>)
    requires |s| == |mask|
    ensures forall j :: 0 <= j < Count(mask) ==>
      TruePositions(mask)[j] < |s| && Masked(s, mask)[j] == s[TruePositions(mask)[j]]
  {
    if |s| > 0 {
      var n := |s| - 1;
      MaskedKeepsOrder(s[..n], mask[..n]);
      assert mask[..n] == mask[..|mask| - 1];
      var front := TruePositions(mask[..n]);
      assert TruePositions(mask) == if mask[n] then front + [n] else front;
      forall j | 0 <= j < Count(mask)
        ensures TruePositions(mask)[j] < |s| && Masked(s, mask)[j] == s[TruePositions(mask)[j]]
      {
        assert TruePositions(mask)[j] in TruePositions(mask);
        if j < |front| {
          assert front[j] in front;
        }
      }
    }
  }

  /** `(time >= start_time) & (time <= end_time)`. */
  function WindowMask(time: seq<int>, startTime: int, endTime: int): (mask: seq<bool>)
    ensures |mask| == |time|
    ensures forall k :: 0 <= k < |time| ==> (mask[k] <==> startTime <= time[k] <= endTime)
  {
    seq(|time|, k requires 0 <= k < |time| => time[k] >= startTime && time[k] <= endTime)
  }

  /** The kept times are exactly those inside the window, both ends
      included, in their original order. */
  lemma WindowSelects(time: seq<int>, startTime: int, endTime: int)
    ensures var mask := WindowMask(time, startTime, endTime);
      && Increasing(TruePositions(mask))
      && (forall k: nat :: k in TruePositions(mask) <==> k < |time| && startTime <= time[k] <= endTime)
      && (forall j :: 0 <= j < |Masked(time, mask)| ==>
            TruePositions(mask)[j] < |time| && Masked(time, mask)[j] == time[TruePositions(mask)[j]] && startTime <= Masked(time, mask)[j] <= endTime)
  {
    var mask := WindowMask(time, startTime, endTime);
    MaskedKeepsOrder(time, mask);
    forall j | 0 <= j < |Masked(time, mask)| ensures startTime <= Masked(time, mask)[j] <= endTime {
      assert TruePositions(mask)[j] in TruePositions(mask);
    }
  }

  /** Filtering every attribute of one level by the same mask. */
  function MaskEach(attrs: map<string, seq<int>>, mask: seq<bool>): (r: map<string, seq<int>>)
    requires forall a :: a in attrs ==> |attrs[a]| == |mask|
    ensures r.Keys == attrs.Keys
    ensures forall a :: a in r ==> |r[a]| == Count(mask)
  {
    map a | a in attrs :: Masked(attrs[a], mask)
  }

  /** `torch.isin(edge_index, vals).sum(axis=0).bool()` with `vals` the
      kept node positions: an edge is kept when either endpoint is a kept
      node. Endpoints outside the mask are simply not kept nodes. */
  function TouchingMask(edgeIndex: seq<(nat, nat)>, nodeMask: seq<bool>): (mask: seq<bool>)
    ensures |mask| == |edgeIndex|
    ensures forall e :: 0 <= e < |edgeIndex| ==>
      (mask[e] <==>
         ((edgeIndex[e].0 < |nodeMask| && nodeMask[edgeIndex[e].0])
          || (edgeIndex[e].1 < |nodeMask| && nodeMask[edgeIndex[e].1])))
  {
    var vals := TruePositions(nodeMask);
    seq(|edgeIndex|, e requires 0 <= e < |edgeIndex| => edgeIndex[e].0 in vals || edgeIndex[e].1 in vals)
  }

  /** Under the node branch's edge mask, every kept edge has an endpoint
      that is a kept node, and an edge is dropped only when neither
      endpoint is one. */
  lemma KeptEdgesTouch(edgeIndex: seq<(nat, nat)>, nodeMask: seq<bool>)
    ensures var edgeMask := TouchingMask(edgeIndex, nodeMask);
      forall j :: 0 <= j < |Masked(edgeIndex, edgeMask)| ==>
        var edge := Masked(edgeIndex, edgeMask)[j];
        (edge.0 < |nodeMask| && nodeMask[edge.0]) || (edge.1 < |nodeMask| && nodeMask[edge.1])
    ensures var edgeMask := TouchingMask(edgeIndex, nodeMask);
      forall e: nat :: e < |edgeIndex| && e !in TruePositions(edgeMask) ==>
        !(edgeIndex[e].0 < |nodeMask| && nodeMask[edgeIndex[e].0]) && !(edgeIndex[e].1 < |nodeMask| && nodeMask[edgeIndex[e].1])
  {
    var edgeMask := TouchingMask(edgeIndex, nodeMask);
    MaskedKeepsOrder(edgeIndex, edgeMask);
    forall j | 0 <= j < |Masked(edgeIndex, edgeMask)|
      ensures var edge := Masked(edgeIndex, edgeMask)[j];
        (edge.0 < |nodeMask| && nodeMask[edge.0]) || (edge.1 < |nodeMask| && nodeMask[edge.1])
    {
      assert TruePositions(edgeMask)[j] in TruePositions(edgeMask);
    }
  }

  /** `edge_index.reshape(-1)`: the sources, then the targets. */
  function Flat(edgeIndex: seq<(nat, nat)>): (r: seq<nat>)
    ensures |r| == 2 * |edgeIndex|
    ensures forall e :: 0 <= e < |edgeIndex| ==> r[e] == edgeIndex[e].0 && r[|edgeIndex| + e] == edgeIndex[e].1
  {
    seq(|edgeIndex|, e requires 0 <= e < |edgeIndex| => edgeIndex[e].0)
      + seq(|edgeIndex|, e requires 0 <= e < |edgeIndex| => edgeIndex[e].1)
  }

  /** `.unique()` of that: every node that is an endpoint of some edge. */
  function Endpoints(edgeIndex: seq<(nat, nat)>): (r: set<nat>)
    ensures forall v :: v in r <==> exists e :: 0 <= e < |edgeIndex| && (edgeIndex[e].0 == v || edgeIndex[e].1 == v)
  {
    FlatMembers(edgeIndex);
    set v | v in Flat(edgeIndex)
  }

  /** A node occurs in the flattened edge list exactly when it is the
      source or the target of some edge. */
  lemma FlatMembers(edgeIndex: seq<(nat, nat)>)
    ensures forall v :: v in Flat(edgeIndex) <==> exists e :: 0 <= e < |edgeIndex| && (edgeIndex[e].0 == v || edgeIndex[e].1 == v)
  {
    var flat := Flat(edgeIndex);
    forall v ensures v in flat <==> exists e :: 0 <= e < |edgeIndex| && (edgeIndex[e].0 == v || edgeIndex[e].1 == v) {
      if v in flat {
        var k :| 0 <= k < |flat| && flat[k] == v;
        var e := if k < |edgeIndex| then k else k - |edgeIndex|;
        assert edgeIndex[e].0 == v || edgeIndex[e].1 == v;
      }
      if e :| 0 <= e < |edgeIndex| && (edgeIndex[e].0 == v || edgeIndex[e].1 == v) {
        assert flat[e] == edgeIndex[e].0 && flat[|edgeIndex| + e] == edgeIndex[e].1;
      }
    }
  }

  /** `mask = zeros(n); mask[vals] = True`. */
  function MembershipMask(vals: set<nat>, n: nat): (mask: seq<bool>)
    requires forall v :: v in vals ==> v < n
    ensures |mask| == n
    ensures forall i :: 0 <= i < n ==> (mask[i] <==> i in vals)
  {
    seq(n, i requires 0 <= i < n => i in vals)
  }

  /** A mask built from a set of positions has as many set positions as
      the set has members. */
  lemma {:induction false} CountMembership(vals: set<nat>, n: nat)
    requires forall v :: v in vals ==> v < n
    ensures Count(MembershipMask(vals, n)) == |vals|
  {
    if n == 0 {
      assert vals == {} by {
        forall v | v in vals ensures false {
        }
      }
    } else {
      var lower := vals - {n - 1};
      CountMembership(lower, n - 1);
      assert MembershipMask(vals, n) == MembershipMask(lower, n - 1) + [n - 1 in vals];
      CountSnoc(MembershipMask(lower, n - 1), n - 1 in vals);
      if n - 1 in vals {
        assert vals == lower + {n - 1};
      } else {
        assert vals == lower;
      }
    }
  }

  /** `int(edge_index.max()) + 1`, or 0 without edges: the node count
      inferred from the edges alone. */
  function EndpointBound(edgeIndex: seq<(nat, nat)>): (n: nat)
    ensures forall e :: 0 <= e < |edgeIndex| ==> edgeIndex[e].0 < n && edgeIndex[e].1 < n
    ensures |edgeIndex| > 0 ==> exists e :: 0 <= e < |edgeIndex| && (edgeIndex[e].0 == n - 1 || edgeIndex[e].1 == n - 1)
  {
    if |edgeIndex| == 0 then 0
    else
      var k := |edgeIndex| - 1;
      var front := EndpointBound(edgeIndex[..k]);
      var here := if edgeIndex[k].0 < edgeIndex[k].1 then edgeIndex[k].1 + 1 else edgeIndex[k].0 + 1;
      assert forall e :: 0 <= e < k ==> edgeIndex[..k][e] == edgeIndex[e];
      if front < here then here else front
  }

  /** A bound on every edge endpoint bounds every member of `Endpoints`. */
  lemma EndpointsBelow(edgeIndex: seq<(nat, nat)>, n: nat)
    requires forall e :: 0 <= e < |edgeIndex| ==> edgeIndex[e].0 < n && edgeIndex[e].1 < n
    ensures forall v :: v in Endpoints(edgeIndex) ==> v < n
  {
  }

  /** When every attribute has length `n`, masking each by the membership
      mask of length `n` is masking each by a mask of its own length. */
  lemma MaskEachUniform(attrs: map<string, seq<int>>, vals: set<nat>, n: nat)
    requires forall a :: a in attrs ==> |attrs[a]| == n
    requires forall v :: v in vals ==> v < n
    ensures MaskEach(attrs, MembershipMask(vals, n))
         == map a | a in attrs :: Masked(attrs[a], MembershipMask(vals, |attrs[a]|))
  {
  }

  /** Every endpoint of `edgeIndex` is a valid node position for every
      node attribute and for the stored node count. */
  ghost predicate EndpointsIndexNodes(edgeIndex: seq<(nat, nat)>, nodeAttrs: map<string, seq<int>>, numNodes: Option<nat>) {
    forall e :: 0 <= e < |edgeIndex| ==>
      && (forall a :: a in nodeAttrs ==> edgeIndex[e].0 < |nodeAttrs[a]| && edgeIndex[e].1 < |nodeAttrs[a]|)
      && (numNodes.Some? ==> edgeIndex[e].0 < numNodes.value && edgeIndex[e].1 < numNodes.value)
  }

  // ---------------------------------------------------------------------
  // The data object
  // ---------------------------------------------------------------------

  /** All attributes of one level have one value per item of that level,
      and a stored node count agrees with them. */
  ghost predicate Consistent(nodeAttrs: map<string, seq<int>>, edgeAttrs: map<string, seq<int>>,
                             edgeIndex: seq<(nat, nat)>, numNodes: Option<nat>) {
    && (forall a, b :: a in nodeAttrs && b in nodeAttrs ==> |nodeAttrs[a]| == |nodeAttrs[b]|)
    && (forall a :: a in edgeAttrs ==> |edgeAttrs[a]| == |edgeIndex|)
    && (numNodes.Some? ==> forall a :: a in nodeAttrs ==> |nodeAttrs[a]| == numNodes.value)
  }

  /** A graph data object: node-level attributes (one value per node),
      edge-level attributes (one value per edge), the edge list itself
      (an edge-level attribute too) and an optional stored node count. */
  class Data {
    var nodeAttrs: map<string, seq<int>>
    var edgeAttrs: map<string, seq<int>>
    var edgeIndex: seq<(nat, nat)>
    var numNodes: Option<nat>

    /** All attributes of one level have one value per item of that level,
        and a stored node count agrees with them. */
    ghost predicate Valid()
      reads this
    {
      Consistent(nodeAttrs, edgeAttrs, edgeIndex, numNodes)
    }

    constructor (nodeAttrs: map<string, seq<int>>, edgeAttrs: map<string, seq<int>>,
                 edgeIndex: seq<(nat, nat)>, numNodes: Option<nat>)
      ensures this.nodeAttrs == nodeAttrs && this.edgeAttrs == edgeAttrs
      ensures this.edgeIndex == edgeIndex && this.numNodes == numNodes
      ensures Valid() <==> Consistent(nodeAttrs, edgeAttrs, edgeIndex, numNodes)
    {
      this.nodeAttrs := nodeAttrs;
      this.edgeAttrs := edgeAttrs;
      this.edgeIndex := edgeIndex;
      this.numNodes := numNodes;
    }

    /** `_select(node_attrs(), mask)`: filter every node attribute. */
    method SelectNodes(mask: seq<bool>)
      requires forall a :: a in nodeAttrs ==> |nodeAttrs[a]| == |mask|
      modifies this
      ensures nodeAttrs == MaskEach(old(nodeAttrs), mask)
      ensures edgeAttrs == old(edgeAttrs) && edgeIndex == old(edgeIndex) && numNodes == old(numNodes)
    {
      nodeAttrs := MaskEach(nodeAttrs, mask);
    }

    /** `_select(edge_attrs(), mask)`: filter every edge attribute and the
        edge list. */
    method SelectEdges(mask: seq<bool>)
      requires |edgeIndex| == |mask|
      requires forall a :: a in edgeAttrs ==> |edgeAttrs[a]| == |mask|
      modifies this
      ensures edgeIndex == Masked(old(edgeIndex), mask)
      ensures edgeAttrs == MaskEach(old(edgeAttrs), mask)
      ensures nodeAttrs == old(nodeAttrs) && numNodes == old(numNodes)
    {
      edgeAttrs := MaskEach(edgeAttrs, mask);
      edgeIndex := Masked(edgeIndex, mask);
    }

    /** The node half of the edge branch: keep the nodes that are an
        endpoint of some edge, in `num_nodes` positions, and make a stored
        node count the number of those nodes. */
    method KeepEndpointNodes()
      requires Valid()
      requires EndpointsIndexNodes(edgeIndex, nodeAttrs, numNodes)
      modifies this
      ensures Valid()
      ensures edgeIndex == old(edgeIndex) && edgeAttrs == old(edgeAttrs)
      ensures nodeAttrs == map a | a in old(nodeAttrs) ::
        Masked(old(nodeAttrs)[a], MembershipMask(Endpoints(edgeIndex), |old(nodeAttrs)[a]|))
      ensures numNodes == (if old(numNodes).Some? then Some(|Endpoints(edgeIndex)|) else None)
    {
      var n := NumNodes();
      EndpointsBelow(edgeIndex, n);
      var vals := Endpoints(edgeIndex);
      var nodeMask := MembershipMask(vals, n);
      CountMembership(vals, n);
      MaskEachUniform(nodeAttrs, vals, n);
      SelectNodes(nodeMask);
      if numNodes.Some? {
        numNodes := Some(Count(nodeMask));
      }
    }

    /** `num_nodes`: the stored count if there is one, else the length of
        the node attributes, else one more than the largest endpoint. */
    method NumNodes() returns (n: nat)
      requires Valid()
      ensures numNodes.Some? ==> n == numNodes.value
      ensures forall a :: a in nodeAttrs ==> |nodeAttrs[a]| == n
      ensures numNodes.None? && nodeAttrs == map[] ==> n == EndpointBound(edgeIndex)
    {
      if numNodes.Some? {
        n := numNodes.value;
      } else if nodeAttrs != map[] {
        var a :| a in nodeAttrs;
        n := |nodeAttrs[a]|;
      } else {
        n := EndpointBound(edgeIndex);
      }
    }
  }

  // ---------------------------------------------------------------------
  // The snapshot
  // ---------------------------------------------------------------------

  /** The node-level branch: keep the nodes the mask selects and, with
      `filterAll`, the edges that touch a kept node. Edge endpoints keep
      their original numbers. */
  method NodeSnapshot(data: Data, mask: seq<bool>, filterAll: bool)
    requires data.Valid()
    requires forall a :: a in data.nodeAttrs ==> |data.nodeAttrs[a]| == |mask|
    modifies data
    ensures data.Valid()
    ensures data.nodeAttrs == MaskEach(old(data.nodeAttrs), mask)
    ensures data.numNodes == (if old(data.numNodes).Some? then Some(Count(mask)) else None)
    ensures filterAll ==>
      var edgeMask := TouchingMask(old(data.edgeIndex), mask);
      data.edgeIndex == Masked(old(data.edgeIndex), edgeMask) && data.edgeAttrs == MaskEach(old(data.edgeAttrs), edgeMask)
    ensures !filterAll ==> data.edgeIndex == old(data.edgeIndex) && data.edgeAttrs == old(data.edgeAttrs)
  {
    data.SelectNodes(mask);
    if data.numNodes.Some? {
      data.numNodes := Some(Count(mask));
    }
    if filterAll {
      var edgeMask := TouchingMask(data.edgeIndex, mask);
      data.SelectEdges(edgeMask);
    }
  }

  /** The edge-level branch: keep the edges the mask selects and, with
      `filterAll`, the nodes that are an endpoint of a kept edge. Edge
      endpoints keep their original numbers. */
  method EdgeSnapshot(data: Data, mask: seq<bool>, filterAll: bool)
    requires data.Valid()
    requires |data.edgeIndex| == |mask|
    requires filterAll ==> EndpointsIndexNodes(Masked(data.edgeIndex, mask), data.nodeAttrs, data.numNodes)
    modifies data
    ensures data.Valid()
    ensures data.edgeIndex == Masked(old(data.edgeIndex), mask)
    ensures data.edgeAttrs == MaskEach(old(data.edgeAttrs), mask)
    ensures filterAll ==>
      && EndpointsIndexNodes(data.edgeIndex, old(data.nodeAttrs), old(data.numNodes))
      && data.nodeAttrs == (map a | a in old(data.nodeAttrs) ::
           Masked(old(data.nodeAttrs)[a], MembershipMask(Endpoints(data.edgeIndex), |old(data.nodeAttrs)[a]|)))
      && data.numNodes == (if old(data.numNodes).Some? then Some(|Endpoints(data.edgeIndex)|) else None)
    ensures !filterAll ==> data.nodeAttrs == old(data.nodeAttrs) && data.numNodes == old(data.numNodes)
  {
    data.SelectEdges(mask);
    if filterAll {
      data.KeepEndpointNodes();
    }
  }

  /** `snapshot(data, start_time, end_time, attr, filter_all)`: a
      node-level time attribute takes the node branch even when an
      edge-level attribute of the same name exists. */
  method Snapshot(data: Data, startTime: int, endTime: int, attr: string, filterAll: bool) returns (r: Data)
    requires data.Valid()
    requires filterAll && attr !in data.nodeAttrs && attr in data.edgeAttrs ==>
      EndpointsIndexNodes(Masked(data.edgeIndex, WindowMask(data.edgeAttrs[attr], startTime, endTime)),
                          data.nodeAttrs, data.numNodes)
    modifies data
    ensures r == data && data.Valid()
    // an attribute the object does not hold changes nothing
    ensures attr !in old(data.nodeAttrs) && attr !in old(data.edgeAttrs) ==> unchanged(data)
    // a node-level time attribute
    ensures attr in old(data.nodeAttrs) ==>
      var mask := WindowMask(old(data.nodeAttrs)[attr], startTime, endTime);
      && data.nodeAttrs == MaskEach(old(data.nodeAttrs), mask)
      && data.numNodes == (if old(data.numNodes).Some? then Some(Count(mask)) else None)
      && if filterAll then
           var edgeMask := TouchingMask(old(data.edgeIndex), mask);
           data.edgeIndex == Masked(old(data.edgeIndex), edgeMask) && data.edgeAttrs == MaskEach(old(data.edgeAttrs), edgeMask)
         else
           data.edgeIndex == old(data.edgeIndex) && data.edgeAttrs == old(data.edgeAttrs)
    // an edge-level time attribute
    ensures attr !in old(data.nodeAttrs) && attr in old(data.edgeAttrs) ==>
      var mask := WindowMask(old(data.edgeAttrs)[attr], startTime, endTime);
      && data.edgeIndex == Masked(old(data.edgeIndex), mask)
      && data.edgeAttrs == MaskEach(old(data.edgeAttrs), mask)
      && if filterAll then
           && EndpointsIndexNodes(data.edgeIndex, old(data.nodeAttrs), old(data.numNodes))
           && data.nodeAttrs == (map a | a in old(data.nodeAttrs) ::
                Masked(old(data.nodeAttrs)[a], MembershipMask(Endpoints(data.edgeIndex), |old(data.nodeAttrs)[a]|)))
           && data.numNodes == (if old(data.numNodes).Some? then Some(|Endpoints(data.edgeIndex)|) else None)
         else
           data.nodeAttrs == old(data.nodeAttrs) && data.numNodes == old(data.numNodes)
  {
    r := data;
    if attr in data.nodeAttrs {
      var mask := WindowMask(data.nodeAttrs[attr], startTime, endTime);
      NodeSnapshot(data, mask, filterAll);
    } else if attr in data.edgeAttrs {
      var mask := WindowMask(data.edgeAttrs[attr], startTime, endTime);
      EdgeSnapshot(data, mask, filterAll);
    }
  }
}
