/** Value types of the guillotine-cut layout: cut orientation, parts and sheets,
    the nodes stored in a layout's arena, and the blueprints an insertion grafts in. */
module Entities {

  datatype Option<T> = None | Some(value: T)

  /** The direction of the next guillotine cut made inside a node. */
  datatype Orientation = Horizontal | Vertical {
    function Rotate(): (r: Orientation)
      ensures r != this
    {
      if this == Horizontal then Vertical else Horizontal
    }
  }

  /** A part type of the instance's catalog; the layout only ever reads its id. */
  datatype PartType = PartType(id: nat, width: nat, height: nat)

  /** The stock sheet a layout is cut from; `value` is its material cost. */
  datatype SheetType = SheetType(width: nat, height: nat, value: int) {
    function Area(): nat { width * height }
  }

  /** A handle into the layout's node arena. Handles are never reused. */
  type Handle = nat

  /** One node of the cut tree: geometry, the orientation of the cut made inside it,
      an optional placed part, a link to its parent and the ordered child handles. */
  datatype Node = Node(level: nat, width: nat, height: nat, nextCutOrient: Orientation,
                       part: Option<PartType>, parent: Option<Handle>, children: seq<Handle>)
  {
    function Area(): nat { width * height }

    /** A waste leaf: no part placed in it and not cut any further. */
    predicate IsEmpty() { part.None? && children == [] }
  }

  /** A node as `Node::new` builds it: not yet linked to a parent, no children. */
  function NewNode(level: nat, width: nat, height: nat, orient: Orientation, part: Option<PartType>): (n: Node)
    ensures n.parent.None? && n.children == []
    ensures n.IsEmpty() <==> part.None?
  {
    Node(level, width, height, orient, part, None, [])
  }

  /** The total resource usage of a layout, kept as the exact fraction
      (area covered by parts) / (sheet area). */
  datatype Fraction = Fraction(used: nat, total: nat)

  /** The recursive description of one node to create during an insertion. */
  datatype NodeBlueprint = NodeBlueprint(width: nat, height: nat, nextCutOrient: Orientation,
                                         partId: Option<nat>, isEmpty: bool,
                                         children: seq<NodeBlueprint>)

  /** Replace the node `original` by the forest `replacements`, under original's parent. */
  datatype InsertionBlueprint = InsertionBlueprint(original: Handle, replacements: seq<NodeBlueprint>)

  /** The changes reported to the incremental cache of the optimizer. */
  datatype Updates = Updates(removed: seq<Handle>, added: seq<Handle>)

  /** Every node of a blueprint tree, in the order in which the layout creates them. */
  function Preorder(b: NodeBlueprint): (r: seq<NodeBlueprint>)
    decreases b
  {
    [b] + Forest(b.children)
  }

  /** Preorder of a forest: the trees one after another, left to right. */
  function Forest(bs: seq<NodeBlueprint>): (r: seq<NodeBlueprint>)
    decreases bs
  {
    if bs == [] then [] else Forest(bs[..|bs| - 1]) + Preorder(bs[|bs| - 1])
  }

  /** The handles of the roots of forest `bs` when its nodes receive the consecutive
      handles from `start` on, in preorder. */
  function Roots(bs: seq<NodeBlueprint>, start: nat): (r: seq<Handle>)
    ensures |r| == |bs|
  {
    if bs == [] then []
    else Roots(bs[..|bs| - 1], start) + [start + |Forest(bs[..|bs| - 1])|]
  }

  /** The handles from lo (inclusive) to hi (exclusive), in increasing order. */
  function HandleRange(lo: nat, hi: nat): (r: seq<Handle>)
    requires lo <= hi
    ensures |r| == hi - lo
    ensures forall i :: 0 <= i < |r| ==> r[i] == lo + i
  {
    seq(hi - lo, i requires 0 <= i < hi - lo => lo + i)
  }

  /** The emptiness flag of every blueprint node says exactly whether the node is a
      waste leaf; this is what the layout's empty-node index relies on. */
  predicate WellFormed(b: NodeBlueprint)
    decreases b
  {
    && b.isEmpty == (b.partId.None? && b.children == [])
    && forall i :: 0 <= i < |b.children| ==> WellFormed(b.children[i])
  }

  /** Every part id named in the blueprint exists in the catalog. */
  predicate PartsKnown(b: NodeBlueprint, catalog: map<nat, PartType>)
    decreases b
  {
    && (b.partId.Some? ==> b.partId.value in catalog)
    && forall i :: 0 <= i < |b.children| ==> PartsKnown(b.children[i], catalog)
  }

  /** The part placed by a blueprint node, looked up in the catalog. */
  function Resolve(partId: Option<nat>, catalog: map<nat, PartType>): (r: Option<PartType>)
    requires partId.Some? ==> partId.value in catalog
    ensures r.Some? <==> partId.Some?
  {
    match partId
    case None => None
    case Some(id) => Some(catalog[id])
  }

  /** Node `n` carries the geometry, orientation and part the blueprint node asks for. */
  predicate Materializes(n: Node, b: NodeBlueprint, catalog: map<nat, PartType>)
  {
    && n.width == b.width && n.height == b.height
    && n.nextCutOrient == b.nextCutOrient
    && (b.partId.None? ==> n.part.None?)
    && (b.partId.Some? ==> b.partId.value in catalog && n.part == Some(catalog[b.partId.value]))
  }

  /** The catalog files every part type under its own id. */
  predicate CatalogConsistent(catalog: map<nat, PartType>)
  {
    forall id :: id in catalog ==> catalog[id].id == id
  }

  /** The part id a blueprint node names, as a list of zero or one ids. */
  function OwnPart(b: NodeBlueprint): (r: seq<nat>)
    ensures |r| <= 1
  {
    if b.partId.Some? then [b.partId.value] else []
  }

  /** The part ids the blueprint nodes `bs` name, in order. */
  function BlueprintParts(bs: seq<NodeBlueprint>): (r: seq<nat>)
    ensures |r| <= |bs|
  {
    if bs == [] then [] else BlueprintParts(bs[..|bs| - 1]) + OwnPart(bs[|bs| - 1])
  }

  lemma {:induction false} BlueprintPartsConcat(a: seq<NodeBlueprint>, b: seq<NodeBlueprint>)
    ensures BlueprintParts(a + b) == BlueprintParts(a) + BlueprintParts(b)
    decreases |b|
  {
    if b != [] {
      var b' := b[..|b| - 1];
      assert (a + b)[..|a + b| - 1] == a + b';
      BlueprintPartsConcat(a, b');
    } else {
      assert a + b == a;
    }
  }

  lemma BlueprintPartsStep(bs: seq<NodeBlueprint>, m: nat)
    requires 0 < m <= |bs|
    ensures BlueprintParts(bs[..m]) == BlueprintParts(bs[..m - 1]) + OwnPart(bs[m - 1])
  {
    assert bs[..m][..m - 1] == bs[..m - 1];
  }

  /** An id is named by the blueprint nodes exactly when one of them places that part. */
  lemma {:induction false} BlueprintPartsMembership(bs: seq<NodeBlueprint>, id: nat)
    ensures id in BlueprintParts(bs) <==> exists i :: 0 <= i < |bs| && bs[i].partId == Some(id)
  {
    if bs != [] {
      var bs' := bs[..|bs| - 1];
      BlueprintPartsMembership(bs', id);
      if id in BlueprintParts(bs') {
        var i :| 0 <= i < |bs'| && bs'[i].partId == Some(id);
        assert bs[i] == bs'[i];
      }
      if exists i :: 0 <= i < |bs| && bs[i].partId == Some(id) {
        var i :| 0 <= i < |bs| && bs[i].partId == Some(id);
        if i < |bs'| {
          assert bs'[i] == bs[i];
        }
      }
    }
  }

  lemma HandleRangeOne(h: nat)
    ensures HandleRange(h, h + 1) == [h]
  {
  }

  /** Consecutive ranges join. */
  lemma HandleRangeJoin(lo: nat, mid: nat, hi: nat)
    requires lo <= mid <= hi
    ensures HandleRange(lo, mid) + HandleRange(mid, hi) == HandleRange(lo, hi)
  {
    assert forall i :: 0 <= i < hi - lo ==> (HandleRange(lo, mid) + HandleRange(mid, hi))[i] == lo + i;
  }

  /** The preorder of a forest grows by the preorder of the tree appended to it. */
  lemma ForestSnoc(bs: seq<NodeBlueprint>, k: nat, start: nat)
    requires k < |bs|
    ensures Forest(bs[..k + 1]) == Forest(bs[..k]) + Preorder(bs[k])
    ensures Roots(bs[..k + 1], start) == Roots(bs[..k], start) + [start + |Forest(bs[..k])|]
  {
    assert bs[..k + 1][..k] == bs[..k];
  }
}
