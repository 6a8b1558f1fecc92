/** The layout of one stock sheet: a guillotine-cut tree kept in a node arena,
    the index of its waste leaves sorted by descending area, and the cached
    cost and usage of the sheet. */
module Layouts {
  import opened Entities
  import opened Arena

  /** The answer of `binary_search_by`: a position holding an equal key, or the
      position where the key belongs. */
  datatype SearchResult = Found(index: nat) | NotFound(index: nat)

  /** Index entry of area `a` lies before the entries of area `area` (strictly, or
      also when equal) in an index sorted by descending area. */
  predicate Precedes(a: nat, area: nat, inclusive: bool)
  {
    a > area || (inclusive && a == area)
  }

  /** `b` extends `a` by exactly the ids of `added`, in some order. */
  predicate Appended(a: seq<nat>, b: seq<nat>, added: multiset<nat>)
  {
    |a| <= |b| && b[..|a|] == a && multiset(b[|a|..]) == added
  }

  lemma AppendedTrans(a: seq<nat>, b: seq<nat>, c: seq<nat>, m1: multiset<nat>, m2: multiset<nat>)
    requires Appended(a, b, m1) && Appended(b, c, m2)
    ensures Appended(a, c, m1 + m2)
  {
    assert c[..|b|][..|a|] == c[..|a|];
    assert c[|a|..] == c[|a|..|b|] + c[|b|..];
    assert c[|a|..|b|] == b[|a|..];
  }

  // ---------------------------------------------------------------------------
  // Searches in the empty-node index `s` of the arena `N`

  /** `binary_search_by` over the index with the comparator reversed: the
      position returned keeps the index sorted when a node of `area` is
      inserted there. */
  method BinarySearchByArea(N: Nodes, s: seq<Handle>, area: nat) returns (r: SearchResult)
    requires IndexShape(N, s)
    ensures r.index <= |s|
    ensures forall j :: 0 <= j < r.index ==> N[s[j]].Area() >= area
    ensures forall j :: r.index <= j < |s| ==> N[s[j]].Area() <= area
    ensures r.Found? ==> r.index < |s| && N[s[r.index]].Area() == area
    ensures r.NotFound? ==> forall j :: 0 <= j < |s| ==> N[s[j]].Area() != area
  {
    var lo, hi := 0, |s|;
    while lo < hi
      invariant 0 <= lo <= hi <= |s|
      invariant forall j :: 0 <= j < lo ==> N[s[j]].Area() > area
      invariant forall j :: hi <= j < |s| ==> N[s[j]].Area() < area
    {
      var mid := (lo + hi) / 2;
      var midArea := N[s[mid]].Area();
      if midArea > area {
        lo := mid + 1;
      } else if midArea < area {
        hi := mid;
      } else {
        return Found(mid);
      }
    }
    return NotFound(lo);
  }

  /** `partition_point`: the first position whose entry does not precede `area`. */
  method PartitionPoint(N: Nodes, s: seq<Handle>, area: nat, inclusive: bool) returns (p: nat)
    requires IndexShape(N, s)
    ensures p <= |s|
    ensures forall j :: 0 <= j < p ==> Precedes(N[s[j]].Area(), area, inclusive)
    ensures forall j :: p <= j < |s| ==> !Precedes(N[s[j]].Area(), area, inclusive)
  {
    var lo, hi := 0, |s|;
    while lo < hi
      invariant 0 <= lo <= hi <= |s|
      invariant forall j :: 0 <= j < lo ==> Precedes(N[s[j]].Area(), area, inclusive)
      invariant forall j :: hi <= j < |s| ==> !Precedes(N[s[j]].Area(), area, inclusive)
    {
      var mid := (lo + hi) / 2;
      if Precedes(N[s[mid]].Area(), area, inclusive) {
        lo := mid + 1;
      } else {
        hi := mid;
      }
    }
    p := lo;
  }

  /** The position of `h` in the index: first the start of the band of entries
      with `h`'s area, then a scan of that band. `None` is the panic
      "Empty node not found", and happens exactly when `h` is not indexed. */
  method FindInIndex(N: Nodes, s: seq<Handle>, h: Handle) returns (k: Option<nat>)
    requires IndexShape(N, s) && h in N
    ensures k.Some? ==> k.value < |s| && s[k.value] == h
    ensures k.None? <==> h !in s
  {
    var area := N[h].Area();
    var lower := PartitionPoint(N, s, area, false);
    if lower < |s| && s[lower] == h {
      return Some(lower);
    }
    var upper := PartitionPoint(N, s, area, true);
    assert upper < lower ==> Precedes(N[s[upper]].Area(), area, true);
    var i := lower;
    while i < upper
      invariant lower <= i <= upper
      invariant forall j :: lower <= j < i ==> s[j] != h
    {
      if s[i] == h {
        return Some(i);
      }
      i := i + 1;
    }
    forall j | 0 <= j < |s| && s[j] == h
      ensures lower <= j < upper
    {
      assert N[s[j]].Area() == area;
    }
    return None;
  }

  /** The index with the waste leaf `h` inserted where binary search puts it,
      whether an entry of equal area was found or not. */
  method InsertSorted(N: Nodes, s: seq<Handle>, h: Handle) returns (r: seq<Handle>)
    requires IndexShape(N, s) && h in N && N[h].IsEmpty() && h !in s
    ensures IndexShape(N, r)
    ensures h in r && FilterOut(r, {h}) == s && |r| == |s| + 1
  {
    var found := BinarySearchByArea(N, s, N[h].Area());
    match found {
      case Found(k) =>
        FilterOutInserted(s, k, h);
        IndexInsert(N, s, k, h);
        r := s[..k] + [h] + s[k..];
      case NotFound(k) =>
        FilterOutInserted(s, k, h);
        IndexInsert(N, s, k, h);
        r := s[..k] + [h] + s[k..];
    }
  }

  /** The index with the indexed waste leaf `h` removed. */
  method RemoveSorted(N: Nodes, s: seq<Handle>, h: Handle) returns (r: seq<Handle>)
    requires IndexShape(N, s) && h in N && h in s
    ensures r == FilterOut(s, {h})
    ensures IndexShape(N, r)
  {
    var k := FindInIndex(N, s, h);
    match k {
      case None =>
        assert false;
      case Some(i) =>
        FilterOutAt(s, i);
        IndexRemoveAt(N, s, i);
        r := s[..i] + s[i + 1..];
    }
  }

  /** What `register_node` does to the arena and the index keeps the tree
      rooted and the index sorted; only the new node's parent leaves the
      exceptions, and a new node that is not declared empty joins them. */
  lemma RegisterPreserves(N: Nodes, top: Handle, p: Handle, h: Handle, n: Node,
                          s: seq<Handle>, s2: seq<Handle>, X: set<Handle>, isEmpty: bool)
    requires Rooted(N, top) && (forall x :: x in N ==> x < h)
    requires IndexShape(N, s) && CompleteFor(N, s, X)
    requires p in N && p !in s
    requires n.parent.None? && n.children == [] && n.level == N[p].level + 1
    requires isEmpty ==> n.IsEmpty() && IndexShape(N[h := n], s2) && h in s2 && FilterOut(s2, {h}) == s
    requires !isEmpty ==> s2 == s
    ensures var A := Attach(N, p, h, n.(parent := Some(p)));
      && Rooted(A, top) && (forall x :: x in A ==> x < h + 1)
      && IndexShape(A, s2)
      && CompleteFor(A, s2, if isEmpty then X - {p} else X - {p} + {h})
  {
    var m := n.(parent := Some(p));
    var A := Attach(N, p, h, m);
    AttachRooted(N, top, p, h, m);
    if isEmpty {
      IndexFrame(N[h := n], A, s2);
    } else {
      AttachIndex(N, p, h, m, s);
    }
    forall x | x in A && A[x].IsEmpty() && x !in (if isEmpty then X - {p} else X - {p} + {h})
      ensures x in s2
    {
      if x != h {
        assert x != p && A[x] == N[x] && x in s;
        if isEmpty {
          assert x in FilterOut(s2, {h});
        }
      }
    }
  }

  /** Before the recursive call on the k-th child of `h`: the arena with the
      subtrees of the earlier children pruned is in the state the call needs. */
  lemma UnregisterChildReady(N: Nodes, top: Handle, hi: nat, s: seq<Handle>, X: set<Handle>, h: Handle, k: nat)
    requires Rooted(N, top) && (forall x :: x in N ==> x < hi)
    requires IndexShape(N, s) && CompleteFor(N, s, X + {h})
    requires h in N && N[h].parent.Some? && X !! Subtree(N, h) && k < |N[h].children|
    ensures var G := Subtrees(N, N[h].children[..k]); var M := Prune(N, G); var c := N[h].children[k];
      && Rooted(M, top) && (forall x :: x in M ==> x < hi)
      && IndexShape(M, FilterOut(s, G)) && CompleteFor(M, FilterOut(s, G), X + {h})
      && c in M && M[c].parent.Some? && h < c
      && Subtree(M, c) == Subtree(N, c) && (X + {h}) !! Subtree(M, c)
  {
    var cs := N[h].children;
    var G := Subtrees(N, cs[..k]);
    var M := Prune(N, G);
    var c := cs[k];
    ChildrenSubtrees(N, h, k);
    assert top !in Subtree(N, h);
    PruneRooted(N, top, G);
    PruneIndex(N, s, G);
    PruneComplete(N, s, X + {h}, G, {h});
    assert c in cs;
    assert ParentLink(N, c);
    SubtreesDisjoint(N, h, k, k);
    assert c in Subtree(N, c);
    SubtreeFrame(N, M, c);
    ChildSubtree(N, h, c);
  }

  /** After the recursive call on the k-th child: its subtree joins the pruned
      handles, and its part ids join those collected so far. */
  lemma UnregisterChildDone(N: Nodes, hi: nat, s: seq<Handle>, h: Handle, k: nat)
    requires Linked(N) && h in N && k < |N[h].children|
    ensures var cs := N[h].children; var G := Subtrees(N, cs[..k]); var S := Subtree(N, cs[k]);
      && Prune(Prune(N, G), S) == Prune(N, Subtrees(N, cs[..k + 1]))
      && FilterOut(FilterOut(s, G), S) == FilterOut(s, Subtrees(N, cs[..k + 1]))
      && multiset(PartIdsBelow(N, Subtrees(N, cs[..k + 1]), hi)) ==
         multiset(PartIdsBelow(N, G, hi)) + multiset(PartIdsBelow(Prune(N, G), S, hi))
  {
    var cs := N[h].children;
    var G := Subtrees(N, cs[..k]);
    var S := Subtree(N, cs[k]);
    assert cs[..k + 1][..k] == cs[..k];
    assert Subtrees(N, cs[..k + 1]) == G + S;
    PruneTwice(N, G, S);
    FilterOutTwice(s, G, S);
    SubtreesDisjoint(N, h, k, k);
    PruneKeepsParts(N, G, S, hi);
    PartsSplit(N, G, S, hi);
  }

  /** Once every child is unregistered, removing the leaf `h` leaves the arena
      and the index without h's subtree, and h's own part completes the ids. */
  lemma UnregisterFinish(N: Nodes, hi: nat, s: seq<Handle>, h: Handle)
    requires Linked(N) && h in N && N[h].parent.Some? && h < hi
    ensures var G := Subtrees(N, N[h].children[..|N[h].children|]); var M := Prune(N, G);
      && h in M && M[h].parent.Some? && M[h].parent.value in M
      && RemoveLeaf(M, h) == Prune(N, Subtree(N, h))
      && FilterOut(FilterOut(s, {h}), G) == FilterOut(s, Subtree(N, h))
      && multiset(PartIdsBelow(N, Subtree(N, h), hi)) ==
         multiset(PartIdsBelow(N, G, hi)) + multiset(PartOf(N, {h}, h))
  {
    var cs := N[h].children;
    assert cs[..|cs|] == cs;
    var G := Subtrees(N, cs);
    AllChildrenSubtrees(N, h);
    assert ParentLink(N, h);
    var p := N[h].parent.value;
    if p in Subtree(N, h) {
      BelowAtLeast(N, p, h);
    }
    forall c | c in cs
      ensures c in G
    {
      var i :| 0 <= i < |cs| && cs[i] == c;
      SubtreesMember(N, cs, i);
      assert ParentLink(N, c);
      assert c in Subtree(N, c);
    }
    RemoveLeafPrune(N, G, h);
    assert h in Subtree(N, h);
    assert {h} + G == Subtree(N, h) && G + {h} == Subtree(N, h);
    FilterOutTwice(s, {h}, G);
    PartsSplit(N, G, {h}, hi);
    PartsSingle(N, h, hi);
  }

  /** What `unregister_node` does to the arena and the index keeps the tree
      rooted and the index sorted; only h's parent may become an unindexed
      waste leaf; the part ids of the arena are those left plus those removed. */
  lemma UnregisterPreserves(N: Nodes, top: Handle, hi: nat, s: seq<Handle>, X: set<Handle>, h: Handle)
    requires Rooted(N, top) && (forall x :: x in N ==> x < hi)
    requires IndexShape(N, s) && CompleteFor(N, s, X)
    requires h in N && N[h].parent.Some?
    ensures var S := Subtree(N, h); var M := Prune(N, S);
      && Rooted(M, top) && (forall x :: x in M ==> x < hi)
      && IndexShape(M, FilterOut(s, S)) && CompleteFor(M, FilterOut(s, S), X + {N[h].parent.value})
      && multiset(PartIdsBelow(N, N.Keys, hi)) == multiset(PartIdsBelow(M, M.Keys, hi)) + multiset(PartIdsBelow(N, S, hi))
  {
    var S := Subtree(N, h);
    SubtreeClosed(N, h);
    assert top !in S;
    PruneRooted(N, top, S);
    PruneIndex(N, s, S);
    PruneComplete(N, s, X, S, {N[h].parent.value});
    PruneParts(N, S, hi);
  }

  /** The recursion of `unregister_node` on the arena `N` and the index `s`:
      drop `h` from the index when it is a waste leaf, unregister its children
      one after the other, then drop `h` and unlink it from its parent. */
  method UnregisterSubtree(N: Nodes, s: seq<Handle>, h: Handle, acc: Option<seq<nat>>,
                      ghost top: Handle, ghost hi: nat, ghost X: set<Handle>)
    returns (N': Nodes, s': seq<Handle>, r: Option<seq<nat>>)
    requires Rooted(N, top) && (forall x :: x in N ==> x < hi)
    requires IndexShape(N, s) && CompleteFor(N, s, X)
    requires h in N && N[h].parent.Some? && X !! Subtree(N, h)
    decreases hi - h, 2
    ensures N' == Prune(N, Subtree(N, h))
    ensures s' == FilterOut(s, Subtree(N, h))
    ensures r.Some? <==> acc.Some?
    ensures acc.Some? ==> Appended(acc.value, r.value, multiset(PartIdsBelow(N, Subtree(N, h), hi)))
  {
    var node := N[h];
    s' := s;
    if node.IsEmpty() {
      s' := RemoveSorted(N, s, h);
    } else {
      FilterOutNothing(s, {h});
    }
    ghost var s1 := s';
    UnregisterStart(N, s, s1, h, acc, top, hi, X);
    N', s', r := UnregisterChildren(N, s', h, node.children, acc, top, hi, X);
    ghost var M, r0 := N', r;
    UnregisterEnd(N, s, s1, h, acc, r0, M, s', hi);
    N' := RemoveLeaf(N', h);
    if r.Some? && node.part.Some? {
      r := Some(r.value + [node.part.value.id]);
    }
    UnregisterLast(N, h, acc, r0, r, hi);
  }

  /** The loop of `unregister_node` over the children `cs` of `h`, each unregistered
      with its subtree in turn. */
  method UnregisterChildren(N: Nodes, s: seq<Handle>, ghost h: Handle, cs: seq<Handle>,
                            acc: Option<seq<nat>>, ghost top: Handle, ghost hi: nat, ghost X: set<Handle>)
    returns (N': Nodes, s': seq<Handle>, r: Option<seq<nat>>)
    requires Rooted(N, top) && (forall x :: x in N ==> x < hi)
    requires IndexShape(N, s) && CompleteFor(N, s, X + {h})
    requires h in N && N[h].parent.Some? && X !! Subtree(N, h) && cs == N[h].children
    requires ChildrenGone(N, s, h, 0, N, s, acc, acc, hi)
    decreases hi - h, 1
    ensures ChildrenGone(N, s, h, |cs|, N', s', acc, r, hi)
  {
    N', s', r := N, s, acc;
    var k := 0;
    while k < |cs|
      invariant k <= |cs|
      invariant ChildrenGone(N, s, h, k, N', s', acc, r, hi)
    {
      N', s', r := UnregisterChild(N, s, h, k, cs[k], N', s', acc, r, top, hi, X);
      k := k + 1;
    }
  }

  /** Before the loop over the children of `h`: `h` is out of the index, which is
      complete except at `h`, and no child is unregistered yet. */
  lemma UnregisterStart(N: Nodes, s: seq<Handle>, s1: seq<Handle>, h: Handle, acc: Option<seq<nat>>,
                        top: Handle, hi: nat, X: set<Handle>)
    requires Rooted(N, top) && (forall x :: x in N ==> x < hi)
    requires IndexShape(N, s) && CompleteFor(N, s, X)
    requires h in N && s1 == FilterOut(s, {h}) && IndexShape(N, s1)
    ensures CompleteFor(N, s1, X + {h})
    ensures ChildrenGone(N, s1, h, 0, N, s1, acc, acc, hi)
  {
    PruneNothing(N);
    FilterOutNothing(s1, {});
    PartsNone(N, {}, hi);
    assert Subtrees(N, N[h].children[..0]) == {};
  }

  /** After the loop: removing the leaf `h` leaves the arena and the index without
      h's subtree, and the ids collected are those below h's children. */
  lemma UnregisterEnd(N: Nodes, s: seq<Handle>, s1: seq<Handle>, h: Handle, acc: Option<seq<nat>>,
                      r: Option<seq<nat>>, M: Nodes, t: seq<Handle>, hi: nat)
    requires Linked(N) && h in N && N[h].parent.Some? && h < hi
    requires s1 == FilterOut(s, {h})
    requires ChildrenGone(N, s1, h, |N[h].children|, M, t, acc, r, hi)
    ensures h in M && M[h].parent.Some? && M[h].parent.value in M
    ensures RemoveLeaf(M, h) == Prune(N, Subtree(N, h))
    ensures t == FilterOut(s, Subtree(N, h))
    ensures r.Some? <==> acc.Some?
    ensures acc.Some? ==> Appended(acc.value, r.value, multiset(PartIdsBelow(N, Subtrees(N, N[h].children), hi)))
    ensures multiset(PartIdsBelow(N, Subtree(N, h), hi)) ==
            multiset(PartIdsBelow(N, Subtrees(N, N[h].children), hi)) + multiset(PartOf(N, {h}, h))
  {
    assert N[h].children[..|N[h].children|] == N[h].children;
    UnregisterFinish(N, hi, s, h);
  }

  /** The part of `h` itself, when it holds one, completes the ids of its subtree. */
  lemma UnregisterLast(N: Nodes, h: Handle, acc: Option<seq<nat>>, r0: Option<seq<nat>>,
                       r: Option<seq<nat>>, hi: nat)
    requires Linked(N) && h in N
    requires r0.Some? <==> acc.Some?
    requires acc.Some? ==> Appended(acc.value, r0.value, multiset(PartIdsBelow(N, Subtrees(N, N[h].children), hi)))
    requires multiset(PartIdsBelow(N, Subtree(N, h), hi)) ==
             multiset(PartIdsBelow(N, Subtrees(N, N[h].children), hi)) + multiset(PartOf(N, {h}, h))
    requires r == if r0.Some? && N[h].part.Some? then Some(r0.value + [N[h].part.value.id]) else r0
    ensures r.Some? <==> acc.Some?
    ensures acc.Some? ==> Appended(acc.value, r.value, multiset(PartIdsBelow(N, Subtree(N, h), hi)))
  {
    if acc.Some? {
      AppendedTrans(acc.value, r0.value, r.value,
        multiset(PartIdsBelow(N, Subtrees(N, N[h].children), hi)), multiset(PartOf(N, {h}, h)));
    }
  }

  /** The state of the loop over the children of `h`: the subtrees of the first `k`
      children are gone from the arena `M` and the index `t`, and their part ids are
      appended to the accumulator when there is one. */
  ghost predicate ChildrenGone(N: Nodes, s: seq<Handle>, h: Handle, k: nat, M: Nodes, t: seq<Handle>,
                               acc: Option<seq<nat>>, r: Option<seq<nat>>, hi: nat)
    requires Linked(N) && h in N && k <= |N[h].children|
  {
    var G := Subtrees(N, N[h].children[..k]);
    && M == Prune(N, G)
    && t == FilterOut(s, G)
    && (r.Some? <==> acc.Some?)
    && (acc.Some? ==> Appended(acc.value, r.value, multiset(PartIdsBelow(N, G, hi))))
  }

  /** One turn of the loop over the children of `h`: unregister its k-th child `c`
      from the arena `M` and index `t` left by the earlier turns. */
  method UnregisterChild(ghost N: Nodes, ghost s: seq<Handle>, ghost h: Handle, ghost k: nat, c: Handle,
                         M: Nodes, t: seq<Handle>, ghost acc: Option<seq<nat>>, r: Option<seq<nat>>,
                         ghost top: Handle, ghost hi: nat, ghost X: set<Handle>)
    returns (M': Nodes, t': seq<Handle>, r': Option<seq<nat>>)
    requires Rooted(N, top) && (forall x :: x in N ==> x < hi)
    requires IndexShape(N, s) && CompleteFor(N, s, X + {h})
    requires h in N && N[h].parent.Some? && X !! Subtree(N, h) && k < |N[h].children|
    requires c == N[h].children[k]
    requires ChildrenGone(N, s, h, k, M, t, acc, r, hi)
    decreases hi - h, 0
    ensures ChildrenGone(N, s, h, k + 1, M', t', acc, r', hi)
  {
    ghost var G, S := Subtrees(N, N[h].children[..k]), Subtree(N, c);
    UnregisterChildReady(N, top, hi, s, X, h, k);
    M', t', r' := UnregisterSubtree(M, t, c, r, top, hi, X + {h});
    UnregisterChildDone(N, hi, s, h, k);
    if acc.Some? {
      AppendedTrans(acc.value, r.value, r'.value, multiset(PartIdsBelow(N, G, hi)), multiset(PartIdsBelow(M, S, hi)));
    }
  }

  /** The node `h` of blueprint `b` gains its `k`-th child, the root of the
      subtree numbered from `mid` on. */
  lemma BuildRootsStep(M: Nodes, N: Nodes, h: Handle, b: NodeBlueprint, k: nat, mid: nat)
    requires k < |b.children| && mid == h + 1 + |Forest(b.children[..k])|
    requires h in M && M[h].children == Roots(b.children[..k], h + 1)
    requires h in N && N[h].children == M[h].children + [mid]
    ensures N[h].children == Roots(b.children[..k + 1], h + 1)
    ensures mid + |Preorder(b.children[k])| == h + 1 + |Forest(b.children[..k + 1])|
  {
    ForestSnoc(b.children, k, h + 1);
  }

  /** The first `k` child subtrees of `b`, built from `h + 1` on and left alone
      since, followed by the `k`-th one built from `mid` on. */
  lemma BuiltStep(M: Nodes, N: Nodes, h: Handle, b: NodeBlueprint, catalog: map<nat, PartType>, k: nat, mid: nat)
    requires k < |b.children| && mid == h + 1 + |Forest(b.children[..k])|
    requires Built(M, h + 1, Forest(b.children[..k]), catalog)
    requires forall x :: x in M && h + 1 <= x < mid ==> x in N && N[x] == M[x]
    requires Built(N, mid, Preorder(b.children[k]), catalog)
    ensures Built(N, h + 1, Forest(b.children[..k + 1]), catalog)
  {
    ForestSnoc(b.children, k, h + 1);
    BuiltFrame(M, N, h + 1, Forest(b.children[..k]), catalog);
    BuiltConcat(N, h + 1, Forest(b.children[..k]), Preorder(b.children[k]), catalog);
  }

  /** All child subtrees of `b` are built below `h`: so is `b`. */
  lemma BuildFinish(N: Nodes, h: Handle, b: NodeBlueprint, catalog: map<nat, PartType>)
    requires h in N && Materializes(N[h], b, catalog)
    requires N[h].children == Roots(b.children[..|b.children|], h + 1)
    requires Built(N, h + 1, Forest(b.children[..|b.children|]), catalog)
    ensures Built(N, h, Preorder(b), catalog)
    ensures b.children != [] ==> N[h].children != []
    ensures [b] + Forest(b.children[..|b.children|]) == Preorder(b)
  {
    assert b.children[..|b.children|] == b.children;
    assert [b][..0] == [];
    BuiltConcat(N, h, [b], Forest(b.children), catalog);
  }

  /** `register_node` on the arena and the index: the node gets the fresh handle
      `h`, becomes the last child of `parent`, and a waste leaf is inserted in the
      index at its binary-search position. */
  method RegisterIn(N: Nodes, s: seq<Handle>, h: Handle, node: Node, parent: Handle, isEmpty: bool,
                    ghost top: Handle, ghost X: set<Handle>) returns (N': Nodes, s': seq<Handle>)
    requires Rooted(N, top) && (forall x :: x in N ==> x < h)
    requires IndexShape(N, s) && CompleteFor(N, s, X)
    requires parent in N && parent !in s
    requires node.parent.None? && node.children == [] && node.level == N[parent].level + 1
    requires isEmpty ==> node.IsEmpty()
    ensures N' == Attach(N, parent, h, node.(parent := Some(parent)))
    ensures isEmpty ==> h in s' && FilterOut(s', {h}) == s && |s'| == |s| + 1
    ensures !isEmpty ==> s' == s
    ensures forall x :: x in s' ==> x in s || x == h
    ensures Rooted(N', top) && (forall x :: x in N' ==> x < h + 1)
    ensures IndexShape(N', s')
    ensures CompleteFor(N', s', if isEmpty then X - {parent} else X - {parent} + {h})
  {
    s' := s;
    if isEmpty {
      IndexFrame(N, N[h := node], s);
      s' := InsertSorted(N[h := node], s, h);
      forall x | x in s'
        ensures x in s || x == h
      {
        if x != h {
          assert x in FilterOut(s', {h});
        }
      }
    }
    // link the new node below its parent
    N' := Attach(N, parent, h, node.(parent := Some(parent)));
    RegisterPreserves(N, top, parent, h, node, s, s', X, isEmpty);
  }

  /** A lone root is a rooted arena with an empty index that is complete once
      the root is excused. */
  lemma FreshArena(root: Node)
    requires root.parent.None? && root.children == [] && root.level == 0
    ensures Rooted(map[0 := root], 0) && IndexShape(map[0 := root], []) && CompleteFor(map[0 := root], [], {0})
  {
  }

  /** What `unregister_node` does to the arena `N` and the index `s`: exactly the
      subtree of `h` leaves both, its part ids go to the accumulator when there is one,
      and the arena's part ids split into those kept and those removed. */
  ghost predicate UnregisteredBy(N: Nodes, N': Nodes, s: seq<Handle>, s': seq<Handle>, h: Handle,
                                 acc: Option<seq<nat>>, r: Option<seq<nat>>, hi: nat)
    requires Linked(N) && h in N
  {
    && N' == Prune(N, Subtree(N, h))
    && s' == FilterOut(s, Subtree(N, h))
    && (r.Some? <==> acc.Some?)
    && (acc.Some? ==> Appended(acc.value, r.value, multiset(PartIdsBelow(N, Subtree(N, h), hi))))
    && multiset(PartIdsBelow(N, N.Keys, hi)) ==
       multiset(PartIdsBelow(N', N'.Keys, hi)) + multiset(PartIdsBelow(N, Subtree(N, h), hi))
  }

  /** `unregister_node` on the arena `N` and the index `s`, together with the
      invariants it keeps: only the old parent of `h` may become an unindexed
      waste leaf, and every part id is either kept or handed back. */
  method UnregisterIn(N: Nodes, s: seq<Handle>, h: Handle, acc: Option<seq<nat>>,
                      ghost top: Handle, ghost hi: nat, ghost X: set<Handle>)
    returns (N': Nodes, s': seq<Handle>, r: Option<seq<nat>>)
    requires Rooted(N, top) && (forall x :: x in N ==> x < hi)
    requires IndexShape(N, s) && CompleteFor(N, s, X)
    requires h in N && N[h].parent.Some? && X !! Subtree(N, h)
    ensures UnregisteredBy(N, N', s, s', h, acc, r, hi)
    ensures Rooted(N', top) && (forall x :: x in N' ==> x < hi)
    ensures IndexShape(N', s') && CompleteFor(N', s', X + {N[h].parent.value})
  {
    UnregisterPreserves(N, top, hi, s, X, h);
    N', s', r := UnregisterSubtree(N, s, h, acc, top, hi, X);
  }

  /** The arena of a new layout: the root `0` spanning the sheet, and below it the
      placeholder waste leaf `1` of the same size, cut the other way, indexed. */
  method SeedArena(width: nat, height: nat, orient: Orientation) returns (N: Nodes, s: seq<Handle>)
    ensures Rooted(N, 0) && (forall x :: x in N ==> x < 2)
    ensures IndexShape(N, s) && CompleteFor(N, s, {})
    ensures N.Keys == {0, 1}
    ensures N[0] == Node(0, width, height, orient, None, None, [1])
    ensures N[1] == Node(1, width, height, orient.Rotate(), None, Some(0), [])
    ensures s == [1]
    ensures UsedAreaBelow(N, 2) == 0
  {
    var root := NewNode(0, width, height, orient, None);
    var placeholder := NewNode(1, width, height, orient.Rotate(), None);
    FreshArena(root);
    N, s := RegisterIn(map[0 := root], [], 1, placeholder, 0, true, 0, {0});
    SeedNodes(N, s, root, placeholder);
  }

  /** The two nodes of a new layout, once the placeholder is registered below the root. */
  lemma SeedNodes(N: Nodes, s: seq<Handle>, root: Node, placeholder: Node)
    requires N == Attach(map[0 := root], 0, 1, placeholder.(parent := Some(0)))
    requires 1 in s && |s| == 1
    requires root.children == [] && root.part.None? && placeholder.part.None?
    ensures N.Keys == {0, 1}
    ensures N[0] == root.(children := [1])
    ensures N[1] == placeholder.(parent := Some(0))
    ensures s == [1]
    ensures UsedAreaBelow(N, 2) == 0
  {
    assert s[0] in s;
  }

  /** The state while the children of blueprint `b` are built below its node `h`,
      itself registered under `parent` in arena `N0`: the first `k` child subtrees
      are in place in arena `M` with index `t`, and `next` is the next fresh handle. */
  ghost predicate BuildingState(N0: Nodes, M: Nodes, t: seq<Handle>, next: nat, parent: Handle, h: Handle,
                                b: NodeBlueprint, catalog: map<nat, PartType>, k: nat,
                                X: set<Handle>, s1: seq<Handle>, top: Handle)
  {
    && k <= |b.children| && h !in N0
    && Rooted(M, top) && (forall x :: x in M ==> x < next)
    && IndexShape(M, t) && CompleteFor(M, t, X)
    && next == h + 1 + |Forest(b.children[..k])|
    && Grown(N0, M, parent, h, next, [h])
    && h in M && Materializes(M[h], b, catalog) && M[h].children == Roots(b.children[..k], h + 1)
    && Built(M, h + 1, Forest(b.children[..k]), catalog)
    && (forall x :: x in t ==> x in s1 || x > h)
    && (b.isEmpty ==> h in t)
    && (!b.isEmpty ==> h !in s1)
  }

  /** `implement_node_blueprint` on the arena and the index: register the node
      `b` describes as the last child of `parent` under handle `next`, then build
      its children's subtrees, left to right; `created` receives every new handle
      in creation order. */
  method BuildNode(N: Nodes, s: seq<Handle>, next: Handle, parent: Handle, b: NodeBlueprint,
                   catalog: map<nat, PartType>, created: seq<Handle>, ghost top: Handle, ghost X: set<Handle>)
    returns (N': Nodes, s': seq<Handle>, next': Handle, created': seq<Handle>)
    requires Rooted(N, top) && (forall x :: x in N ==> x < next)
    requires IndexShape(N, s) && CompleteFor(N, s, X)
    requires parent in N && parent !in s
    requires WellFormed(b) && PartsKnown(b, catalog)
    decreases b, 2
    ensures Rooted(N', top) && (forall x :: x in N' ==> x < next')
    ensures IndexShape(N', s') && CompleteFor(N', s', X - {parent})
    ensures next' == next + |Preorder(b)|
    ensures created' == created + HandleRange(next, next')
    ensures Grown(N, N', parent, next, next', [next])
    ensures Built(N', next, Preorder(b), catalog)
    ensures forall x :: x in s' ==> x in s || x >= next
  {
    var node := NewNode(N[parent].level + 1, b.width, b.height, b.nextCutOrient, Resolve(b.partId, catalog));
    var h := next;
    N', s' := RegisterIn(N, s, h, node, parent, b.isEmpty, top, X);
    next', created' := h + 1, created + [h];
    ghost var s1 := s';
    BuildStart(N, s, N', s', parent, h, node, b, catalog, X, top);
    HandleRangeOne(h);
    N', s', next', created' :=
      BuildChildren(N, parent, h, b, catalog, X - {parent} + {h}, s1, top, N', s', next', created', created);
    BuildEnd(N, s, N', s', next', parent, h, b, catalog, |b.children|, X, s1, top);
  }

  /** `implement_node_blueprint` on the arena and the index, with the part ids it adds:
      those the blueprint names, in creation order, after the ones already there. */
  method ImplementNodeIn(N: Nodes, s: seq<Handle>, next: Handle, parent: Handle, b: NodeBlueprint,
                         catalog: map<nat, PartType>, created: seq<Handle>, ghost top: Handle, ghost X: set<Handle>)
    returns (N': Nodes, s': seq<Handle>, next': Handle, created': seq<Handle>)
    requires Rooted(N, top) && (forall x :: x in N ==> x < next)
    requires IndexShape(N, s) && CompleteFor(N, s, X)
    requires parent in N && parent !in s
    requires WellFormed(b) && PartsKnown(b, catalog) && CatalogConsistent(catalog)
    ensures next' == next + |Preorder(b)|
    ensures created' == created + HandleRange(next, next')
    ensures Grown(N, N', parent, next, next', [next])
    ensures Built(N', next, Preorder(b), catalog)
    ensures forall x :: x in s' ==> x in s || x >= next
    ensures PartIdsBelow(N', N'.Keys, next') == PartIdsBelow(N, N.Keys, next) + BlueprintParts(Preorder(b))
    ensures Rooted(N', top) && (forall x :: x in N' ==> x < next')
    ensures IndexShape(N', s') && CompleteFor(N', s', X - {parent})
  {
    N', s', next', created' := BuildNode(N, s, next, parent, b, catalog, created, top, X);
    BuiltParts(N, N', parent, next, next', [next], Preorder(b), catalog);
  }

  /** The loop of `implement_node_blueprint` over the children of blueprint `b`,
      each built with its subtree below `h` in turn. */
  method BuildChildren(ghost N0: Nodes, ghost parent: Handle, h: Handle, b: NodeBlueprint,
                       catalog: map<nat, PartType>, ghost X: set<Handle>, ghost s1: seq<Handle>, ghost top: Handle,
                       M: Nodes, t: seq<Handle>, next: Handle, created: seq<Handle>, ghost base: seq<Handle>)
    returns (M': Nodes, t': seq<Handle>, next': Handle, created': seq<Handle>)
    requires BuildingState(N0, M, t, next, parent, h, b, catalog, 0, X, s1, top)
    requires WellFormed(b) && PartsKnown(b, catalog) && h in X
    requires created == base + HandleRange(h, next)
    decreases b, 1
    ensures BuildingState(N0, M', t', next', parent, h, b, catalog, |b.children|, X, s1, top)
    ensures created' == base + HandleRange(h, next')
  {
    M', t', next', created' := M, t, next, created;
    var k := 0;
    while k < |b.children|
      invariant k <= |b.children|
      invariant BuildingState(N0, M', t', next', parent, h, b, catalog, k, X, s1, top)
      invariant created' == base + HandleRange(h, next')
    {
      ghost var mid := next';
      M', t', next', created' := BuildChild(N0, parent, h, b, catalog, k, X, s1, top, M', t', next', created');
      HandleRangeJoin(h, mid, next');
      SeqAssoc(base, HandleRange(h, mid), HandleRange(mid, next'));
      k := k + 1;
    }
  }

  /** Right after `register_node`: the node of `b` is in place, none of its
      children yet. */
  lemma BuildStart(N: Nodes, s: seq<Handle>, M: Nodes, t: seq<Handle>, parent: Handle, h: Handle,
                   node: Node, b: NodeBlueprint, catalog: map<nat, PartType>, X: set<Handle>, top: Handle)
    requires (forall x :: x in N ==> x < h) && IndexShape(N, s)
    requires parent in N && PartsKnown(b, catalog)
    requires node == NewNode(N[parent].level + 1, b.width, b.height, b.nextCutOrient, Resolve(b.partId, catalog))
    requires M == Attach(N, parent, h, node.(parent := Some(parent)))
    requires b.isEmpty ==> h in t
    requires !b.isEmpty ==> t == s
    requires Rooted(M, top) && (forall x :: x in M ==> x < h + 1)
    requires IndexShape(M, t)
    requires CompleteFor(M, t, if b.isEmpty then X - {parent} else X - {parent} + {h})
    ensures BuildingState(N, M, t, h + 1, parent, h, b, catalog, 0, X - {parent} + {h}, t, top)
  {
    AttachGrown(N, parent, h, node.(parent := Some(parent)));
    assert b.children[..0] == [];
    CompleteWiden(M, t, if b.isEmpty then X - {parent} else X - {parent} + {h}, X - {parent} + {h});
  }

  /** Once every child is built: the subtree of `b` is complete, and `h` leaves
      the exceptions of the index. */
  lemma BuildEnd(N: Nodes, s: seq<Handle>, M: Nodes, t: seq<Handle>, next: nat, parent: Handle, h: Handle,
                 b: NodeBlueprint, catalog: map<nat, PartType>, k: nat, X: set<Handle>, s1: seq<Handle>, top: Handle)
    requires k == |b.children| && BuildingState(N, M, t, next, parent, h, b, catalog, k, X - {parent} + {h}, s1, top)
    requires WellFormed(b)
    requires forall x :: x in s1 ==> x in s || x == h
    ensures Rooted(M, top) && (forall x :: x in M ==> x < next)
    ensures IndexShape(M, t) && CompleteFor(M, t, X - {parent})
    ensures next == h + |Preorder(b)|
    ensures Grown(N, M, parent, h, next, [h])
    ensures Built(M, h, Preorder(b), catalog)
    ensures forall x :: x in t ==> x in s || x >= h
  {
    BuildFinish(M, h, b, catalog);
    assert h in t || !M[h].IsEmpty();
    CompleteDrop(M, t, X - {parent}, h);
  }

  /** One round of `implement_node_blueprint`'s loop over the children of `b`:
      build the subtree of the `k`-th child below `h`. */
  method BuildChild(ghost N0: Nodes, ghost parent: Handle, h: Handle, b: NodeBlueprint, catalog: map<nat, PartType>,
                    k: nat, ghost X: set<Handle>, ghost s1: seq<Handle>, ghost top: Handle,
                    M: Nodes, t: seq<Handle>, mid: Handle, created: seq<Handle>)
    returns (M': Nodes, t': seq<Handle>, hi: Handle, created': seq<Handle>)
    requires k < |b.children| && BuildingState(N0, M, t, mid, parent, h, b, catalog, k, X, s1, top)
    requires WellFormed(b) && PartsKnown(b, catalog)
    requires h in X
    decreases b, 0
    ensures mid <= hi && BuildingState(N0, M', t', hi, parent, h, b, catalog, k + 1, X, s1, top)
    ensures created' == created + HandleRange(mid, hi)
  {
    assert h !in t;
    assert WellFormed(b.children[k]) && PartsKnown(b.children[k], catalog);
    M', t', hi, created' := BuildNode(M, t, mid, h, b.children[k], catalog, created, top, X);
    BuildRootsStep(M, M', h, b, k, mid);
    GrownNested(N0, M, M', parent, h, mid, hi, [h], [mid]);
    BuiltStep(M, M', h, b, catalog, k, mid);
    CompleteWiden(M', t', X - {h}, X);
  }

  /** The state of `implement_insertion_blueprint`'s loop over the replacements
      `reps`: the first `k` of them are built below `parent`, from handle `start` on. */
  ghost predicate ForestState(N0: Nodes, s0: seq<Handle>, M: Nodes, t: seq<Handle>, next: nat, parent: Handle,
                              start: nat, reps: seq<NodeBlueprint>, catalog: map<nat, PartType>, k: nat,
                              X: set<Handle>, top: Handle)
  {
    && k <= |reps| && (forall x :: x in N0 ==> x < start) && parent !in s0
    && Rooted(M, top) && (forall x :: x in M ==> x < next)
    && IndexShape(M, t) && CompleteFor(M, t, if k == 0 then X else X - {parent})
    && next == start + |Forest(reps[..k])|
    && Grown(N0, M, parent, start, next, Roots(reps[..k], start))
    && Built(M, start, Forest(reps[..k]), catalog)
    && (forall x :: x in t ==> x in s0 || x >= start)
  }

  /** After the `k`-th replacement is built from `mid` to `hi`, the first `k + 1` are. */
  lemma ForestStep(N0: Nodes, s0: seq<Handle>, M: Nodes, t: seq<Handle>, M': Nodes, t': seq<Handle>,
                   mid: nat, hi: nat, parent: Handle, start: nat, reps: seq<NodeBlueprint>,
                   catalog: map<nat, PartType>, k: nat, X: set<Handle>, top: Handle)
    requires k < |reps| && ForestState(N0, s0, M, t, mid, parent, start, reps, catalog, k, X, top)
    requires Rooted(M', top) && (forall x :: x in M' ==> x < hi)
    requires IndexShape(M', t') && CompleteFor(M', t', (if k == 0 then X else X - {parent}) - {parent})
    requires hi == mid + |Preorder(reps[k])|
    requires Grown(M, M', parent, mid, hi, [mid])
    requires Built(M', mid, Preorder(reps[k]), catalog)
    requires forall x :: x in t' ==> x in t || x >= mid
    ensures ForestState(N0, s0, M', t', hi, parent, start, reps, catalog, k + 1, X, top)
  {
    ForestGrownStep(N0, M, M', mid, hi, parent, start, reps, k);
    assert parent in N0;
    ForestBuiltStep(M, M', mid, hi, parent, start, reps, catalog, k);
    CompleteWiden(M', t', (if k == 0 then X else X - {parent}) - {parent}, X - {parent});
  }

  lemma ForestGrownStep(N0: Nodes, M: Nodes, M': Nodes, mid: nat, hi: nat, parent: Handle, start: nat,
                        reps: seq<NodeBlueprint>, k: nat)
    requires k < |reps| && mid == start + |Forest(reps[..k])| && hi == mid + |Preorder(reps[k])|
    requires Grown(N0, M, parent, start, mid, Roots(reps[..k], start))
    requires Grown(M, M', parent, mid, hi, [mid])
    ensures hi == start + |Forest(reps[..k + 1])|
    ensures Grown(N0, M', parent, start, hi, Roots(reps[..k + 1], start))
  {
    ForestSnoc(reps, k, start);
    GrownChain(N0, M, M', parent, start, mid, hi, Roots(reps[..k], start), [mid]);
  }

  lemma ForestBuiltStep(M: Nodes, M': Nodes, mid: nat, hi: nat, parent: Handle, start: nat,
                        reps: seq<NodeBlueprint>, catalog: map<nat, PartType>, k: nat)
    requires k < |reps| && mid == start + |Forest(reps[..k])| && parent < start
    requires Built(M, start, Forest(reps[..k]), catalog)
    requires Grown(M, M', parent, mid, hi, [mid])
    requires Built(M', mid, Preorder(reps[k]), catalog)
    ensures Built(M', start, Forest(reps[..k + 1]), catalog)
  {
    ForestSnoc(reps, k, start);
    GrownFrame(M, M', parent, mid, hi, [mid]);
    BuiltFrame(M, M', start, Forest(reps[..k]), catalog);
    BuiltConcat(M', start, Forest(reps[..k]), Preorder(reps[k]), catalog);
  }

  /** The loop of `implement_insertion_blueprint`: each replacement in turn is
      built as the last child of `parent`; `created` receives every new handle
      in creation order. */
  method BuildForest(N: Nodes, s: seq<Handle>, next: Handle, parent: Handle, reps: seq<NodeBlueprint>,
                     catalog: map<nat, PartType>, ghost top: Handle, ghost X: set<Handle>)
    returns (N': Nodes, s': seq<Handle>, next': Handle, created: seq<Handle>)
    requires Rooted(N, top) && (forall x :: x in N ==> x < next)
    requires IndexShape(N, s) && CompleteFor(N, s, X)
    requires parent in N && parent !in s
    requires forall i :: 0 <= i < |reps| ==> WellFormed(reps[i]) && PartsKnown(reps[i], catalog)
    ensures ForestState(N, s, N', s', next', parent, next, reps, catalog, |reps|, X, top)
    ensures created == HandleRange(next, next')
  {
    N', s', next', created := N, s, next, [];
    assert reps[..0] == [];
    var k := 0;
    while k < |reps|
      invariant ForestState(N, s, N', s', next', parent, next, reps, catalog, k, X, top)
      invariant created == HandleRange(next, next')
    {
      ghost var M, t, mid := N', s', next';
      assert parent in N && parent < next;
      N', s', next', created := BuildNode(N', s', next', parent, reps[k], catalog, created, top,
                                          if k == 0 then X else X - {parent});
      ForestStep(N, s, M, t, N', s', mid, next', parent, next, reps, catalog, k, X, top);
      HandleRangeJoin(next, mid, next');
      k := k + 1;
    }
  }

  // ---------------------------------------------------------------------------
  // remove_node on the arena and the index

  /** The net effect of a removal: the handles that go, the node that receives the
      new waste leaf as its last child, and that waste leaf. */
  datatype Plan = Plan(gone: set<Handle>, attachTo: Handle, node: Node)

  /** The waste leaf that replaces `node` and its empty sibling `empty` when their
      parent cuts `orient`: the two are joined along the parent's cut axis. */
  function Merged(orient: Orientation, node: Node, empty: Node): (r: Node)
    ensures r.IsEmpty() && r.parent.None? && r.level == node.level && r.nextCutOrient == node.nextCutOrient
    ensures orient == Horizontal ==> r.width == node.width && r.height == empty.height + node.height
    ensures orient == Vertical ==> r.width == empty.width + node.width && r.height == node.height
  {
    match orient
    case Horizontal => NewNode(node.level, node.width, empty.height + node.height, node.nextCutOrient, None)
    case Vertical => NewNode(node.level, empty.width + node.width, node.height, node.nextCutOrient, None)
  }

  /** Two pieces that share their side across the cut merge into one piece of their joint area. */
  lemma MergedArea(orient: Orientation, node: Node, empty: Node)
    requires orient == Horizontal ==> node.width == empty.width
    requires orient == Vertical ==> node.height == empty.height
    ensures Merged(orient, node, empty).Area() == node.Area() + empty.Area()
  {
    var r := Merged(orient, node, empty);
    if orient == Horizontal {
      calc {
        r.Area();
        node.width * (empty.height + node.height);
        node.width * empty.height + node.width * node.height;
      }
    } else {
      calc {
        r.Area();
        (empty.width + node.width) * node.height;
        empty.width * node.height + node.width * node.height;
      }
    }
  }

  /** The decision of `remove_node` for the non-empty node `h`: with no empty
      sibling, `h` becomes a waste leaf of its own size; with an empty sibling `e`,
      `h` and `e` merge into one waste leaf when their parent keeps more than `keep`
      children or is the root; otherwise the parent itself becomes a waste leaf
      below the grandparent. */
  ghost function PlanFor(N: Nodes, h: Handle, keep: nat): Plan
    requires Linked(N) && h in N && N[h].parent.Some?
  {
    assert ParentLink(N, h);
    var p := N[h].parent.value;
    var cs := N[p].children;
    match FirstEmpty(N, cs)
    case None =>
      Plan(Subtree(N, h), p, NewNode(N[h].level, N[h].width, N[h].height, N[h].nextCutOrient, None).(parent := Some(p)))
    case Some(e) =>
      if |cs| > keep || N[p].parent.None? then
        Plan(Subtree(N, h) + {e}, p, Merged(N[p].nextCutOrient, N[h], N[e]).(parent := Some(p)))
      else
        var g := N[p].parent.value;
        Plan(Subtree(N, p), g, NewNode(N[p].level, N[p].width, N[p].height, N[p].nextCutOrient, None).(parent := Some(g)))
  }

  /** Unregister `h` with its subtree and register the waste leaf `node` below the
      parent of `h`, as the last step of every scenario of `remove_node` does. */
  method ReplaceIn(N: Nodes, s: seq<Handle>, next: Handle, h: Handle, node: Node,
                   ghost top: Handle, ghost X: set<Handle>)
    returns (N': Nodes, s': seq<Handle>, removed: seq<nat>)
    requires Rooted(N, top) && (forall x :: x in N ==> x < next)
    requires h in N && N[h].parent.Some? && X <= {N[h].parent.value}
    requires IndexShape(N, s) && CompleteFor(N, s, X)
    requires node.IsEmpty() && node.parent.None? && node.level == N[h].level
    ensures var p := N[h].parent.value;
      && p in N && p !in Subtree(N, h)
      && N' == Attach(Prune(N, Subtree(N, h)), p, next, node.(parent := Some(p)))
    ensures Rooted(N', top) && (forall x :: x in N' ==> x < next + 1)
    ensures IndexShape(N', s') && CompleteFor(N', s', {})
    ensures multiset(removed) == multiset(PartIdsBelow(N, Subtree(N, h), next))
    ensures multiset(PartIdsBelow(N, N.Keys, next)) ==
            multiset(PartIdsBelow(N', N'.Keys, next + 1)) + multiset(removed)
  {
    var p := N[h].parent.value;
    ParentOutside(N, h);
    assert ParentLink(N, h);
    UnregisterPreserves(N, top, next, s, X, h);
    var N1, s1, r := UnregisterSubtree(N, s, h, Some([]), top, next, X);
    N', s' := RegisterIn(N1, s1, next, node, p, true, top, X + {p});
    removed := r.value;
    ReplaceParts(N, N1, N', h, p, next, node, removed);
    assert X + {p} - {p} == {};
  }

  /** The part ids around a replacement: those collected from h's subtree, and
      those left in the arena once the waste leaf is attached. */
  lemma ReplaceParts(N: Nodes, N1: Nodes, N': Nodes, h: Handle, p: Handle, next: Handle, node: Node,
                     removed: seq<nat>)
    requires Linked(N) && h in N
    requires p in N1 && (forall x :: x in N1 ==> x < next) && node.part.None?
    requires N' == Attach(N1, p, next, node.(parent := Some(p)))
    requires Appended([], removed, multiset(PartIdsBelow(N, Subtree(N, h), next)))
    requires multiset(PartIdsBelow(N, N.Keys, next)) ==
             multiset(PartIdsBelow(N1, N1.Keys, next)) + multiset(PartIdsBelow(N, Subtree(N, h), next))
    ensures multiset(removed) == multiset(PartIdsBelow(N, Subtree(N, h), next))
    ensures multiset(PartIdsBelow(N, N.Keys, next)) ==
            multiset(PartIdsBelow(N', N'.Keys, next + 1)) + multiset(removed)
  {
    assert removed[0..] == removed;
    AttachParts(N1, p, next, node.(parent := Some(p)));
    assert PartOf(N', N'.Keys, next) == [];
  }

  /** Scenario 2 of `remove_node`, and scenario 3 applied to the parent: unregister
      `h` with its subtree and register a waste leaf of h's size in its place. */
  method ConvertIn(N: Nodes, s: seq<Handle>, next: Handle, h: Handle, ghost top: Handle)
    returns (N': Nodes, s': seq<Handle>, removed: seq<nat>)
    requires Rooted(N, top) && (forall x :: x in N ==> x < next)
    requires IndexShape(N, s) && CompleteFor(N, s, {})
    requires h in N && N[h].parent.Some?
    ensures Rooted(N', top) && (forall x :: x in N' ==> x < next + 1)
    ensures IndexShape(N', s') && CompleteFor(N', s', {})
    ensures var p := N[h].parent.value;
      Replaced(N, N', Subtree(N, h), p, next,
               NewNode(N[h].level, N[h].width, N[h].height, N[h].nextCutOrient, None).(parent := Some(p)))
    ensures multiset(removed) == multiset(PartIdsBelow(N, Subtree(N, h), next))
    ensures multiset(PartIdsBelow(N, N.Keys, next)) ==
            multiset(PartIdsBelow(N', N'.Keys, next + 1)) + multiset(removed)
  {
    var p := N[h].parent.value;
    var replacement := NewNode(N[h].level, N[h].width, N[h].height, N[h].nextCutOrient, None);
    N', s', removed := ReplaceIn(N, s, next, h, replacement, top, {});
    SubtreeClosed(N, h);
    PruneAttach(N, Subtree(N, h), p, next, replacement.(parent := Some(p)));
  }

  /** The first step of a merge: unregister the empty sibling `e` of `h`. It holds
      no part, so no id is removed, and the subtree of `h` is untouched. */
  method DropEmptySibling(N: Nodes, s: seq<Handle>, next: Handle, h: Handle, e: Handle, ghost top: Handle)
    returns (N': Nodes, s': seq<Handle>, removed: seq<nat>)
    requires Rooted(N, top) && (forall x :: x in N ==> x < next)
    requires IndexShape(N, s) && CompleteFor(N, s, {})
    requires h in N && N[h].parent.Some? && !N[h].IsEmpty()
    requires N[h].parent.value in N && e in N[N[h].parent.value].children && N[e].IsEmpty()
    ensures N' == Prune(N, {e}) && s' == FilterOut(s, {e}) && removed == []
    ensures Rooted(N', top) && (forall x :: x in N' ==> x < next)
    ensures IndexShape(N', s') && CompleteFor(N', s', {N[h].parent.value})
    ensures h in N' && N'[h].parent == N[h].parent && Subtree(N', h) == Subtree(N, h)
    ensures e !in Subtree(N, h) && N[h].parent.value !in Subtree(N, h)
    ensures multiset(PartIdsBelow(N, N.Keys, next)) == multiset(PartIdsBelow(N', N'.Keys, next))
  {
    var p := N[h].parent.value;
    ParentOutside(N, h);
    assert e in N && N[e].parent == Some(p);
    LeafSubtree(N, e);
    SiblingsDisjoint(N, h, e);
    UnregisterPreserves(N, top, next, s, {}, e);
    var r;
    N', s', r := UnregisterSubtree(N, s, e, Some([]), top, next, {});
    PartsSingle(N, e, next);
    assert r.value[0..] == r.value;
    removed := r.value;
    assert forall y :: y in N' ==> N'[y].parent == N[y].parent;
    SubtreeFrame(N, N', h);
    assert {} + {p} == {p};
  }

  /** Scenario 1 of `remove_node`: unregister the empty sibling `e`, then `h` with
      its subtree, and register the merged waste leaf below their parent. */
  method MergeIn(N: Nodes, s: seq<Handle>, next: Handle, h: Handle, e: Handle, ghost top: Handle)
    returns (N': Nodes, s': seq<Handle>, removed: seq<nat>)
    requires Rooted(N, top) && (forall x :: x in N ==> x < next)
    requires IndexShape(N, s) && CompleteFor(N, s, {})
    requires h in N && N[h].parent.Some? && !N[h].IsEmpty()
    requires N[h].parent.value in N && e in N[N[h].parent.value].children && N[e].IsEmpty()
    ensures Rooted(N', top) && (forall x :: x in N' ==> x < next + 1)
    ensures IndexShape(N', s') && CompleteFor(N', s', {})
    ensures var p := N[h].parent.value;
      Replaced(N, N', Subtree(N, h) + {e}, p, next, Merged(N[p].nextCutOrient, N[h], N[e]).(parent := Some(p)))
    ensures multiset(removed) == multiset(PartIdsBelow(N, Subtree(N, h) + {e}, next))
    ensures multiset(PartIdsBelow(N, N.Keys, next)) ==
            multiset(PartIdsBelow(N', N'.Keys, next + 1)) + multiset(removed)
  {
    var p := N[h].parent.value;
    var merged := Merged(N[p].nextCutOrient, N[h], N[e]);
    assert ParentLink(N, h);
    var N1, s1, r1 := DropEmptySibling(N, s, next, h, e, top);
    N', s', removed := ReplaceIn(N1, s1, next, h, merged, top, {p});
    MergeParts(N, N1, Subtree(N, h), e, next, removed);
    MergeReplaced(N, N1, next, h, e, merged.(parent := Some(p)));
  }

  /** Unregistering `e` and then the subtree of its sibling `h`, and attaching the
      merged leaf, replaces both by the leaf below their parent. */
  lemma MergeReplaced(N: Nodes, N1: Nodes, next: Handle, h: Handle, e: Handle, node: Node)
    requires Linked(N) && (forall x :: x in N ==> x < next)
    requires h in N && N[h].parent.Some? && N[h].parent.value in N
    requires e in N && N[e].parent == N[h].parent && e !in Subtree(N, h)
    requires N[h].parent.value !in Subtree(N, h) + {e}
    requires N1 == Prune(N, {e}) && h in N1 && Subtree(N1, h) == Subtree(N, h)
    ensures var p := N[h].parent.value;
      Replaced(N, Attach(Prune(N1, Subtree(N1, h)), p, next, node), Subtree(N, h) + {e}, p, next, node)
  {
    var p := N[h].parent.value;
    var S := Subtree(N, h);
    PruneTwice(N, {e}, S);
    assert {e} + S == S + {e};
    SubtreeClosed(N, h);
    FrontierAdd(N, S, {p}, e);
    PruneAttach(N, S + {e}, p, next, node);
  }

  /** The part ids of a merge: the empty leaf `e` holds none, so the ids removed
      are those below `h`. */
  lemma MergeParts(N: Nodes, N1: Nodes, S: set<Handle>, e: Handle, next: Handle, removed: seq<nat>)
    requires N1 == Prune(N, {e}) && S !! {e} && e < next && e in N && N[e].part.None?
    requires multiset(removed) == multiset(PartIdsBelow(N1, S, next))
    ensures multiset(removed) == multiset(PartIdsBelow(N, S + {e}, next))
  {
    PartsSingle(N, e, next);
    PruneKeepsParts(N, {e}, S, next);
    PartsSplit(N, S, {e}, next);
  }

  /** The outcome of an insertion into `N`: the original node and its subtree are
      gone, the replacement forest occupies the handles `next` to `next'` in
      preorder, its roots are appended to the children of the original's parent,
      and the part ids are those of `N` less the subtree's plus the forest's. */
  ghost predicate InsertedBy(N: Nodes, N': Nodes, next: Handle, next': Handle, bp: InsertionBlueprint,
                             catalog: map<nat, PartType>)
    requires Linked(N) && bp.original in N && N[bp.original].parent.Some?
  {
    var S := Subtree(N, bp.original);
    var p := N[bp.original].parent.value;
    && next' == next + |Forest(bp.replacements)|
    && Grown(Prune(N, S), N', p, next, next', Roots(bp.replacements, next))
    && Built(N', next, Forest(bp.replacements), catalog)
    && multiset(PartIdsBelow(N, N.Keys, next)) + multiset(BlueprintParts(Forest(bp.replacements))) ==
       multiset(PartIdsBelow(N', N'.Keys, next')) + multiset(PartIdsBelow(N, S, next))
  }

  /** `implement_insertion_blueprint` on the arena and the index: unregister the
      original node with its subtree, then build the replacement trees, left to
      right, below the original's parent. */
  method InsertIn(N: Nodes, s: seq<Handle>, next: Handle, bp: InsertionBlueprint,
                  catalog: map<nat, PartType>, ghost top: Handle)
    returns (N': Nodes, s': seq<Handle>, next': Handle, created: seq<Handle>)
    requires Rooted(N, top) && (forall x :: x in N ==> x < next)
    requires IndexShape(N, s) && CompleteFor(N, s, {})
    requires bp.original in N && N[bp.original].parent.Some?
    requires forall i :: 0 <= i < |bp.replacements| ==>
      WellFormed(bp.replacements[i]) && PartsKnown(bp.replacements[i], catalog)
    requires CatalogConsistent(catalog)
    ensures InsertedBy(N, N', next, next', bp, catalog)
    ensures Rooted(N', top) && (forall x :: x in N' ==> x < next')
    ensures IndexShape(N', s')
    ensures CompleteFor(N', s', if bp.replacements == [] then {N[bp.original].parent.value} else {})
    ensures created == HandleRange(next, next')
  {
    var o := bp.original;
    var p := N[o].parent.value;
    ParentOutside(N, o);
    assert ParentLink(N, o);
    UnregisterPreserves(N, top, next, s, {}, o);
    var N1, s1, _ := UnregisterSubtree(N, s, o, None, top, next, {});
    N', s', next', created := GrowReplacements(N, N1, s1, next, p, bp, catalog, top);
  }

  /** The second half of `implement_insertion_blueprint`: the original's subtree is
      already gone from `N`, leaving `N1` and `s1`; the replacement trees are built
      below the original's parent. */
  method GrowReplacements(ghost N: Nodes, N1: Nodes, s1: seq<Handle>, next: Handle, p: Handle,
                          bp: InsertionBlueprint, catalog: map<nat, PartType>, ghost top: Handle)
    returns (N': Nodes, s': seq<Handle>, next': Handle, created: seq<Handle>)
    requires Linked(N) && bp.original in N && N[bp.original].parent.Some?
    requires p == N[bp.original].parent.value
    requires N1 == Prune(N, Subtree(N, bp.original))
    requires Rooted(N1, top) && (forall x :: x in N1 ==> x < next)
    requires IndexShape(N1, s1) && CompleteFor(N1, s1, {p})
    requires p in N1 && p !in s1
    requires multiset(PartIdsBelow(N, N.Keys, next)) ==
             multiset(PartIdsBelow(N1, N1.Keys, next)) + multiset(PartIdsBelow(N, Subtree(N, bp.original), next))
    requires forall i :: 0 <= i < |bp.replacements| ==>
      WellFormed(bp.replacements[i]) && PartsKnown(bp.replacements[i], catalog)
    requires CatalogConsistent(catalog)
    ensures InsertedBy(N, N', next, next', bp, catalog)
    ensures Rooted(N', top) && (forall x :: x in N' ==> x < next')
    ensures IndexShape(N', s')
    ensures CompleteFor(N', s', if bp.replacements == [] then {N[bp.original].parent.value} else {})
    ensures created == HandleRange(next, next')
  {
    N', s', next', created := BuildForest(N1, s1, next, p, bp.replacements, catalog, top, {p});
    ForestInserted(N, N1, s1, N', s', next, next', p, bp, catalog, top);
  }

  /** Once the whole forest is built below the original's parent, the arena is
      related to the one before the insertion as `InsertedBy` states. */
  lemma ForestInserted(N: Nodes, N1: Nodes, s1: seq<Handle>, N': Nodes, s': seq<Handle>, next: Handle,
                       next': Handle, p: Handle, bp: InsertionBlueprint, catalog: map<nat, PartType>, top: Handle)
    requires Linked(N) && bp.original in N && N[bp.original].parent.Some?
    requires p == N[bp.original].parent.value
    requires N1 == Prune(N, Subtree(N, bp.original))
    requires multiset(PartIdsBelow(N, N.Keys, next)) ==
             multiset(PartIdsBelow(N1, N1.Keys, next)) + multiset(PartIdsBelow(N, Subtree(N, bp.original), next))
    requires CatalogConsistent(catalog)
    requires ForestState(N1, s1, N', s', next', p, next, bp.replacements, catalog, |bp.replacements|, {p}, top)
    ensures InsertedBy(N, N', next, next', bp, catalog)
    ensures Rooted(N', top) && (forall x :: x in N' ==> x < next')
    ensures IndexShape(N', s')
    ensures CompleteFor(N', s', if bp.replacements == [] then {p} else {})
  {
    assert bp.replacements[..|bp.replacements|] == bp.replacements;
    ForestParts(N, N1, N', next, next', p, bp, catalog);
    assert {p} - {p} == {};
  }

  /** The part ids after the insertion: those of `N` without the original's subtree,
      followed by those the replacement forest names. */
  lemma ForestParts(N: Nodes, N1: Nodes, N': Nodes, next: Handle, next': Handle, p: Handle,
                    bp: InsertionBlueprint, catalog: map<nat, PartType>)
    requires Linked(N) && bp.original in N
    requires (forall x :: x in N1 ==> x < next) && CatalogConsistent(catalog)
    requires next' == next + |Forest(bp.replacements)|
    requires Grown(N1, N', p, next, next', Roots(bp.replacements, next))
    requires Built(N', next, Forest(bp.replacements), catalog)
    requires multiset(PartIdsBelow(N, N.Keys, next)) ==
             multiset(PartIdsBelow(N1, N1.Keys, next)) + multiset(PartIdsBelow(N, Subtree(N, bp.original), next))
    ensures multiset(PartIdsBelow(N, N.Keys, next)) + multiset(BlueprintParts(Forest(bp.replacements))) ==
            multiset(PartIdsBelow(N', N'.Keys, next')) + multiset(PartIdsBelow(N, Subtree(N, bp.original), next))
  {
    BuiltParts(N1, N', p, next, next', Roots(bp.replacements, next), Forest(bp.replacements), catalog);
  }

  /** Every replacement root hangs below the original's parent, one level deeper. */
  lemma InsertedLevels(N: Nodes, N': Nodes, next: Handle, next': Handle, bp: InsertionBlueprint,
                       catalog: map<nat, PartType>)
    requires Linked(N) && bp.original in N && N[bp.original].parent.Some?
    requires InsertedBy(N, N', next, next', bp, catalog) && Linked(N')
    ensures var p := N[bp.original].parent.value; var R := Roots(bp.replacements, next);
      && p in N' && N'[p].level == N[p].level
      && forall i :: 0 <= i < |R| ==> R[i] in N' && N'[R[i]].parent == Some(p) && N'[R[i]].level == N[p].level + 1
  {
    var p := N[bp.original].parent.value;
    GrownLevels(Prune(N, Subtree(N, bp.original)), N', p, next, next', Roots(bp.replacements, next));
  }

  /** The outcome of removing `h` from `N`: the tree is `N` with the handles of
      `PlanFor(N, h, keep)` gone and its waste leaf attached under the fresh handle
      `next`; `removed` lists the ids of the parts that went, and every part id of
      `N` is either kept or removed. */
  ghost predicate RemovedBy(N: Nodes, N': Nodes, next: Handle, h: Handle, keep: nat, removed: seq<nat>)
    requires Linked(N) && h in N && N[h].parent.Some?
  {
    var plan := PlanFor(N, h, keep);
    && Replaced(N, N', plan.gone, plan.attachTo, next, plan.node)
    && multiset(removed) == multiset(PartIdsBelow(N, plan.gone, next))
    && multiset(PartIdsBelow(N, N.Keys, next)) ==
       multiset(PartIdsBelow(N', N'.Keys, next + 1)) + multiset(removed)
  }

  /** `remove_node` on the arena and the index: the non-empty node `h` goes, as
      `PlanFor(N, h, keep)` decides, and the ids of the parts it held are returned.
      The source's guard is `keep == 1`; `keep == 2` is the guard it evidently intends. */
  method RemoveIn(N: Nodes, s: seq<Handle>, next: Handle, h: Handle, keep: nat, ghost top: Handle)
    returns (N': Nodes, s': seq<Handle>, removed: seq<nat>)
    requires Rooted(N, top) && (forall x :: x in N ==> x < next)
    requires IndexShape(N, s) && CompleteFor(N, s, {})
    requires h in N && N[h].parent.Some? && !N[h].IsEmpty()
    ensures Rooted(N', top) && (forall x :: x in N' ==> x < next + 1)
    ensures IndexShape(N', s') && CompleteFor(N', s', {})
    ensures RemovedBy(N, N', next, h, keep, removed)
  {
    var p := N[h].parent.value;
    assert ParentLink(N, h);
    var cs := N[p].children;
    match FirstEmpty(N, cs)
    case None =>
      N', s', removed := ConvertIn(N, s, next, h, top);
    case Some(e) =>
      if |cs| > keep || N[p].parent.None? {
        N', s', removed := MergeIn(N, s, next, h, e, top);
      } else {
        N', s', removed := ConvertIn(N, s, next, p, top);
      }
  }

  /** Two different handles in one child list make it at least two long. */
  lemma TwoMembers(cs: seq<Handle>, a: Handle, b: Handle)
    requires a in cs && b in cs && a != b
    ensures |cs| >= 2
  {
    var i :| 0 <= i < |cs| && cs[i] == a;
    var j :| 0 <= j < |cs| && cs[j] == b;
    assert i != j;
  }

  /** With the guard as written (`children().len() > 1`), the parent of a non-empty
      node with an empty sibling always keeps more than one child, so the collapse
      branch never runs: the new leaf always goes below the parent. */
  lemma AsWrittenNeverCollapses(N: Nodes, h: Handle)
    requires Linked(N) && h in N && N[h].parent.Some? && !N[h].IsEmpty()
    ensures PlanFor(N, h, 1).attachTo == N[h].parent.value
  {
    assert ParentLink(N, h);
    var cs := N[N[h].parent.value].children;
    match FirstEmpty(N, cs)
    case None =>
    case Some(e) => TwoMembers(cs, h, e);
  }

  /** The situation of the collapse: `h` holds something and its only sibling is the
      empty leaf `e`, below a parent that is not the root. */
  ghost predicate LoneEmptySibling(N: Nodes, h: Handle, e: Handle)
    requires Linked(N) && h in N && N[h].parent.Some?
  {
    assert ParentLink(N, h);
    var p := N[h].parent.value;
    && !N[h].IsEmpty() && N[p].parent.Some?
    && |N[p].children| == 2 && e in N[p].children && N[e].IsEmpty()
  }

  lemma LoneSiblingFirst(N: Nodes, h: Handle, e: Handle)
    requires Linked(N) && h in N && N[h].parent.Some? && LoneEmptySibling(N, h, e)
    ensures N[h].parent.value in N && var cs := N[N[h].parent.value].children;
      FirstEmpty(N, cs) == Some(e) && (cs == [h, e] || cs == [e, h])
  {
    assert ParentLink(N, h);
    var cs := N[N[h].parent.value].children;
    var i :| 0 <= i < 2 && cs[i] == h;
    assert e != h;
    assert cs == [cs[0], cs[1]];
  }

  /** The guard as written, in the collapse situation: the merged leaf becomes the
      only child of a parent that is not the root, which leaves a branch with a
      single child in the tree. */
  lemma AsWrittenLeavesOnlyChild(N: Nodes, N': Nodes, h: Handle, e: Handle, next: Handle, removed: seq<nat>)
    requires Linked(N) && h in N && N[h].parent.Some? && LoneEmptySibling(N, h, e)
    requires RemovedBy(N, N', next, h, 1, removed)
    ensures var p := N[h].parent.value; p in N' && N'[p].parent.Some? && N'[p].children == [next]
  {
    assert ParentLink(N, h);
    var p := N[h].parent.value;
    var cs := N[p].children;
    LoneSiblingFirst(N, h, e);
    ParentOutside(N, h);
    var G := Subtree(N, h) + {e};
    assert PlanFor(N, h, 1).gone == G;
    assert FilterOut(cs, G) == [] by {
      assert cs[0] in G && cs[1] in G;
      assert cs[1..] == [cs[1]];
      assert cs[1..][1..] == [];
    }
  }

  /** The guard intended (`> 2`), in the same situation: the parent itself goes and
      a waste leaf of its full size is attached to the grandparent. */
  lemma CorrectedCollapses(N: Nodes, N': Nodes, h: Handle, e: Handle, next: Handle, removed: seq<nat>)
    requires Linked(N) && h in N && N[h].parent.Some? && LoneEmptySibling(N, h, e)
    requires next !in N
    requires RemovedBy(N, N', next, h, 2, removed)
    ensures var p := N[h].parent.value;
      && p in N && N[p].parent.Some? && N[p].parent.value in N
      && p !in N' && h !in N' && e !in N'
      && N'[N[p].parent.value].children == FilterOut(N[N[p].parent.value].children, Subtree(N, p)) + [next]
      && N'[next].IsEmpty() && N'[next].width == N[p].width && N'[next].height == N[p].height
  {
    assert ParentLink(N, h);
    var p := N[h].parent.value;
    LoneSiblingFirst(N, h, e);
    assert ParentLink(N, p);
    assert h in Subtree(N, p) by { assert Below(N, h, p); }
    assert e in Subtree(N, p) by { assert N[e].parent == Some(p); assert ParentLink(N, e); assert Below(N, e, p); }
    assert p in Subtree(N, p) by { assert Below(N, p, p); }
  }

  class Layout {
    const id: nat
    const sheet: SheetType
    /** The cost one node contributes to the layout's cost (`Node::calculate_cost`). */
    const nodeCost: Node -> int
    const topNode: Handle
    var nodes: Nodes
    /** The next fresh handle; every handle ever used is below it. */
    var nextHandle: Handle
    var cachedCost: Option<int>
    var cachedUsage: Option<Fraction>
    var sortedEmptyNodes: seq<Handle>

    /** The tree shape: links agree, the root has no parent and every other node has one. */
    ghost predicate Structure()
      reads this`nodes, this`nextHandle
    {
      && Rooted(nodes, topNode)
      && (forall x :: x in nodes ==> x < nextHandle)
    }

    /** The empty-node index lists distinct waste leaves by descending area. */
    ghost predicate IndexSorted()
      reads this`nodes, this`sortedEmptyNodes
    {
      IndexShape(nodes, sortedEmptyNodes)
    }

    /** Every waste leaf outside `X` is in the index. */
    ghost predicate CompleteExcept(X: set<Handle>)
      reads this`nodes, this`sortedEmptyNodes
    {
      CompleteFor(nodes, sortedEmptyNodes, X)
    }

    /** The sheet's material cost plus the cost of every node. */
    function CalculateCost(): int
      reads this`nodes, this`nextHandle
    {
      sheet.value + CostBelow(nodes, nodeCost, nextHandle)
    }

    /** The area covered by parts over the sheet's area. */
    function CalculateUsage(): Fraction
      reads this`nodes, this`nextHandle
    {
      Fraction(UsedAreaBelow(nodes, nextHandle), sheet.Area())
    }

    /** A cached cost or usage is the one a recomputation would give. */
    ghost predicate CachesCorrect()
      reads this`nodes, this`nextHandle, this`cachedCost, this`cachedUsage
    {
      && (cachedCost.Some? ==> cachedCost.value == CalculateCost())
      && (cachedUsage.Some? ==> cachedUsage.value == CalculateUsage())
    }

    ghost predicate Valid()
      reads this
    {
      Structure() && IndexSorted() && CompleteExcept({}) && CachesCorrect()
    }

    /** The root spans the sheet; a placeholder waste leaf of the same size,
        cut the other way, is its only child. */
    constructor (id: nat, sheet: SheetType, firstCutOrientation: Orientation, nodeCost: Node -> int)
      ensures Valid()
      ensures this.id == id && this.sheet == sheet && this.nodeCost == nodeCost
      ensures topNode == 0 && nextHandle == topNode + 2
      ensures cachedCost == None && cachedUsage == None
      ensures nodes.Keys == {topNode, topNode + 1}
      ensures nodes[topNode] == Node(0, sheet.width, sheet.height, firstCutOrientation, None, None, [topNode + 1])
      ensures nodes[topNode + 1] == Node(1, sheet.width, sheet.height, firstCutOrientation.Rotate(), None, Some(topNode), [])
      ensures sortedEmptyNodes == [topNode + 1]
      ensures CalculateUsage().used == 0
    {
      var N, s := SeedArena(sheet.width, sheet.height, firstCutOrientation);
      this.id := id;
      this.sheet := sheet;
      this.nodeCost := nodeCost;
      topNode, nextHandle := 0, 2;
      cachedCost, cachedUsage := None, None;
      nodes, sortedEmptyNodes := N, s;
    }

    /** The ids of all parts placed in the layout. */
    function IncludedParts(): seq<nat>
      reads this`nodes, this`nextHandle
    {
      PartIdsBelow(nodes, nodes.Keys, nextHandle)
    }

    /** `get_included_parts` lists the id of a part exactly when some node holds that part. */
    lemma IncludedPartsMembership(id: nat)
      requires Structure()
      ensures id in IncludedParts() <==>
        exists x :: x in nodes && nodes[x].part.Some? && nodes[x].part.value.id == id
    {
      PartIdsMembership(nodes, nodes.Keys, nextHandle, id);
    }

    /** `register_node`: store `node` under a fresh handle as the last child of
        `parent`, and index it when the caller says it is a waste leaf. */
    method Register(node: Node, parent: Handle, isEmpty: bool, ghost X: set<Handle>) returns (h: Handle)
      requires Structure() && IndexSorted() && CompleteExcept(X)
      requires parent in nodes && parent !in sortedEmptyNodes
      requires node.parent.None? && node.children == []
      requires node.level == nodes[parent].level + 1
      requires isEmpty ==> node.IsEmpty()
      modifies this`nodes, this`nextHandle, this`sortedEmptyNodes, this`cachedCost, this`cachedUsage
      ensures h == old(nextHandle) && nextHandle == h + 1 && h !in old(nodes)
      ensures nodes == Attach(old(nodes), parent, h, node.(parent := Some(parent)))
      ensures isEmpty ==> h in sortedEmptyNodes && FilterOut(sortedEmptyNodes, {h}) == old(sortedEmptyNodes)
      ensures !isEmpty ==> sortedEmptyNodes == old(sortedEmptyNodes)
      ensures forall x :: x in sortedEmptyNodes ==> x in old(sortedEmptyNodes) || x == h
      ensures Structure() && IndexSorted()
      ensures CompleteExcept(if isEmpty then X - {parent} else X - {parent} + {h})
      ensures cachedCost == None && cachedUsage == None
    {
      h := nextHandle;
      nodes, sortedEmptyNodes := RegisterIn(nodes, sortedEmptyNodes, h, node, parent, isEmpty, topNode, X);
      // invalidate_caches
      nextHandle, cachedCost, cachedUsage := h + 1, None, None;
    }

    /** `implement_node_blueprint`: create the node `b` describes as the last child
        of `parent`, then its children's subtrees, left to right; `created` receives
        every new handle in creation order. */
    method ImplementNode(parent: Handle, b: NodeBlueprint, catalog: map<nat, PartType>,
                         created: seq<Handle>, ghost X: set<Handle>) returns (created': seq<Handle>)
      requires Structure() && IndexSorted() && CompleteExcept(X)
      requires parent in nodes && parent !in sortedEmptyNodes
      requires WellFormed(b) && PartsKnown(b, catalog) && CatalogConsistent(catalog)
      modifies this`nodes, this`nextHandle, this`sortedEmptyNodes, this`cachedCost, this`cachedUsage
      ensures cachedCost == None && cachedUsage == None
      ensures nextHandle == old(nextHandle) + |Preorder(b)|
      ensures created' == created + HandleRange(old(nextHandle), nextHandle)
      ensures Grown(old(nodes), nodes, parent, old(nextHandle), nextHandle, [old(nextHandle)])
      ensures Built(nodes, old(nextHandle), Preorder(b), catalog)
      ensures forall x :: x in sortedEmptyNodes ==> x in old(sortedEmptyNodes) || x >= old(nextHandle)
      ensures PartIdsBelow(nodes, nodes.Keys, nextHandle) ==
              PartIdsBelow(old(nodes), old(nodes).Keys, old(nextHandle)) + BlueprintParts(Preorder(b))
      ensures Structure() && IndexSorted() && CompleteExcept(X - {parent})
    {
      cachedCost, cachedUsage := None, None;
      nodes, sortedEmptyNodes, nextHandle, created' :=
        ImplementNodeIn(nodes, sortedEmptyNodes, nextHandle, parent, b, catalog, created, topNode, X);
    }

    /** `unregister_node`: remove `h` with its whole subtree from the arena and the
        index; the ids of the parts removed are appended to `acc` when it is present. */
    method Unregister(h: Handle, acc: Option<seq<nat>>, ghost X: set<Handle>) returns (r: Option<seq<nat>>)
      requires Structure() && IndexSorted() && CompleteExcept(X)
      requires h in nodes && nodes[h].parent.Some? && X !! Subtree(nodes, h)
      modifies this`nodes, this`sortedEmptyNodes, this`cachedCost, this`cachedUsage
      ensures cachedCost == None && cachedUsage == None
      ensures UnregisteredBy(old(nodes), nodes, old(sortedEmptyNodes), sortedEmptyNodes, h, acc, r, nextHandle)
      ensures Structure() && IndexSorted() && CompleteExcept(X + {old(nodes)[h].parent.value})
    {
      cachedCost, cachedUsage := None, None;
      nodes, sortedEmptyNodes, r := UnregisterIn(nodes, sortedEmptyNodes, h, acc, topNode, nextHandle, X);
    }

    /** `implement_insertion_blueprint`: the original node goes with its subtree and
        the replacement trees are built, left to right, below its parent; the update
        record gains the original as removed and every created handle as new. */
    method ImplementInsertion(bp: InsertionBlueprint, catalog: map<nat, PartType>, updates: Updates)
      returns (updates': Updates)
      requires Valid()
      requires bp.original in nodes && nodes[bp.original].parent.Some?
      requires forall i :: 0 <= i < |bp.replacements| ==>
        WellFormed(bp.replacements[i]) && PartsKnown(bp.replacements[i], catalog)
      requires CatalogConsistent(catalog)
      modifies this`nodes, this`nextHandle, this`sortedEmptyNodes, this`cachedCost, this`cachedUsage
      ensures cachedCost == None && cachedUsage == None
      ensures InsertedBy(old(nodes), nodes, old(nextHandle), nextHandle, bp, catalog)
      ensures updates' == Updates(updates.removed + [bp.original], updates.added + HandleRange(old(nextHandle), nextHandle))
      ensures Structure() && IndexSorted()
      ensures CompleteExcept(if bp.replacements == [] then {old(nodes)[bp.original].parent.value} else {})
    {
      cachedCost, cachedUsage := None, None;
      var created;
      nodes, sortedEmptyNodes, nextHandle, created := InsertIn(nodes, sortedEmptyNodes, nextHandle, bp, catalog, topNode);
      updates' := Updates(updates.removed + [bp.original], updates.added + created);
    }

    /** `remove_node` for a node that holds a part or is cut further, with the guard
        as written (`len() > 1`): the part ids it removes are returned, and the tree
        changes as `PlanFor(_, h, 1)` decides. */
    method RemoveNode(h: Handle) returns (removed: seq<nat>)
      requires Structure() && IndexSorted() && CompleteExcept({})
      requires h in nodes && nodes[h].parent.Some? && !nodes[h].IsEmpty()
      modifies this`nodes, this`nextHandle, this`sortedEmptyNodes, this`cachedCost, this`cachedUsage
      ensures cachedCost == None && cachedUsage == None
      ensures nextHandle == old(nextHandle) + 1
      ensures RemovedBy(old(nodes), nodes, old(nextHandle), h, 1, removed)
      ensures Structure() && IndexSorted() && CompleteExcept({})
      ensures Valid()
    {
      cachedCost, cachedUsage := None, None;
      nodes, sortedEmptyNodes, removed := RemoveIn(nodes, sortedEmptyNodes, nextHandle, h, 1, topNode);
      nextHandle := nextHandle + 1;
    }

    /** `remove_node` with the intended guard (`len() > 2`): a branch left with the
        target and one waste leaf only is collapsed, as `PlanFor(_, h, 2)` decides. */
    method RemoveNodeIntended(h: Handle) returns (removed: seq<nat>)
      requires Structure() && IndexSorted() && CompleteExcept({})
      requires h in nodes && nodes[h].parent.Some? && !nodes[h].IsEmpty()
      modifies this`nodes, this`nextHandle, this`sortedEmptyNodes, this`cachedCost, this`cachedUsage
      ensures cachedCost == None && cachedUsage == None
      ensures nextHandle == old(nextHandle) + 1
      ensures RemovedBy(old(nodes), nodes, old(nextHandle), h, 2, removed)
      ensures Structure() && IndexSorted() && CompleteExcept({})
      ensures Valid()
    {
      cachedCost, cachedUsage := None, None;
      nodes, sortedEmptyNodes, removed := RemoveIn(nodes, sortedEmptyNodes, nextHandle, h, 2, topNode);
      nextHandle := nextHandle + 1;
    }

    /** `invalidate_caches`. */
    method InvalidateCaches()
      modifies this`cachedCost, this`cachedUsage
      ensures cachedCost == None && cachedUsage == None
    {
      cachedCost, cachedUsage := None, None;
    }

    /** `cost`: the cached cost unless a recomputation is forced or nothing is
        cached; a recomputed cost is cached. */
    method Cost(forceRecalc: bool) returns (c: int)
      requires CachesCorrect()
      modifies this`cachedCost
      ensures c == CalculateCost()
      ensures cachedCost == Some(c) && CachesCorrect()
      ensures !forceRecalc && old(cachedCost).Some? ==> c == old(cachedCost).value
    {
      if cachedCost.Some? && !forceRecalc {
        c := cachedCost.value;
      } else {
        c := CalculateCost();
        cachedCost := Some(c);
      }
    }

    /** `cost_immut`: the same answer as `cost`, without caching. */
    function CostImmut(forceRecalc: bool): (c: int)
      reads this`nodes, this`nextHandle, this`cachedCost, this`cachedUsage
      requires CachesCorrect()
      ensures c == CalculateCost()
    {
      if cachedCost.Some? && !forceRecalc then cachedCost.value else CalculateCost()
    }

    /** `usage`: the cached usage unless a recomputation is forced or nothing is
        cached; a recomputed usage is cached. */
    method Usage(forceRecalc: bool) returns (u: Fraction)
      requires CachesCorrect()
      modifies this`cachedUsage
      ensures u == CalculateUsage()
      ensures cachedUsage == Some(u) && CachesCorrect()
      ensures !forceRecalc && old(cachedUsage).Some? ==> u == old(cachedUsage).value
    {
      if cachedUsage.Some? && !forceRecalc {
        u := cachedUsage.value;
      } else {
        u := CalculateUsage();
        cachedUsage := Some(u);
      }
    }

    /** `usage_immut`: the same answer as `usage`, without caching. */
    function UsageImmut(forceRecalc: bool): (u: Fraction)
      reads this`nodes, this`nextHandle, this`cachedCost, this`cachedUsage
      requires CachesCorrect()
      ensures u == CalculateUsage()
    {
      if cachedUsage.Some? && !forceRecalc then cachedUsage.value else CalculateUsage()
    }

    /** `is_empty`: every node of the arena is a waste leaf. A layout holding a
        part never is; the converse fails, as the root is a branch. */
    function IsEmpty(): (r: bool)
      reads this`nodes, this`nextHandle
      ensures r ==> IncludedParts() == []
    {
      var r := forall x :: x in nodes ==> nodes[x].IsEmpty();
      if r then PartsAbsent(nodes, nodes.Keys, nextHandle); r else r
    }

    /** `sorted_empty_nodes`: in a valid layout, exactly the waste leaves, each once,
        by descending area. */
    function SortedEmptyNodes(): (r: seq<Handle>)
      reads this
      requires Valid()
      ensures forall x :: x in r <==> x in nodes && nodes[x].IsEmpty()
      ensures forall i, j :: 0 <= i < j < |r| ==> r[i] != r[j] && nodes[r[i]].Area() >= nodes[r[j]].Area()
    {
      sortedEmptyNodes
    }

    /** `get_removable_nodes`: every node that holds a part or is cut further, each
        once, in handle order. */
    function RemovableNodes(): (r: seq<Handle>)
      reads this`nodes, this`nextHandle
      requires Structure()
      ensures forall x :: x in r <==> x in nodes && !nodes[x].IsEmpty()
      ensures forall i, j :: 0 <= i < j < |r| ==> r[i] < r[j]
    {
      RemovableBelow(nodes, nextHandle)
    }
  }
}
