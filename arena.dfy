/** The node arena of a layout, seen as a finite map from handles to nodes:
    the link invariant, subtrees, the two edits every tree change is made of
    (attach a fresh leaf, detach a subtree), and the folds the queries compute. */
module Arena {
  import opened Entities

  type Nodes = map<Handle, Node>

  predicate Distinct(s: seq<Handle>)
  {
    forall i, j :: 0 <= i < j < |s| ==> s[i] != s[j]
  }

  /** The parent of `x` exists, was allocated before `x`, lists `x` as a child,
      and sits exactly one level above it. */
  ghost predicate ParentLink(N: Nodes, x: Handle)
    requires x in N && N[x].parent.Some?
  {
    var p := N[x].parent.value;
    p in N && p < x && x in N[p].children && N[x].level == N[p].level + 1
  }

  /** Parent and child links agree, levels grow by one along every edge, and no
      child list repeats a handle. (Handles grow along every edge, so the links
      have no cycle.) */
  ghost predicate Linked(N: Nodes)
  {
    && (forall x {:trigger ParentLink(N, x)} :: x in N && N[x].parent.Some? ==> ParentLink(N, x))
    && (forall x, c {:trigger c in N[x].children} :: x in N && c in N[x].children ==> c in N && N[c].parent == Some(x))
    && (forall x {:trigger Distinct(N[x].children)} :: x in N ==> Distinct(N[x].children))
  }

  /** `x` is `h` or lies below `h`, following parent links. */
  ghost predicate Below(N: Nodes, x: Handle, h: Handle)
    decreases x
  {
    x in N && (x == h || (N[x].parent.Some? && N[x].parent.value < x && Below(N, N[x].parent.value, h)))
  }

  /** The handles of `h` and of all its descendants. */
  ghost function Subtree(N: Nodes, h: Handle): set<Handle>
  {
    set x | x in N && Below(N, x, h)
  }

  lemma {:induction false} BelowAtLeast(N: Nodes, x: Handle, h: Handle)
    requires Below(N, x, h)
    ensures h <= x
    decreases x
  {
    if x != h {
      BelowAtLeast(N, N[x].parent.value, h);
    }
  }

  /** Two ancestors of one node lie on one chain. */
  lemma {:induction false} BelowChain(N: Nodes, x: Handle, a: Handle, b: Handle)
    requires Below(N, x, a) && Below(N, x, b)
    ensures Below(N, a, b) || Below(N, b, a)
    decreases x
  {
    if x != a && x != b {
      BelowChain(N, N[x].parent.value, a, b);
    }
  }

  /** Whatever lies below a child of `h` lies below `h`. */
  lemma {:induction false} BelowThrough(N: Nodes, x: Handle, c: Handle, h: Handle)
    requires Linked(N) && c in N && N[c].parent == Some(h)
    requires Below(N, x, c)
    ensures Below(N, x, h)
    decreases x
  {
    if x == c {
      assert ParentLink(N, c);
      assert Below(N, h, h);
    } else {
      BelowThrough(N, N[x].parent.value, c, h);
    }
  }

  /** The subtree of a child of `h` is inside h's subtree and does not contain `h`. */
  lemma ChildSubtree(N: Nodes, h: Handle, c: Handle)
    requires Linked(N) && c in N && N[c].parent == Some(h)
    ensures Subtree(N, c) <= Subtree(N, h) - {h}
  {
    assert ParentLink(N, c);
    forall x | x in Subtree(N, c)
      ensures x in Subtree(N, h) && x != h
    {
      BelowThrough(N, x, c, h);
      BelowAtLeast(N, x, c);
    }
  }

  /** The subtrees of two different children of one node are disjoint. */
  lemma SiblingsDisjoint(N: Nodes, c: Handle, d: Handle)
    requires Linked(N) && c in N && d in N && c != d
    requires N[c].parent.Some? && N[c].parent == N[d].parent
    ensures Subtree(N, c) !! Subtree(N, d)
  {
    assert ParentLink(N, c) && ParentLink(N, d);
    var p := N[c].parent.value;
    forall x | x in Subtree(N, c) && x in Subtree(N, d)
      ensures false
    {
      BelowChain(N, x, c, d);
      if Below(N, c, d) {
        BelowAtLeast(N, p, d);
      } else {
        BelowAtLeast(N, p, c);
      }
    }
  }

  /** A proper descendant of `h` lies below one of h's children. */
  lemma {:induction false} Decompose(N: Nodes, h: Handle, x: Handle)
    requires Linked(N) && h in N && Below(N, x, h) && x != h
    ensures exists i :: 0 <= i < |N[h].children| && Below(N, x, N[h].children[i])
    decreases x
  {
    var p := N[x].parent.value;
    assert ParentLink(N, x);
    if p == h {
      var i :| 0 <= i < |N[h].children| && N[h].children[i] == x;
      assert Below(N, x, N[h].children[i]);
    } else {
      Decompose(N, h, p);
      var i :| 0 <= i < |N[h].children| && Below(N, p, N[h].children[i]);
      assert Below(N, x, N[h].children[i]);
    }
  }

  /** The subtree of a leaf is the leaf alone. */
  lemma LeafSubtree(N: Nodes, h: Handle)
    requires Linked(N) && h in N && N[h].children == []
    ensures Subtree(N, h) == {h}
  {
    assert Below(N, h, h);
    forall x | x in Subtree(N, h)
      ensures x == h
    {
      if x != h {
        Decompose(N, h, x);
      }
    }
  }

  /** Below is decided by parent links alone: a map that keeps the parent links of
      the nodes it keeps, and keeps the whole subtree of `c`, has the same subtree of `c`. */
  lemma {:induction false} BelowFrame(N: Nodes, M: Nodes, x: Handle, c: Handle)
    requires M.Keys <= N.Keys
    requires forall y :: y in M ==> M[y].parent == N[y].parent
    requires Subtree(N, c) <= M.Keys
    requires x in M
    ensures Below(M, x, c) <==> Below(N, x, c)
    decreases x
  {
    if x != c && N[x].parent.Some? && N[x].parent.value < x {
      var p := N[x].parent.value;
      if Below(N, p, c) {
        assert p in Subtree(N, c);
        BelowFrame(N, M, p, c);
      } else if p in M {
        BelowFrame(N, M, p, c);
      }
    }
  }

  lemma SubtreeFrame(N: Nodes, M: Nodes, c: Handle)
    requires M.Keys <= N.Keys
    requires forall y :: y in M ==> M[y].parent == N[y].parent
    requires Subtree(N, c) <= M.Keys
    ensures Subtree(M, c) == Subtree(N, c)
  {
    forall x | x in M
      ensures Below(M, x, c) <==> Below(N, x, c)
    {
      BelowFrame(N, M, x, c);
    }
  }

  // ---------------------------------------------------------------------------
  // Removing handles from a sequence (the empty-node index, a child list)

  /** `s` without the handles in `X`, the others in their original order. */
  function FilterOut(s: seq<Handle>, X: set<Handle>): (r: seq<Handle>)
    ensures forall x {:trigger x in r} :: x in r <==> x in s && x !in X
    ensures |r| <= |s|
  {
    if s == [] then [] else (if s[0] in X then [] else [s[0]]) + FilterOut(s[1..], X)
  }

  lemma {:induction false} FilterOutConcat(a: seq<Handle>, b: seq<Handle>, X: set<Handle>)
    ensures FilterOut(a + b, X) == FilterOut(a, X) + FilterOut(b, X)
  {
    if a != [] {
      assert (a + b)[0] == a[0];
      assert (a + b)[1..] == a[1..] + b;
      FilterOutConcat(a[1..], b, X);
    } else {
      assert a + b == b;
    }
  }

  lemma {:induction false} FilterOutNothing(s: seq<Handle>, X: set<Handle>)
    requires forall x :: x in s ==> x !in X
    ensures FilterOut(s, X) == s
  {
    if s != [] {
      FilterOutNothing(s[1..], X);
    }
  }

  lemma {:induction false} FilterOutTwice(s: seq<Handle>, A: set<Handle>, B: set<Handle>)
    ensures FilterOut(FilterOut(s, A), B) == FilterOut(s, A + B)
  {
    if s != [] {
      FilterOutTwice(s[1..], A, B);
      var head := if s[0] in A then [] else [s[0]];
      FilterOutConcat(head, FilterOut(s[1..], A), B);
      if s[0] !in A {
        assert head[1..] == [];
      }
    }
  }

  lemma {:induction false} FilterOutDistinct(s: seq<Handle>, X: set<Handle>)
    requires Distinct(s)
    ensures Distinct(FilterOut(s, X))
  {
    if s != [] {
      assert Distinct(s[1..]);
      FilterOutDistinct(s[1..], X);
      assert s[0] !in s[1..];
      assert s[0] !in FilterOut(s[1..], X);
    }
  }

  /** Removing the handle found at position k of a repetition-free sequence. */
  lemma {:induction false} FilterOutAt(s: seq<Handle>, k: nat)
    requires Distinct(s) && k < |s|
    ensures FilterOut(s, {s[k]}) == s[..k] + s[k + 1..]
  {
    if k == 0 {
      assert s[0] !in s[1..];
      FilterOutNothing(s[1..], {s[0]});
    } else {
      assert Distinct(s[1..]);
      assert s[1..][k - 1] == s[k];
      FilterOutAt(s[1..], k - 1);
      assert s[0] != s[k];
      assert s[..k] == [s[0]] + s[1..][..k - 1];
      assert s[k + 1..] == s[1..][k..];
    }
  }

  /** Inserting a new handle anywhere and filtering it out again gives back the sequence. */
  lemma {:induction false} FilterOutInserted(s: seq<Handle>, k: nat, h: Handle)
    requires k <= |s| && h !in s
    ensures FilterOut(s[..k] + [h] + s[k..], {h}) == s
  {
    var t := s[..k] + [h] + s[k..];
    if k == 0 {
      assert t == [h] + s;
      assert t[1..] == s;
      FilterOutNothing(s, {h});
    } else {
      assert t[0] == s[0];
      assert t[1..] == s[1..][..k - 1] + [h] + s[1..][k - 1..];
      FilterOutInserted(s[1..], k - 1, h);
    }
  }

  // ---------------------------------------------------------------------------
  // The two edits of the arena

  /** Store the fresh node `n` under handle `h` and append `h` to the children of `p`. */
  function Attach(N: Nodes, p: Handle, h: Handle, n: Node): Nodes
    requires p in N
  {
    N[h := n][p := N[p].(children := N[p].children + [h])]
  }

  lemma AttachLinked(N: Nodes, p: Handle, h: Handle, n: Node)
    requires Linked(N) && p in N && h !in N && p < h
    requires n.parent == Some(p) && n.children == [] && n.level == N[p].level + 1
    ensures Linked(Attach(N, p, h, n))
  {
    var A := Attach(N, p, h, n);
    forall x | x in A && A[x].parent.Some?
      ensures ParentLink(A, x)
    {
      if x != h {
        assert ParentLink(N, x);
      }
    }
    forall x, c | x in A && c in A[x].children
      ensures c in A && A[c].parent == Some(x)
    {
      if x == p && c != h {
        assert c in N[p].children;
        assert ParentLink(N, c);
      } else if x != p && x != h {
        assert ParentLink(N, c);
      }
    }
    forall x | x in A
      ensures Distinct(A[x].children)
    {
      if x == p {
        assert Distinct(N[p].children);
        assert h !in N[p].children;
      } else if x != h {
        assert Distinct(N[x].children);
      }
    }
  }

  /** Attaching a fresh node, whose handle is above every handle in use, adds its part last. */
  lemma AttachParts(N: Nodes, p: Handle, h: Handle, n: Node)
    requires p in N && forall x :: x in N ==> x < h
    ensures var A := Attach(N, p, h, n);
      PartIdsBelow(A, A.Keys, h + 1) == PartIdsBelow(N, N.Keys, h) + PartOf(A, A.Keys, h)
  {
    var A := Attach(N, p, h, n);
    forall x: Handle | x < h
      ensures PartOf(A, A.Keys, x) == PartOf(N, N.Keys, x)
    {
    }
    PartsPointwise(A, A.Keys, N, N.Keys, h);
  }

  /** A linked arena whose only parentless node is `top`, the root. */
  ghost predicate Rooted(N: Nodes, top: Handle)
  {
    && Linked(N)
    && top in N && N[top].parent.None? && N[top].level == 0
    && (forall x {:trigger x in N} :: x in N && x != top ==> N[x].parent.Some?)
  }

  lemma AttachRooted(N: Nodes, top: Handle, p: Handle, h: Handle, n: Node)
    requires Rooted(N, top) && p in N && h !in N && p < h
    requires n.parent == Some(p) && n.children == [] && n.level == N[p].level + 1
    ensures Rooted(Attach(N, p, h, n), top)
  {
    AttachLinked(N, p, h, n);
  }

  /** Drop the childless node `h` and remove it from its parent's child list. */
  function RemoveLeaf(N: Nodes, h: Handle): Nodes
    requires h in N && N[h].parent.Some? && N[h].parent.value in N
  {
    var p := N[h].parent.value;
    (N - {h})[p := N[p].(children := FilterOut(N[p].children, {h}))]
  }

  lemma RemoveLeafLinked(N: Nodes, h: Handle)
    requires Linked(N) && h in N && N[h].children == [] && N[h].parent.Some?
    ensures N[h].parent.value in N
    ensures Linked(RemoveLeaf(N, h))
  {
    assert ParentLink(N, h);
    var p := N[h].parent.value;
    var R := RemoveLeaf(N, h);
    forall x | x in R && R[x].parent.Some?
      ensures ParentLink(R, x)
    {
      assert ParentLink(N, x);
    }
    forall x, c | x in R && c in R[x].children
      ensures c in R && R[c].parent == Some(x)
    {
      assert c in N[x].children;
      assert ParentLink(N, c);
    }
    forall x | x in R
      ensures Distinct(R[x].children)
    {
      if x == p {
        FilterOutDistinct(N[p].children, {h});
      }
    }
  }

  /** The arena without the nodes of `G`; the handles of `G` are also dropped
      from the child lists of the nodes that remain. */
  ghost function Prune(N: Nodes, G: set<Handle>): Nodes
  {
    map x | x in N && x !in G :: N[x].(children := FilterOut(N[x].children, G))
  }

  /** The children of a node of `G` are in `G` as well. */
  ghost predicate DownClosed(N: Nodes, G: set<Handle>)
  {
    forall x, c {:trigger c in N[x].children} :: x in N && x in G && c in N[x].children ==> c in G
  }

  /** A node outside `G` with a child inside `G` is one of `P`. */
  ghost predicate Frontier(N: Nodes, G: set<Handle>, P: set<Handle>)
  {
    forall x, c {:trigger c in N[x].children} :: x in N && x !in G && c in N[x].children && c in G ==> x in P
  }

  /** A sequence is empty or holds its first element. */
  lemma Head(s: seq<Handle>)
    ensures s == [] || s[0] in s
  {
  }

  /** Pruning a down-closed set that keeps the root leaves a rooted arena. */
  lemma PruneRooted(N: Nodes, top: Handle, G: set<Handle>)
    requires Rooted(N, top) && top !in G && DownClosed(N, G)
    ensures Rooted(Prune(N, G), top)
  {
    var M := Prune(N, G);
    forall x | x in M && M[x].parent.Some?
      ensures ParentLink(M, x)
    {
      assert ParentLink(N, x);
      var p := N[x].parent.value;
      assert x in N[p].children;
    }
    forall x, c | x in M && c in M[x].children
      ensures c in M && M[c].parent == Some(x)
    {
      assert c in N[x].children;
    }
    forall x | x in M
      ensures Distinct(M[x].children)
    {
      assert Distinct(N[x].children);
      FilterOutDistinct(N[x].children, G);
    }
    assert top in M;
  }

  /** Dropping handles from an index keeps it well shaped. */
  lemma {:induction false} FilterOutIndex(N: Nodes, s: seq<Handle>, X: set<Handle>)
    requires IndexShape(N, s)
    ensures IndexShape(N, FilterOut(s, X))
  {
    if s != [] {
      var tail := s[1..];
      assert IndexShape(N, tail) by {
        assert forall i :: 0 <= i < |tail| ==> tail[i] == s[i + 1];
      }
      FilterOutIndex(N, tail, X);
      var t := FilterOut(tail, X);
      if s[0] in X {
        assert FilterOut(s, X) == [] + t == t;
      } else {
        assert FilterOut(s, X) == [s[0]] + t;
        assert s[0] in s && s[0] !in tail;
        assert s[0] !in t;
        forall j | 0 <= j < |t|
          ensures N[s[0]].Area() >= N[t[j]].Area()
        {
          assert t[j] in t;
        }
        PrependIndex(N, s[0], t);
      }
    }
  }

  /** A waste leaf at least as large as every entry can head the index. */
  lemma PrependIndex(N: Nodes, h: Handle, t: seq<Handle>)
    requires IndexShape(N, t) && h in N && N[h].IsEmpty() && h !in t
    requires forall j :: 0 <= j < |t| ==> N[h].Area() >= N[t[j]].Area()
    ensures IndexShape(N, [h] + t)
  {
    var r := [h] + t;
    assert forall i :: 1 <= i < |r| ==> r[i] == t[i - 1];
  }

  /** The index with the pruned handles dropped is an index of the pruned arena. */
  lemma PruneIndex(N: Nodes, s: seq<Handle>, G: set<Handle>)
    requires IndexShape(N, s)
    ensures IndexShape(Prune(N, G), FilterOut(s, G))
  {
    var t := FilterOut(s, G);
    FilterOutIndex(N, s, G);
    forall x | x in t
      ensures x in Prune(N, G) && Prune(N, G)[x] == N[x]
    {
      assert x in s;
    }
    IndexFrame(N, Prune(N, G), t);
  }

  /** After pruning, the only waste leaves missing from the index are the old
      exceptions and the nodes that lost their last child. */
  lemma PruneComplete(N: Nodes, s: seq<Handle>, X: set<Handle>, G: set<Handle>, P: set<Handle>)
    requires CompleteFor(N, s, X) && Frontier(N, G, P)
    ensures CompleteFor(Prune(N, G), FilterOut(s, G), X + P)
  {
    var M := Prune(N, G);
    forall x | x in M && M[x].IsEmpty() && x !in X + P
      ensures x in FilterOut(s, G)
    {
      Head(N[x].children);
    }
  }

  lemma PruneNothing(N: Nodes)
    ensures Prune(N, {}) == N
  {
    forall x | x in N
      ensures Prune(N, {})[x] == N[x]
    {
      FilterOutNothing(N[x].children, {});
    }
  }

  lemma PruneTwice(N: Nodes, A: set<Handle>, B: set<Handle>)
    ensures Prune(Prune(N, A), B) == Prune(N, A + B)
  {
    forall x | x in N && x !in A + B
      ensures Prune(Prune(N, A), B)[x] == Prune(N, A + B)[x]
    {
      FilterOutTwice(N[x].children, A, B);
    }
  }

  /** The part ids held by nodes the pruning keeps do not change. */
  lemma PruneKeepsParts(N: Nodes, G: set<Handle>, S: set<Handle>, hi: nat)
    requires S !! G
    ensures PartIdsBelow(Prune(N, G), S, hi) == PartIdsBelow(N, S, hi)
  {
    forall x: Handle | x < hi
      ensures PartOf(Prune(N, G), S, x) == PartOf(N, S, x)
    {
    }
    PartsPointwise(Prune(N, G), S, N, S, hi);
  }

  /** The part ids of the arena are those of the pruned arena and those of the pruned nodes. */
  lemma PruneParts(N: Nodes, G: set<Handle>, hi: nat)
    requires G <= N.Keys
    ensures var M := Prune(N, G);
      multiset(PartIdsBelow(N, N.Keys, hi)) ==
      multiset(PartIdsBelow(M, M.Keys, hi)) + multiset(PartIdsBelow(N, G, hi))
  {
    var M := Prune(N, G);
    forall x: Handle | x < hi
      ensures PartOf(M, M.Keys, x) == PartOf(N, N.Keys - G, x)
    {
    }
    PartsPointwise(M, M.Keys, N, N.Keys - G, hi);
    PartsSplit(N, N.Keys - G, G, hi);
    assert (N.Keys - G) + G == N.Keys;
  }

  /** A node whose parent is already on the frontier can join the removed set. */
  lemma FrontierAdd(N: Nodes, G: set<Handle>, P: set<Handle>, e: Handle)
    requires Linked(N) && Frontier(N, G, P)
    requires e in N && N[e].parent.Some? && N[e].parent.value in P
    ensures Frontier(N, G + {e}, P)
  {
    forall x, c | x in N && x !in G + {e} && c in N[x].children && c in G + {e}
      ensures x in P
    {
      if c == e {
        assert N[c].parent == Some(x);
      }
    }
  }

  /** `M` is `N` with the nodes of `G` gone and the fresh node `n`, which is `node`,
      appended to the children of `q`; every other node is as it was. */
  ghost predicate Replaced(N: Nodes, M: Nodes, G: set<Handle>, q: Handle, n: Handle, node: Node)
  {
    && (forall x :: x in M <==> (x in N && x !in G) || x == n)
    && q in N && q in M && n != q
    && M[q] == N[q].(children := FilterOut(N[q].children, G) + [n])
    && M[n] == node
    && (forall x :: x in M && x != q && x != n ==> M[x] == N[x])
  }

  /** Pruning a set that only `q` points into, then attaching a fresh node below `q`. */
  lemma PruneAttach(N: Nodes, G: set<Handle>, q: Handle, n: Handle, node: Node)
    requires q in N && q !in G && n !in N && Frontier(N, G, {q})
    ensures Replaced(N, Attach(Prune(N, G), q, n, node), G, q, n, node)
  {
    forall x | x in N && x !in G && x != q
      ensures Prune(N, G)[x] == N[x]
    {
      forall c | c in N[x].children
        ensures c !in G
      {
      }
      FilterOutNothing(N[x].children, G);
    }
  }

  /** A node outside `h`'s subtree: h's parent, which only has `h` inside it. */
  lemma ParentOutside(N: Nodes, h: Handle)
    requires Linked(N) && h in N && N[h].parent.Some?
    ensures N[h].parent.value in N && N[h].parent.value < h
    ensures N[h].parent.value !in Subtree(N, h) && h in Subtree(N, h)
  {
    assert ParentLink(N, h);
    var p := N[h].parent.value;
    assert Below(N, h, h);
    if p in Subtree(N, h) {
      BelowAtLeast(N, p, h);
    }
  }

  /** A subtree is closed under children, and only h's parent points into it from outside. */
  lemma SubtreeClosed(N: Nodes, h: Handle)
    requires Linked(N) && h in N && N[h].parent.Some?
    ensures DownClosed(N, Subtree(N, h))
    ensures Frontier(N, Subtree(N, h), {N[h].parent.value})
  {
    var S := Subtree(N, h);
    forall x, c | x in N && x in S && c in N[x].children
      ensures c in S
    {
      assert ParentLink(N, c);
    }
    forall x, c | x in N && x !in S && c in N[x].children && c in S
      ensures x == N[h].parent.value
    {
      assert ParentLink(N, c);
    }
  }

  /** The subtrees of the sequence of handles `cs`. */
  ghost function Subtrees(N: Nodes, cs: seq<Handle>): set<Handle>
  {
    if cs == [] then {} else Subtrees(N, cs[..|cs| - 1]) + Subtree(N, cs[|cs| - 1])
  }

  lemma {:induction false} SubtreesMember(N: Nodes, cs: seq<Handle>, j: nat)
    requires j < |cs|
    ensures Subtree(N, cs[j]) <= Subtrees(N, cs)
  {
    if j < |cs| - 1 {
      SubtreesMember(N, cs[..|cs| - 1], j);
    }
  }

  /** The subtree of a child is disjoint from the subtrees of its earlier siblings. */
  lemma {:induction false} SubtreesDisjoint(N: Nodes, h: Handle, i: nat, k: nat)
    requires Linked(N) && h in N && k <= i < |N[h].children|
    ensures Subtree(N, N[h].children[i]) !! Subtrees(N, N[h].children[..k])
  {
    var cs := N[h].children;
    if k > 0 {
      assert cs[..k][..k - 1] == cs[..k - 1];
      SubtreesDisjoint(N, h, i, k - 1);
      assert Distinct(cs);
      assert cs[i] in cs && cs[k - 1] in cs;
      assert ParentLink(N, cs[i]) && ParentLink(N, cs[k - 1]);
      SiblingsDisjoint(N, cs[i], cs[k - 1]);
    }
  }

  /** The subtrees of the first `k` children of `h`: closed under children, inside
      h's subtree without `h`, reached from outside only from `h`. */
  lemma {:induction false} ChildrenSubtrees(N: Nodes, h: Handle, k: nat)
    requires Linked(N) && h in N && k <= |N[h].children|
    ensures var G := Subtrees(N, N[h].children[..k]);
      && DownClosed(N, G) && Frontier(N, G, {h}) && G <= Subtree(N, h) - {h}
  {
    var cs := N[h].children;
    if k > 0 {
      assert cs[..k][..k - 1] == cs[..k - 1];
      ChildrenSubtrees(N, h, k - 1);
      var c := cs[k - 1];
      assert c in cs;
      assert ParentLink(N, c);
      SubtreeClosed(N, c);
      ChildSubtree(N, h, c);
    }
  }

  /** The subtrees of all children of `h` make up h's subtree without `h`. */
  lemma AllChildrenSubtrees(N: Nodes, h: Handle)
    requires Linked(N) && h in N
    ensures Subtrees(N, N[h].children) == Subtree(N, h) - {h}
  {
    var cs := N[h].children;
    assert cs[..|cs|] == cs;
    ChildrenSubtrees(N, h, |cs|);
    forall x | x in Subtree(N, h) && x != h
      ensures x in Subtrees(N, cs)
    {
      Decompose(N, h, x);
      var i :| 0 <= i < |cs| && Below(N, x, cs[i]);
      SubtreesMember(N, cs, i);
    }
  }

  /** Once its children are pruned, removing the leaf `h` completes the pruning of h's subtree. */
  lemma RemoveLeafPrune(N: Nodes, G: set<Handle>, h: Handle)
    requires Linked(N) && h in N && N[h].parent.Some? && h !in G && N[h].parent.value !in G
    requires forall c :: c in N[h].children ==> c in G
    ensures N[h].parent.value in N
    ensures var M := Prune(N, G);
      && h in M && M[h].children == [] && M[h].parent == N[h].parent
      && RemoveLeaf(M, h) == Prune(N, G + {h})
  {
    assert ParentLink(N, h);
    var p := N[h].parent.value;
    var M := Prune(N, G);
    Head(M[h].children);
    assert M[h].children == [];
    var R, P := RemoveLeaf(M, h), Prune(N, G + {h});
    assert R.Keys == P.Keys;
    forall x | x in P
      ensures R[x] == P[x]
    {
      RemoveLeafPruneAt(N, G, h, x);
    }
  }

  lemma RemoveLeafPruneAt(N: Nodes, G: set<Handle>, h: Handle, x: Handle)
    requires Linked(N) && h in N && N[h].parent.Some? && h !in G && N[h].parent.value !in G
    requires N[h].parent.value in N && x in N && x !in G + {h}
    ensures RemoveLeaf(Prune(N, G), h)[x] == Prune(N, G + {h})[x]
  {
    FilterOutTwice(N[x].children, G, {h});
    if x != N[h].parent.value {
      assert h !in N[x].children;
      FilterOutNothing(FilterOut(N[x].children, G), {h});
    }
  }

  // ---------------------------------------------------------------------------
  // The empty-node index: repetition-free, only waste leaves, descending area

  ghost predicate IndexShape(N: Nodes, s: seq<Handle>)
  {
    && Distinct(s)
    && (forall i :: 0 <= i < |s| ==> s[i] in N && N[s[i]].IsEmpty())
    && (forall i, j :: 0 <= i < j < |s| ==> N[s[i]].Area() >= N[s[j]].Area())
  }

  lemma IndexInsert(N: Nodes, s: seq<Handle>, k: nat, h: Handle)
    requires IndexShape(N, s) && k <= |s| && h !in s && h in N && N[h].IsEmpty()
    requires forall j :: 0 <= j < k ==> N[s[j]].Area() >= N[h].Area()
    requires forall j :: k <= j < |s| ==> N[s[j]].Area() <= N[h].Area()
    ensures IndexShape(N, s[..k] + [h] + s[k..])
  {
    var t := s[..k] + [h] + s[k..];
    assert forall i :: 0 <= i < |t| ==> t[i] == if i < k then s[i] else if i == k then h else s[i - 1];
  }

  lemma IndexRemoveAt(N: Nodes, s: seq<Handle>, k: nat)
    requires IndexShape(N, s) && k < |s|
    ensures IndexShape(N, s[..k] + s[k + 1..])
  {
    var t := s[..k] + s[k + 1..];
    assert forall i :: 0 <= i < |t| ==> t[i] == if i < k then s[i] else s[i + 1];
  }

  /** Every waste leaf of `N` outside `X` is listed in `s`. */
  ghost predicate CompleteFor(N: Nodes, s: seq<Handle>, X: set<Handle>)
  {
    forall x {:trigger x in s} :: x in N && N[x].IsEmpty() && x !in X ==> x in s
  }

  /** More exceptions, weaker claim. */
  lemma CompleteWiden(N: Nodes, s: seq<Handle>, X: set<Handle>, Y: set<Handle>)
    requires CompleteFor(N, s, X) && X <= Y
    ensures CompleteFor(N, s, Y)
  {
  }

  /** An exception that is indexed or is no waste leaf need not be excused. */
  lemma CompleteDrop(N: Nodes, s: seq<Handle>, X: set<Handle>, h: Handle)
    requires CompleteFor(N, s, X + {h})
    requires h in N ==> h in s || !N[h].IsEmpty()
    ensures CompleteFor(N, s, X)
  {
  }

  /** Attaching a fresh waste leaf and inserting it at a position that respects
      the order keeps the index well shaped; so does attaching any fresh node
      without indexing it. */
  lemma AttachIndexed(N: Nodes, p: Handle, h: Handle, n: Node, s: seq<Handle>, k: nat)
    requires IndexShape(N, s) && p in N && p !in s && h !in N && n.IsEmpty() && k <= |s|
    requires forall j :: 0 <= j < k ==> N[s[j]].Area() >= n.Area()
    requires forall j :: k <= j < |s| ==> N[s[j]].Area() <= n.Area()
    ensures IndexShape(Attach(N, p, h, n), s[..k] + [h] + s[k..])
  {
    var A := Attach(N, p, h, n);
    AttachIndex(N, p, h, n, s);
    assert forall i :: 0 <= i < |s| ==> s[i] in s;
    IndexInsert(A, s, k, h);
  }

  lemma AttachIndex(N: Nodes, p: Handle, h: Handle, n: Node, s: seq<Handle>)
    requires IndexShape(N, s) && p in N && p !in s && h !in N
    ensures IndexShape(Attach(N, p, h, n), s)
  {
    IndexFrame(N, Attach(N, p, h, n), s);
  }

  /** The index stays well shaped in an arena that keeps its entries as waste leaves of the same area. */
  lemma IndexFrame(N: Nodes, M: Nodes, s: seq<Handle>)
    requires IndexShape(N, s)
    requires forall x :: x in s ==> x in M && M[x].IsEmpty() && M[x].Area() == N[x].Area()
    ensures IndexShape(M, s)
  {
    assert forall i :: 0 <= i < |s| ==> s[i] in s;
  }

  /** The first waste leaf among the handles `cs`, as `iter().find(is_empty)` returns it. */
  function FirstEmpty(N: Nodes, cs: seq<Handle>): (r: Option<Handle>)
    requires forall c :: c in cs ==> c in N
    ensures r.None? <==> forall i :: 0 <= i < |cs| ==> !N[cs[i]].IsEmpty()
    ensures r.Some? ==> r.value in cs && N[r.value].IsEmpty()
    ensures r.Some? ==> exists i :: 0 <= i < |cs| && cs[i] == r.value && forall j :: 0 <= j < i ==> !N[cs[j]].IsEmpty()
    ensures cs != [] && N[cs[0]].IsEmpty() ==> r == Some(cs[0])
  {
    if cs == [] then None
    else if N[cs[0]].IsEmpty() then Some(cs[0])
    else
      var r := FirstEmpty(N, cs[1..]);
      assert forall i :: 1 <= i < |cs| ==> cs[i] == cs[1..][i - 1];
      assert r.Some? ==> exists i :: 0 <= i < |cs| && cs[i] == r.value && forall j :: 0 <= j < i ==> !N[cs[j]].IsEmpty() by {
        if r.Some? {
          var k :| 0 <= k < |cs[1..]| && cs[1..][k] == r.value && forall j :: 0 <= j < k ==> !N[cs[1..][j]].IsEmpty();
          assert cs[k + 1] == r.value;
        }
      }
      r
  }

  // ---------------------------------------------------------------------------
  // Folds over the arena, in handle order (the order of creation)

  /** The id of the part placed at `x`, when `x` is a node of `S` that holds one. */
  function PartOf(N: Nodes, S: set<Handle>, x: Handle): seq<nat>
  {
    if x in S && x in N && N[x].part.Some? then [N[x].part.value.id] else []
  }

  /** The ids of the parts placed at the nodes of `S` with a handle below `hi`. */
  function PartIdsBelow(N: Nodes, S: set<Handle>, hi: nat): (r: seq<nat>)
    decreases hi
  {
    if hi == 0 then []
    else
      PartIdsBelow(N, S, hi - 1) + PartOf(N, S, hi - 1)
  }

  /** An id is listed exactly when some node of `S` below `hi` holds a part with that id. */
  lemma {:induction false} PartIdsMembership(N: Nodes, S: set<Handle>, hi: nat, id: nat)
    ensures id in PartIdsBelow(N, S, hi) <==>
      exists x: Handle :: x < hi && x in S && x in N && N[x].part.Some? && N[x].part.value.id == id
  {
    if hi > 0 {
      PartIdsMembership(N, S, hi - 1, id);
      var x := hi - 1;
      assert id in PartOf(N, S, x) <==> x in S && x in N && N[x].part.Some? && N[x].part.value.id == id;
    }
  }

  lemma {:induction false} PartsPointwise(N: Nodes, S: set<Handle>, M: Nodes, T: set<Handle>, hi: nat)
    requires forall x: Handle :: x < hi ==> PartOf(N, S, x) == PartOf(M, T, x)
    ensures PartIdsBelow(N, S, hi) == PartIdsBelow(M, T, hi)
  {
    if hi > 0 {
      PartsPointwise(N, S, M, T, hi - 1);
    }
  }

  lemma PartOfSplit(N: Nodes, S: set<Handle>, T: set<Handle>, x: Handle)
    requires S !! T
    ensures multiset(PartOf(N, S + T, x)) == multiset(PartOf(N, S, x)) + multiset(PartOf(N, T, x))
  {
    if x in S {
      assert x !in T;
    }
  }

  /** The parts of two disjoint sets of nodes are the parts of each. */
  lemma {:induction false} PartsSplit(N: Nodes, S: set<Handle>, T: set<Handle>, hi: nat)
    requires S !! T
    ensures multiset(PartIdsBelow(N, S + T, hi)) ==
            multiset(PartIdsBelow(N, S, hi)) + multiset(PartIdsBelow(N, T, hi))
  {
    if hi > 0 {
      var x := hi - 1;
      PartsSplit(N, S, T, x);
      PartOfSplit(N, S, T, x);
      PartsStep(N, S + T, x);
      PartsStep(N, S, x);
      PartsStep(N, T, x);
      var u, a, b := PartIdsBelow(N, S + T, x), PartIdsBelow(N, S, x), PartIdsBelow(N, T, x);
      var pu, pa, pb := PartOf(N, S + T, x), PartOf(N, S, x), PartOf(N, T, x);
      assert multiset(u + pu) == multiset(u) + multiset(pu);
      assert multiset(a + pa) == multiset(a) + multiset(pa);
      assert multiset(b + pb) == multiset(b) + multiset(pb);
      MultisetShuffle(multiset(a), multiset(b), multiset(pa), multiset(pb));
    }
  }

  lemma MultisetShuffle(a: multiset<nat>, b: multiset<nat>, c: multiset<nat>, d: multiset<nat>)
    ensures (a + b) + (c + d) == (a + c) + (b + d)
  {
  }

  lemma {:induction false} PartsSingle(N: Nodes, h: Handle, hi: nat)
    requires h < hi
    ensures PartIdsBelow(N, {h}, hi) == PartOf(N, {h}, h)
  {
    if hi - 1 != h {
      PartsSingle(N, h, hi - 1);
    } else {
      PartsNone(N, {h}, h);
    }
  }

  /** An arena without parts lists no part ids. */
  lemma {:induction false} PartsAbsent(N: Nodes, S: set<Handle>, hi: nat)
    requires forall x :: x in N ==> N[x].part.None?
    ensures PartIdsBelow(N, S, hi) == []
  {
    if hi > 0 {
      PartsAbsent(N, S, hi - 1);
      PartsStep(N, S, hi - 1);
    }
  }

  lemma {:induction false} PartsNone(N: Nodes, S: set<Handle>, hi: nat)
    requires forall x :: x in S ==> x >= hi
    ensures PartIdsBelow(N, S, hi) == []
  {
    if hi > 0 {
      PartsNone(N, S, hi - 1);
    }
  }

  /** Total area covered by the parts placed at nodes with a handle below `hi`. */
  function UsedAreaBelow(N: Nodes, hi: nat): nat
    decreases hi
  {
    if hi == 0 then 0
    else UsedAreaBelow(N, hi - 1) + (if hi - 1 in N && N[hi - 1].part.Some? then N[hi - 1].Area() else 0)
  }

  /** Sum of the per-node costs of the nodes with a handle below `hi`. */
  function CostBelow(N: Nodes, nodeCost: Node -> int, hi: nat): int
    decreases hi
  {
    if hi == 0 then 0
    else CostBelow(N, nodeCost, hi - 1) + (if hi - 1 in N then nodeCost(N[hi - 1]) else 0)
  }

  /** The nodes with a handle below `hi` that hold a part or are cut further. */
  function RemovableBelow(N: Nodes, hi: nat): (r: seq<Handle>)
    ensures forall x :: x in r <==> x < hi && x in N && !N[x].IsEmpty()
    ensures forall i, j :: 0 <= i < j < |r| ==> r[i] < r[j]
    decreases hi
  {
    if hi == 0 then []
    else
      var x := hi - 1;
      var r := RemovableBelow(N, x);
      assert forall i :: 0 <= i < |r| ==> r[i] in r;
      r + (if x in N && (N[x].part.Some? || N[x].children != []) then [x] else [])
  }

  // ---------------------------------------------------------------------------
  // Building blueprints: consecutive fresh handles, in preorder

  /** The node at handle `x` realises blueprint node `b`, and its children are the
      roots of b's children, numbered in preorder right after `x`. */
  ghost predicate BuiltAt(N: Nodes, x: Handle, b: NodeBlueprint, catalog: map<nat, PartType>)
  {
    && x in N
    && Materializes(N[x], b, catalog)
    && N[x].children == Roots(b.children, x + 1)
  }

  /** The nodes at handles `start`, `start + 1`, ... realise the blueprint nodes `bs`
      one by one, as `BuiltAt` says. */
  ghost predicate Built(N: Nodes, start: nat, bs: seq<NodeBlueprint>, catalog: map<nat, PartType>)
    decreases |bs|
  {
    bs == [] || (Built(N, start, bs[..|bs| - 1], catalog) && BuiltAt(N, start + |bs| - 1, bs[|bs| - 1], catalog))
  }

  lemma {:induction false} BuiltElem(N: Nodes, start: nat, bs: seq<NodeBlueprint>, catalog: map<nat, PartType>, i: nat)
    requires Built(N, start, bs, catalog) && i < |bs|
    ensures BuiltAt(N, start + i, bs[i], catalog)
    decreases |bs|
  {
    if i < |bs| - 1 {
      BuiltElem(N, start, bs[..|bs| - 1], catalog, i);
    }
  }

  lemma {:induction false} BuiltConcat(N: Nodes, start: nat, a: seq<NodeBlueprint>, b: seq<NodeBlueprint>,
                                       catalog: map<nat, PartType>)
    requires Built(N, start, a, catalog) && Built(N, start + |a|, b, catalog)
    ensures Built(N, start, a + b, catalog)
    decreases |b|
  {
    if b == [] {
      assert a + b == a;
    } else {
      var b' := b[..|b| - 1];
      BuiltConcat(N, start, a, b', catalog);
      assert (a + b)[..|a + b| - 1] == a + b';
    }
  }

  /** `Built` only looks at the nodes of its handle range. */
  lemma {:induction false} BuiltFrame(N: Nodes, M: Nodes, start: nat, bs: seq<NodeBlueprint>,
                                      catalog: map<nat, PartType>)
    requires Built(N, start, bs, catalog)
    requires forall x :: x in N && start <= x < start + |bs| ==> x in M && M[x] == N[x]
    ensures Built(M, start, bs, catalog)
    decreases |bs|
  {
    if bs != [] {
      BuiltFrame(N, M, start, bs[..|bs| - 1], catalog);
      assert start + |bs| - 1 in N;
    }
  }

  /** `M` is `N` with the fresh handles `lo` to `hi` added and, among the old nodes,
      only `p` changed: its child list gained `added` at the end. */
  ghost predicate Grown(N: Nodes, M: Nodes, p: Handle, lo: nat, hi: nat, added: seq<Handle>)
  {
    && p in N && p in M
    && (forall x :: x in M <==> x in N || lo <= x < hi)
    && (forall x :: x in N && x != p ==> M[x] == N[x])
    && M[p] == N[p].(children := N[p].children + added)
  }

  /** The nodes appended below `p` are children of `p`, one level deeper. */
  lemma {:induction false} GrownLevels(N: Nodes, M: Nodes, p: Handle, lo: nat, hi: nat, added: seq<Handle>)
    requires Grown(N, M, p, lo, hi, added) && Linked(M)
    ensures forall i :: 0 <= i < |added| ==>
      added[i] in M && M[added[i]].parent == Some(p) && M[added[i]].level == M[p].level + 1
  {
    forall i | 0 <= i < |added|
      ensures added[i] in M && M[added[i]].parent == Some(p) && M[added[i]].level == M[p].level + 1
    {
      var c := added[i];
      assert M[p].children == N[p].children + added;
      assert c in M[p].children by { assert M[p].children[|N[p].children| + i] == c; }
      assert ParentLink(M, c);
    }
  }

  /** A node registered under `p`, followed by nodes grown below that node. */
  lemma GrownNested(N0: Nodes, N1: Nodes, N2: Nodes, p: Handle, h: Handle, mid: nat, hi: nat,
                     A: seq<Handle>, B: seq<Handle>)
    requires Grown(N0, N1, p, h, mid, A) && h !in N0 && h < mid
    requires Grown(N1, N2, h, mid, hi, B) && mid <= hi
    ensures Grown(N0, N2, p, h, hi, A)
  {
    assert h in N1;
    forall x
      ensures x in N2 <==> x in N0 || h <= x < hi
    {
      assert x in N1 <==> x in N0 || h <= x < mid;
      assert x in N2 <==> x in N1 || mid <= x < hi;
    }
    forall x | x in N0 && x != p
      ensures N2[x] == N0[x]
    {
      assert x in N1 && x != h;
    }
    assert p in N1 && p != h;
  }

  /** Growing leaves every old node but `p` alone. */
  lemma GrownFrame(N: Nodes, M: Nodes, p: Handle, lo: nat, hi: nat, added: seq<Handle>)
    requires Grown(N, M, p, lo, hi, added)
    ensures forall x :: x in N && x != p ==> x in M && M[x] == N[x]
  {
  }

  /** Two growths of the same node in a row. */
  lemma GrownChain(N0: Nodes, N1: Nodes, N2: Nodes, p: Handle, lo: nat, mid: nat, hi: nat,
                   A: seq<Handle>, B: seq<Handle>)
    requires Grown(N0, N1, p, lo, mid, A) && Grown(N1, N2, p, mid, hi, B) && lo <= mid <= hi
    ensures Grown(N0, N2, p, lo, hi, A + B)
  {
    SeqAssoc(N0[p].children, A, B);
    forall x
      ensures x in N2 <==> x in N0 || lo <= x < hi
    {
      assert x in N1 <==> x in N0 || lo <= x < mid;
      assert x in N2 <==> x in N1 || mid <= x < hi;
    }
    forall x | x in N0 && x != p
      ensures N2[x] == N0[x]
    {
      assert x in N1;
    }
  }

  lemma AttachGrown(N: Nodes, p: Handle, h: Handle, n: Node)
    requires p in N && h !in N
    ensures Grown(N, Attach(N, p, h, n), p, h, h + 1, [h])
  {
  }

  /** The part ids of a grown arena: the old ones, then those the built
      blueprint nodes place, in handle order. */
  lemma BuiltParts(N0: Nodes, N: Nodes, p: Handle, lo: nat, hi: nat, added: seq<Handle>,
                   bs: seq<NodeBlueprint>, catalog: map<nat, PartType>)
    requires Grown(N0, N, p, lo, hi, added) && Built(N, lo, bs, catalog) && hi == lo + |bs|
    requires (forall x :: x in N0 ==> x < lo) && CatalogConsistent(catalog)
    ensures PartIdsBelow(N, N.Keys, hi) == PartIdsBelow(N0, N0.Keys, lo) + BlueprintParts(bs)
  {
    GrownKeepsParts(N0, N, p, lo, hi, added);
    BuiltPartsAfter(N0, N, lo, bs, catalog);
  }

  /** The built nodes' parts follow whatever the handles below `lo` hold. */
  lemma BuiltPartsAfter(N0: Nodes, N: Nodes, lo: nat, bs: seq<NodeBlueprint>, catalog: map<nat, PartType>)
    requires Built(N, lo, bs, catalog) && CatalogConsistent(catalog)
    requires PartIdsBelow(N, N.Keys, lo) == PartIdsBelow(N0, N0.Keys, lo)
    ensures PartIdsBelow(N, N.Keys, lo + |bs|) == PartIdsBelow(N0, N0.Keys, lo) + BlueprintParts(bs)
  {
    BuiltPartsMatch(N, lo, bs, catalog);
    PartsAll(N, N0, lo, bs);
  }

  lemma GrownKeepsParts(N0: Nodes, N: Nodes, p: Handle, lo: nat, hi: nat, added: seq<Handle>)
    requires Grown(N0, N, p, lo, hi, added) && (forall x :: x in N0 ==> x < lo)
    ensures PartIdsBelow(N, N.Keys, lo) == PartIdsBelow(N0, N0.Keys, lo)
  {
    forall x: Handle | x < lo
      ensures PartOf(N, N.Keys, x) == PartOf(N0, N0.Keys, x)
    {
      assert x in N <==> x in N0;
      if x in N0 {
        assert N[x].part == N0[x].part;
      }
    }
    PartsPointwise(N, N.Keys, N0, N0.Keys, lo);
  }

  /** The node at handle `lo + i` holds the part blueprint node `bs[i]` names. */
  predicate PartsMatch(N: Nodes, lo: nat, bs: seq<NodeBlueprint>)
  {
    forall i :: 0 <= i < |bs| ==> PartOf(N, N.Keys, lo + i) == OwnPart(bs[i])
  }

  lemma BuiltPartsMatch(N: Nodes, lo: nat, bs: seq<NodeBlueprint>, catalog: map<nat, PartType>)
    requires Built(N, lo, bs, catalog) && CatalogConsistent(catalog)
    ensures PartsMatch(N, lo, bs)
  {
    forall i | 0 <= i < |bs|
      ensures PartOf(N, N.Keys, lo + i) == OwnPart(bs[i])
    {
      BuiltElem(N, lo, bs, catalog, i);
    }
  }

  /** The parts of the first `m` built nodes follow those below `lo`. */
  lemma {:induction false} PartsUpTo(N: Nodes, lo: nat, bs: seq<NodeBlueprint>, m: nat)
    requires PartsMatch(N, lo, bs) && m <= |bs|
    ensures PartIdsBelow(N, N.Keys, lo + m) == PartIdsBelow(N, N.Keys, lo) + BlueprintParts(bs[..m])
  {
    if m == 0 {
      assert bs[..m] == [];
    } else {
      PartsUpTo(N, lo, bs, m - 1);
      PartsStep(N, N.Keys, lo + m - 1);
      BlueprintPartsStep(bs, m);
      SeqAssoc(PartIdsBelow(N, N.Keys, lo), BlueprintParts(bs[..m - 1]), PartOf(N, N.Keys, lo + m - 1));
    }
  }

  lemma PartsAll(N: Nodes, N0: Nodes, lo: nat, bs: seq<NodeBlueprint>)
    requires PartsMatch(N, lo, bs) && PartIdsBelow(N, N.Keys, lo) == PartIdsBelow(N0, N0.Keys, lo)
    ensures PartIdsBelow(N, N.Keys, lo + |bs|) == PartIdsBelow(N0, N0.Keys, lo) + BlueprintParts(bs)
  {
    PartsUpTo(N, lo, bs, |bs|);
    assert bs[..|bs|] == bs;
  }

  lemma SeqAssoc<T>(a: seq<T>, b: seq<T>, c: seq<T>)
    ensures (a + b) + c == a + (b + c)
  {
  }

  /** One more handle: its part, if any, comes last. */
  lemma PartsStep(N: Nodes, S: set<Handle>, x: nat)
    ensures PartIdsBelow(N, S, x + 1) == PartIdsBelow(N, S, x) + PartOf(N, S, x)
  {
  }
}
