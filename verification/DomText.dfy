/** `text_content` and `append_text` as properties of the forest. */
module DomText {
  import opened Wrappers
  import opened DomForest
  import opened DomProofs

  // ----- a measure for walking down: the distance to the deepest node -----

  ghost function Depth(ns: Arena, i: NodeId): (n: nat)
    requires Rooted(ns, i)
    ensures ChainLen(ns, i, n)
  {
    var n: nat :| ChainLen(ns, i, n);
    n
  }

  ghost function MaxDepth(ns: Arena, k: nat): (m: nat)
    requires Acyclic(ns) && k <= |ns|
    ensures forall i: NodeId :: i < k ==> Rooted(ns, i) && Depth(ns, i) <= m
  {
    if k == 0 then 0 else
      var m := MaxDepth(ns, k - 1);
      assert Rooted(ns, k - 1);
      if Depth(ns, k - 1) > m then Depth(ns, k - 1) else m
  }

  ghost function Below(ns: Arena, i: NodeId): nat
    requires Acyclic(ns) && i < |ns|
  {
    MaxDepth(ns, |ns|) - Depth(ns, i)
  }

  lemma ChildIsDeeper(ns: Arena, p: NodeId, c: NodeId)
    requires Acyclic(ns) && p < |ns| && c < |ns| && ns[c].parent == Some(p)
    ensures Below(ns, c) < Below(ns, p)
  {
    assert Rooted(ns, p) && Rooted(ns, c);
    ChainLenUnique(ns, p, Depth(ns, p), Depth(ns, c) - 1);
  }

  ghost predicate ChildrenOf(ns: Arena, p: NodeId, l: seq<NodeId>) {
    forall c :: c in l ==> c < |ns| && ns[c].parent == Some(p)
  }

  lemma KidsAreChildren(ns: Arena, kids: seq<seq<NodeId>>, p: NodeId)
    requires WellLinked(ns, kids) && p < |ns|
    ensures ChildrenOf(ns, p, kids[p])
  {
    assert Listed(ns, p, kids[p]);
    forall c | c in kids[p] ensures c < |ns| && ns[c].parent == Some(p) {
      assert ChildAt(ns, p, kids[p], IndexOf(kids[p], c));
    }
  }

  lemma TailChildren(ns: Arena, p: NodeId, l: seq<NodeId>)
    requires l != [] && ChildrenOf(ns, p, l)
    ensures l[0] < |ns| && ns[l[0]].parent == Some(p) && ChildrenOf(ns, p, l[1..])
  {
    assert l[0] in l;
    forall c | c in l[1..] ensures c < |ns| && ns[c].parent == Some(p) { assert c in l; }
  }

  // ----- the text of a subtree -----

  ghost function Text(ns: Arena, kids: seq<seq<NodeId>>, i: NodeId): string
    requires ForestWith(ns, kids)
    decreases if i < |ns| then Below(ns, i) + 1 else 0, 0, 0
  {
    if i >= |ns| then "" else
    match ns[i].data
    case TextData(content) => content
    case ElementData(_, _, _) =>
      KidsAreChildren(ns, kids, i);
      TextOfAll(ns, kids, i, kids[i])
    case _ => ""
  }

  ghost function TextOfAll(ns: Arena, kids: seq<seq<NodeId>>, p: NodeId, l: seq<NodeId>): string
    requires ForestWith(ns, kids) && p < |ns| && ChildrenOf(ns, p, l)
    decreases Below(ns, p), 1, |l|
  {
    if l == [] then "" else
      assert l[0] in l;
      ChildIsDeeper(ns, p, l[0]);
      Text(ns, kids, l[0]) + TextOfAll(ns, kids, p, l[1..])
  }

  lemma TextOfFirst(ns: Arena, kids: seq<seq<NodeId>>, p: NodeId, l: seq<NodeId>, k: nat)
    requires ForestWith(ns, kids) && p < |ns| && k < |l| && ChildrenOf(ns, p, l[k..])
    ensures l[k] < |ns| && ns[l[k]].parent == Some(p) && Below(ns, l[k]) < Below(ns, p) && ChildrenOf(ns, p, l[k + 1..])
    ensures TextOfAll(ns, kids, p, l[k..]) == Text(ns, kids, l[k]) + TextOfAll(ns, kids, p, l[k + 1..])
  {
    assert l[k..][0] == l[k] && l[k] in l[k..] && l[k..][1..] == l[k + 1..];
    ChildIsDeeper(ns, p, l[k]);
  }

  // ----- the reference: text leaves reached through elements, in document order -----

  ghost function Visited(ns: Arena, kids: seq<seq<NodeId>>, i: NodeId): seq<NodeId>
    requires ForestWith(ns, kids) && i < |ns|
    decreases Below(ns, i) + 1, 0, 0
  {
    if ns[i].data.ElementData? then
      KidsAreChildren(ns, kids, i);
      [i] + VisitedAll(ns, kids, i, kids[i])
    else [i]
  }

  ghost function VisitedAll(ns: Arena, kids: seq<seq<NodeId>>, p: NodeId, l: seq<NodeId>): seq<NodeId>
    requires ForestWith(ns, kids) && p < |ns| && ChildrenOf(ns, p, l)
    decreases Below(ns, p), 1, |l|
  {
    if l == [] then [] else
      assert l[0] in l;
      ChildIsDeeper(ns, p, l[0]);
      Visited(ns, kids, l[0]) + VisitedAll(ns, kids, p, l[1..])
  }

  function Contents(ns: Arena, l: seq<NodeId>): string {
    if l == [] then "" else
    (if l[0] < |ns| && ns[l[0]].data.TextData? then ns[l[0]].data.content else "") + Contents(ns, l[1..])
  }

  lemma {:induction false} ContentsConcat(ns: Arena, a: seq<NodeId>, b: seq<NodeId>)
    ensures Contents(ns, a + b) == Contents(ns, a) + Contents(ns, b)
  {
    if a == [] {
      assert a + b == b;
    } else {
      assert (a + b)[1..] == a[1..] + b;
      ContentsConcat(ns, a[1..], b);
    }
  }

  /** The recursive text is the contents of the visited nodes, in order. */
  lemma {:induction false} TextIsVisitedContents(ns: Arena, kids: seq<seq<NodeId>>, i: NodeId)
    requires ForestWith(ns, kids) && i < |ns|
    ensures Text(ns, kids, i) == Contents(ns, Visited(ns, kids, i))
    decreases Below(ns, i) + 1, 0, 0
  {
    if ns[i].data.ElementData? {
      KidsAreChildren(ns, kids, i);
      AllTextIsVisitedContents(ns, kids, i, kids[i]);
      ContentsConcat(ns, [i], VisitedAll(ns, kids, i, kids[i]));
      assert Contents(ns, [i]) == "" + Contents(ns, []);
    } else {
      assert Contents(ns, [i]) == (if ns[i].data.TextData? then ns[i].data.content else "") + Contents(ns, []);
    }
  }

  lemma {:induction false} AllTextIsVisitedContents(ns: Arena, kids: seq<seq<NodeId>>, p: NodeId, l: seq<NodeId>)
    requires ForestWith(ns, kids) && p < |ns| && ChildrenOf(ns, p, l)
    ensures TextOfAll(ns, kids, p, l) == Contents(ns, VisitedAll(ns, kids, p, l))
    decreases Below(ns, p), 1, |l|
  {
    if l != [] {
      assert l[0] in l;
      ChildIsDeeper(ns, p, l[0]);
      TextIsVisitedContents(ns, kids, l[0]);
      AllTextIsVisitedContents(ns, kids, p, l[1..]);
      ContentsConcat(ns, Visited(ns, kids, l[0]), VisitedAll(ns, kids, p, l[1..]));
    }
  }

  /** `j` is `i`, or below it with nothing but elements from its parent up to `i`. */
  ghost predicate ThroughElements(ns: Arena, i: NodeId, j: NodeId, n: nat)
    decreases n
  {
    i == j ||
    (n > 0 && j < |ns| && ns[j].parent.Some? && ns[j].parent.value < |ns| &&
     ns[ns[j].parent.value].data.ElementData? && ThroughElements(ns, i, ns[j].parent.value, n - 1))
  }

  lemma {:induction false} ThroughFromAbove(ns: Arena, i: NodeId, c: NodeId, j: NodeId, n: nat)
    requires i < |ns| && c < |ns| && ns[c].parent == Some(i) && ns[i].data.ElementData?
    requires ThroughElements(ns, c, j, n)
    ensures ThroughElements(ns, i, j, n + 1)
    decreases n
  {
    if c == j {
      assert ThroughElements(ns, i, i, n);
    } else {
      ThroughFromAbove(ns, i, c, ns[j].parent.value, n - 1);
    }
  }

  lemma {:induction false} VisitedIsThrough(ns: Arena, kids: seq<seq<NodeId>>, i: NodeId, j: NodeId)
    requires ForestWith(ns, kids) && i < |ns| && j in Visited(ns, kids, i)
    ensures exists n: nat :: ThroughElements(ns, i, j, n)
    decreases Below(ns, i) + 1, 0, 0
  {
    if i == j {
      assert ThroughElements(ns, i, j, 0);
    } else {
      KidsAreChildren(ns, kids, i);
      VisitedAllIsThrough(ns, kids, i, kids[i], j);
    }
  }

  lemma {:induction false} VisitedAllIsThrough(ns: Arena, kids: seq<seq<NodeId>>, p: NodeId, l: seq<NodeId>, j: NodeId)
    requires ForestWith(ns, kids) && p < |ns| && ChildrenOf(ns, p, l) && ns[p].data.ElementData?
    requires j in VisitedAll(ns, kids, p, l)
    ensures exists n: nat :: ThroughElements(ns, p, j, n)
    decreases Below(ns, p), 1, |l|
  {
    assert l[0] in l;
    ChildIsDeeper(ns, p, l[0]);
    if j in Visited(ns, kids, l[0]) {
      VisitedIsThrough(ns, kids, l[0], j);
      var n: nat :| ThroughElements(ns, l[0], j, n);
      ThroughFromAbove(ns, p, l[0], j, n);
    } else {
      VisitedAllIsThrough(ns, kids, p, l[1..], j);
    }
  }

  /** What is visited from an element is closed under taking children of elements. */
  lemma {:induction false} VisitedClosed(ns: Arena, kids: seq<seq<NodeId>>, i: NodeId, q: NodeId, j: NodeId)
    requires ForestWith(ns, kids) && i < |ns| && q < |ns| && q in Visited(ns, kids, i)
    requires ns[q].data.ElementData? && j in kids[q]
    ensures j in Visited(ns, kids, i)
    decreases Below(ns, i) + 1, 0, 0
  {
    KidsAreChildren(ns, kids, i);
    if q == i {
      ChildVisited(ns, kids, i, kids[i], j);
    } else {
      VisitedAllClosed(ns, kids, i, kids[i], q, j);
    }
  }

  lemma {:induction false} VisitedAllClosed(ns: Arena, kids: seq<seq<NodeId>>, p: NodeId, l: seq<NodeId>,
                                            q: NodeId, j: NodeId)
    requires ForestWith(ns, kids) && p < |ns| && ChildrenOf(ns, p, l) && q < |ns| && q in VisitedAll(ns, kids, p, l)
    requires ns[q].data.ElementData? && j in kids[q]
    ensures j in VisitedAll(ns, kids, p, l)
    decreases Below(ns, p), 1, |l|
  {
    assert l[0] in l;
    ChildIsDeeper(ns, p, l[0]);
    if q in Visited(ns, kids, l[0]) {
      VisitedClosed(ns, kids, l[0], q, j);
    } else {
      VisitedAllClosed(ns, kids, p, l[1..], q, j);
    }
  }

  lemma {:induction false} ChildVisited(ns: Arena, kids: seq<seq<NodeId>>, p: NodeId, l: seq<NodeId>, c: NodeId)
    requires ForestWith(ns, kids) && p < |ns| && ChildrenOf(ns, p, l) && c in l
    ensures c in VisitedAll(ns, kids, p, l)
    decreases |l|
  {
    assert l[0] in l && l == [l[0]] + l[1..];
    assert forall d :: d in l[1..] ==> d in l;
    if c != l[0] { ChildVisited(ns, kids, p, l[1..], c); }
  }

  lemma {:induction false} ThroughIsVisited(ns: Arena, kids: seq<seq<NodeId>>, i: NodeId, j: NodeId, n: nat)
    requires ForestWith(ns, kids) && i < |ns| && ThroughElements(ns, i, j, n)
    ensures j in Visited(ns, kids, i)
    decreases n
  {
    if i != j {
      var q := ns[j].parent.value;
      assert Placed(ns, kids, j);
      ThroughIsVisited(ns, kids, i, q, n - 1);
      VisitedClosed(ns, kids, i, q, j);
    }
  }

  /** Visited are exactly the nodes reached through elements. */
  lemma VisitedIff(ns: Arena, kids: seq<seq<NodeId>>, i: NodeId, j: NodeId)
    requires ForestWith(ns, kids) && i < |ns|
    ensures j in Visited(ns, kids, i) <==> exists n: nat :: ThroughElements(ns, i, j, n)
  {
    if j in Visited(ns, kids, i) { VisitedIsThrough(ns, kids, i, j); }
    if exists n: nat :: ThroughElements(ns, i, j, n) {
      var n: nat :| ThroughElements(ns, i, j, n);
      ThroughIsVisited(ns, kids, i, j, n);
    }
  }

  ghost predicate Distinct(l: seq<NodeId>) {
    forall a, b :: 0 <= a < b < |l| ==> l[a] != l[b]
  }

  lemma DistinctConcat(a: seq<NodeId>, b: seq<NodeId>)
    requires Distinct(a) && Distinct(b) && forall j :: j in a ==> j !in b
    ensures Distinct(a + b)
  {
    var l := a + b;
    forall x, y | 0 <= x < y < |l| ensures l[x] != l[y] {
      if x < |a| <= y { assert l[x] in a && l[y] in b; }
    }
  }

  lemma {:induction false} ThroughReaches(ns: Arena, i: NodeId, j: NodeId, n: nat)
    requires ThroughElements(ns, i, j, n)
    ensures Reaches(ns, j, i, n)
    decreases n
  {
    if i != j { ThroughReaches(ns, i, ns[j].parent.value, n - 1); }
  }

  /** Two ancestors of a node at the same depth are the same node. */
  lemma {:induction false} SameDepthAncestors(ns: Arena, j: NodeId, a: NodeId, b: NodeId, n: nat, m: nat,
                                              d: nat, e: nat)
    requires Reaches(ns, j, a, n) && Reaches(ns, j, b, m) && ChainLen(ns, j, e)
    requires ChainLen(ns, a, d) && ChainLen(ns, b, d)
    ensures a == b
    decreases n
  {
    if j == a || j == b {
      ChainLenUnique(ns, j, d, e);
      if j != b {
        var k := ClimbTo(ns, ns[j].parent.value, b, m - 1, e - 1);
        ChainLenUnique(ns, b, k, d);
      }
      if j != a {
        var k := ClimbTo(ns, ns[j].parent.value, a, n - 1, e - 1);
        ChainLenUnique(ns, a, k, d);
      }
    } else {
      SameDepthAncestors(ns, ns[j].parent.value, a, b, n - 1, m - 1, d, e - 1);
    }
  }

  /** No node is visited under two different children of the same parent. */
  lemma SiblingsApart(ns: Arena, kids: seq<seq<NodeId>>, p: NodeId, a: NodeId, b: NodeId, j: NodeId)
    requires ForestWith(ns, kids) && p < |ns| && a < |ns| && b < |ns| && ChildrenOf(ns, p, [a, b])
    requires j in Visited(ns, kids, a) && j in Visited(ns, kids, b)
    ensures a == b
  {
    assert a in [a, b] && b in [a, b];
    VisitedIsThrough(ns, kids, a, j);
    VisitedIsThrough(ns, kids, b, j);
    var n: nat :| ThroughElements(ns, a, j, n);
    var m: nat :| ThroughElements(ns, b, j, m);
    ThroughReaches(ns, a, j, n);
    ThroughReaches(ns, b, j, m);
    assert Rooted(ns, a) && Rooted(ns, b) && Rooted(ns, p) && (j < |ns| ==> Rooted(ns, j));
    assert j < |ns|;
    ChainLenUnique(ns, p, Depth(ns, a) - 1, Depth(ns, p));
    ChainLenUnique(ns, p, Depth(ns, b) - 1, Depth(ns, p));
    SameDepthAncestors(ns, j, a, b, n, m, Depth(ns, a), Depth(ns, j));
  }

  lemma {:induction false} VisitedAllHasOwner(ns: Arena, kids: seq<seq<NodeId>>, p: NodeId, l: seq<NodeId>, j: NodeId)
    returns (c: NodeId)
    requires ForestWith(ns, kids) && p < |ns| && ChildrenOf(ns, p, l) && j in VisitedAll(ns, kids, p, l)
    ensures c in l && c < |ns| && j in Visited(ns, kids, c)
    decreases |l|
  {
    assert l[0] in l;
    if j in Visited(ns, kids, l[0]) { c := l[0]; } else { c := VisitedAllHasOwner(ns, kids, p, l[1..], j); }
  }

  /** Every node is visited at most once. */
  lemma {:induction false} VisitedOnce(ns: Arena, kids: seq<seq<NodeId>>, i: NodeId)
    requires ForestWith(ns, kids) && i < |ns|
    ensures Distinct(Visited(ns, kids, i))
    decreases Below(ns, i) + 1, 0, 0
  {
    if ns[i].data.ElementData? {
      KidsAreChildren(ns, kids, i);
      assert Listed(ns, i, kids[i]);
      VisitedAllOnce(ns, kids, i, kids[i]);
      if i in VisitedAll(ns, kids, i, kids[i]) {
        var c := VisitedAllHasOwner(ns, kids, i, kids[i], i);
        VisitedIsThrough(ns, kids, c, i);
        var n: nat :| ThroughElements(ns, c, i, n);
        ThroughReaches(ns, c, i, n);
        assert Rooted(ns, c);
        CycleHasNoRoot(ns, c, i);
      }
    }
  }

  lemma {:induction false} VisitedAllOnce(ns: Arena, kids: seq<seq<NodeId>>, p: NodeId, l: seq<NodeId>)
    requires ForestWith(ns, kids) && p < |ns| && ChildrenOf(ns, p, l) && Distinct(l)
    ensures Distinct(VisitedAll(ns, kids, p, l))
    decreases Below(ns, p), 1, |l|
  {
    if l != [] {
      assert l[0] in l;
      ChildIsDeeper(ns, p, l[0]);
      VisitedOnce(ns, kids, l[0]);
      VisitedAllOnce(ns, kids, p, l[1..]);
      var a, b := Visited(ns, kids, l[0]), VisitedAll(ns, kids, p, l[1..]);
      forall j | j in a && j in b ensures false {
        var c := VisitedAllHasOwner(ns, kids, p, l[1..], j);
        SiblingsApart(ns, kids, p, l[0], c, j);
      }
      DistinctConcat(a, b);
    }
  }

  // ----- document order -----

  /** `a` comes before `b` in the document: it is above `b`, or in the subtree of an earlier sibling. */
  ghost predicate Precedes(ns: Arena, kids: seq<seq<NodeId>>, a: NodeId, b: NodeId)
    requires |kids| == |ns|
  {
    || (a != b && InclusiveAncestor(ns, a, b))
    || exists q, s, t :: 0 <= q < |ns| && 0 <= s < t < |kids[q]| && Apart(ns, kids[q][s], kids[q][t], a, b)
  }

  ghost predicate Apart(ns: Arena, c: NodeId, d: NodeId, a: NodeId, b: NodeId) {
    InclusiveAncestor(ns, c, a) && InclusiveAncestor(ns, d, b)
  }

  lemma VisitedIsBelow(ns: Arena, kids: seq<seq<NodeId>>, i: NodeId, j: NodeId)
    requires ForestWith(ns, kids) && i < |ns| && j in Visited(ns, kids, i)
    ensures InclusiveAncestor(ns, i, j)
  {
    VisitedIsThrough(ns, kids, i, j);
    var n: nat :| ThroughElements(ns, i, j, n);
    ThroughReaches(ns, i, j, n);
  }

  /** Nodes are visited in document order. */
  lemma {:induction false} VisitedInOrder(ns: Arena, kids: seq<seq<NodeId>>, i: NodeId, s: nat, t: nat)
    requires ForestWith(ns, kids) && i < |ns| && s < t < |Visited(ns, kids, i)|
    ensures Precedes(ns, kids, Visited(ns, kids, i)[s], Visited(ns, kids, i)[t])
    decreases Below(ns, i) + 1, 0, 0
  {
    hide InclusiveAncestor, Precedes;
    KidsAreChildren(ns, kids, i);
    var v := Visited(ns, kids, i);
    if s == 0 {
      VisitedOnce(ns, kids, i);
      assert v[0] == i && v[0] != v[t];
      VisitedIsBelow(ns, kids, i, v[t]);
      AbovePrecedes(ns, kids, i, v[t]);
    } else {
      assert kids[i][0..] == kids[i];
      VisitedAllInOrder(ns, kids, i, 0, s - 1, t - 1);
    }
  }

  lemma AbovePrecedes(ns: Arena, kids: seq<seq<NodeId>>, a: NodeId, b: NodeId)
    requires |kids| == |ns| && a != b && InclusiveAncestor(ns, a, b)
    ensures Precedes(ns, kids, a, b)
  {
  }

  lemma SiblingsPrecede(ns: Arena, kids: seq<seq<NodeId>>, q: NodeId, s: nat, t: nat, a: NodeId, b: NodeId)
    requires |kids| == |ns| && q < |ns| && s < t < |kids[q]|
    requires InclusiveAncestor(ns, kids[q][s], a) && InclusiveAncestor(ns, kids[q][t], b)
    ensures Precedes(ns, kids, a, b)
  {
    assert Apart(ns, kids[q][s], kids[q][t], a, b);
  }

  lemma {:induction false} VisitedAllInOrder(ns: Arena, kids: seq<seq<NodeId>>, p: NodeId, k: nat, s: nat, t: nat)
    requires ForestWith(ns, kids) && p < |ns| && k <= |kids[p]| && ChildrenOf(ns, p, kids[p][k..])
    requires s < t < |VisitedAll(ns, kids, p, kids[p][k..])|
    ensures var v := VisitedAll(ns, kids, p, kids[p][k..]); Precedes(ns, kids, v[s], v[t])
    decreases Below(ns, p), 1, |kids[p]| - k
  {
    hide InclusiveAncestor, Precedes;
    var l := kids[p][k..];
    var c := l[0];
    assert c in l && c == kids[p][k] && l[1..] == kids[p][k + 1..];
    ChildIsDeeper(ns, p, c);
    var a, b := Visited(ns, kids, c), VisitedAll(ns, kids, p, l[1..]);
    if t < |a| {
      VisitedInOrder(ns, kids, c, s, t);
    } else if s >= |a| {
      VisitedAllInOrder(ns, kids, p, k + 1, s - |a|, t - |a|);
    } else {
      assert b[t - |a|] in b;
      var d := VisitedAllHasOwner(ns, kids, p, l[1..], b[t - |a|]);
      var j :| 0 <= j < |l[1..]| && l[1..][j] == d;
      VisitedIsBelow(ns, kids, c, a[s]);
      VisitedIsBelow(ns, kids, d, b[t - |a|]);
      SiblingsPrecede(ns, kids, p, k, k + 1 + j, a[s], b[t - |a|]);
    }
  }

  // ----- document order is an order -----

  lemma {:induction false} AncestorTrans(ns: Arena, a: NodeId, b: NodeId, j: NodeId)
    requires InclusiveAncestor(ns, a, b) && InclusiveAncestor(ns, b, j)
    ensures InclusiveAncestor(ns, a, j)
  {
    var n: nat :| Reaches(ns, b, a, n);
    var m: nat :| Reaches(ns, j, b, m);
    ReachesTrans(ns, a, b, j, n, m);
  }

  lemma {:induction false} ReachesTrans(ns: Arena, a: NodeId, b: NodeId, j: NodeId, n: nat, m: nat)
    requires Reaches(ns, b, a, n) && Reaches(ns, j, b, m)
    ensures Reaches(ns, j, a, n + m)
    decreases m
  {
    if j == b {
      ReachesMore(ns, b, a, n, n + m);
    } else {
      ReachesTrans(ns, a, b, ns[j].parent.value, n, m - 1);
    }
  }

  lemma {:induction false} ReachesMore(ns: Arena, i: NodeId, a: NodeId, n: nat, m: nat)
    requires Reaches(ns, i, a, n) && n <= m
    ensures Reaches(ns, i, a, m)
    decreases n
  {
    if i != a { ReachesMore(ns, ns[i].parent.value, a, n - 1, m - 1); }
  }

  /** An ancestor is no deeper, and the only one at its depth. */
  lemma AncestorDepth(ns: Arena, a: NodeId, b: NodeId)
    requires Acyclic(ns) && a < |ns| && b < |ns| && InclusiveAncestor(ns, a, b)
    ensures Rooted(ns, a) && Rooted(ns, b) && Depth(ns, a) <= Depth(ns, b)
    ensures Depth(ns, a) == Depth(ns, b) ==> a == b
  {
    hide Depth;
    assert Rooted(ns, a) && Rooted(ns, b);
    var n: nat :| Reaches(ns, b, a, n);
    var k := ClimbTo(ns, b, a, n, Depth(ns, b));
    ChainLenUnique(ns, a, k, Depth(ns, a));
    if Depth(ns, a) == Depth(ns, b) {
      assert Reaches(ns, b, b, 0);
      SameDepthAncestors(ns, b, a, b, n, 0, Depth(ns, a), Depth(ns, b));
    }
  }

  /** Of two ancestors of a node the one that is no deeper is above the other. */
  lemma {:induction false} AncestorsNest(ns: Arena, j: NodeId, x: NodeId, y: NodeId, n: nat, m: nat)
    requires Acyclic(ns) && j < |ns| && x < |ns| && y < |ns| && Rooted(ns, x) && Rooted(ns, y)
    requires Reaches(ns, j, x, n) && Reaches(ns, j, y, m) && Depth(ns, x) <= Depth(ns, y)
    ensures InclusiveAncestor(ns, x, y)
    decreases n
  {
    hide Depth;
    if j == y {
    } else if j == x {
      assert InclusiveAncestor(ns, y, j);
      AncestorDepth(ns, y, j);
    } else {
      assert Rooted(ns, j);
      AncestorsNest(ns, ns[j].parent.value, x, y, n - 1, m - 1);
    }
  }

  lemma ChildDepth(ns: Arena, kids: seq<seq<NodeId>>, q: NodeId, s: nat)
    requires ForestWith(ns, kids) && q < |ns| && s < |kids[q]|
    ensures kids[q][s] < |ns| && Rooted(ns, kids[q][s]) && Rooted(ns, q)
    ensures Depth(ns, kids[q][s]) == Depth(ns, q) + 1 && InclusiveAncestor(ns, q, kids[q][s])
  {
    hide Depth;
    KidsAreChildren(ns, kids, q);
    var c := kids[q][s];
    assert c in kids[q] && Rooted(ns, c) && Rooted(ns, q);
    ChainLenUnique(ns, q, Depth(ns, c) - 1, Depth(ns, q));
    assert Reaches(ns, q, q, 0) && Reaches(ns, c, q, 1);
  }

  /** Only one child of a node is above a given node. */
  lemma OneChildAbove(ns: Arena, kids: seq<seq<NodeId>>, q: NodeId, s: nat, t: nat, j: NodeId)
    requires ForestWith(ns, kids) && q < |ns| && s < |kids[q]| && t < |kids[q]| && j < |ns|
    requires InclusiveAncestor(ns, kids[q][s], j) && InclusiveAncestor(ns, kids[q][t], j)
    ensures s == t
  {
    hide Depth;
    ChildDepth(ns, kids, q, s);
    ChildDepth(ns, kids, q, t);
    assert Rooted(ns, j);
    var n: nat :| Reaches(ns, j, kids[q][s], n);
    var m: nat :| Reaches(ns, j, kids[q][t], m);
    SameDepthAncestors(ns, j, kids[q][s], kids[q][t], n, m, Depth(ns, q) + 1, Depth(ns, j));
    ListedAt(ns, kids, q);
  }

  /** Two nodes split at one node only: the child lists that separate them belong to the same parent. */
  lemma OneParentSplits(ns: Arena, kids: seq<seq<NodeId>>, q: NodeId, s: nat, t: nat, r: NodeId, a: NodeId, b: NodeId)
    requires ForestWith(ns, kids) && q < |ns| && s < t < |kids[q]| && a < |ns| && b < |ns| && r < |ns|
    requires Apart(ns, kids[q][s], kids[q][t], a, b) && InclusiveAncestor(ns, r, a) && InclusiveAncestor(ns, r, b)
    requires Rooted(ns, q) && Rooted(ns, r)
    ensures Depth(ns, r) <= Depth(ns, q)
  {
    hide Depth;
    ChildDepth(ns, kids, q, s);
    ChildDepth(ns, kids, q, t);
    if Depth(ns, r) > Depth(ns, q) {
      var n: nat :| Reaches(ns, a, kids[q][s], n);
      var m: nat :| Reaches(ns, a, r, m);
      AncestorsNest(ns, a, kids[q][s], r, n, m);
      var n': nat :| Reaches(ns, b, kids[q][t], n');
      var m': nat :| Reaches(ns, b, r, m');
      AncestorsNest(ns, b, kids[q][t], r, n', m');
      OneChildAbove(ns, kids, q, s, t, r);
    }
  }

  lemma SplitsOneWay(ns: Arena, kids: seq<seq<NodeId>>, q: NodeId, s: nat, t: nat, r: NodeId, s': nat, t': nat,
                     a: NodeId, b: NodeId)
    requires ForestWith(ns, kids) && q < |ns| && s < t < |kids[q]| && a < |ns| && b < |ns|
    requires r < |ns| && s' < t' < |kids[r]|
    requires Apart(ns, kids[q][s], kids[q][t], a, b)
    ensures !Apart(ns, kids[r][s'], kids[r][t'], b, a)
  {
    hide Depth, InclusiveAncestor;
    if Apart(ns, kids[r][s'], kids[r][t'], b, a) {
      ParentAboveBoth(ns, kids, q, s, t, a, b);
      ParentAboveBoth(ns, kids, r, s', t', b, a);
      OneParentSplits(ns, kids, q, s, t, r, a, b);
      OneParentSplits(ns, kids, r, s', t', q, b, a);
      SameAncestor(ns, q, r, a);
      OneChildAbove(ns, kids, q, s, t', a);
      OneChildAbove(ns, kids, q, t, s', b);
    }
  }

  lemma ParentAboveBoth(ns: Arena, kids: seq<seq<NodeId>>, q: NodeId, s: nat, t: nat, a: NodeId, b: NodeId)
    requires ForestWith(ns, kids) && q < |ns| && s < |kids[q]| && t < |kids[q]|
    requires Apart(ns, kids[q][s], kids[q][t], a, b)
    ensures InclusiveAncestor(ns, q, a) && InclusiveAncestor(ns, q, b) && Rooted(ns, q)
  {
    ChildDepth(ns, kids, q, s);
    ChildDepth(ns, kids, q, t);
    AncestorTrans(ns, q, kids[q][s], a);
    AncestorTrans(ns, q, kids[q][t], b);
  }

  lemma SameAncestor(ns: Arena, q: NodeId, r: NodeId, a: NodeId)
    requires Acyclic(ns) && q < |ns| && r < |ns| && a < |ns| && Rooted(ns, q) && Rooted(ns, r)
    requires InclusiveAncestor(ns, q, a) && InclusiveAncestor(ns, r, a) && Depth(ns, q) == Depth(ns, r)
    ensures q == r
  {
    hide Depth;
    assert Rooted(ns, a);
    var n: nat :| Reaches(ns, a, q, n);
    var m: nat :| Reaches(ns, a, r, m);
    SameDepthAncestors(ns, a, q, r, n, m, Depth(ns, q), Depth(ns, a));
  }

  /** No two nodes come before each other. */
  lemma PrecedesOneWay(ns: Arena, kids: seq<seq<NodeId>>, a: NodeId, b: NodeId)
    requires ForestWith(ns, kids) && a < |ns| && b < |ns| && Precedes(ns, kids, a, b)
    ensures !Precedes(ns, kids, b, a)
  {
    hide InclusiveAncestor, Depth;
    if a != b && InclusiveAncestor(ns, a, b) {
      AboveOneWay(ns, kids, a, b);
    } else {
      var q, s, t :| 0 <= q < |ns| && 0 <= s < t < |kids[q]| && Apart(ns, kids[q][s], kids[q][t], a, b);
      if b != a && InclusiveAncestor(ns, b, a) { AboveOneWay(ns, kids, b, a); }
      forall r, s', t' | 0 <= r < |ns| && 0 <= s' < t' < |kids[r]|
        ensures !Apart(ns, kids[r][s'], kids[r][t'], b, a)
      {
        SplitsOneWay(ns, kids, q, s, t, r, s', t', a, b);
      }
    }
  }

  lemma AboveOneWay(ns: Arena, kids: seq<seq<NodeId>>, a: NodeId, b: NodeId)
    requires ForestWith(ns, kids) && a < |ns| && b < |ns| && a != b && InclusiveAncestor(ns, a, b)
    ensures !InclusiveAncestor(ns, b, a)
    ensures forall q, s, t :: 0 <= q < |ns| && 0 <= s < t < |kids[q]| ==>
      !Apart(ns, kids[q][s], kids[q][t], a, b) && !Apart(ns, kids[q][s], kids[q][t], b, a)
  {
    hide InclusiveAncestor, Depth;
    AncestorDepth(ns, a, b);
    if InclusiveAncestor(ns, b, a) { AncestorDepth(ns, b, a); }
    forall q, s, t | 0 <= q < |ns| && 0 <= s < t < |kids[q]|
      ensures !Apart(ns, kids[q][s], kids[q][t], a, b) && !Apart(ns, kids[q][s], kids[q][t], b, a)
    {
      NotUnderTwo(ns, kids, q, s, t, a, b);
      NotUnderTwo(ns, kids, q, t, s, a, b);
    }
  }

  lemma NotUnderTwo(ns: Arena, kids: seq<seq<NodeId>>, q: NodeId, s: nat, t: nat, a: NodeId, b: NodeId)
    requires ForestWith(ns, kids) && q < |ns| && s < |kids[q]| && t < |kids[q]| && s != t && b < |ns|
    requires InclusiveAncestor(ns, a, b)
    ensures !Apart(ns, kids[q][s], kids[q][t], a, b)
  {
    hide InclusiveAncestor;
    if Apart(ns, kids[q][s], kids[q][t], a, b) {
      AncestorTrans(ns, kids[q][s], a, b);
      OneChildAbove(ns, kids, q, s, t, b);
    }
  }

  /** Of two visited nodes the first one visited is exactly the one that comes first in the document. */
  lemma VisitedInOrderIff(ns: Arena, kids: seq<seq<NodeId>>, i: NodeId, s: nat, t: nat)
    requires ForestWith(ns, kids) && i < |ns| && s < |Visited(ns, kids, i)| && t < |Visited(ns, kids, i)| && s != t
    ensures s < t <==> Precedes(ns, kids, Visited(ns, kids, i)[s], Visited(ns, kids, i)[t])
  {
    hide Visited, Precedes;
    var v := Visited(ns, kids, i);
    if s < t {
      VisitedInOrder(ns, kids, i, s, t);
    } else {
      VisitedInOrder(ns, kids, i, t, s);
      VisitedExists(ns, kids, i, v[s]);
      VisitedExists(ns, kids, i, v[t]);
      PrecedesOneWay(ns, kids, v[t], v[s]);
    }
  }

  lemma {:induction false} VisitedExists(ns: Arena, kids: seq<seq<NodeId>>, i: NodeId, j: NodeId)
    requires ForestWith(ns, kids) && i < |ns| && j in Visited(ns, kids, i)
    ensures j < |ns|
  {
    VisitedIsThrough(ns, kids, i, j);
    var n: nat :| ThroughElements(ns, i, j, n);
  }

  // ----- what append_text does to the text of every node -----

  lemma {:induction false} TextOfAllConcat(ns: Arena, kids: seq<seq<NodeId>>, p: NodeId, a: seq<NodeId>, c: NodeId)
    requires ForestWith(ns, kids) && p < |ns| && ChildrenOf(ns, p, a + [c])
    ensures c < |ns| && ChildrenOf(ns, p, a)
    ensures TextOfAll(ns, kids, p, a + [c]) == TextOfAll(ns, kids, p, a) + Text(ns, kids, c)
    decreases |a|
  {
    var l := a + [c];
    assert l[|a|] == c && c in l;
    assert forall d :: d in a ==> d in l;
    if a == [] {
      assert l[1..] == [] && l == [c];
      assert TextOfAll(ns, kids, p, l[1..]) == "";
    } else {
      assert l[1..] == a[1..] + [c];
      TailChildren(ns, p, l);
      TextOfAllConcat(ns, kids, p, a[1..], c);
    }
  }

  /** Nodes other than `x` hold the same data and the same children. */
  ghost predicate SameExcept(ns: Arena, kids: seq<seq<NodeId>>, ms: Arena, kids': seq<seq<NodeId>>, x: NodeId) {
    && |kids| == |ns| <= |ms| == |kids'|
    && forall q :: 0 <= q < |ns| && q != x ==> ms[q].data == ns[q].data && kids'[q] == kids[q]
  }

  /** A node that is not above the changed node keeps its text. */
  lemma {:induction false} TextFrame(ns: Arena, kids: seq<seq<NodeId>>, ms: Arena, kids': seq<seq<NodeId>>,
                                     x: NodeId, i: NodeId)
    requires ForestWith(ns, kids) && ForestWith(ms, kids') && SameExcept(ns, kids, ms, kids', x)
    requires i < |ns| && x < |ns| && !InclusiveAncestor(ns, i, x)
    ensures Text(ms, kids', i) == Text(ns, kids, i)
    decreases Below(ns, i) + 1, 0, 0
  {
    assert Reaches(ns, x, x, 0);
    if ns[i].data.ElementData? {
      KidsAreChildren(ns, kids, i);
      KidsAreChildren(ms, kids', i);
      TextFrameAll(ns, kids, ms, kids', x, i, kids[i]);
    }
  }

  lemma {:induction false} TextFrameAll(ns: Arena, kids: seq<seq<NodeId>>, ms: Arena, kids': seq<seq<NodeId>>,
                                        x: NodeId, p: NodeId, l: seq<NodeId>)
    requires ForestWith(ns, kids) && ForestWith(ms, kids') && SameExcept(ns, kids, ms, kids', x)
    requires p < |ns| && x < |ns| && ChildrenOf(ns, p, l) && ChildrenOf(ms, p, l)
    requires forall c :: c in l ==> !InclusiveAncestor(ns, c, x) || !InclusiveAncestor(ns, p, x)
    ensures TextOfAll(ms, kids', p, l) == TextOfAll(ns, kids, p, l)
    decreases Below(ns, p), 1, |l|
  {
    if l != [] {
      var c := l[0];
      assert c in l;
      TailChildren(ns, p, l);
      TailChildren(ms, p, l);
      ChildIsDeeper(ns, p, c);
      if InclusiveAncestor(ns, c, x) {
        var n: nat :| Reaches(ns, x, c, n);
        ReachesExtend(ns, x, c, p, n);
      }
      TextFrame(ns, kids, ms, kids', x, c);
      TextFrameAll(ns, kids, ms, kids', x, p, l[1..]);
    }
  }

  lemma {:induction false} ReachesExtend(ns: Arena, x: NodeId, c: NodeId, p: NodeId, n: nat)
    requires c < |ns| && ns[c].parent == Some(p) && Reaches(ns, x, c, n)
    ensures Reaches(ns, x, p, n + 1)
    decreases n
  {
    if x == c {
      assert Reaches(ns, p, p, n);
    } else {
      ReachesExtend(ns, ns[x].parent.value, c, p, n - 1);
    }
  }

  /** The node whose own data or child list `append_text` changes. */
  function Changed(ns: Arena, p: NodeId): NodeId {
    if MergesInto(ns, p).Some? then MergesInto(ns, p).value else p
  }

  lemma AppendTextSameExcept(ns: Arena, kids: seq<seq<NodeId>>, p: NodeId, text: string)
    requires |ns| == |kids| && p < |ns|
    ensures SameExcept(ns, kids, AppendTextLinks(ns, p, text), AppendTextKids(ns, kids, p), Changed(ns, p))
  {
    if MergesInto(ns, p).None? {
      var ns1 := ns + [Detached(TextData(text))];
      var ms := AppendTextLinks(ns, p, text);
      AppendNodewise(ns1, p, |ns|);
      forall q | 0 <= q < |ns| ensures ms[q].data == ns[q].data { assert AppendedAt(ns1, ms, p, |ns|, q); }
    }
  }

  /** A child is never above its own parent. */
  lemma ChildNotAbove(ns: Arena, p: NodeId, c: NodeId)
    requires Acyclic(ns) && c < |ns| && ns[c].parent == Some(p)
    ensures !InclusiveAncestor(ns, c, p)
  {
    assert Rooted(ns, c);
    if InclusiveAncestor(ns, c, p) { CycleHasNoRoot(ns, c, p); }
  }

  lemma AppendTextByNewNode(ns: Arena, kids: seq<seq<NodeId>>, p: NodeId, text: string)
    requires ForestWith(ns, kids) && p < |ns| && ns[p].data.ElementData? && MergesInto(ns, p).None?
    ensures var ms, kids' := AppendTextLinks(ns, p, text), AppendTextKids(ns, kids, p);
      ForestWith(ms, kids') && Text(ms, kids', p) == Text(ns, kids, p) + text
  {
    var ms, kids' := AppendTextLinks(ns, p, text), AppendTextKids(ns, kids, p);
    AppendTextRefines(ns, kids, p, text);
    AppendTextSameExcept(ns, kids, p, text);
    KidsAreChildren(ns, kids, p);
    KidsAreChildren(ms, kids', p);
    assert kids'[p] == kids[p] + [|ns|];
    TextOfAllConcat(ms, kids', p, kids[p], |ns|);
    forall c | c in kids[p] ensures !InclusiveAncestor(ns, c, p) { ChildNotAbove(ns, p, c); }
    TextFrameAll(ns, kids, ms, kids', p, p, kids[p]);
    var ns1 := ns + [Detached(TextData(text))];
    AppendNodewise(ns1, p, |ns|);
    assert AppendedAt(ns1, ms, p, |ns|, |ns|) && AppendedAt(ns1, ms, p, |ns|, p);
  }

  lemma AppendTextByMerging(ns: Arena, kids: seq<seq<NodeId>>, p: NodeId, text: string)
    requires ForestWith(ns, kids) && p < |ns| && ns[p].data.ElementData? && MergesInto(ns, p).Some?
    ensures var ms := AppendTextLinks(ns, p, text);
      ForestWith(ms, kids) && Text(ms, kids, p) == Text(ns, kids, p) + text
  {
    var ms, x := AppendTextLinks(ns, p, text), MergesInto(ns, p).value;
    AppendTextRefines(ns, kids, p, text);
    AppendTextSameExcept(ns, kids, p, text);
    KidsAreChildren(ns, kids, p);
    KidsAreChildren(ms, kids, p);
    var init := LastKid(ns, kids, p, x);
    var was := ns[x].data.content;
    assert ms[p].data == ns[p].data && ms[x].data == TextData(was + text);
    hide WellLinked, Acyclic, AppendTextLinks, MergesInto, SameExcept;
    TextOfAllConcat(ns, kids, p, init, x);
    TextOfAllConcat(ms, kids, p, init, x);
    OlderSiblingsNotAbove(ns, kids, p, init, x);
    TextFrameAll(ns, kids, ms, kids, x, p, init);
    assert TextOfAll(ns, kids, p, init) + (was + text) == (TextOfAll(ns, kids, p, init) + was) + text;
  }

  lemma LastKid(ns: Arena, kids: seq<seq<NodeId>>, p: NodeId, x: NodeId) returns (init: seq<NodeId>)
    requires WellLinked(ns, kids) && p < |ns| && ns[p].lastChild == Some(x)
    ensures kids[p] == init + [x] && x !in init
  {
    assert Listed(ns, p, kids[p]);
    init := kids[p][..|kids[p]| - 1];
  }

  lemma OlderSiblingsNotAbove(ns: Arena, kids: seq<seq<NodeId>>, p: NodeId, init: seq<NodeId>, x: NodeId)
    requires ForestWith(ns, kids) && ChildrenOf(ns, p, init + [x]) && x !in init
    ensures forall c :: c in init ==> !InclusiveAncestor(ns, c, x)
  {
    assert (init + [x])[|init|] == x;
    forall c | c in init ensures !InclusiveAncestor(ns, c, x) {
      assert c in init + [x] && x in init + [x];
      forall n: nat ensures !Reaches(ns, x, c, n) { SiblingNotAbove(ns, kids, p, x, c, n); }
    }
  }

  lemma SiblingNotAbove(ns: Arena, kids: seq<seq<NodeId>>, p: NodeId, x: NodeId, c: NodeId, n: nat)
    requires ForestWith(ns, kids) && ChildrenOf(ns, p, [x, c]) && x != c
    ensures !Reaches(ns, x, c, n)
  {
    assert x in [x, c] && c in [x, c];
    ChildNotAbove(ns, p, c);
    if n > 0 { assert !Reaches(ns, p, c, n - 1); }
  }

  // ----- the text of the nodes above the change -----

  /** The text of `x` and the child lists under `p` change; other nodes keep their data and children. */
  ghost predicate TextChange(ns: Arena, kids: seq<seq<NodeId>>, ms: Arena, kids': seq<seq<NodeId>>,
                             p: NodeId, x: NodeId) {
    && ForestWith(ns, kids) && ForestWith(ms, kids') && SameExcept(ns, kids, ms, kids', x)
    && p < |ns| && x < |ns| && (x == p || (ns[x].parent == Some(p) && ns[x].data.TextData?))
  }

  /** A node that does not visit `p`, and is not the text that changed, keeps its text. */
  lemma {:induction false} TextUnvisited(ns: Arena, kids: seq<seq<NodeId>>, ms: Arena, kids': seq<seq<NodeId>>,
                                         p: NodeId, x: NodeId, i: NodeId)
    requires TextChange(ns, kids, ms, kids', p, x) && i < |ns| && i != x && p !in Visited(ns, kids, i)
    ensures Text(ms, kids', i) == Text(ns, kids, i)
    decreases Below(ns, i) + 1, 0, 0
  {
    if ns[i].data.ElementData? {
      KidsAreChildren(ns, kids, i);
      KidsAreChildren(ms, kids', i);
      TextUnvisitedAll(ns, kids, ms, kids', p, x, i, kids[i]);
    }
  }

  lemma {:induction false} TextUnvisitedAll(ns: Arena, kids: seq<seq<NodeId>>, ms: Arena, kids': seq<seq<NodeId>>,
                                            p: NodeId, x: NodeId, i: NodeId, l: seq<NodeId>)
    requires TextChange(ns, kids, ms, kids', p, x) && i < |ns| && i != p
    requires ChildrenOf(ns, i, l) && ChildrenOf(ms, i, l) && p !in VisitedAll(ns, kids, i, l)
    ensures TextOfAll(ms, kids', i, l) == TextOfAll(ns, kids, i, l)
    decreases Below(ns, i), 1, |l|
  {
    assert |ns| <= |ms|;
    hide Acyclic, WellLinked, SameExcept;
    if l != [] {
      var c := l[0];
      TailChildren(ns, i, l);
      TailChildren(ms, i, l);
      ChildIsDeeper(ns, i, c);
      ChildIsDeeper(ms, i, c);
      VisitsItself(ns, kids, c);
      TextUnvisited(ns, kids, ms, kids', p, x, c);
      TextUnvisitedAll(ns, kids, ms, kids', p, x, i, l[1..]);
    }
  }

  lemma VisitsItself(ns: Arena, kids: seq<seq<NodeId>>, i: NodeId)
    requires ForestWith(ns, kids) && i < |ns|
    ensures Visited(ns, kids, i) != [] && Visited(ns, kids, i)[0] == i && i in Visited(ns, kids, i)
  {
  }

  function Framed(left: string, middle: string, right: string): string {
    left + middle + right
  }

  lemma FramedEnd(left: string, middle: string, right: string, t: string)
    ensures Framed(left, middle, right) + t == Framed(left, middle, right + t)
  {
  }

  lemma FramedStart(t: string, left: string, middle: string, right: string)
    ensures t + Framed(left, middle, right) == Framed(t + left, middle, right)
  {
  }

  /**
  The nodes `v` are the block `w` between `left` and `right`; the texts `before`
  and `after` are those of `v` with `was` and `now` in the place of the block's.
  */
  ghost predicate Around(ns: Arena, v: seq<NodeId>, left: seq<NodeId>, w: seq<NodeId>, right: seq<NodeId>,
                         before: string, after: string, was: string, now: string) {
    && v == left + w + right
    && before == Framed(Contents(ns, left), was, Contents(ns, right))
    && after == Framed(Contents(ns, left), now, Contents(ns, right))
  }

  lemma AroundWhole(ns: Arena, w: seq<NodeId>, was: string, now: string)
    ensures Around(ns, w, [], w, [], was, now, was, now)
  {
    assert [] + w + [] == w && Contents(ns, []) == "";
    assert Framed("", was, "") == was && Framed("", now, "") == now;
  }

  lemma Regroup(a: seq<NodeId>, b: seq<NodeId>, c: seq<NodeId>, d: seq<NodeId>)
    ensures a + (b + c + d) == (a + b) + c + d && (a + b + c) + d == a + b + (c + d)
  {
  }

  /** Nodes with an unchanged text after the block's surroundings. */
  lemma AroundFirst(ns: Arena, a: seq<NodeId>, b: seq<NodeId>, left: seq<NodeId>, w: seq<NodeId>, right: seq<NodeId>,
                    before: string, after: string, was: string, now: string)
    requires Around(ns, a, left, w, right, before, after, was, now)
    ensures Around(ns, a + b, left, w, right + b, before + Contents(ns, b), after + Contents(ns, b), was, now)
  {
    hide Contents, Framed;
    Regroup(left, w, right, b);
    ContentsConcat(ns, right, b);
    FramedEnd(Contents(ns, left), was, Contents(ns, right), Contents(ns, b));
    FramedEnd(Contents(ns, left), now, Contents(ns, right), Contents(ns, b));
  }

  /** Nodes with an unchanged text before the block's surroundings. */
  lemma AroundRest(ns: Arena, a: seq<NodeId>, b: seq<NodeId>, left: seq<NodeId>, w: seq<NodeId>, right: seq<NodeId>,
                   before: string, after: string, was: string, now: string)
    requires Around(ns, b, left, w, right, before, after, was, now)
    ensures Around(ns, a + b, a + left, w, right, Contents(ns, a) + before, Contents(ns, a) + after, was, now)
  {
    hide Contents, Framed;
    Regroup(a, left, w, right);
    ContentsConcat(ns, a, left);
    FramedStart(Contents(ns, a), Contents(ns, left), was, Contents(ns, right));
    FramedStart(Contents(ns, a), Contents(ns, left), now, Contents(ns, right));
  }

  /** A node that visits `p` keeps its text but for that of `p`, in its place. */
  lemma {:induction false} TextAround(ns: Arena, kids: seq<seq<NodeId>>, ms: Arena, kids': seq<seq<NodeId>>,
                                      p: NodeId, x: NodeId, i: NodeId) returns (left: seq<NodeId>, right: seq<NodeId>)
    requires TextChange(ns, kids, ms, kids', p, x) && i < |ns| && p in Visited(ns, kids, i)
    ensures Around(ns, Visited(ns, kids, i), left, Visited(ns, kids, p), right,
                   Text(ns, kids, i), Text(ms, kids', i), Text(ns, kids, p), Text(ms, kids', p))
    decreases Below(ns, i) + 1, 0, 0
  {
    hide Around, Acyclic, WellLinked;
    var w, was, now := Visited(ns, kids, p), Text(ns, kids, p), Text(ms, kids', p);
    if i == p {
      left, right := [], [];
      AroundWhole(ns, w, was, now);
    } else {
      KidsAreChildren(ns, kids, i);
      KidsAreChildren(ms, kids', i);
      assert Listed(ns, i, kids[i]) by { ListedAt(ns, kids, i); }
      left, right := TextAroundAll(ns, kids, ms, kids', p, x, i, kids[i]);
      assert Contents(ns, [i]) == "" + Contents(ns, []) == "";
      AroundRest(ns, [i], VisitedAll(ns, kids, i, kids[i]), left, w, right,
                 Text(ns, kids, i), Text(ms, kids', i), was, now);
      Unpadded(Text(ns, kids, i));
      Unpadded(Text(ms, kids', i));
      left := [i] + left;
    }
  }

  lemma ListedAt(ns: Arena, kids: seq<seq<NodeId>>, i: NodeId)
    requires WellLinked(ns, kids) && i < |ns|
    ensures Listed(ns, i, kids[i])
  {
  }

  lemma Unpadded(t: string)
    ensures "" + t == t
  {
  }

  lemma {:induction false} TextAroundAll(ns: Arena, kids: seq<seq<NodeId>>, ms: Arena, kids': seq<seq<NodeId>>,
                                         p: NodeId, x: NodeId, i: NodeId, l: seq<NodeId>)
    returns (left: seq<NodeId>, right: seq<NodeId>)
    requires TextChange(ns, kids, ms, kids', p, x) && i < |ns| && i != p && Distinct(l)
    requires ChildrenOf(ns, i, l) && ChildrenOf(ms, i, l) && p in VisitedAll(ns, kids, i, l)
    ensures Around(ns, VisitedAll(ns, kids, i, l), left, Visited(ns, kids, p), right,
                   TextOfAll(ns, kids, i, l), TextOfAll(ms, kids', i, l), Text(ns, kids, p), Text(ms, kids', p))
    decreases Below(ns, i), 1, |l|
  {
    hide Around, Acyclic, WellLinked;
    var c, rest := l[0], l[1..];
    TailChildren(ns, i, l);
    TailChildren(ms, i, l);
    ChildIsDeeper(ns, i, c);
    ChildIsDeeper(ms, i, c);
    VisitedAllOnce(ns, kids, i, l);
    var w, was, now := Visited(ns, kids, p), Text(ns, kids, p), Text(ms, kids', p);
    var a, b := Visited(ns, kids, c), VisitedAll(ns, kids, i, rest);
    TextIsVisitedContents(ns, kids, c);
    AllTextIsVisitedContents(ns, kids, i, rest);
    if p in a {
      NotInBoth(a, b, p);
      left, right := TextAround(ns, kids, ms, kids', p, x, c);
      TextUnvisitedAll(ns, kids, ms, kids', p, x, i, rest);
      AroundFirst(ns, a, b, left, w, right, Text(ns, kids, c), Text(ms, kids', c), was, now);
      right := right + b;
    } else {
      VisitsItself(ns, kids, c);
      TextUnvisited(ns, kids, ms, kids', p, x, c);
      left, right := TextAroundAll(ns, kids, ms, kids', p, x, i, rest);
      AroundRest(ns, a, b, left, w, right,
                 TextOfAll(ns, kids, i, rest), TextOfAll(ms, kids', i, rest), was, now);
      left := a + left;
    }
  }

  lemma NotInBoth(a: seq<NodeId>, b: seq<NodeId>, p: NodeId)
    requires Distinct(a + b) && p in a
    ensures p !in b
  {
    var j :| 0 <= j < |a| && a[j] == p;
    forall k | 0 <= k < |b| ensures b[k] != p { assert (a + b)[j] == p && (a + b)[|a| + k] == b[k]; }
  }

  lemma AppendTextChanges(ns: Arena, kids: seq<seq<NodeId>>, p: NodeId, text: string)
    requires ForestWith(ns, kids) && p < |ns|
    ensures TextChange(ns, kids, AppendTextLinks(ns, p, text), AppendTextKids(ns, kids, p), p, Changed(ns, p))
  {
    AppendTextRefines(ns, kids, p, text);
    AppendTextSameExcept(ns, kids, p, text);
    if MergesInto(ns, p).Some? { MergedIsChild(ns, kids, p); }
  }

  lemma MergedIsChild(ns: Arena, kids: seq<seq<NodeId>>, p: NodeId)
    requires ForestWith(ns, kids) && p < |ns| && MergesInto(ns, p).Some?
    ensures ns[MergesInto(ns, p).value].parent == Some(p) && MergesInto(ns, p).value != p
  {
    var x := MergesInto(ns, p).value;
    KidsAreChildren(ns, kids, p);
    var init := LastKid(ns, kids, p, x);
    assert (init + [x])[|init|] in kids[p];
    ChildNotAbove(ns, p, x);
    assert Reaches(ns, p, p, 0);
  }

  /** The data of `p` itself is never what changes. */
  lemma AppendTextKeepsData(ns: Arena, kids: seq<seq<NodeId>>, p: NodeId, text: string)
    requires ForestWith(ns, kids) && p < |ns|
    ensures |AppendTextLinks(ns, p, text)| >= |ns| && AppendTextLinks(ns, p, text)[p].data == ns[p].data
  {
    AppendTextChanges(ns, kids, p, text);
    if MergesInto(ns, p).None? {
      var ns1 := ns + [Detached(TextData(text))];
      AppendNodewise(ns1, p, |ns|);
      assert AppendedAt(ns1, AppendTextLinks(ns, p, text), p, |ns|, p);
    } else {
      MergedIsChild(ns, kids, p);
    }
  }

  /** `i` is the text node at the end of the parent's list. */
  predicate IsMerged(ns: Arena, kids: seq<seq<NodeId>>, p: NodeId, i: NodeId)
    requires p < |ns| == |kids|
  {
    EndsInText(ns, kids, p) && i == kids[p][|kids[p]| - 1]
  }

  /**
  `append_text` and the text of every node: an element's own text becomes the
  old text followed by the new, no other kind of parent's text changes; a text
  node merged into grows by the new text; a node that reaches the parent
  through elements keeps its text around that of the parent, in its place; and
  every other node keeps its text.
  */
  lemma AppendTextAppends(ns: Arena, kids: seq<seq<NodeId>>, p: NodeId, text: string, i: NodeId)
    requires ForestWith(ns, kids) && p < |ns| && i < |ns|
    ensures var ms, kids' := AppendTextLinks(ns, p, text), AppendTextKids(ns, kids, p);
      && ForestWith(ms, kids')
      && Text(ms, kids', p) == Text(ns, kids, p) + (if ns[p].data.ElementData? then text else "")
      && (IsMerged(ns, kids, p, i) ==> Text(ms, kids', i) == Text(ns, kids, i) + text)
      && (!IsMerged(ns, kids, p, i) && p !in Visited(ns, kids, i) ==> Text(ms, kids', i) == Text(ns, kids, i))
      && (p in Visited(ns, kids, i) ==>
            exists left, right :: Around(ns, Visited(ns, kids, i), left, Visited(ns, kids, p), right,
              Text(ns, kids, i), Text(ms, kids', i), Text(ns, kids, p), Text(ms, kids', p)))
  {
    var ms, kids', x := AppendTextLinks(ns, p, text), AppendTextKids(ns, kids, p), Changed(ns, p);
    AppendTextChanges(ns, kids, p, text);
    ParentText(ns, kids, p, text);
    MergesIntoIs(ns, kids, p);
    if MergesInto(ns, p) == Some(i) { assert ms[i].data == TextData(ns[i].data.content + text); }
    hide Around, AppendTextLinks, AppendTextKids, MergesInto, WellLinked, Acyclic;
    if p in Visited(ns, kids, i) {
      var left, right := TextAround(ns, kids, ms, kids', p, x, i);
    } else {
      VisitsItself(ns, kids, i);
      if i != x { TextUnvisited(ns, kids, ms, kids', p, x, i); }
    }
  }

  lemma ParentText(ns: Arena, kids: seq<seq<NodeId>>, p: NodeId, text: string)
    requires ForestWith(ns, kids) && p < |ns|
    ensures var ms, kids' := AppendTextLinks(ns, p, text), AppendTextKids(ns, kids, p);
      && ForestWith(ms, kids')
      && Text(ms, kids', p) == Text(ns, kids, p) + (if ns[p].data.ElementData? then text else "")
  {
    AppendTextRefines(ns, kids, p, text);
    if ns[p].data.ElementData? {
      if MergesInto(ns, p).Some? {
        AppendTextByMerging(ns, kids, p, text);
      } else {
        AppendTextByNewNode(ns, kids, p, text);
      }
    } else {
      AppendTextKeepsData(ns, kids, p, text);
    }
  }
}
