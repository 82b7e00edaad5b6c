/**
The arena behind `kpio-dom`'s `Document`: nodes in one vector, five intrusive
links each.  This module defines the link surgery as functions on the vector
and what it means for a vector to be a forest; `DomProofs` relates the two.
*/
module DomForest {
  import opened Wrappers

  type NodeId = nat

  datatype NodeData =
    | DocumentData
    | ElementData(name: string, attrs: seq<(string, string)>, idAttr: Option<string>)
    | TextData(content: string)
    | CommentData(comment: string)

  datatype Node = Node(
    data: NodeData,
    parent: Option<NodeId>,
    firstChild: Option<NodeId>,
    lastChild: Option<NodeId>,
    prev: Option<NodeId>,
    next: Option<NodeId>)

  type Arena = seq<Node>

  function Detached(data: NodeData): Node {
    Node(data, None, None, None, None, None)
  }

  // ----- the link surgery, one function per `get_mut` block -----

  function SetParent(ns: Arena, i: NodeId, v: Option<NodeId>): Arena {
    if i < |ns| then ns[i := ns[i].(parent := v)] else ns
  }

  function SetPrev(ns: Arena, i: NodeId, v: Option<NodeId>): Arena {
    if i < |ns| then ns[i := ns[i].(prev := v)] else ns
  }

  function SetNext(ns: Arena, i: NodeId, v: Option<NodeId>): Arena {
    if i < |ns| then ns[i := ns[i].(next := v)] else ns
  }

  function SetFirst(ns: Arena, i: NodeId, v: Option<NodeId>): Arena {
    if i < |ns| then ns[i := ns[i].(firstChild := v)] else ns
  }

  function SetLast(ns: Arena, i: NodeId, v: Option<NodeId>): Arena {
    if i < |ns| then ns[i := ns[i].(lastChild := v)] else ns
  }

  function LastOf(ns: Arena, p: NodeId): Option<NodeId> {
    if p < |ns| then ns[p].lastChild else None
  }

  function PrevOf(ns: Arena, i: NodeId): Option<NodeId> {
    if i < |ns| then ns[i].prev else None
  }

  function AppendLinks(ns: Arena, p: NodeId, c: NodeId): Arena {
    var n1 := SetParent(ns, c, Some(p));
    var last := LastOf(n1, p);
    var n2 := if last.Some? then SetNext(n1, last.value, Some(c)) else n1;
    var n3 := SetPrev(n2, c, last);
    var n4 := if p < |n3| && n3[p].firstChild.None? then SetFirst(n3, p, Some(c)) else n3;
    SetLast(n4, p, Some(c))
  }

  function InsertLinks(ns: Arena, p: NodeId, c: NodeId, r: Option<NodeId>): Arena {
    if r.None? then AppendLinks(ns, p, c) else
    var before := PrevOf(ns, r.value);
    var n1 := SetNext(SetPrev(SetParent(ns, c, Some(p)), c, before), c, r);
    var n2 := SetPrev(n1, r.value, Some(c));
    if before.Some? then SetNext(n2, before.value, Some(c)) else SetFirst(n2, p, Some(c))
  }

  function RemoveLinks(ns: Arena, c: NodeId): Arena {
    if c >= |ns| then ns else
    var n := ns[c];
    var n1 := if n.prev.Some? then SetNext(ns, n.prev.value, n.next)
              else if n.parent.Some? then SetFirst(ns, n.parent.value, n.next) else ns;
    var n2 := if n.next.Some? then SetPrev(n1, n.next.value, n.prev)
              else if n.parent.Some? then SetLast(n1, n.parent.value, n.prev) else n1;
    SetNext(SetPrev(SetParent(n2, c, None), c, None), c, None)
  }

  /** `append_text`: merge into a last text child, or append a new text node. */
  function AppendTextLinks(ns: Arena, p: NodeId, text: string): Arena {
    if MergesInto(ns, p).Some? then
      var l := MergesInto(ns, p).value;
      ns[l := ns[l].(data := TextData(ns[l].data.content + text))]
    else
      AppendLinks(ns + [Detached(TextData(text))], p, |ns|)
  }

  function MergesInto(ns: Arena, p: NodeId): (l: Option<NodeId>)
    ensures l.Some? ==> l.value < |ns| && ns[l.value].data.TextData?
  {
    if LastOf(ns, p).Some? && LastOf(ns, p).value < |ns| && ns[LastOf(ns, p).value].data.TextData?
    then LastOf(ns, p) else None
  }

  // ----- what a forest is -----

  /** `l` is linked as the ordered child list of `p`, each node at one position. */
  ghost predicate Listed(ns: Arena, p: NodeId, l: seq<NodeId>)
    requires p < |ns|
  {
    && ns[p].firstChild == (if l == [] then None else Some(l[0]))
    && ns[p].lastChild == (if l == [] then None else Some(l[|l| - 1]))
    && (forall j :: 0 <= j < |l| ==> ChildAt(ns, p, l, j))
    && (forall i, j :: 0 <= i < j < |l| ==> l[i] != l[j])
  }

  ghost predicate ChildAt(ns: Arena, p: NodeId, l: seq<NodeId>, j: nat)
    requires j < |l|
  {
    && l[j] < |ns|
    && ns[l[j]].parent == Some(p)
    && ns[l[j]].prev == (if j == 0 then None else Some(l[j - 1]))
    && ns[l[j]].next == (if j == |l| - 1 then None else Some(l[j + 1]))
  }

  ghost predicate Placed(ns: Arena, kids: seq<seq<NodeId>>, c: NodeId)
    requires c < |ns| == |kids|
  {
    match ns[c].parent
    case None => ns[c].prev.None? && ns[c].next.None?
    case Some(p) => p < |ns| && c in kids[p]
  }

  /** Every link agrees with one ordered child list per node. */
  ghost predicate WellLinked(ns: Arena, kids: seq<seq<NodeId>>) {
    && |kids| == |ns|
    && (forall p :: 0 <= p < |ns| ==> Listed(ns, p, kids[p]))
    && (forall c :: 0 <= c < |ns| ==> Placed(ns, kids, c))
  }

  /** The parent chain of `i` ends after exactly `n` steps. */
  ghost predicate ChainLen(ns: Arena, i: NodeId, n: nat)
    decreases n
  {
    i < |ns| &&
    match ns[i].parent
    case None => n == 0
    case Some(p) => n > 0 && ChainLen(ns, p, n - 1)
  }

  ghost predicate Rooted(ns: Arena, i: NodeId) {
    exists n: nat :: ChainLen(ns, i, n)
  }

  ghost predicate Acyclic(ns: Arena) {
    forall i: NodeId :: i < |ns| ==> Rooted(ns, i)
  }

  /** `a` is reached from `i` in at most `n` parent steps. */
  ghost predicate Reaches(ns: Arena, i: NodeId, a: NodeId, n: nat)
    decreases n
  {
    i == a ||
    (n > 0 && i < |ns| && ns[i].parent.Some? && Reaches(ns, ns[i].parent.value, a, n - 1))
  }

  ghost predicate InclusiveAncestor(ns: Arena, a: NodeId, i: NodeId) {
    exists n: nat :: Reaches(ns, i, a, n)
  }

  ghost predicate ForestWith(ns: Arena, kids: seq<seq<NodeId>>) {
    WellLinked(ns, kids) && Acyclic(ns)
  }

  ghost predicate Forest(ns: Arena) {
    exists kids :: ForestWith(ns, kids)
  }

  // ----- what a caller can check before the call -----

  /** The child is in no list and putting it under `p` closes no cycle. */
  ghost predicate Attachable(ns: Arena, p: NodeId, c: NodeId) {
    p < |ns| && c < |ns| && ns[c].parent.None? && !InclusiveAncestor(ns, c, p)
  }

  ghost predicate AppendOk(ns: Arena, p: NodeId, c: NodeId) {
    Attachable(ns, p, c) || (p >= |ns| && c >= |ns|)
  }

  ghost predicate InsertOk(ns: Arena, p: NodeId, c: NodeId, r: Option<NodeId>) {
    match r
    case None => AppendOk(ns, p, c)
    case Some(b) =>
      || (Attachable(ns, p, c) && b < |ns| && ns[b].parent == Some(p))
      || (p >= |ns| && c >= |ns| && b >= |ns|)
  }
}
