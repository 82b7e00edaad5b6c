/** The mutable `Document`, its link updates written out as the source performs them. */
module DomDocument {
  import opened Wrappers
  import opened DomForest
  import opened DomProofs
  import opened DomText

  /** The first attribute named `id`. */
  function FirstId(attrs: seq<(string, string)>): Option<string> {
    if attrs == [] then None
    else if attrs[0].0 == "id" then Some(attrs[0].1)
    else FirstId(attrs[1..])
  }

  predicate HasId(n: Node, k: string) {
    n.data.ElementData? && n.data.idAttr == Some(k)
  }

  /** The first attribute named `id` is at `j`. */
  ghost predicate IdAt(attrs: seq<(string, string)>, j: nat) {
    j < |attrs| && attrs[j].0 == "id" && forall i :: 0 <= i < j ==> attrs[i].0 != "id"
  }

  lemma {:induction false} FirstIdIs(attrs: seq<(string, string)>) returns (j: nat)
    ensures FirstId(attrs).Some? ==> IdAt(attrs, j) && attrs[j].1 == FirstId(attrs).value
    ensures FirstId(attrs).None? ==> forall i :: 0 <= i < |attrs| ==> attrs[i].0 != "id"
  {
    j := 0;
    if attrs != [] && attrs[0].0 != "id" {
      j := FirstIdIs(attrs[1..]);
      j := j + 1;
      assert forall i :: 0 < i < |attrs| ==> attrs[i] == attrs[1..][i - 1];
    }
  }

  /** Every element's stored id is that of its attributes. */
  predicate IdsStored(ns: Arena) {
    forall i :: 0 <= i < |ns| && ns[i].data.ElementData? ==> ns[i].data.idAttr == FirstId(ns[i].data.attrs)
  }

  /** An element whose first attribute named `id` has the value `k`. */
  ghost predicate CarriesId(n: Node, k: string) {
    n.data.ElementData? && exists j: nat :: IdAt(n.data.attrs, j) && n.data.attrs[j].1 == k
  }

  lemma StoredIdIs(ns: Arena, i: NodeId, k: string)
    requires IdsStored(ns) && i < |ns|
    ensures HasId(ns[i], k) <==> CarriesId(ns[i], k)
  {
    if ns[i].data.ElementData? { var j := FirstIdIs(ns[i].data.attrs); }
  }

  /** `id_map` names, for each id in use, the newest element that carries it. */
  ghost predicate Indexed(ns: Arena, ids: map<string, NodeId>) {
    && IdsStored(ns)
    && (forall k :: k in ids ==>
          && ids[k] < |ns|
          && HasId(ns[ids[k]], k)
          && forall i :: ids[k] < i < |ns| ==> !HasId(ns[i], k))
    && (forall i, k :: 0 <= i < |ns| && HasId(ns[i], k) ==> k in ids)
  }

  lemma IndexedAfterCreate(ns: Arena, ids: map<string, NodeId>, data: NodeData)
    requires Indexed(ns, ids) && (data.ElementData? ==> data.idAttr == FirstId(data.attrs))
    ensures Indexed(ns + [Detached(data)],
                    if data.ElementData? && data.idAttr.Some? then ids[data.idAttr.value := |ns|] else ids)
  {
    var ms := ns + [Detached(data)];
    assert forall i :: 0 <= i < |ns| ==> ms[i] == ns[i];
    assert ms[|ns|] == Detached(data);
  }

  ghost predicate SameData(ns: Arena, ms: Arena) {
    |ns| == |ms| && forall k :: 0 <= k < |ns| ==> ms[k].data == ns[k].data
  }

  lemma AppendSameData(ns: Arena, p: NodeId, c: NodeId)
    ensures SameData(ns, AppendLinks(ns, p, c))
  {
  }

  lemma InsertSameData(ns: Arena, p: NodeId, c: NodeId, r: Option<NodeId>)
    ensures SameData(ns, InsertLinks(ns, p, c, r))
  {
    if r.None? {
      AppendSameData(ns, p, c);
    } else {
      var before := PrevOf(ns, r.value);
      var n1 := SetNext(SetPrev(SetParent(ns, c, Some(p)), c, before), c, r);
      assert SameData(ns, n1);
      var n2 := SetPrev(n1, r.value, Some(c));
      assert SameData(n1, n2);
      hide SetPrev, SetParent;
      assert SameData(n2, InsertLinks(ns, p, c, r));
    }
  }

  lemma RemoveSameData(ns: Arena, c: NodeId)
    ensures SameData(ns, RemoveLinks(ns, c))
  {
  }

  lemma IndexedSameIds(ns: Arena, ms: Arena, ids: map<string, NodeId>)
    requires Indexed(ns, ids) && |ns| == |ms|
    requires forall i :: 0 <= i < |ns| ==> ms[i].data == ns[i].data || (ms[i].data.TextData? && ns[i].data.TextData?)
    ensures Indexed(ms, ids)
  {
  }

  /** What an append does to the abstract document, and exactly when it stays one. */
  lemma AfterAppend(ns: Arena, kids: seq<seq<NodeId>>, ids: map<string, NodeId>, p: NodeId, c: NodeId)
    returns (kids': seq<seq<NodeId>>)
    requires ForestWith(ns, kids) && Indexed(ns, ids)
    ensures var ms := AppendLinks(ns, p, c);
      && Indexed(ms, ids) && |ms| == |ns|
      && (Forest(ms) <==> AppendOk(ns, p, c))
      && (AppendOk(ns, p, c) ==> ForestWith(ms, kids'))
    ensures Attachable(ns, p, c) ==> p < |kids| && kids' == AppendKids(kids, p, c)
  {
    AppendSameData(ns, p, c);
    IndexedSameIds(ns, AppendLinks(ns, p, c), ids);
    AppendKeepsForestIff(ns, p, c);
    kids' := kids;
    if Attachable(ns, p, c) {
      AppendRefines(ns, kids, p, c);
      kids' := AppendKids(kids, p, c);
    }
  }

  lemma AfterInsert(ns: Arena, kids: seq<seq<NodeId>>, ids: map<string, NodeId>, p: NodeId, c: NodeId, b: NodeId)
    returns (kids': seq<seq<NodeId>>)
    requires ForestWith(ns, kids) && Indexed(ns, ids)
    ensures var ms := InsertLinks(ns, p, c, Some(b));
      && Indexed(ms, ids) && |ms| == |ns|
      && (Forest(ms) <==> InsertOk(ns, p, c, Some(b)))
      && (InsertOk(ns, p, c, Some(b)) ==> ForestWith(ms, kids'))
    ensures InsertOk(ns, p, c, Some(b)) && c < |ns| ==>
      p < |kids| && b in kids[p] && kids' == InsertKids(kids, p, c, IndexOf(kids[p], b))
  {
    InsertSameData(ns, p, c, Some(b));
    IndexedSameIds(ns, InsertLinks(ns, p, c, Some(b)), ids);
    InsertKeepsForestIff(ns, p, c, Some(b));
    kids' := kids;
    if InsertOk(ns, p, c, Some(b)) && c < |ns| {
      assert Placed(ns, kids, b);
      InsertRefines(ns, kids, p, c, IndexOf(kids[p], b));
      kids' := InsertKids(kids, p, c, IndexOf(kids[p], b));
    }
  }

  lemma AfterRemove(ns: Arena, kids: seq<seq<NodeId>>, ids: map<string, NodeId>, c: NodeId)
    returns (kids': seq<seq<NodeId>>)
    requires ForestWith(ns, kids) && Indexed(ns, ids)
    ensures var ms := RemoveLinks(ns, c); Indexed(ms, ids) && |ms| == |ns| && ForestWith(ms, kids')
    ensures c >= |ns| || ns[c].parent.None? ==> RemoveLinks(ns, c) == ns && kids' == kids
    ensures c < |ns| && ns[c].parent.Some? ==>
      var p := ns[c].parent.value;
      p < |kids| && c in kids[p] && kids' == RemoveKids(kids, p, IndexOf(kids[p], c))
  {
    RemoveSameData(ns, c);
    IndexedSameIds(ns, RemoveLinks(ns, c), ids);
    kids' := kids;
    if c < |ns| && ns[c].parent.Some? {
      assert Placed(ns, kids, c);
      var p := ns[c].parent.value;
      RemoveRefines(ns, kids, p, IndexOf(kids[p], c));
      kids' := RemoveKids(kids, p, IndexOf(kids[p], c));
    } else {
      RemoveRootIsNoop(ns, kids, c);
    }
  }

  lemma NothingAfter(ns: Arena, kids: seq<seq<NodeId>>, p: NodeId, l: seq<NodeId>)
    requires ForestWith(ns, kids) && p < |ns| && ChildrenOf(ns, p, l)
    ensures l[0..] == l && l[|l|..] == [] && ChildrenOf(ns, p, []) && TextOfAll(ns, kids, p, []) == ""
  {
  }

  class Document {
    var nodes: Arena
    var idMap: map<string, NodeId>
    ghost var kids: seq<seq<NodeId>>

    ghost predicate Valid()
      reads this
    {
      ForestWith(nodes, kids) && Indexed(nodes, idMap) && nodes != []
    }

    constructor ()
      ensures Valid() && nodes == [Detached(DocumentData)] && idMap == map[] && kids == [[]]
    {
      nodes, idMap, kids := [Detached(DocumentData)], map[], [[]];
      NewDocumentIsForest();
    }

    method CreateElement(name: string, attrs: seq<(string, string)>) returns (id: NodeId)
      requires Valid()
      modifies this
      ensures Valid() && id == |old(nodes)| && kids == old(kids) + [[]]
      ensures nodes == old(nodes) + [Detached(ElementData(name, attrs, FirstId(attrs)))]
      ensures idMap == if FirstId(attrs).Some? then old(idMap)[FirstId(attrs).value := id] else old(idMap)
    {
      id := |nodes|;
      var idAttr := FirstId(attrs);
      if idAttr.Some? {
        idMap := idMap[idAttr.value := id];
      }
      CreateRefines(nodes, kids, ElementData(name, attrs, idAttr));
      nodes, kids := nodes + [Detached(ElementData(name, attrs, idAttr))], kids + [[]];
      IndexedAfterCreate(old(nodes), old(idMap), ElementData(name, attrs, idAttr));
    }

    method CreateText(content: string) returns (id: NodeId)
      requires Valid()
      modifies this
      ensures Valid() && id == |old(nodes)| && kids == old(kids) + [[]]
      ensures nodes == old(nodes) + [Detached(TextData(content))] && idMap == old(idMap)
    {
      id := |nodes|;
      CreateRefines(nodes, kids, TextData(content));
      IndexedAfterCreate(nodes, idMap, TextData(content));
      nodes, kids := nodes + [Detached(TextData(content))], kids + [[]];
    }

    method CreateComment(content: string) returns (id: NodeId)
      requires Valid()
      modifies this
      ensures Valid() && id == |old(nodes)| && kids == old(kids) + [[]]
      ensures nodes == old(nodes) + [Detached(CommentData(content))] && idMap == old(idMap)
    {
      id := |nodes|;
      CreateRefines(nodes, kids, CommentData(content));
      IndexedAfterCreate(nodes, idMap, CommentData(content));
      nodes, kids := nodes + [Detached(CommentData(content))], kids + [[]];
    }

    method AppendChild(p: NodeId, c: NodeId)
      requires Valid()
      modifies this
      ensures nodes == AppendLinks(old(nodes), p, c) && idMap == old(idMap)
      ensures Forest(nodes) <==> AppendOk(old(nodes), p, c)
      ensures AppendOk(old(nodes), p, c) ==> Valid()
      ensures Attachable(old(nodes), p, c) ==> p < |old(kids)| && kids == AppendKids(old(kids), p, c)
    {
      hide ForestWith, Forest, Attachable, Indexed;
      nodes := SetParent(nodes, c, Some(p));
      var oldLast := LastOf(nodes, p);
      if oldLast.Some? {
        nodes := SetNext(nodes, oldLast.value, Some(c));
      }
      nodes := SetPrev(nodes, c, oldLast);
      if p < |nodes| {
        if nodes[p].firstChild.None? {
          nodes := SetFirst(nodes, p, Some(c));
        }
        nodes := SetLast(nodes, p, Some(c));
      }
      assert nodes == AppendLinks(old(nodes), p, c);
      hide AppendLinks, AppendOk;
      kids := AfterAppend(old(nodes), kids, idMap, p, c);
    }

    method InsertBefore(p: NodeId, c: NodeId, r: Option<NodeId>)
      requires Valid()
      modifies this
      ensures nodes == InsertLinks(old(nodes), p, c, r) && idMap == old(idMap)
      ensures Forest(nodes) <==> InsertOk(old(nodes), p, c, r)
      ensures InsertOk(old(nodes), p, c, r) ==> Valid()
      ensures InsertOk(old(nodes), p, c, r) && c < |nodes| ==>
        && p < |old(kids)|
        && (r.None? ==> kids == AppendKids(old(kids), p, c))
        && (r.Some? ==> r.value in old(kids)[p] && kids == InsertKids(old(kids), p, c, IndexOf(old(kids)[p], r.value)))
    {
      hide ForestWith, Forest, Attachable, Indexed;
      if r.None? {
        AppendChild(p, c);
        return;
      }
      var refId := r.value;
      var prevId := PrevOf(nodes, refId);
      if c < |nodes| {
        nodes := nodes[c := nodes[c].(parent := Some(p), prev := prevId, next := Some(refId))];
      }
      nodes := SetPrev(nodes, refId, Some(c));
      if prevId.Some? {
        nodes := SetNext(nodes, prevId.value, Some(c));
      } else {
        nodes := SetFirst(nodes, p, Some(c));
      }
      assert nodes == InsertLinks(old(nodes), p, c, r);
      hide InsertLinks, InsertOk;
      kids := AfterInsert(old(nodes), kids, idMap, p, c, refId);
    }

    method RemoveChild(c: NodeId)
      requires Valid()
      modifies this
      ensures Valid() && nodes == RemoveLinks(old(nodes), c) && idMap == old(idMap)
      ensures c >= |nodes| || old(nodes)[c].parent.None? ==> nodes == old(nodes) && kids == old(kids)
      ensures c < |nodes| && old(nodes)[c].parent.Some? ==>
        var p := old(nodes)[c].parent.value;
        p < |old(kids)| && c in old(kids)[p] && kids == RemoveKids(old(kids), p, IndexOf(old(kids)[p], c))
    {
      hide ForestWith, Indexed;
      ghost var kids' := AfterRemove(nodes, kids, idMap, c);
      if c >= |nodes| {
        return;
      }
      var parentId, prevId, nextId := nodes[c].parent, nodes[c].prev, nodes[c].next;
      if prevId.Some? {
        nodes := SetNext(nodes, prevId.value, nextId);
      } else if parentId.Some? {
        nodes := SetFirst(nodes, parentId.value, nextId);
      }
      if nextId.Some? {
        nodes := SetPrev(nodes, nextId.value, prevId);
      } else if parentId.Some? {
        nodes := SetLast(nodes, parentId.value, prevId);
      }
      if c < |nodes| {
        nodes := nodes[c := nodes[c].(parent := None, prev := None, next := None)];
      }
      assert nodes == RemoveLinks(old(nodes), c);
      kids := kids';
    }

    /** The sibling walk ends, and returns exactly the abstract child list. */
    method Children(p: NodeId) returns (children: seq<NodeId>)
      requires Valid()
      ensures children == if p < |nodes| then kids[p] else []
    {
      children := [];
      var child := if p < |nodes| then nodes[p].firstChild else None;
      ghost var l := if p < |nodes| then kids[p] else [];
      assert p < |nodes| ==> Listed(nodes, p, l);
      while child.Some?
        invariant |children| <= |l| && children == l[..|children|]
        invariant child == if |children| < |l| then Some(l[|children|]) else None
        decreases |l| - |children|
      {
        assert ChildAt(nodes, p, l, |children|);
        children := children + [child.value];
        child := if child.value < |nodes| then nodes[child.value].next else None;
      }
    }

    /** The recursion ends on every document, and collects the text of the subtree in order. */
    method TextContent(id: NodeId) returns (text: string)
      requires Valid()
      ensures text == Text(nodes, kids, id)
      ensures id < |nodes| ==> text == Contents(nodes, Visited(nodes, kids, id))
      decreases if id < |nodes| then Below(nodes, id) + 1 else 0
    {
      hide WellLinked, Acyclic, Indexed, TextOfAll, Contents, Visited, Below, ChildrenOf;
      if id >= |nodes| {
        return "";
      }
      TextIsVisitedContents(nodes, kids, id);
      match nodes[id].data {
        case TextData(content) =>
          return content;
        case ElementData(_, _, _) =>
          text := "";
          var children := Children(id);
          KidsAreChildren(nodes, kids, id);
          NothingAfter(nodes, kids, id, children);
          for k := 0 to |children|
            invariant ChildrenOf(nodes, id, children[k..])
            invariant text + TextOfAll(nodes, kids, id, children[k..]) == Text(nodes, kids, id)
          {
            TextOfFirst(nodes, kids, id, children, k);
            var t := TextContent(children[k]);
            text := text + t;
          }
        case _ =>
          return "";
      }
    }

    method AppendText(p: NodeId, text: string)
      requires Valid()
      modifies this
      ensures nodes == AppendTextLinks(old(nodes), p, text) && idMap == old(idMap)
      ensures Forest(nodes) <==> p < |old(nodes)|
      ensures p < |old(nodes)| ==> Valid()
      ensures p < |old(nodes)| && EndsInText(old(nodes), old(kids), p) ==>
        && kids == old(kids)
        && var x := old(kids)[p][|old(kids)[p]| - 1];
           nodes == old(nodes)[x := old(nodes)[x].(data := TextData(old(nodes)[x].data.content + text))]
      ensures p < |old(nodes)| && !EndsInText(old(nodes), old(kids), p) ==>
        && kids == (old(kids) + [[]])[p := old(kids)[p] + [|old(nodes)|]]
        && |nodes| == |old(nodes)| + 1 && nodes[|old(nodes)|].data == TextData(text)
        && forall k :: 0 <= k < |old(nodes)| ==> nodes[k].data == old(nodes)[k].data
      ensures p < |old(nodes)| ==>
        Text(nodes, kids, p) == old(Text(nodes, kids, p)) + (if old(nodes)[p].data.ElementData? then text else "")
    {
      ghost var ns, ks := nodes, kids;
      StepKeepsForestIff(ns, DomProofs.AppendText(p, text));
      if p < |nodes| {
        ParentText(nodes, kids, p, text);
        AppendTextMerges(nodes, kids, p, text);
      }
      if p < |nodes| && nodes[p].lastChild.Some? {
        var lastId := nodes[p].lastChild.value;
        if lastId < |nodes| && nodes[lastId].data.TextData? {
          nodes := nodes[lastId := nodes[lastId].(data := TextData(nodes[lastId].data.content + text))];
          IndexedSameIds(ns, nodes, idMap);
          return;
        }
      }
      var textId := CreateText(text);
      if p < |ns| { FreshAttachable(ns, ks, TextData(text), p); }
      AppendChild(p, textId);
    }

    method GetElementById(k: string) returns (id: Option<NodeId>)
      requires Valid()
      ensures id.None? <==> forall i :: 0 <= i < |nodes| ==> !CarriesId(nodes[i], k)
      ensures id.Some? ==> id.value < |nodes| && CarriesId(nodes[id.value], k)
      ensures id.Some? ==> forall i :: id.value < i < |nodes| ==> !CarriesId(nodes[i], k)
    {
      forall i: NodeId | i < |nodes| ensures HasId(nodes[i], k) <==> CarriesId(nodes[i], k) { StoredIdIs(nodes, i, k); }
      hide CarriesId, ForestWith;
      id := if k in idMap then Some(idMap[k]) else None;
    }
  }
}
