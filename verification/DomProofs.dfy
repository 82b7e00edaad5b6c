module DomProofs {
  import opened Wrappers
  import opened DomForest
  import opened Seqs

  // ----- parent chains -----

  lemma {:induction false} ChainLenUnique(ns: Arena, i: NodeId, m: nat, n: nat)
    requires ChainLen(ns, i, m) && ChainLen(ns, i, n)
    ensures m == n
    decreases n
  {
    if ns[i].parent.Some? {
      ChainLenUnique(ns, ns[i].parent.value, m - 1, n - 1);
    }
  }

  /** A chain that never meets the re-parented node `c` is unchanged. */
  lemma {:induction false} ChainAvoids(ns: Arena, ms: Arena, c: NodeId, i: NodeId, n: nat)
    requires |ns| == |ms|
    requires forall k :: 0 <= k < |ns| && k != c ==> ms[k].parent == ns[k].parent
    requires ChainLen(ns, i, n) && !InclusiveAncestor(ns, c, i)
    ensures ChainLen(ms, i, n)
    decreases n
  {
    assert Reaches(ns, i, i, 0);
    if ns[i].parent.Some? {
      var q := ns[i].parent.value;
      forall k: nat ensures !Reaches(ns, q, c, k) {
        assert !Reaches(ns, i, c, k + 1);
      }
      ChainAvoids(ns, ms, c, q, n - 1);
    }
  }

  /** Re-parenting a root `c` under a node it is not above keeps chains finite. */
  lemma {:induction false} ChainThrough(ns: Arena, ms: Arena, c: NodeId, i: NodeId, n: nat)
    requires |ns| == |ms|
    requires forall k :: 0 <= k < |ns| && k != c ==> ms[k].parent == ns[k].parent
    requires Rooted(ms, c)
    requires ChainLen(ns, i, n)
    ensures Rooted(ms, i)
    decreases n
  {
    if i != c && ns[i].parent.Some? {
      var q := ns[i].parent.value;
      ChainThrough(ns, ms, c, q, n - 1);
      var m: nat :| ChainLen(ms, q, m);
      assert ChainLen(ms, i, m + 1);
    } else if i != c {
      assert ChainLen(ms, i, 0);
    }
  }

  lemma AcyclicAfterAttach(ns: Arena, ms: Arena, p: NodeId, c: NodeId)
    requires Acyclic(ns) && Attachable(ns, p, c) && |ms| == |ns|
    requires forall k :: 0 <= k < |ns| && k != c ==> ms[k].parent == ns[k].parent
    requires ms[c].parent == Some(p)
    ensures Acyclic(ms)
  {
    assert Rooted(ns, p);
    var m: nat :| ChainLen(ns, p, m);
    ChainAvoids(ns, ms, c, p, m);
    assert ChainLen(ms, c, m + 1);
    forall i: NodeId | i < |ms| ensures Rooted(ms, i) {
      assert Rooted(ns, i);
      var n: nat :| ChainLen(ns, i, n);
      ChainThrough(ns, ms, c, i, n);
    }
  }

  lemma AcyclicAfterDetach(ns: Arena, ms: Arena, c: NodeId)
    requires Acyclic(ns) && |ms| == |ns| && c < |ns|
    requires forall k :: 0 <= k < |ns| && k != c ==> ms[k].parent == ns[k].parent
    requires ms[c].parent == None
    ensures Acyclic(ms)
  {
    assert ChainLen(ms, c, 0);
    forall i: NodeId | i < |ms| ensures Rooted(ms, i) {
      assert Rooted(ns, i);
      var n: nat :| ChainLen(ns, i, n);
      ChainThrough(ns, ms, c, i, n);
    }
  }

  // ----- append -----

  function AppendKids(kids: seq<seq<NodeId>>, p: NodeId, c: NodeId): seq<seq<NodeId>>
    requires p < |kids|
  {
    kids[p := kids[p] + [c]]
  }

  /** The append node by node. */
  ghost predicate Appended(ns: Arena, ms: Arena, p: NodeId, c: NodeId)
    requires p < |ns| && c < |ns|
  {
    |ms| == |ns| && forall k {:trigger ms[k]} :: 0 <= k < |ns| ==> AppendedAt(ns, ms, p, c, k)
  }

  ghost predicate AppendedAt(ns: Arena, ms: Arena, p: NodeId, c: NodeId, k: NodeId)
    requires p < |ns| && c < |ns| && k < |ns| == |ms|
  {
    && ms[k].data == ns[k].data
    && ms[k].parent == (if k == c then Some(p) else ns[k].parent)
    && ms[k].firstChild == (if k == p && ns[p].firstChild.None? then Some(c) else ns[k].firstChild)
    && ms[k].lastChild == (if k == p then Some(c) else ns[k].lastChild)
    && ms[k].prev == (if k == c then ns[p].lastChild else ns[k].prev)
    && ms[k].next == (if ns[p].lastChild == Some(k) then Some(c) else ns[k].next)
  }

  lemma AppendNodewise(ns: Arena, p: NodeId, c: NodeId)
    requires p < |ns| && c < |ns|
    ensures Appended(ns, AppendLinks(ns, p, c), p, c)
  {
    var ms := AppendLinks(ns, p, c);
    forall k | 0 <= k < |ns| ensures AppendedAt(ns, ms, p, c, k) { }
  }

  lemma AppendOwnList(ns: Arena, ms: Arena, o: seq<NodeId>, p: NodeId, c: NodeId)
    requires p < |ns| && c < |ns| && c !in o && ns[c].next.None?
    requires Listed(ns, p, o) && Appended(ns, ms, p, c)
    ensures Listed(ms, p, o + [c])
  {
    var l := o + [c];
    assert |l| == |o| + 1 && l[|o|] == c;
    assert forall i :: 0 <= i < |o| ==> l[i] == o[i];
    forall j | 0 <= j < |l| ensures ChildAt(ms, p, l, j) { AppendChildAt(ns, ms, o, l, p, c, j); }
  }

  lemma AppendChildAt(ns: Arena, ms: Arena, o: seq<NodeId>, l: seq<NodeId>, p: NodeId, c: NodeId, j: nat)
    requires p < |ns| && c < |ns| && c !in o && ns[c].next.None?
    requires Listed(ns, p, o) && Appended(ns, ms, p, c) && j < |l|
    requires |l| == |o| + 1 && l[|o|] == c && forall i :: 0 <= i < |o| ==> l[i] == o[i]
    ensures ChildAt(ms, p, l, j)
  {
    if j < |o| {
      assert ChildAt(ns, p, o, j);
      if j < |o| - 1 { assert o[j] != o[|o| - 1]; }
    } else if o != [] {
      assert l[|o| - 1] == o[|o| - 1] != c;
    }
  }

  lemma AppendOtherList(ns: Arena, ms: Arena, kids: seq<seq<NodeId>>, p: NodeId, c: NodeId, q: NodeId)
    requires WellLinked(ns, kids) && p < |ns| && c < |ns| && ns[c].parent.None? && q < |ns| && q != p
    requires Appended(ns, ms, p, c)
    ensures Listed(ms, q, kids[q])
  {
    assert Listed(ns, p, kids[p]) && Listed(ns, q, kids[q]);
    if kids[p] != [] { assert ChildAt(ns, p, kids[p], |kids[p]| - 1); }
    forall j | 0 <= j < |kids[q]| ensures ChildAt(ms, q, kids[q], j) { assert ChildAt(ns, q, kids[q], j); }
  }

  lemma AppendPlaced(ns: Arena, ms: Arena, kids: seq<seq<NodeId>>, p: NodeId, c: NodeId, d: NodeId)
    requires |kids| == |ns| && p < |ns| && c < |ns| && d < |ns| && Placed(ns, kids, d) && Appended(ns, ms, p, c)
    requires ns[p].lastChild.Some? ==> ns[p].lastChild.value < |ns| && ns[ns[p].lastChild.value].parent == Some(p)
    ensures Placed(ms, AppendKids(kids, p, c), d)
  {
  }

  /** Appending under the caller-checkable guard adds `c` at the end of `p`'s list and nowhere else. */
  lemma AppendRefines(ns: Arena, kids: seq<seq<NodeId>>, p: NodeId, c: NodeId)
    requires ForestWith(ns, kids) && Attachable(ns, p, c)
    ensures ForestWith(AppendLinks(ns, p, c), AppendKids(kids, p, c))
  {
    var ms := AppendLinks(ns, p, c);
    assert Listed(ns, p, kids[p]) && Placed(ns, kids, c);
    if kids[p] != [] { assert ChildAt(ns, p, kids[p], |kids[p]| - 1); }
    AppendNodewise(ns, p, c);
    forall k | 0 <= k < |kids[p]| ensures kids[p][k] != c { assert ChildAt(ns, p, kids[p], k); }
    forall q | 0 <= q < |ns| ensures Listed(ms, q, AppendKids(kids, p, c)[q]) {
      if q == p { AppendOwnList(ns, ms, kids[p], p, c); } else { AppendOtherList(ns, ms, kids, p, c, q); }
    }
    forall d | 0 <= d < |ns| ensures Placed(ms, AppendKids(kids, p, c), d) { AppendPlaced(ns, ms, kids, p, c, d); }
    AcyclicAfterAttach(ns, ms, p, c);
  }

  // ----- insert -----

  function IndexOf(l: seq<NodeId>, b: NodeId): (j: nat)
    requires b in l
    ensures j < |l| && l[j] == b
  {
    if l[0] == b then 0 else 1 + IndexOf(l[1..], b)
  }

  function InsertAt(l: seq<NodeId>, j: nat, c: NodeId): (r: seq<NodeId>)
    requires j <= |l|
    ensures |r| == |l| + 1
    ensures forall i :: 0 <= i < |r| ==> r[i] == if i < j then l[i] else if i == j then c else l[i - 1]
    ensures forall d :: d in r <==> d == c || d in l
  {
    assert l == l[..j] + l[j..];
    l[..j] + [c] + l[j..]
  }

  function InsertKids(kids: seq<seq<NodeId>>, p: NodeId, c: NodeId, j: nat): seq<seq<NodeId>>
    requires p < |kids| && j <= |kids[p]|
  {
    kids[p := InsertAt(kids[p], j, c)]
  }

  /** The insertion node by node. */
  ghost predicate Inserted(ns: Arena, ms: Arena, p: NodeId, c: NodeId, b: NodeId)
    requires p < |ns| && c < |ns| && b < |ns|
  {
    |ms| == |ns| && forall k {:trigger ms[k]} :: 0 <= k < |ns| ==> InsertedAt(ns, ms, p, c, b, k)
  }

  ghost predicate InsertedAt(ns: Arena, ms: Arena, p: NodeId, c: NodeId, b: NodeId, k: NodeId)
    requires p < |ns| && c < |ns| && b < |ns| && k < |ns| == |ms|
  {
    && ms[k].data == ns[k].data
    && ms[k].parent == (if k == c then Some(p) else ns[k].parent)
    && ms[k].firstChild == (if k == p && ns[b].prev.None? then Some(c) else ns[k].firstChild)
    && ms[k].lastChild == ns[k].lastChild
    && ms[k].prev == (if k == b then Some(c) else if k == c then ns[b].prev else ns[k].prev)
    && ms[k].next == (if ns[b].prev == Some(k) then Some(c) else if k == c then Some(b) else ns[k].next)
  }

  lemma InsertNodewise(ns: Arena, p: NodeId, c: NodeId, b: NodeId)
    requires p < |ns| && c < |ns| && b < |ns| && c != b
    ensures Inserted(ns, InsertLinks(ns, p, c, Some(b)), p, c, b)
  {
    var ms := InsertLinks(ns, p, c, Some(b));
    forall k | 0 <= k < |ns| ensures InsertedAt(ns, ms, p, c, b, k) { }
  }

  lemma InsertOwnList(ns: Arena, ms: Arena, o: seq<NodeId>, p: NodeId, c: NodeId, j: nat)
    requires p < |ns| && c < |ns| && c != p && c !in o
    requires Listed(ns, p, o) && j < |o| && o[j] < |ns| && Inserted(ns, ms, p, c, o[j])
    ensures Listed(ms, p, InsertAt(o, j, c))
  {
    var l := InsertAt(o, j, c);
    assert ChildAt(ns, p, o, j);
    forall k | 0 <= k < |l| ensures ChildAt(ms, p, l, k) { InsertChildAt(ns, ms, o, p, c, j, k); }
    assert ChildAt(ns, p, o, 0);
  }

  lemma InsertChildAt(ns: Arena, ms: Arena, o: seq<NodeId>, p: NodeId, c: NodeId, j: nat, k: nat)
    requires p < |ns| && c < |ns| && c !in o && k <= |o|
    requires Listed(ns, p, o) && j < |o| && o[j] < |ns| && Inserted(ns, ms, p, c, o[j])
    ensures ChildAt(ms, p, InsertAt(o, j, c), k)
  {
    assert ChildAt(ns, p, o, j);
    if k < j {
      assert ChildAt(ns, p, o, k);
    } else if k > j {
      assert ChildAt(ns, p, o, k - 1);
    }
  }

  lemma InsertOtherList(ns: Arena, ms: Arena, kids: seq<seq<NodeId>>, p: NodeId, c: NodeId, j: nat, q: NodeId)
    requires WellLinked(ns, kids) && p < |ns| && c < |ns| && ns[c].parent.None? && q < |ns| && q != p
    requires j < |kids[p]| && kids[p][j] < |ns| && Inserted(ns, ms, p, c, kids[p][j])
    ensures Listed(ms, q, kids[q])
  {
    var l := kids[q];
    assert Listed(ns, p, kids[p]) && Listed(ns, q, l) && ChildAt(ns, p, kids[p], j);
    if j > 0 { assert ChildAt(ns, p, kids[p], j - 1); }
    forall k | 0 <= k < |l| ensures ChildAt(ms, q, l, k) { assert ChildAt(ns, q, l, k); }
  }

  lemma InsertPlaced(ns: Arena, ms: Arena, kids: seq<seq<NodeId>>, p: NodeId, c: NodeId, j: nat, d: NodeId)
    requires |kids| == |ns| && p < |ns| && c < |ns| && d < |ns| && Placed(ns, kids, d)
    requires j < |kids[p]| && kids[p][j] < |ns| && ns[kids[p][j]].parent == Some(p)
    requires ns[kids[p][j]].prev.Some? ==>
      ns[kids[p][j]].prev.value < |ns| && ns[ns[kids[p][j]].prev.value].parent == Some(p)
    requires Inserted(ns, ms, p, c, kids[p][j])
    ensures Placed(ms, InsertKids(kids, p, c, j), d)
  {
    var l := InsertAt(kids[p], j, c);
  }

  /** Inserting puts `c` just before the reference child and touches no other list. */
  lemma InsertRefines(ns: Arena, kids: seq<seq<NodeId>>, p: NodeId, c: NodeId, j: nat)
    requires ForestWith(ns, kids) && Attachable(ns, p, c) && j < |kids[p]|
    ensures ForestWith(InsertLinks(ns, p, c, Some(kids[p][j])), InsertKids(kids, p, c, j))
  {
    var ms, b := InsertLinks(ns, p, c, Some(kids[p][j])), kids[p][j];
    assert Reaches(ns, p, p, 0);
    assert Listed(ns, p, kids[p]) && ChildAt(ns, p, kids[p], j);
    if j > 0 { assert ChildAt(ns, p, kids[p], j - 1); }
    InsertNodewise(ns, p, c, b);
    forall k | 0 <= k < |kids[p]| ensures kids[p][k] != c { assert ChildAt(ns, p, kids[p], k); }
    forall q | 0 <= q < |ns| ensures Listed(ms, q, InsertKids(kids, p, c, j)[q]) {
      if q == p { InsertOwnList(ns, ms, kids[p], p, c, j); } else { InsertOtherList(ns, ms, kids, p, c, j, q); }
    }
    forall d | 0 <= d < |ns| ensures Placed(ms, InsertKids(kids, p, c, j), d) {
      InsertPlaced(ns, ms, kids, p, c, j, d);
    }
    AcyclicAfterAttach(ns, ms, p, c);
  }

  // ----- remove -----

  function RemoveKids(kids: seq<seq<NodeId>>, p: NodeId, j: nat): seq<seq<NodeId>>
    requires p < |kids| && j < |kids[p]|
  {
    kids[p := DropAt(kids[p], j)]
  }

  /** The removal of a child of `p` node by node. */
  ghost predicate Removed(ns: Arena, ms: Arena, p: NodeId, c: NodeId)
    requires p < |ns| && c < |ns|
  {
    |ms| == |ns| && forall k {:trigger ms[k]} :: 0 <= k < |ns| ==> RemovedAt(ns, ms, p, c, k)
  }

  ghost predicate RemovedAt(ns: Arena, ms: Arena, p: NodeId, c: NodeId, k: NodeId)
    requires p < |ns| && c < |ns| && k < |ns| == |ms|
  {
    && ms[k].data == ns[k].data
    && ms[k].parent == (if k == c then None else ns[k].parent)
    && ms[k].firstChild == (if k == p && ns[c].prev.None? then ns[c].next else ns[k].firstChild)
    && ms[k].lastChild == (if k == p && ns[c].next.None? then ns[c].prev else ns[k].lastChild)
    && ms[k].prev == (if k == c then None else if ns[c].next == Some(k) then ns[c].prev else ns[k].prev)
    && ms[k].next == (if k == c then None else if ns[c].prev == Some(k) then ns[c].next else ns[k].next)
  }

  lemma RemoveNodewise(ns: Arena, p: NodeId, c: NodeId)
    requires p < |ns| && c < |ns| && ns[c].parent == Some(p)
    ensures Removed(ns, RemoveLinks(ns, c), p, c)
  {
    var ms := RemoveLinks(ns, c);
    forall k | 0 <= k < |ns| ensures RemovedAt(ns, ms, p, c, k) { }
  }

  lemma RemoveOwnList(ns: Arena, ms: Arena, o: seq<NodeId>, p: NodeId, j: nat)
    requires p < |ns| && Listed(ns, p, o) && j < |o| && o[j] < |ns| && Removed(ns, ms, p, o[j])
    ensures Listed(ms, p, DropAt(o, j))
  {
    var l := DropAt(o, j);
    assert ChildAt(ns, p, o, j);
    forall k | 0 <= k < |l| ensures ChildAt(ms, p, l, k) { RemoveChildAt(ns, ms, o, p, j, k); }
  }

  lemma RemoveChildAt(ns: Arena, ms: Arena, o: seq<NodeId>, p: NodeId, j: nat, k: nat)
    requires p < |ns| && Listed(ns, p, o) && j < |o| && o[j] < |ns| && Removed(ns, ms, p, o[j])
    requires k < |o| - 1
    ensures ChildAt(ms, p, DropAt(o, j), k)
  {
    assert ChildAt(ns, p, o, j);
    assert ChildAt(ns, p, o, if k >= j then k + 1 else k);
  }

  lemma RemoveOtherList(ns: Arena, ms: Arena, kids: seq<seq<NodeId>>, p: NodeId, j: nat, q: NodeId)
    requires WellLinked(ns, kids) && p < |ns| && q < |ns| && q != p && j < |kids[p]| && kids[p][j] < |ns|
    requires Removed(ns, ms, p, kids[p][j])
    ensures Listed(ms, q, kids[q])
  {
    var l := kids[q];
    assert Listed(ns, p, kids[p]) && Listed(ns, q, l) && ChildAt(ns, p, kids[p], j);
    if j > 0 { assert ChildAt(ns, p, kids[p], j - 1); }
    if j < |kids[p]| - 1 { assert ChildAt(ns, p, kids[p], j + 1); }
    forall k | 0 <= k < |l| ensures ChildAt(ms, q, l, k) { assert ChildAt(ns, q, l, k); }
  }

  lemma RemovePlaced(ns: Arena, ms: Arena, kids: seq<seq<NodeId>>, p: NodeId, j: nat, d: NodeId)
    requires WellLinked(ns, kids) && p < |ns| && j < |kids[p]| && d < |ns| && kids[p][j] < |ns|
    requires Removed(ns, ms, p, kids[p][j])
    ensures Placed(ms, RemoveKids(kids, p, j), d)
  {
    assert Listed(ns, p, kids[p]) && Placed(ns, kids, d) && ChildAt(ns, p, kids[p], j);
    if j > 0 { assert ChildAt(ns, p, kids[p], j - 1); }
    if j < |kids[p]| - 1 { assert ChildAt(ns, p, kids[p], j + 1); }
  }

  /** Removing a child deletes exactly that position of its parent's list. */
  lemma RemoveRefines(ns: Arena, kids: seq<seq<NodeId>>, p: NodeId, j: nat)
    requires ForestWith(ns, kids) && p < |ns| && j < |kids[p]|
    ensures ForestWith(RemoveLinks(ns, kids[p][j]), RemoveKids(kids, p, j))
  {
    var ms := RemoveLinks(ns, kids[p][j]);
    assert Listed(ns, p, kids[p]) && ChildAt(ns, p, kids[p], j);
    RemoveNodewise(ns, p, kids[p][j]);
    forall q | 0 <= q < |ns| ensures Listed(ms, q, RemoveKids(kids, p, j)[q]) {
      if q == p { RemoveOwnList(ns, ms, kids[p], p, j); } else { RemoveOtherList(ns, ms, kids, p, j, q); }
    }
    forall d | 0 <= d < |ns| ensures Placed(ms, RemoveKids(kids, p, j), d) { RemovePlaced(ns, ms, kids, p, j, d); }
    AcyclicAfterDetach(ns, ms, kids[p][j]);
  }

  /** Removing a node that has no parent, or is out of range, changes nothing. */
  lemma RemoveRootIsNoop(ns: Arena, kids: seq<seq<NodeId>>, c: NodeId)
    requires WellLinked(ns, kids) && (c >= |ns| || ns[c].parent.None?)
    ensures RemoveLinks(ns, c) == ns
  {
    if c < |ns| { assert Placed(ns, kids, c); }
  }

  lemma UndoInsert(ns: Arena, ms: Arena, os: Arena, p: NodeId, c: NodeId, b: NodeId)
    requires p < |ns| && c < |ns| && b < |ns| && c != b && Inserted(ns, ms, p, c, b) && Removed(ms, os, p, c)
    requires ns[c].parent.None? && ns[c].prev.None? && ns[c].next.None? && ns[b].prev != Some(c)
    requires ns[b].prev.None? ==> ns[p].firstChild == Some(b)
    requires ns[b].prev.Some? ==> ns[b].prev.value < |ns| && ns[ns[b].prev.value].next == Some(b)
    ensures os == ns
  {
    forall k | 0 <= k < |ns| ensures os[k] == ns[k] {
      assert os[k].prev == ns[k].prev;
      assert os[k].next == ns[k].next;
      assert os[k].firstChild == ns[k].firstChild;
    }
  }

  lemma UndoAppend(ns: Arena, ms: Arena, os: Arena, p: NodeId, c: NodeId)
    requires p < |ns| && c < |ns| && Appended(ns, ms, p, c) && Removed(ms, os, p, c)
    requires ns[c].parent.None? && ns[c].prev.None? && ns[c].next.None? && ns[p].lastChild != Some(c)
    requires ns[p].lastChild.None? <==> ns[p].firstChild.None?
    requires ns[p].lastChild.Some? ==> ns[p].lastChild.value < |ns| && ns[ns[p].lastChild.value].next.None?
    ensures os == ns
  {
    forall k | 0 <= k < |ns| ensures os[k] == ns[k] {
      assert os[k].next == ns[k].next;
      assert os[k].lastChild == ns[k].lastChild;
      assert os[k].firstChild == ns[k].firstChild;
    }
  }

  /** Inserting and then removing the same child restores every link of the arena. */
  lemma InsertThenRemove(ns: Arena, kids: seq<seq<NodeId>>, p: NodeId, c: NodeId, r: Option<NodeId>)
    requires ForestWith(ns, kids) && InsertOk(ns, p, c, r)
    ensures RemoveLinks(InsertLinks(ns, p, c, r), c) == ns
  {
    if c < |ns| {
      var ms := InsertLinks(ns, p, c, r);
      LocalLinks(ns, kids, c);
      LocalLinks(ns, kids, p);
      if r.Some? {
        LocalLinks(ns, kids, r.value);
        InsertNodewise(ns, p, c, r.value);
        RemoveNodewise(ms, p, c);
        UndoInsert(ns, ms, RemoveLinks(ms, c), p, c, r.value);
      } else {
        assert Listed(ns, p, kids[p]);
        AppendNodewise(ns, p, c);
        RemoveNodewise(ms, p, c);
        UndoAppend(ns, ms, RemoveLinks(ms, c), p, c);
      }
    }
  }

  // ----- the links determine the lists -----

  lemma {:induction false} SameUpTo(ns: Arena, p: NodeId, l: seq<NodeId>, m: seq<NodeId>, i: nat)
    requires p < |ns| && Listed(ns, p, l) && Listed(ns, p, m) && i <= |l|
    ensures i <= |m| && l[..i] == m[..i]
  {
    if i == 1 {
      assert l[..1] == [l[0]] && m[..1] == [m[0]];
    } else if i > 1 {
      SameUpTo(ns, p, l, m, i - 1);
      assert l[..i - 1][i - 2] == m[..i - 1][i - 2];
      assert ChildAt(ns, p, l, i - 2) && ChildAt(ns, p, m, i - 2);
      assert l[..i] == l[..i - 1] + [l[i - 1]] && m[..i] == m[..i - 1] + [m[i - 1]];
    }
  }

  /** A forest has exactly one ordered child list per node. */
  lemma ListsAreUnique(ns: Arena, kids: seq<seq<NodeId>>, kids': seq<seq<NodeId>>)
    requires WellLinked(ns, kids) && WellLinked(ns, kids')
    ensures kids == kids'
  {
    forall p | 0 <= p < |ns| ensures kids[p] == kids'[p] {
      assert Listed(ns, p, kids[p]) && Listed(ns, p, kids'[p]);
      SameUpTo(ns, p, kids[p], kids'[p], |kids[p]|);
      SameUpTo(ns, p, kids'[p], kids[p], |kids'[p]|);
    }
  }

  // ----- exactly when the surgery keeps a forest -----

  /** Climbing from `i` to `a` cannot lengthen the chain. */
  lemma {:induction false} ClimbTo(ns: Arena, i: NodeId, a: NodeId, k: nat, n: nat) returns (m: nat)
    requires Reaches(ns, i, a, k) && ChainLen(ns, i, n)
    ensures m <= n && ChainLen(ns, a, m)
    decreases k
  {
    if i == a { m := n; } else { m := ClimbTo(ns, ns[i].parent.value, a, k - 1, n - 1); }
  }

  /** A node whose parent it is itself above has no end to its chain. */
  lemma CycleHasNoRoot(ns: Arena, c: NodeId, p: NodeId)
    requires c < |ns| && ns[c].parent == Some(p) && InclusiveAncestor(ns, c, p)
    ensures !Rooted(ns, c)
  {
    var k: nat :| Reaches(ns, p, c, k);
    forall n: nat ensures !ChainLen(ns, c, n) {
      if ChainLen(ns, c, n) {
        var m := ClimbTo(ns, p, c, k, n - 1);
        ChainLenUnique(ns, c, m, n);
      }
    }
  }

  /** Paths that avoid re-parenting survive it. */
  lemma {:induction false} ReachesKept(ns: Arena, ms: Arena, c: NodeId, i: NodeId, k: nat)
    requires |ns| == |ms| && Reaches(ns, i, c, k)
    requires forall j :: 0 <= j < |ns| && j != c ==> ms[j].parent == ns[j].parent
    ensures Reaches(ms, i, c, k)
    decreases k
  {
    if i != c { ReachesKept(ns, ms, c, ns[i].parent.value, k - 1); }
  }

  /** Local consequences of a forest's lists, used to refute a forest. */
  lemma LocalLinks(ns: Arena, kids: seq<seq<NodeId>>, i: NodeId)
    requires WellLinked(ns, kids) && i < |ns|
    ensures ns[i].parent.Some? ==> ns[i].parent.value < |ns|
    ensures ns[i].prev.Some? ==>
      var m := ns[i].prev.value; m < |ns| && m != i && ns[m].next == Some(i) && ns[m].parent == ns[i].parent
    ensures ns[i].next.Some? ==>
      var m := ns[i].next.value; m < |ns| && m != i && ns[m].prev == Some(i) && ns[m].parent == ns[i].parent
    ensures ns[i].firstChild.Some? ==>
      var m := ns[i].firstChild.value; m < |ns| && ns[m].parent == Some(i) && ns[m].prev.None?
    ensures ns[i].lastChild.Some? ==>
      var m := ns[i].lastChild.value; m < |ns| && ns[m].parent == Some(i) && ns[m].next.None?
    ensures ns[i].parent.Some? && ns[i].prev.None? ==> ns[ns[i].parent.value].firstChild == Some(i)
    ensures ns[i].parent.Some? && ns[i].next.None? ==> ns[ns[i].parent.value].lastChild == Some(i)
    ensures ns[i].parent.None? ==> ns[i].prev.None? && ns[i].next.None?
  {
    assert Placed(ns, kids, i) && Listed(ns, i, kids[i]);
    if kids[i] != [] {
      assert ChildAt(ns, i, kids[i], 0) && ChildAt(ns, i, kids[i], |kids[i]| - 1);
    }
    if ns[i].parent.Some? {
      var p := ns[i].parent.value;
      var l := kids[p];
      var j := IndexOf(l, i);
      assert Listed(ns, p, l) && ChildAt(ns, p, l, j);
      if j > 0 { assert ChildAt(ns, p, l, j - 1); }
      if j < |l| - 1 { assert ChildAt(ns, p, l, j + 1); }
    }
  }

  lemma AttachNeedsNoCycle(ns: Arena, ms: Arena, p: NodeId, c: NodeId)
    requires |ms| == |ns| && c < |ns| && Acyclic(ms) && ms[c].parent == Some(p)
    requires forall k :: 0 <= k < |ns| && k != c ==> ms[k].parent == ns[k].parent
    ensures !InclusiveAncestor(ns, c, p)
  {
    assert Rooted(ms, c);
    if InclusiveAncestor(ns, c, p) {
      var k: nat :| Reaches(ns, p, c, k);
      ReachesKept(ns, ms, c, p, k);
      CycleHasNoRoot(ms, c, p);
    }
  }

  lemma AppendNeedsRange(ns: Arena, p: NodeId, c: NodeId, kids': seq<seq<NodeId>>)
    requires WellLinked(AppendLinks(ns, p, c), kids') && (p < |ns| || c < |ns|)
    ensures p < |ns| && c < |ns|
  {
    LocalLinks(AppendLinks(ns, p, c), kids', if c < |ns| then c else p);
  }

  lemma AppendNeedsDetached(ns: Arena, ms: Arena, kids: seq<seq<NodeId>>, kids': seq<seq<NodeId>>, p: NodeId, c: NodeId)
    requires WellLinked(ns, kids) && WellLinked(ms, kids') && p < |ns| && c < |ns| && Appended(ns, ms, p, c)
    ensures ns[c].parent.None?
  {
    LocalLinks(ns, kids, p);
    LocalLinks(ns, kids, c);
    LocalLinks(ms, kids', c);
    if ns[c].parent.Some? {
      LocalLinks(ms, kids', if ns[c].prev.Some? then ns[c].prev.value else ns[c].parent.value);
    }
  }

  /**
  `append_child` on a forest leaves a forest exactly when the child is detached
  and not above its new parent (or both ids are out of range, a no-op).
  */
  lemma AppendKeepsForestIff(ns: Arena, p: NodeId, c: NodeId)
    requires Forest(ns)
    ensures Forest(AppendLinks(ns, p, c)) <==> AppendOk(ns, p, c)
  {
    var ms := AppendLinks(ns, p, c);
    var kids :| ForestWith(ns, kids);
    if AppendOk(ns, p, c) {
      if c < |ns| { AppendRefines(ns, kids, p, c); } else { assert ForestWith(ms, kids); }
    }
    if Forest(ms) && (p < |ns| || c < |ns|) {
      var kids' :| ForestWith(ms, kids');
      AppendNeedsRange(ns, p, c, kids');
      AppendNodewise(ns, p, c);
      AppendNeedsDetached(ns, ms, kids, kids', p, c);
      AttachNeedsNoCycle(ns, ms, p, c);
    }
  }

  lemma InsertNeedsRange(ns: Arena, p: NodeId, c: NodeId, b: NodeId, kids': seq<seq<NodeId>>)
    requires WellLinked(InsertLinks(ns, p, c, Some(b)), kids') && (p < |ns| || c < |ns| || b < |ns|)
    ensures p < |ns| && c < |ns| && b < |ns| && b != c
  {
    var ms := InsertLinks(ns, p, c, Some(b));
    LocalLinks(ms, kids', if c < |ns| then c else if b < |ns| then b else p);
  }

  lemma InsertNeedsDetached(ns: Arena, ms: Arena, kids: seq<seq<NodeId>>, kids': seq<seq<NodeId>>,
                            p: NodeId, c: NodeId, b: NodeId)
    requires WellLinked(ns, kids) && WellLinked(ms, kids')
    requires p < |ns| && c < |ns| && b < |ns| && b != c && Inserted(ns, ms, p, c, b)
    ensures ns[c].parent.None? && ns[b].parent == Some(p)
  {
    LocalLinks(ns, kids, c);
    LocalLinks(ns, kids, b);
    LocalLinks(ms, kids', c);
    if ns[c].parent.Some? {
      LocalLinks(ms, kids', if ns[c].prev.Some? then ns[c].prev.value else ns[c].parent.value);
    }
  }

  /**
  `insert_before` on a forest leaves a forest exactly when the new child is
  detached and not above the parent, and the reference child is really a child
  of that parent (or every id is out of range, a no-op).
  */
  lemma InsertKeepsForestIff(ns: Arena, p: NodeId, c: NodeId, r: Option<NodeId>)
    requires Forest(ns)
    ensures Forest(InsertLinks(ns, p, c, r)) <==> InsertOk(ns, p, c, r)
  {
    if r.None? {
      AppendKeepsForestIff(ns, p, c);
    } else {
      var ms, b := InsertLinks(ns, p, c, r), r.value;
      var kids :| ForestWith(ns, kids);
      if InsertOk(ns, p, c, r) {
        if c < |ns| {
          assert Placed(ns, kids, b);
          InsertRefines(ns, kids, p, c, IndexOf(kids[p], b));
        } else {
          assert ForestWith(ms, kids);
        }
      }
      if Forest(ms) && (p < |ns| || c < |ns| || b < |ns|) {
        var kids' :| ForestWith(ms, kids');
        InsertNeedsRange(ns, p, c, b, kids');
        InsertNodewise(ns, p, c, b);
        InsertNeedsDetached(ns, ms, kids, kids', p, c, b);
        AttachNeedsNoCycle(ns, ms, p, c);
      }
    }
  }

  /** `remove_child` keeps a forest for every id, in range or not. */
  lemma RemoveKeepsForest(ns: Arena, c: NodeId)
    requires Forest(ns)
    ensures Forest(RemoveLinks(ns, c))
  {
    var kids :| ForestWith(ns, kids);
    if c < |ns| && ns[c].parent.Some? {
      assert Placed(ns, kids, c);
      RemoveRefines(ns, kids, ns[c].parent.value, IndexOf(kids[ns[c].parent.value], c));
    } else {
      RemoveRootIsNoop(ns, kids, c);
    }
  }

  // ----- creation and text -----

  /** A created node is a root with no children and disturbs nothing. */
  lemma CreateRefines(ns: Arena, kids: seq<seq<NodeId>>, data: NodeData)
    requires ForestWith(ns, kids)
    ensures ForestWith(ns + [Detached(data)], kids + [[]])
  {
    var ms := ns + [Detached(data)];
    forall q | 0 <= q < |ms| ensures Listed(ms, q, (kids + [[]])[q]) {
      if q < |ns| {
        assert Listed(ns, q, kids[q]);
        forall j | 0 <= j < |kids[q]| ensures ChildAt(ms, q, kids[q], j) { assert ChildAt(ns, q, kids[q], j); }
      }
    }
    forall d | 0 <= d < |ms| ensures Placed(ms, kids + [[]], d) {
      if d < |ns| { assert Placed(ns, kids, d); }
    }
    forall i: NodeId | i < |ms| ensures Rooted(ms, i) {
      if i < |ns| {
        assert Rooted(ns, i);
        var n: nat :| ChainLen(ns, i, n);
        ChainKept(ns, ms, i, n);
      } else {
        assert ChainLen(ms, i, 0);
      }
    }
  }

  lemma {:induction false} ChainKept(ns: Arena, ms: Arena, i: NodeId, n: nat)
    requires |ns| <= |ms| && forall k :: 0 <= k < |ns| ==> ms[k].parent == ns[k].parent
    requires ChainLen(ns, i, n)
    ensures ChainLen(ms, i, n)
    decreases n
  {
    if ns[i].parent.Some? { ChainKept(ns, ms, ns[i].parent.value, n - 1); }
  }

  /** Changing what a node holds, not its links, keeps the same lists. */
  lemma RewriteRefines(ns: Arena, kids: seq<seq<NodeId>>, i: NodeId, data: NodeData)
    requires ForestWith(ns, kids) && i < |ns|
    ensures ForestWith(ns[i := ns[i].(data := data)], kids)
  {
    var ms := ns[i := ns[i].(data := data)];
    forall q | 0 <= q < |ms| ensures Listed(ms, q, kids[q]) {
      assert Listed(ns, q, kids[q]);
      forall j | 0 <= j < |kids[q]| ensures ChildAt(ms, q, kids[q], j) { assert ChildAt(ns, q, kids[q], j); }
    }
    forall d | 0 <= d < |ms| ensures Placed(ms, kids, d) { assert Placed(ns, kids, d); }
    forall k: NodeId | k < |ms| ensures Rooted(ms, k) {
      assert Rooted(ns, k);
      var n: nat :| ChainLen(ns, k, n);
      ChainKept(ns, ms, k, n);
    }
  }

  /** A fresh root is above nothing but itself. */
  lemma {:induction false} FreshAboveNothing(ns: Arena, kids: seq<seq<NodeId>>, data: NodeData, i: NodeId, n: nat)
    requires WellLinked(ns, kids) && i < |ns|
    ensures !Reaches(ns + [Detached(data)], i, |ns|, n)
    decreases n
  {
    assert Placed(ns, kids, i);
    if n > 0 && ns[i].parent.Some? { FreshAboveNothing(ns, kids, data, ns[i].parent.value, n - 1); }
  }

  lemma FreshAttachable(ns: Arena, kids: seq<seq<NodeId>>, data: NodeData, p: NodeId)
    requires WellLinked(ns, kids) && p < |ns|
    ensures Attachable(ns + [Detached(data)], p, |ns|)
  {
    forall n: nat ensures !Reaches(ns + [Detached(data)], p, |ns|, n) { FreshAboveNothing(ns, kids, data, p, n); }
  }

  function AppendTextKids(ns: Arena, kids: seq<seq<NodeId>>, p: NodeId): seq<seq<NodeId>>
    requires |ns| == |kids| && p < |ns|
  {
    if MergesInto(ns, p).Some? then kids else AppendKids(kids + [[]], p, |ns|)
  }

  lemma AppendTextRefines(ns: Arena, kids: seq<seq<NodeId>>, p: NodeId, text: string)
    requires ForestWith(ns, kids) && p < |ns|
    ensures ForestWith(AppendTextLinks(ns, p, text), AppendTextKids(ns, kids, p))
  {
    if MergesInto(ns, p).Some? {
      var l := MergesInto(ns, p).value;
      RewriteRefines(ns, kids, l, TextData(ns[l].data.content + text));
    } else {
      CreateRefines(ns, kids, TextData(text));
      FreshAttachable(ns, kids, TextData(text), p);
      AppendRefines(ns + [Detached(TextData(text))], kids + [[]], p, |ns|);
    }
  }

  /** The parent's last child is a text node. */
  predicate EndsInText(ns: Arena, kids: seq<seq<NodeId>>, p: NodeId)
    requires p < |ns| == |kids|
  {
    kids[p] != [] && kids[p][|kids[p]| - 1] < |ns| && ns[kids[p][|kids[p]| - 1]].data.TextData?
  }

  lemma MergesIntoIs(ns: Arena, kids: seq<seq<NodeId>>, p: NodeId)
    requires ForestWith(ns, kids) && p < |ns|
    ensures MergesInto(ns, p) == if EndsInText(ns, kids, p) then Some(kids[p][|kids[p]| - 1]) else None
  {
    assert Listed(ns, p, kids[p]);
    if kids[p] != [] { assert ChildAt(ns, p, kids[p], |kids[p]| - 1); }
  }

  /**
  After a last child that is text the new text is merged into it and nothing
  else changes; otherwise the arena grows by one text node at the end of the
  parent's list and no other node's contents or list change.
  */
  lemma AppendTextMerges(ns: Arena, kids: seq<seq<NodeId>>, p: NodeId, text: string)
    requires ForestWith(ns, kids) && p < |ns|
    ensures EndsInText(ns, kids, p) ==>
      && AppendTextKids(ns, kids, p) == kids
      && var x := kids[p][|kids[p]| - 1];
         AppendTextLinks(ns, p, text) == ns[x := ns[x].(data := TextData(ns[x].data.content + text))]
    ensures !EndsInText(ns, kids, p) ==>
      && AppendTextKids(ns, kids, p) == (kids + [[]])[p := kids[p] + [|ns|]]
      && var ms := AppendTextLinks(ns, p, text);
         && |ms| == |ns| + 1 && ms[|ns|].data == TextData(text)
         && forall k :: 0 <= k < |ns| ==> ms[k].data == ns[k].data
  {
    MergesIntoIs(ns, kids, p);
    if !EndsInText(ns, kids, p) {
      var ns1 := ns + [Detached(TextData(text))];
      AppendNodewise(ns1, p, |ns|);
      var ms := AppendTextLinks(ns, p, text);
      assert AppendedAt(ns1, ms, p, |ns|, |ns|);
      forall k | 0 <= k < |ns| ensures ms[k].data == ns[k].data { assert AppendedAt(ns1, ms, p, |ns|, k); }
    }
  }

  // ----- runs -----

  datatype Op =
    | Create(data: NodeData)
    | Append(p: NodeId, c: NodeId)
    | Insert(p: NodeId, c: NodeId, r: Option<NodeId>)
    | Remove(c: NodeId)
    | AppendText(p: NodeId, text: string)

  function Step(ns: Arena, op: Op): Arena {
    match op
    case Create(data) => ns + [Detached(data)]
    case Append(p, c) => AppendLinks(ns, p, c)
    case Insert(p, c, r) => InsertLinks(ns, p, c, r)
    case Remove(c) => RemoveLinks(ns, c)
    case AppendText(p, text) => AppendTextLinks(ns, p, text)
  }

  /** What the caller has to know before each operation. */
  ghost predicate Guard(ns: Arena, op: Op) {
    match op
    case Create(_) => true
    case Append(p, c) => AppendOk(ns, p, c)
    case Insert(p, c, r) => InsertOk(ns, p, c, r)
    case Remove(_) => true
    case AppendText(p, _) => p < |ns|
  }

  lemma StepKeepsForestIff(ns: Arena, op: Op)
    requires Forest(ns)
    ensures Forest(Step(ns, op)) <==> Guard(ns, op)
  {
    var kids :| ForestWith(ns, kids);
    match op
    case Create(data) => CreateRefines(ns, kids, data);
    case Append(p, c) => AppendKeepsForestIff(ns, p, c);
    case Insert(p, c, r) => InsertKeepsForestIff(ns, p, c, r);
    case Remove(c) => RemoveKeepsForest(ns, c);
    case AppendText(p, text) =>
      if p < |ns| {
        AppendTextRefines(ns, kids, p, text);
      } else {
        CreateRefines(ns, kids, TextData(text));
        var ms := ns + [Detached(TextData(text))];
        AppendKeepsForestIff(ms, p, |ns|);
        assert Reaches(ms, p, p, 0);
      }
  }

  /** The arena after the first `k` operations on a new document. */
  function RunTo(ops: seq<Op>, k: nat): Arena
    requires k <= |ops|
  {
    if k == 0 then [Detached(DocumentData)] else Step(RunTo(ops, k - 1), ops[k - 1])
  }

  lemma NewDocumentIsForest()
    ensures ForestWith([Detached(DocumentData)], [[]])
  {
    assert ChainLen([Detached(DocumentData)], 0, 0);
  }

  lemma {:induction false} GuardedRunIsForest(ops: seq<Op>, k: nat)
    requires k <= |ops|
    requires forall j :: 0 <= j < k ==> Guard(RunTo(ops, j), ops[j])
    ensures Forest(RunTo(ops, k))
  {
    hide Step, Guard;
    if k == 0 {
      NewDocumentIsForest();
    } else {
      GuardedRunIsForest(ops, k - 1);
      StepKeepsForestIff(RunTo(ops, k - 1), ops[k - 1]);
      assert Guard(RunTo(ops, k - 1), ops[k - 1]);
    }
  }

  ghost predicate AlwaysForest(ops: seq<Op>) {
    forall k :: 0 <= k <= |ops| ==> Forest(RunTo(ops, k))
  }

  ghost predicate AlwaysGuarded(ops: seq<Op>) {
    forall k :: 0 <= k < |ops| ==> Guard(RunTo(ops, k), ops[k])
  }

  lemma ForestRunIsGuarded(ops: seq<Op>)
    requires AlwaysForest(ops)
    ensures AlwaysGuarded(ops)
  {
    hide Step, Guard, Forest;
    forall k | 0 <= k < |ops| ensures Guard(RunTo(ops, k), ops[k]) {
      assert Forest(RunTo(ops, k)) && Forest(RunTo(ops, k + 1));
      StepKeepsForestIff(RunTo(ops, k), ops[k]);
    }
  }

  /** Over every run from a new document: a forest at every point exactly when every guard is met. */
  lemma RunIsForestIff(ops: seq<Op>)
    ensures AlwaysForest(ops) <==> AlwaysGuarded(ops)
  {
    hide Step, Guard, Forest;
    if AlwaysForest(ops) { ForestRunIsGuarded(ops); }
    if AlwaysGuarded(ops) {
      forall k | 0 <= k <= |ops| ensures Forest(RunTo(ops, k)) { GuardedRunIsForest(ops, k); }
    }
  }
}
