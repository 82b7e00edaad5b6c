/**
Damage tracking for incremental rendering.  Coordinates are `i32` and sizes
`u32`; sums and casts wrap modulo 2^32.  The wrapped results are exact for
rectangles whose true edges are `i32` values, and only for those.
*/
module Damage {
  import opened Ints
  import opened Seqs

  datatype Rect = Rect(x: I32, y: I32, width: U32, height: U32) {
    function Right(): int { ToI32(x + ToI32(width)) }

    function Bottom(): int { ToI32(y + ToI32(height)) }

    predicate Intersects(other: Rect) {
      x < other.Right() && Right() > other.x && y < other.Bottom() && Bottom() > other.y
    }

    function Union(other: Rect): Rect {
      var minX, minY := Min(x, other.x), Min(y, other.y);
      var maxX, maxY := Max(Right(), other.Right()), Max(Bottom(), other.Bottom());
      Rect(minX, minY, ToU32(ToI32(maxX - minX)), ToU32(ToI32(maxY - minY)))
    }

    function Area(): nat { width * height }

    predicate Empty() { width == 0 || height == 0 }

    /** The pixel lies in the rectangle. */
    predicate Has(px: int, py: int) {
      x <= px < x + width && y <= py < y + height
    }

    /** The far edges are `i32` values too. */
    predicate Bounded() {
      x + width < 0x8000_0000 && y + height < 0x8000_0000
    }

    /** Within 2^29 of the origin, so that sixteen areas fit in 64 bits. */
    predicate Central() {
      -0x2000_0000 <= x && x + width < 0x2000_0000 && -0x2000_0000 <= y && y + height < 0x2000_0000
    }
  }

  /** A far edge is computed exactly when it is an `i32`; otherwise it wraps to the left of the near one. */
  lemma EdgeIff(a: I32, n: U32)
    ensures ToI32(a + ToI32(n)) == a + n <==> a + n < 0x8000_0000
    ensures a + n >= 0x8000_0000 ==> ToI32(a + ToI32(n)) == a + n - 0x1_0000_0000 < a
  {
  }

  lemma EdgesAre(r: Rect)
    ensures r.Right() == if r.x + r.width < 0x8000_0000 then r.x + r.width else r.x + r.width - 0x1_0000_0000
    ensures r.Bottom() == if r.y + r.height < 0x8000_0000 then r.y + r.height else r.y + r.height - 0x1_0000_0000
  {
    hide ToI32;
    EdgeIff(r.x, r.width);
    EdgeIff(r.y, r.height);
  }

  lemma CastsKeep(v: int)
    ensures ToU32(ToI32(v)) == ToU32(v)
  {
  }

  lemma UnionIs(a: Rect, b: Rect)
    ensures a.Union(b) == Rect(Min(a.x, b.x), Min(a.y, b.y), ToU32(Max(a.Right(), b.Right()) - Min(a.x, b.x)),
                               ToU32(Max(a.Bottom(), b.Bottom()) - Min(a.y, b.y)))
  {
    hide ToI32, ToU32;
    CastsKeep(Max(a.Right(), b.Right()) - Min(a.x, b.x));
    CastsKeep(Max(a.Bottom(), b.Bottom()) - Min(a.y, b.y));
  }

  /** The least interval that holds both, on one axis. */
  predicate HullOf(x: int, width: nat, ax: int, aw: nat, bx: int, bw: nat) {
    x == Min(ax, bx) && x + width == Max(ax + aw, bx + bw)
  }

  ghost predicate IsHull(u: Rect, a: Rect, b: Rect) {
    HullOf(u.x, u.width, a.x, a.width, b.x, b.width) && HullOf(u.y, u.height, a.y, a.height, b.y, b.height)
  }

  /** On one axis: either both far edges wrap or neither, and the hull is at most 2^32 - 1 wide. */
  predicate AxesAgree(ax: int, aw: nat, bx: int, bw: nat) {
    (ax + aw < 0x8000_0000 <==> bx + bw < 0x8000_0000) && Max(ax + aw, bx + bw) - Min(ax, bx) < 0x1_0000_0000
  }

  lemma AxisHullIff(ax: I32, aw: U32, bx: I32, bw: U32)
    ensures var right := Max(ToI32(ax + ToI32(aw)), ToI32(bx + ToI32(bw)));
      HullOf(Min(ax, bx), ToU32(right - Min(ax, bx)), ax, aw, bx, bw) <==> AxesAgree(ax, aw, bx, bw)
  {
    hide ToI32;
    EdgeIff(ax, aw);
    EdgeIff(bx, bw);
  }

  /** The union of any two rectangles is their hull exactly when on both axes the edges wrap alike and the hull fits. */
  lemma UnionIsHullIff(a: Rect, b: Rect)
    ensures IsHull(a.Union(b), a, b)
       <==> AxesAgree(a.x, a.width, b.x, b.width) && AxesAgree(a.y, a.height, b.y, b.height)
  {
    hide ToI32, ToU32;
    UnionIs(a, b);
    AxisHullIff(a.x, a.width, b.x, b.width);
    AxisHullIff(a.y, a.height, b.y, b.height);
  }

  /** In particular the union of bounded rectangles is their hull, and bounded. */
  lemma UnionIsHull(a: Rect, b: Rect)
    requires a.Bounded() && b.Bounded()
    ensures IsHull(a.Union(b), a, b) && a.Union(b).Bounded()
  {
    UnionIsHullIff(a, b);
  }

  ghost predicate SharePixel(a: Rect, b: Rect) {
    exists px, py :: a.Has(px, py) && b.Has(px, py)
  }

  lemma BoundedIntersect(a: Rect, b: Rect)
    requires a.Bounded() && b.Bounded() && !a.Empty() && !b.Empty()
    ensures a.Intersects(b) <==> SharePixel(a, b)
  {
    EdgesAre(a);
    EdgesAre(b);
    if a.Intersects(b) {
      var px, py := Max(a.x, b.x), Max(a.y, b.y);
      assert a.Has(px, py) && b.Has(px, py);
    }
  }

  /** Among rectangles that hold pixels, intersecting means sharing a pixel exactly when all of them are bounded. */
  lemma IntersectsIffSharedPixel(rs: seq<Rect>)
    requires forall a :: a in rs ==> !a.Empty()
    ensures (forall a, b :: a in rs && b in rs ==> (a.Intersects(b) <==> SharePixel(a, b))) <==> AllBounded(rs)
  {
    if AllBounded(rs) {
      forall a, b | a in rs && b in rs ensures a.Intersects(b) <==> SharePixel(a, b) { BoundedIntersect(a, b); }
    } else {
      var i :| 0 <= i < |rs| && !rs[i].Bounded();
      var r := rs[i];
      assert r in rs;
      EdgesAre(r);
      assert r.Has(r.x, r.y);
      assert !r.Intersects(r) && SharePixel(r, r);
    }
  }

  // ----- coverage -----

  ghost predicate Covered(rs: seq<Rect>, px: int, py: int) {
    exists i :: 0 <= i < |rs| && rs[i].Has(px, py)
  }

  ghost predicate Covers(big: seq<Rect>, small: seq<Rect>) {
    forall px, py :: Covered(small, px, py) ==> Covered(big, px, py)
  }

  ghost predicate AllBounded(rs: seq<Rect>) {
    forall i :: 0 <= i < |rs| ==> rs[i].Bounded()
  }

  /** Every edge of `r` is an edge of some rectangle of `rs`: nothing beyond their hull is redrawn. */
  ghost predicate EdgesFrom(r: Rect, rs: seq<Rect>) {
    && (exists a :: a in rs && a.x == r.x)
    && (exists a :: a in rs && a.y == r.y)
    && (exists a :: a in rs && a.x + a.width == r.x + r.width)
    && (exists a :: a in rs && a.y + a.height == r.y + r.height)
  }

  lemma MergeCovers(rs: seq<Rect>, i: nat, m: Rect, u: Rect)
    requires i < |rs| && m.Bounded() && rs[i].Bounded() && u == m.Union(rs[i])
    ensures Covers(DropAt(rs, i) + [u], rs + [m])
  {
    UnionIsHull(m, rs[i]);
    var small, big := rs + [m], DropAt(rs, i) + [u];
    forall px, py | Covered(small, px, py) ensures Covered(big, px, py) {
      var k :| 0 <= k < |small| && small[k].Has(px, py);
      if k == i || k == |rs| {
        assert big[|big| - 1].Has(px, py);
      } else {
        assert big[if k < i then k else k - 1] == small[k];
      }
    }
  }

  // ----- adding a rectangle -----

  /** The merging loop from position `i` on, and the push that ends it. */
  function Absorb(rs: seq<Rect>, i: nat, m: Rect): seq<Rect>
    requires i <= |rs|
    decreases |rs| - i
  {
    if i == |rs| then rs + [m]
    else if m.Intersects(rs[i]) then Absorb(DropAt(rs, i), i, m.Union(rs[i]))
    else Absorb(rs, i + 1, m)
  }

  /** The flag and the regions after adding a rectangle. */
  function Added(full: bool, rs: seq<Rect>, rect: Rect): (bool, seq<Rect>) {
    if full then (full, rs) else
    var grown := Absorb(rs, 0, rect);
    if |grown| > 16 then (true, []) else (false, grown)
  }

  /** The flag and the regions after adding rectangles to a cleared tracker. */
  function AddedAll(rects: seq<Rect>): (bool, seq<Rect>) {
    if rects == [] then (false, []) else
    var (full, rs) := AddedAll(rects[..|rects| - 1]);
    Added(full, rs, rects[|rects| - 1])
  }

  ghost predicate AllFrom(rs: seq<Rect>, added: seq<Rect>) {
    forall i :: 0 <= i < |rs| ==> EdgesFrom(rs[i], added)
  }

  /** Merging bounded rectangles loses no pixel and makes up no edge. */
  lemma {:induction false} AbsorbKeeps(rs: seq<Rect>, i: nat, m: Rect, added: seq<Rect>)
    requires i <= |rs| && AllBounded(rs) && m.Bounded() && Covers(rs + [m], added)
    ensures AllBounded(Absorb(rs, i, m)) && Covers(Absorb(rs, i, m), added)
    ensures AllFrom(rs, added) && EdgesFrom(m, added) ==> AllFrom(Absorb(rs, i, m), added)
    decreases |rs| - i
  {
    hide Covers, EdgesFrom;
    if i < |rs| {
      if m.Intersects(rs[i]) {
        var u := m.Union(rs[i]);
        UnionIsHull(m, rs[i]);
        MergeCovers(rs, i, m, u);
        CoversTrans(DropAt(rs, i) + [u], rs + [m], added);
        if EdgesFrom(m, added) && EdgesFrom(rs[i], added) { UnionEdges(m, rs[i], added); }
        AbsorbKeeps(DropAt(rs, i), i, u, added);
      } else {
        AbsorbKeeps(rs, i + 1, m, added);
      }
    }
  }

  lemma {:induction false} AbsorbApart(rs: seq<Rect>, i: nat, m: Rect)
    requires i <= |rs| && forall j :: i <= j < |rs| ==> !m.Intersects(rs[j])
    ensures Absorb(rs, i, m) == rs + [m]
    decreases |rs| - i
  {
    if i < |rs| { AbsorbApart(rs, i + 1, m); }
  }

  /** Merging an unbounded rectangle with a bounded one keeps the pixels of the bounded one only. */
  lemma MergeUnbounded(m: Rect, b: Rect)
    requires b.Bounded()
    ensures var u := m.Union(b);
      u.Bounded() && u.x <= b.x && u.y <= b.y && u.x + u.width >= b.x + b.width && u.y + u.height >= b.y + b.height
  {
    hide ToI32, ToU32;
    UnionIs(m, b);
    AxisAbsorbs(m.x, m.width, b.x, b.width);
    AxisAbsorbs(m.y, m.height, b.y, b.height);
  }

  lemma AxisAbsorbs(mx: I32, mw: U32, bx: I32, bw: U32)
    requires bx + bw < 0x8000_0000
    ensures var right := Max(ToI32(mx + ToI32(mw)), ToI32(bx + ToI32(bw)));
      bx + bw <= Min(mx, bx) + ToU32(right - Min(mx, bx)) < 0x8000_0000
  {
    hide ToI32;
    EdgeIff(mx, mw);
    EdgeIff(bx, bw);
  }

  lemma {:induction false} AbsorbUnbounded(rs: seq<Rect>, i: nat, m: Rect)
    requires i <= |rs| && AllBounded(rs) && exists j :: i <= j < |rs| && m.Intersects(rs[j])
    ensures AllBounded(Absorb(rs, i, m)) && Covers(Absorb(rs, i, m), rs)
    decreases |rs| - i
  {
    if m.Intersects(rs[i]) {
      var u := m.Union(rs[i]);
      MergeUnbounded(m, rs[i]);
      ReplaceCovers(rs, i, u);
      AbsorbKeeps(DropAt(rs, i), i, u, rs);
    } else {
      AbsorbUnbounded(rs, i + 1, m);
    }
  }

  lemma ReplaceCovers(rs: seq<Rect>, i: nat, u: Rect)
    requires i < |rs| && forall px, py :: rs[i].Has(px, py) ==> u.Has(px, py)
    ensures Covers(DropAt(rs, i) + [u], rs)
  {
    var big := DropAt(rs, i) + [u];
    forall px, py | Covered(rs, px, py) ensures Covered(big, px, py) {
      var k :| 0 <= k < |rs| && rs[k].Has(px, py);
      assert big[if k == i then |rs| - 1 else if k < i then k else k - 1].Has(px, py);
    }
  }

  /**
  On bounded regions, adding any rectangle keeps everything covered exactly
  when the rectangle is bounded, or empty, or meets no region: an edge that
  wraps is lost in the first merge.
  */
  lemma AddKeepsCoverIff(rs: seq<Rect>, m: Rect)
    requires AllBounded(rs)
    ensures Covers(Absorb(rs, 0, m), rs + [m])
       <==> m.Bounded() || m.Empty() || forall i :: 0 <= i < |rs| ==> !m.Intersects(rs[i])
  {
    var after := Absorb(rs, 0, m);
    if forall i :: 0 <= i < |rs| ==> !m.Intersects(rs[i]) {
      AbsorbApart(rs, 0, m);
    } else if m.Bounded() {
      AbsorbKeeps(rs, 0, m, rs + [m]);
    } else {
      AbsorbUnbounded(rs, 0, m);
      hide Absorb;
      if m.Empty() {
        EmptyAddsNothing(rs, m);
        CoversTrans(after, rs, rs + [m]);
      } else {
        FarPixelIsLost(rs, m, after);
      }
    }
  }

  lemma EmptyAddsNothing(rs: seq<Rect>, m: Rect)
    requires m.Empty()
    ensures Covers(rs, rs + [m])
  {
    forall px, py | Covered(rs + [m], px, py) ensures Covered(rs, px, py) {
      var k :| 0 <= k < |rs + [m]| && (rs + [m])[k].Has(px, py);
      assert k < |rs| && rs[k].Has(px, py);
    }
  }

  lemma FarPixelIsLost(rs: seq<Rect>, m: Rect, after: seq<Rect>)
    requires !m.Bounded() && !m.Empty() && AllBounded(after)
    ensures !Covers(after, rs + [m])
  {
    var px, py := m.x + m.width - 1, m.y + m.height - 1;
    assert (rs + [m])[|rs|].Has(px, py);
    assert Covered(rs + [m], px, py) && !Covered(after, px, py);
  }

  /** Two rectangles that meet, added to a cleared tracker. */
  lemma AddedMeeting(a: Rect, b: Rect)
    requires b.Intersects(a)
    ensures AddedAll([a, b]) == (false, [b.Union(a)])
  {
    hide ToI32, ToU32;
    AddedFirst(a);
    assert [a, b][..1] == [a] && DropAt([a], 0) == [];
    var u := b.Union(a);
    assert Absorb([a], 0, b) == Absorb([], 0, u) == [u];
  }

  /** Two rectangles apart, then one that meets the second only. */
  lemma AddedThree(a: Rect, b: Rect, c: Rect)
    requires !b.Intersects(a) && !c.Intersects(a) && c.Intersects(b)
    ensures AddedAll([a, b, c]) == (false, [a, c.Union(b)])
  {
    AddedFirst(a);
    assert [a, b, c][..2] == [a, b] && [a, b][..1] == [a];
    assert Absorb([a], 0, b) == Absorb([a], 1, b) == [a, b];
    assert AddedAll([a, b]) == Added(false, [a], b) == (false, [a, b]);
    assert DropAt([a, b], 1) == [a];
    assert Absorb([a, b], 0, c) == Absorb([a, b], 1, c) == Absorb([a], 1, c.Union(b)) == [a, c.Union(b)];
  }

  lemma AddedFirst(a: Rect)
    ensures AddedAll([a]) == (false, [a])
  {
    assert [a][..0] == [] && AddedAll([]) == (false, []) && Absorb([], 0, a) == [a];
  }

  /** Ten columns, then a rectangle reaching far to the right from column 5: its columns from 10 on are lost. */
  lemma WideDamageIsLost()
    ensures var a, b := Rect(0, 0, 10, 10), Rect(5, 0, 0xFFFF_FFFF, 10);
      AddedAll([a, b]) == (false, [a]) && b.Has(10, 0) && !Covered([a], 10, 0)
  {
    hide AddedAll, ToI32, ToU32;
    var a, b := Rect(0, 0, 10, 10), Rect(5, 0, 0xFFFF_FFFF, 10);
    EdgesAre(a);
    EdgesAre(b);
    UnionIs(b, a);
    SmallCast(10);
    AddedMeeting(a, b);
  }

  lemma SmallCast(n: U32)
    ensures ToU32(n) == n
  {
  }

  lemma UnionEdges(a: Rect, b: Rect, rs: seq<Rect>)
    requires a.Bounded() && b.Bounded() && EdgesFrom(a, rs) && EdgesFrom(b, rs)
    ensures EdgesFrom(a.Union(b), rs)
  {
    UnionIsHull(a, b);
  }

  // ----- which regions an added rectangle takes in -----

  /** The rectangle joined with those of the first `i` regions that are taken. */
  function Merged(rs: seq<Rect>, taken: seq<bool>, i: nat, m: Rect): Rect
    requires i <= |rs| == |taken|
  {
    if i == 0 then m else
    var u := Merged(rs, taken, i - 1, m);
    if taken[i - 1] then u.Union(rs[i - 1]) else u
  }

  /** The regions that are taken, or not, in order. */
  function Chosen(rs: seq<Rect>, taken: seq<bool>, which: bool): seq<Rect>
    requires |rs| == |taken|
  {
    if rs == [] then [] else (if taken[0] == which then [rs[0]] else []) + Chosen(rs[1..], taken[1..], which)
  }

  lemma {:induction false} MergedShift(rs: seq<Rect>, taken: seq<bool>, i: nat, m: Rect)
    requires 0 < i <= |rs| == |taken|
    ensures Merged(rs, taken, i, m)
         == Merged(rs[1..], taken[1..], i - 1, if taken[0] then m.Union(rs[0]) else m)
  {
    if i > 1 { MergedShift(rs, taken, i - 1, m); }
  }

  /** Each region in turn is taken exactly when what is merged so far meets it. */
  ghost predicate TakesInTurn(rs: seq<Rect>, taken: seq<bool>, m: Rect) {
    |taken| == |rs| && forall i :: 0 <= i < |rs| ==> (taken[i] <==> Merged(rs, taken, i, m).Intersects(rs[i]))
  }

  lemma TakesShift(rs: seq<Rect>, taken: seq<bool>, m: Rect)
    requires rs != [] && |taken| == |rs| && (taken[0] <==> m.Intersects(rs[0]))
    requires TakesInTurn(rs[1..], taken[1..], if taken[0] then m.Union(rs[0]) else m)
    ensures TakesInTurn(rs, taken, m)
  {
    forall i | 0 <= i < |rs| ensures taken[i] <==> Merged(rs, taken, i, m).Intersects(rs[i]) {
      if i > 0 {
        MergedShift(rs, taken, i, m);
        assert rs[1..][i - 1] == rs[i] && taken[1..][i - 1] == taken[i];
      }
    }
  }

  lemma AbsorbStep(pre: seq<Rect>, post: seq<Rect>, m: Rect)
    requires post != []
    ensures Absorb(pre + post, |pre|, m)
         == if m.Intersects(post[0]) then Absorb(pre + post[1..], |pre|, m.Union(post[0]))
            else Absorb((pre + [post[0]]) + post[1..], |pre + [post[0]]|, m)
  {
    hide ToI32, ToU32;
    var rs := pre + post;
    assert DropAt(rs, |pre|) == pre + post[1..];
    assert rs == (pre + [post[0]]) + post[1..];
  }

  lemma ChosenStep(pre: seq<Rect>, post: seq<Rect>, first: bool, tail: seq<bool>, last: Rect)
    requires post != [] && |tail| == |post| - 1
    ensures pre + Chosen(post, [first] + tail, false) + [last]
         == (if first then pre else pre + [post[0]]) + Chosen(post[1..], tail, false) + [last]
  {
    assert ([first] + tail)[1..] == tail;
  }

  lemma {:induction false} AbsorbFrom(pre: seq<Rect>, post: seq<Rect>, m: Rect) returns (taken: seq<bool>)
    ensures TakesInTurn(post, taken, m)
    ensures Absorb(pre + post, |pre|, m) == pre + Chosen(post, taken, false) + [Merged(post, taken, |post|, m)]
    decreases |post|
  {
    if post == [] {
      taken := [];
      assert pre + post == pre && pre + [] == pre;
    } else {
      AbsorbStep(pre, post, m);
      hide ToI32, ToU32, Absorb, Chosen;
      var first := m.Intersects(post[0]);
      var next := if first then m.Union(post[0]) else m;
      var tail := AbsorbFrom(if first then pre else pre + [post[0]], post[1..], next);
      taken := [first] + tail;
      assert taken[1..] == tail;
      TakesShift(post, taken, m);
      MergedShift(post, taken, |post|, m);
      ChosenStep(pre, post, first, tail, Merged(post, taken, |post|, m));
    }
  }

  /** All of them lie in the rectangle, and each of its edges is an edge of one. */
  ghost predicate HullOfAll(h: Rect, rs: seq<Rect>) {
    (forall r :: r in rs ==> Inside(r, h)) && EdgesFrom(h, rs)
  }

  predicate Inside(r: Rect, h: Rect) {
    h.x <= r.x && h.y <= r.y && r.x + r.width <= h.x + h.width && r.y + r.height <= h.y + h.height
  }

  lemma {:induction false} MergedIsHull(rs: seq<Rect>, taken: seq<bool>, m: Rect)
    requires |taken| == |rs| && AllBounded(rs) && m.Bounded()
    ensures var h := Merged(rs, taken, |rs|, m); h.Bounded() && HullOfAll(h, [m] + Chosen(rs, taken, true))
  {
    if rs == [] {
      assert m in [m];
      assert [m] + [] == [m];
    } else {
      var next := if taken[0] then m.Union(rs[0]) else m;
      if taken[0] { UnionIsHull(m, rs[0]); }
      MergedShift(rs, taken, |rs|, m);
      MergedIsHull(rs[1..], taken[1..], next);
      HullStep(Merged(rs, taken, |rs|, m), m, rs[0], taken[0], Chosen(rs[1..], taken[1..], true));
    }
  }

  lemma HullStep(h: Rect, m: Rect, r: Rect, first: bool, rest: seq<Rect>)
    requires m.Bounded() && r.Bounded() && HullOfAll(h, [if first then m.Union(r) else m] + rest)
    ensures HullOfAll(h, [m] + ((if first then [r] else []) + rest))
  {
    hide ToI32, ToU32;
    var next := if first then m.Union(r) else m;
    var old', all := [next] + rest, [m] + ((if first then [r] else []) + rest);
    if first { UnionIsHull(m, r); }
    assert next in old' && m in all && (first ==> r in all);
    forall q | q in all ensures Inside(q, h) {
      assert q == m || (first && q == r) || q in rest;
      if q in rest { assert q in old'; }
    }
    forall q | q in rest ensures q in all { }
    EdgeStep(h, m, r, first, rest, old', all);
  }

  lemma EdgeStep(h: Rect, m: Rect, r: Rect, first: bool, rest: seq<Rect>, before: seq<Rect>, all: seq<Rect>)
    requires EdgesFrom(h, before) && m in all && (first ==> r in all) && forall q :: q in rest ==> q in all
    requires first ==> m.Bounded() && r.Bounded()
    requires before == [if first then m.Union(r) else m] + rest
    ensures EdgesFrom(h, all)
  {
    hide ToI32, ToU32;
    if first { UnionIsHull(m, r); }
    forall q | q in before ensures q == (if first then m.Union(r) else m) || q in rest { }
  }

  lemma {:induction false} InsideMerged(rs: seq<Rect>, taken: seq<bool>, i: nat, m: Rect)
    requires |taken| == |rs| && i <= |rs| && AllBounded(rs) && m.Bounded()
    ensures Merged(rs, taken, i, m).Bounded() && Inside(m, Merged(rs, taken, i, m))
  {
    hide ToI32, ToU32;
    if i > 0 {
      InsideMerged(rs, taken, i - 1, m);
      if taken[i - 1] { UnionIsHull(Merged(rs, taken, i - 1, m), rs[i - 1]); }
    }
  }

  lemma LargerMeets(m: Rect, h: Rect, r: Rect)
    requires m.Bounded() && h.Bounded() && r.Bounded() && Inside(m, h) && m.Intersects(r)
    ensures h.Intersects(r)
  {
    hide ToI32;
    EdgesAre(m);
    EdgesAre(h);
    EdgesAre(r);
  }

  /**
  What adding a rectangle does: the regions not taken stay, in order, followed
  by the rectangle joined with those taken, unless that makes more than sixteen.
  On bounded rectangles the last region is the hull of the rectangle and
  everything taken, and every region the rectangle itself meets is taken.
  */
  lemma AddedTakes(rs: seq<Rect>, rect: Rect) returns (taken: seq<bool>)
    ensures TakesInTurn(rs, taken, rect)
    ensures var kept, last := Chosen(rs, taken, false), Merged(rs, taken, |rs|, rect);
      Added(false, rs, rect) == if |kept| + 1 > 16 then (true, []) else (false, kept + [last])
    ensures AllBounded(rs) && rect.Bounded() ==>
      && HullOfAll(Merged(rs, taken, |rs|, rect), [rect] + Chosen(rs, taken, true))
      && forall i :: 0 <= i < |rs| && rect.Intersects(rs[i]) ==> taken[i]
  {
    hide ToI32, ToU32;
    taken := AbsorbFrom([], rs, rect);
    assert [] + rs == rs && [] + Chosen(rs, taken, false) == Chosen(rs, taken, false);
    if AllBounded(rs) && rect.Bounded() {
      MergedIsHull(rs, taken, rect);
      forall i | 0 <= i < |rs| && rect.Intersects(rs[i]) ensures taken[i] {
        InsideMerged(rs, taken, i, rect);
        LargerMeets(rect, Merged(rs, taken, i, rect), rs[i]);
      }
    }
  }

  // ----- counting pixels -----

  ghost function Row(x: int, w: nat, y: int): (s: set<(int, int)>)
    ensures forall px, py :: (px, py) in s <==> x <= px < x + w && py == y
    ensures |s| == w
  {
    if w == 0 then {} else Row(x, w - 1, y) + {(x + w - 1, y)}
  }

  /** The pixels of a `w` by `h` rectangle are exactly `w * h`. */
  ghost function Cells(x: int, y: int, w: nat, h: nat): (s: set<(int, int)>)
    ensures forall px, py :: (px, py) in s <==> x <= px < x + w && y <= py < y + h
    ensures |s| == w * h
  {
    if h == 0 then {} else
    var above := Cells(x, y, w, h - 1);
    var row := Row(x, w, y + h - 1);
    assert above !! row by {
      forall p | p in above ensures p !in row { assert p == (p.0, p.1); }
    }
    assert w * h == w * (h - 1) + w;
    above + row
  }

  ghost function UnionCells(rs: seq<Rect>): (s: set<(int, int)>)
    ensures forall px, py :: (px, py) in s <==> Covered(rs, px, py)
    ensures |s| <= AreaSum(rs)
  {
    if rs == [] then {} else
    var init, r := rs[..|rs| - 1], rs[|rs| - 1];
    var a, b := UnionCells(init), Cells(r.x, r.y, r.width, r.height);
    UnionSize(a, b);
    CoveredSplit(rs);
    a + b
  }

  lemma UnionSize<T>(a: set<T>, b: set<T>)
    ensures |a + b| <= |a| + |b|
  {
    assert a + b == a + (b - a);
    SubsetSize(b - a, b);
  }

  lemma CoveredSplit(rs: seq<Rect>)
    requires rs != []
    ensures forall px, py :: Covered(rs, px, py) <==> Covered(rs[..|rs| - 1], px, py) || rs[|rs| - 1].Has(px, py)
  {
    var init, r := rs[..|rs| - 1], rs[|rs| - 1];
    forall px, py ensures Covered(rs, px, py) <==> Covered(init, px, py) || r.Has(px, py) {
      if Covered(init, px, py) {
        var k :| 0 <= k < |init| && init[k].Has(px, py);
        assert rs[k].Has(px, py);
      }
      if Covered(rs, px, py) {
        var k :| 0 <= k < |rs| && rs[k].Has(px, py);
        assert k < |init| ==> init[k].Has(px, py);
      }
    }
  }

  lemma {:induction false} SubsetSize<T>(a: set<T>, b: set<T>)
    requires a <= b
    ensures |a| <= |b|
  {
    if a != {} {
      var x :| x in a;
      SubsetSize(a - {x}, b - {x});
    }
  }

  function AreaSum(rs: seq<Rect>): nat {
    if rs == [] then 0 else AreaSum(rs[..|rs| - 1]) + rs[|rs| - 1].Area()
  }

  lemma {:induction false} ScreenFits(w: nat, h: nat, s: set<(int, int)>)
    requires forall px, py :: (px, py) in s ==> 0 <= px < w && 0 <= py < h
    ensures |s| <= w * h
  {
    var all := Cells(0, 0, w, h);
    forall p | p in s ensures p in all {
      var (px, py) := p;
      assert (px, py) in s;
      assert 0 <= px < w && 0 <= py < h;
      assert (px, py) in all;
    }
    SubsetSize(s, all);
  }

  // ----- the tracker -----

  /** `iter().map(area).sum()`, in `u64`. */
  method SumAreas(rs: seq<Rect>) returns (sum: nat)
    ensures sum == AreaSum(rs) % 0x1_0000_0000_0000_0000
    ensures sum == AreaSum(rs) <==> AreaSum(rs) < 0x1_0000_0000_0000_0000
  {
    hide AreaSum;
    sum := 0;
    NoArea(rs);
    for i := 0 to |rs|
      invariant sum == AreaSum(rs[..i]) % 0x1_0000_0000_0000_0000
    {
      SumStep(rs, i);
      sum := (sum + rs[i].Area()) % 0x1_0000_0000_0000_0000;
    }
    assert rs[..|rs|] == rs;
  }

  lemma NoArea(rs: seq<Rect>)
    ensures AreaSum(rs[..0]) == 0
  {
  }

  datatype DamageResult = NoDamage | Full(area: Rect) | Regions(regions: seq<Rect>)

  /** The pixel is redrawn. */
  ghost predicate Redrawn(d: DamageResult, px: int, py: int) {
    match d
    case NoDamage => false
    case Full(area) => area.Has(px, py)
    case Regions(rs) => Covered(rs, px, py)
  }

  class DamageTracker {
    var regions: seq<Rect>
    var fullDamage: bool
    const screenWidth: U32
    const screenHeight: U32
    const maxRegions: nat
    /** Every rectangle added since the last clear. */
    ghost var added: seq<Rect>

    ghost predicate Valid()
      reads this
    {
      && maxRegions == 16 && |regions| <= maxRegions
      && (fullDamage ==> regions == [])
      && (AllBounded(added) ==>
            AllBounded(regions) && AllFrom(regions, added) && (!fullDamage ==> Covers(regions, added)))
    }

    ghost predicate OnScreen(px: int, py: int)
    {
      0 <= px < screenWidth && 0 <= py < screenHeight
    }

    constructor (width: U32, height: U32)
      ensures Valid() && fullDamage && added == [] && screenWidth == width && screenHeight == height
    {
      regions, fullDamage, added := [], true, [];
      screenWidth, screenHeight, maxRegions := width, height, 16;
    }

    method AddDamage(rect: Rect)
      requires Valid()
      modifies this
      ensures Valid() && added == old(added) + [rect]
      ensures (fullDamage, regions) == Added(old(fullDamage), old(regions), rect)
    {
      hide Covers, EdgesFrom;
      added := added + [rect];
      if AllBounded(added) { BoundedParts(old(added), rect); }
      EdgesKept(regions, old(added), rect);
      if fullDamage {
        return;
      }
      if AllBounded(added) {
        CoversStart(regions, old(added), rect);
        AbsorbKeeps(regions, 0, rect, added);
      }
      var i := 0;
      var merged := rect;
      while i < |regions|
        invariant 0 <= i <= |regions| && !fullDamage && added == old(added) + [rect]
        invariant Absorb(regions, i, merged) == Absorb(old(regions), 0, rect)
        decreases |regions| - i
      {
        if merged.Intersects(regions[i]) {
          merged := merged.Union(regions[i]);
          regions := DropAt(regions, i);
        } else {
          i := i + 1;
        }
      }
      regions := regions + [merged];
      if |regions| > maxRegions {
        SetFullDamage();
      }
    }

    method SetFullDamage()
      requires maxRegions == 16
      modifies this
      ensures Valid() && fullDamage && added == old(added)
    {
      fullDamage := true;
      regions := [];
    }

    /** Every on-screen pixel of every rectangle added since the last clear is redrawn. */
    method GetDamage() returns (d: DamageResult)
      requires Valid()
      ensures d == if fullDamage then Full(Rect(0, 0, screenWidth, screenHeight))
                   else if regions == [] then NoDamage else Regions(regions)
      ensures fullDamage ==> forall px, py :: OnScreen(px, py) <==> Redrawn(d, px, py)
      ensures AllBounded(added) ==> forall px, py :: OnScreen(px, py) && Covered(added, px, py) ==> Redrawn(d, px, py)
      ensures AllBounded(added) && d.NoDamage? ==> forall px, py :: !Covered(added, px, py)
      ensures d.Regions? ==> 0 < |d.regions| <= 16 && (AllBounded(added) ==> AllFrom(d.regions, added))
    {
      if fullDamage {
        d := Full(Rect(0, 0, screenWidth, screenHeight));
      } else if regions == [] {
        d := NoDamage;
      } else {
        d := Regions(regions);
      }
    }

    method Clear()
      requires Valid()
      modifies this
      ensures Valid() && !fullDamage && added == [] && regions == []
    {
      regions, fullDamage, added := [], false, [];
    }

    /**
    The reported area, a `u64` sum, is the true one exactly while that fits,
    and then it is never less than the number of distinct damaged pixels on
    screen.  It fits when what was added lies within 2^29 of the origin.
    */
    method DamagedArea() returns (area: nat)
      requires Valid()
      ensures fullDamage ==> area == screenWidth * screenHeight
      ensures !fullDamage ==> (area == AreaSum(regions) <==> AreaSum(regions) < 0x1_0000_0000_0000_0000)
      ensures !fullDamage ==> area == AreaSum(regions) % 0x1_0000_0000_0000_0000
      ensures fullDamage || (AllBounded(added) && AreaSum(regions) < 0x1_0000_0000_0000_0000) ==>
        forall s: set<(int, int)> :: DamagedOnScreen(s) ==> |s| <= area
      ensures (forall r :: r in added ==> r.Central()) ==>
        AllBounded(added) && AreaSum(regions) < 0x1_0000_0000_0000_0000
    {
      if forall r :: r in added ==> r.Central() {
        CentralIsBounded(added);
        SumFits(regions, added);
      }
      if fullDamage {
        area := screenWidth * screenHeight;
        forall s: set<(int, int)> | DamagedOnScreen(s) ensures |s| <= area {
          ScreenFits(screenWidth, screenHeight, s);
        }
      } else {
        area := SumAreas(regions);
        if AllBounded(added) && AreaSum(regions) < 0x1_0000_0000_0000_0000 {
          forall s: set<(int, int)> | DamagedOnScreen(s) ensures |s| <= area {
            CountedByRegions(regions, added, s);
          }
        }
      }
    }

    ghost predicate DamagedOnScreen(s: set<(int, int)>)
      reads this
    {
      forall px, py :: (px, py) in s ==> OnScreen(px, py) && Covered(added, px, py)
    }
  }

  lemma BoundedParts(rs: seq<Rect>, r: Rect)
    requires AllBounded(rs + [r])
    ensures AllBounded(rs) && r.Bounded()
  {
    assert (rs + [r])[|rs|] == r;
    forall i | 0 <= i < |rs| ensures rs[i].Bounded() { assert (rs + [r])[i] == rs[i]; }
  }

  lemma CentralIsBounded(rs: seq<Rect>)
    requires forall r :: r in rs ==> r.Central()
    ensures AllBounded(rs)
  {
    forall i | 0 <= i < |rs| ensures rs[i].Bounded() { assert rs[i] in rs; }
  }

  // A corner of the screen's plane, and the first column, row and whole of the `i32` square.
  const CORNER := Rect(0, 0, 4196353, 2047)
  const COLUMN := Rect(-0x8000_0000, -0x8000_0000, 1, 0xFFFF_FFFF)
  const ROW := Rect(-0x8000_0000, -0x8000_0000, 0xFFFF_FFFF, 1)
  const SQUARE := Rect(-0x8000_0000, -0x8000_0000, 0xFFFF_FFFF, 0xFFFF_FFFF)

  lemma WrappedAreas()
    ensures CORNER.Area() == 0x1_FFFF_FFFF && SQUARE.Area() == 0xFFFF_FFFE_0000_0001
  {
  }

  /**
  Three bounded rectangles added to a cleared tracker: their regions' areas sum
  to exactly 2^64, so the reported area is 0 though a whole 800 by 600 screen
  is damaged.
  */
  lemma WrappedAreaRun()
    ensures AddedAll([CORNER, COLUMN, ROW]) == (false, [CORNER, SQUARE])
    ensures AllBounded([CORNER, COLUMN, ROW]) && AreaSum([CORNER, SQUARE]) == 0x1_0000_0000_0000_0000
    ensures forall px, py :: 0 <= px < 800 && 0 <= py < 600 ==> CORNER.Has(px, py)
  {
    hide AddedAll, AreaSum, ToI32, ToU32;
    EdgesAre(CORNER);
    EdgesAre(COLUMN);
    EdgesAre(ROW);
    UnionIs(ROW, COLUMN);
    SmallCast(0xFFFF_FFFF);
    AddedThree(CORNER, COLUMN, ROW);
    SumOfTwo(CORNER, SQUARE);
    WrappedAreas();
  }

  lemma SumOfTwo(a: Rect, b: Rect)
    ensures AreaSum([a, b]) == a.Area() + b.Area()
  {
    assert [a, b][..1] == [a] && [a][..0] == [];
    assert AreaSum([a]) == AreaSum([]) + a.Area();
  }

  lemma SumStep(rs: seq<Rect>, i: nat)
    requires i < |rs|
    ensures AreaSum(rs[..i + 1]) % 0x1_0000_0000_0000_0000
         == (AreaSum(rs[..i]) % 0x1_0000_0000_0000_0000 + rs[i].Area()) % 0x1_0000_0000_0000_0000
  {
    assert rs[..i + 1][..i] == rs[..i];
    ModAdd(AreaSum(rs[..i]), rs[i].Area());
  }

  lemma ModAdd(a: nat, b: nat)
    ensures (a % 0x1_0000_0000_0000_0000 + b) % 0x1_0000_0000_0000_0000 == (a + b) % 0x1_0000_0000_0000_0000
  {
  }

  /** Pixels of what was added are pixels of the regions, and those are at most the sum of areas. */
  lemma CountedByRegions(regions: seq<Rect>, added: seq<Rect>, s: set<(int, int)>)
    requires Covers(regions, added) && forall px, py :: (px, py) in s ==> Covered(added, px, py)
    ensures |s| <= AreaSum(regions)
  {
    var cells := UnionCells(regions);
    forall p | p in s ensures p in cells {
      var (px, py) := p;
      assert (px, py) in s;
      assert Covered(added, px, py);
    }
    SubsetSize(s, cells);
  }

  lemma ProductBelow(a: nat, b: nat, m: nat)
    requires a < m && b < m
    ensures a * b < m * m
  {
    assert a * b <= a * m by { if a > 0 { assert b <= m; } }
    assert a * m < m * m;
  }

  lemma AreaFits(r: Rect)
    requires r.Central()
    ensures r.Area() < 0x1000_0000_0000_0000
  {
    ProductBelow(r.width, r.height, 0x4000_0000);
  }

  lemma {:induction false} SumBelow(rs: seq<Rect>)
    requires forall i :: 0 <= i < |rs| ==> rs[i].Central()
    ensures AreaSum(rs) <= |rs| * 0x1000_0000_0000_0000
    ensures rs != [] ==> AreaSum(rs) < |rs| * 0x1000_0000_0000_0000
  {
    if rs != [] {
      SumBelow(rs[..|rs| - 1]);
      AreaFits(rs[|rs| - 1]);
    }
  }

  /** Sixteen regions with edges from central rectangles never overflow the sum. */
  lemma SumFits(regions: seq<Rect>, added: seq<Rect>)
    requires |regions| <= 16 && forall r :: r in added ==> r.Central()
    requires AllFrom(regions, added)
    ensures AreaSum(regions) < 0x1_0000_0000_0000_0000
  {
    forall i | 0 <= i < |regions| ensures regions[i].Central() { assert EdgesFrom(regions[i], added); }
    SumBelow(regions);
  }

  lemma CoversTrans(a: seq<Rect>, b: seq<Rect>, c: seq<Rect>)
    requires Covers(a, b) && Covers(b, c)
    ensures Covers(a, c)
  {
  }

  lemma CoversStart(regions: seq<Rect>, added: seq<Rect>, rect: Rect)
    requires Covers(regions, added)
    ensures Covers(regions + [rect], added + [rect])
  {
    var big, small := regions + [rect], added + [rect];
    forall px, py | Covered(small, px, py) ensures Covered(big, px, py) {
      var k :| 0 <= k < |small| && small[k].Has(px, py);
      if k < |added| {
        assert Covered(added, px, py);
        var j :| 0 <= j < |regions| && regions[j].Has(px, py);
        assert big[j].Has(px, py);
      } else {
        assert big[|regions|].Has(px, py);
      }
    }
  }

  lemma EdgesKept(regions: seq<Rect>, added: seq<Rect>, rect: Rect)
    ensures EdgesFrom(rect, added + [rect])
    ensures AllFrom(regions, added) ==> AllFrom(regions, added + [rect])
  {
    assert rect in added + [rect];
    forall i | 0 <= i < |regions| ensures EdgesFrom(regions[i], added) ==> EdgesFrom(regions[i], added + [rect]) {
      assert forall a :: a in added ==> a in added + [rect];
    }
  }
}
