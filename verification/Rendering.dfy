/** Pixels and blitting in `kpio-browser`: ARGB words, alpha blending, `fill_rect` and `draw_image`. */
module Rendering {
  import opened Bits
  import opened Ints

  // ----- channels -----

  function A(p: U32): nat { p / 0x100_0000 % 256 }
  function R(p: U32): nat { p / 0x1_0000 % 256 }
  function G(p: U32): nat { p / 0x100 % 256 }
  function B(p: U32): nat { p % 256 }

  /** `(a << 24) | (r << 16) | (g << 8) | b`. */
  function Pack(a: nat, r: nat, g: nat, b: nat): nat {
    Or(Or(Or(a * 0x100_0000, r * 0x1_0000), g * 0x100), b)
  }

  function Mix(s: nat, d: nat, a: nat): nat
    requires a <= 255
  {
    var x: nat, y: nat := s * a, d * (255 - a);
    (x + y) / 255
  }

  function MixAlpha(a: nat, d: nat): nat
    requires a <= 255
  {
    var y: nat := d * (255 - a);
    a + y / 255
  }

  lemma MulLe(x: nat, y: nat, k: nat)
    requires x <= y
    ensures x * k <= y * k
  {
  }

  lemma Weights(v: nat, a: nat)
    requires a <= 255
    ensures v * a + v * (255 - a) == 255 * v
  {
  }

  lemma Quotient(n: nat, lo: nat, hi: nat)
    requires 255 * lo <= n <= 255 * hi
    ensures lo <= n / 255 <= hi
  {
  }

  lemma MixWithin(s: nat, d: nat, a: nat, lo: nat, hi: nat)
    requires a <= 255 && lo <= s <= hi && lo <= d <= hi
    ensures lo <= Mix(s, d, a) <= hi
  {
    MulLe(lo, s, a);
    MulLe(s, hi, a);
    MulLe(lo, d, 255 - a);
    MulLe(d, hi, 255 - a);
    Weights(lo, a);
    Weights(hi, a);
    Quotient(s * a + d * (255 - a), lo, hi);
  }

  lemma MixBetween(s: nat, d: nat, a: nat)
    requires s <= 255 && d <= 255 && a <= 255
    ensures Between(Mix(s, d, a), s, d) && Mix(s, d, a) <= 255
  {
    if s <= d { MixWithin(s, d, a, s, d); } else { MixWithin(s, d, a, d, s); }
  }

  lemma MixAlphaAbove(a: nat, d: nat)
    requires a <= 255 && d <= 255
    ensures a <= MixAlpha(a, d) <= 255 && d <= MixAlpha(a, d)
  {
    Weights(d, a);
    MulLe(d, 255, a);
    MulLe(d, 255, 255 - a);
    Quotient(d * (255 - a), if d < a then 0 else d - a, 255 - a);
  }

  lemma Widths()
    ensures Pow2(8) == 0x100 && Pow2(16) == 0x1_0000 && Pow2(24) == 0x100_0000
  {
    assert Pow2(4) == 16;
    assert Pow2(8) == 16 * Pow2(4);
    assert Pow2(12) == 16 * Pow2(8);
    assert Pow2(16) == 16 * Pow2(12);
    assert Pow2(20) == 16 * Pow2(16);
    assert Pow2(24) == 16 * Pow2(20);
  }

  /** Or-ing channels that fit their bytes just places them side by side. */
  lemma PackIsSum(a: nat, r: nat, g: nat, b: nat)
    requires a < 256 && r < 256 && g < 256 && b < 256
    ensures Pack(a, r, g, b) == a * 0x100_0000 + r * 0x1_0000 + g * 0x100 + b
  {
    Widths();
    hide Or, Pow2;
    OrBelow(a, r * 0x1_0000, 24);
    OrBelow(a * 256 + r, g * 0x100, 16);
    OrBelow(a * 0x1_0000 + r * 256 + g, b, 8);
  }

  lemma OrBelow(hi: nat, lo: nat, k: nat)
    requires lo < Pow2(k)
    ensures Or(hi * Pow2(k), lo) == hi * Pow2(k) + lo
  {
    hide Or, Pow2;
    OrFields(hi, 0, 0, lo, k);
    OrZero(hi);
    OrZero(lo);
  }

  lemma BlendFits(dst: U32, src: U32)
    ensures var a := A(src);
      Pack(MixAlpha(a, A(dst)), Mix(R(src), R(dst), a), Mix(G(src), G(dst), a), Mix(B(src), B(dst), a)) < 0x1_0000_0000
  {
    hide Pack, Mix, MixAlpha;
    var a := A(src);
    MixBetween(R(src), R(dst), a);
    MixBetween(G(src), G(dst), a);
    MixBetween(B(src), B(dst), a);
    MixAlphaAbove(a, A(dst));
    PackChannels(MixAlpha(a, A(dst)), Mix(R(src), R(dst), a), Mix(G(src), G(dst), a), Mix(B(src), B(dst), a));
  }

  function AlphaBlend(dst: U32, src: U32): U32 {
    var a := A(src);
    if a == 0 then dst
    else if a == 255 then src
    else
      BlendFits(dst, src);
      Pack(MixAlpha(a, A(dst)), Mix(R(src), R(dst), a), Mix(G(src), G(dst), a), Mix(B(src), B(dst), a))
  }

  predicate Between(c: int, s: int, d: int) {
    s <= c <= d || d <= c <= s
  }

  /** Each blended colour channel lies between source and destination, alpha is at least both, and no channel bleeds. */
  lemma BlendIsBetween(dst: U32, src: U32)
    ensures var o := AlphaBlend(dst, src);
      && Between(R(o), R(src), R(dst)) && Between(G(o), G(src), G(dst)) && Between(B(o), B(src), B(dst))
      && A(o) >= A(src) && A(o) >= A(dst)
  {
    var a := A(src);
    if 0 < a < 255 {
      hide Pack, Mix, MixAlpha;
      MixBetween(R(src), R(dst), a);
      MixBetween(G(src), G(dst), a);
      MixBetween(B(src), B(dst), a);
      MixAlphaAbove(a, A(dst));
      PackChannels(MixAlpha(a, A(dst)), Mix(R(src), R(dst), a), Mix(G(src), G(dst), a), Mix(B(src), B(dst), a));
    }
  }

  /** `q` is `n / 255`, rounded down. */
  predicate Rounds(q: int, n: int) {
    255 * q <= n < 255 * q + 255
  }

  /**
  The blended channels are the weighted averages of source and destination,
  weighted by the source's alpha, and alpha is what the source leaves of the
  destination's on top of its own.
  */
  lemma BlendIsWeighted(dst: U32, src: U32)
    ensures var o, a := AlphaBlend(dst, src), A(src);
      && (a == 0 ==> o == dst) && (a == 255 ==> o == src)
      && Rounds(R(o), R(src) * a + R(dst) * (255 - a))
      && Rounds(G(o), G(src) * a + G(dst) * (255 - a))
      && Rounds(B(o), B(src) * a + B(dst) * (255 - a))
      && Rounds(A(o) - a, A(dst) * (255 - a))
  {
    var a := A(src);
    if 0 < a < 255 {
      MixRounds(R(src), R(dst), a);
      MixRounds(G(src), G(dst), a);
      MixRounds(B(src), B(dst), a);
      MixAlphaRounds(a, A(dst));
      MixBetween(R(src), R(dst), a);
      MixBetween(G(src), G(dst), a);
      MixBetween(B(src), B(dst), a);
      MixAlphaAbove(a, A(dst));
      hide Pack, Mix, MixAlpha, A, R, G, B;
      PackChannels(MixAlpha(a, A(dst)), Mix(R(src), R(dst), a), Mix(G(src), G(dst), a), Mix(B(src), B(dst), a));
    } else {
      hide A, R, G, B;
      NoBlendRounds(R(src), R(dst), a);
      NoBlendRounds(G(src), G(dst), a);
      NoBlendRounds(B(src), B(dst), a);
      NoBlendRounds(A(src), A(dst), a);
    }
  }

  lemma NoBlendRounds(s: nat, d: nat, a: nat)
    ensures a == 0 ==> Rounds(d, s * a + d * (255 - a)) && Rounds(d, d * (255 - a))
    ensures a == 255 ==> Rounds(s, s * a + d * (255 - a)) && Rounds(0, d * (255 - a))
  {
  }

  lemma MixRounds(s: nat, d: nat, a: nat)
    requires a <= 255
    ensures Rounds(Mix(s, d, a), s * a + d * (255 - a))
  {
    RoundsDown(s * a + d * (255 - a));
  }

  lemma MixAlphaRounds(a: nat, d: nat)
    requires a <= 255
    ensures Rounds(MixAlpha(a, d) - a, d * (255 - a))
  {
    RoundsDown(d * (255 - a));
  }

  lemma RoundsDown(n: nat)
    ensures Rounds(n / 255, n)
  {
  }

  lemma PackChannels(a: nat, r: nat, g: nat, b: nat)
    requires a < 256 && r < 256 && g < 256 && b < 256
    ensures Pack(a, r, g, b) < 0x1_0000_0000
    ensures var o: U32 := Pack(a, r, g, b); A(o) == a && R(o) == r && G(o) == g && B(o) == b
  {
    hide Pack;
    PackIsSum(a, r, g, b);
    Digits4(a, r, g, b);
  }

  lemma Digits4(a: nat, r: nat, g: nat, b: nat)
    requires a < 256 && r < 256 && g < 256 && b < 256
    ensures var p := a * 0x100_0000 + r * 0x1_0000 + g * 0x100 + b;
      p / 0x100_0000 == a && p / 0x1_0000 == a * 256 + r && p / 0x100 == a * 0x1_0000 + r * 256 + g && p % 256 == b
  {
  }

  // ----- the framebuffer, row by row -----

  function Idx(r: nat, c: nat, w: nat): nat {
    r * w + c
  }

  /** `r * w + c` computed in `u32`. */
  function Cell(r: nat, c: nat, w: nat): nat {
    ToU32(Idx(r, c, w))
  }

  /** Two cells of a `w` wide framebuffer with the same index are the same cell. */
  lemma IdxInjective(r: nat, c: nat, s: nat, d: nat, w: nat)
    requires c < w && d < w && Idx(r, c, w) == Idx(s, d, w)
    ensures r == s && c == d
  {
    RowOf(r, c, w);
    RowOf(s, d, w);
  }

  lemma RowOf(r: nat, c: nat, w: nat)
    requires c < w
    ensures Idx(r, c, w) / w == r
  {
    var n := Idx(r, c, w);
    var q := n / w;
    assert n == w * q + n % w;
    assert w * (r - q) == n % w - c;
    AwayFromZero(w, r - q);
  }

  /** Every cell on screen has an index below the screen's size. */
  lemma IdxOnScreen(r: nat, c: nat, w: nat, h: nat)
    requires r < h && c < w
    ensures Idx(r, c, w) < w * h
  {
    MulLe(r + 1, h, w);
  }

  /** While the screen has at most 2^32 cells, no two of them share a `u32` index. */
  lemma CellIs(r: nat, c: nat, s: nat, d: nat, w: nat, h: nat)
    requires w * h <= 0x1_0000_0000 && r < h && c < w && d < w
    ensures Cell(r, c, w) == Idx(s, d, w) <==> r == s && c == d
  {
    hide Idx;
    IdxOnScreen(r, c, w, h);
    if Idx(r, c, w) == Idx(s, d, w) { IdxInjective(r, c, s, d, w); }
  }

  // ----- fill_rect -----

  /** `(x + width as i32) as u32`, cut off at the screen's edge. */
  function EndOf(x: int, width: nat, limit: nat): nat {
    Min(ToU32(ToI32(x + ToI32(width))), limit)
  }

  /** The cells the loops visit. */
  predicate Visited(r: int, c: int, x: int, y: int, width: nat, height: nat, w: nat, h: nat) {
    Max(y, 0) <= r < EndOf(y, height, h) && Max(x, 0) <= c < EndOf(x, width, w)
  }

  /** A pixel blended `n` times with the same colour. */
  ghost function BlendTimes(p: U32, color: U32, n: nat): U32 {
    if n == 0 then p else AlphaBlend(BlendTimes(p, color, n - 1), color)
  }

  /** How many of the columns `x0..x1` of row `r` have the index `k`. */
  ghost function RowHits(k: nat, r: nat, x0: nat, x1: nat, w: nat): nat {
    if x1 <= x0 then 0 else RowHits(k, r, x0, x1 - 1, w) + (if Cell(r, x1 - 1, w) == k then 1 else 0)
  }

  /** How many cells of the rows `y0..y1` and columns `x0..x1` have the index `k`. */
  ghost function Hits(k: nat, y0: nat, y1: nat, x0: nat, x1: nat, w: nat): nat {
    if y1 <= y0 then 0 else Hits(k, y0, y1 - 1, x0, x1, w) + RowHits(k, y1 - 1, x0, x1, w)
  }

  /** How many of the cells the loops visit have the index `k`. */
  ghost function Visits(k: nat, x: int, y: int, width: nat, height: nat, w: nat, h: nat): nat {
    Hits(k, Max(y, 0), EndOf(y, height, h), Max(x, 0), EndOf(x, width, w), w)
  }

  /** Every pixel is blended once for each visited cell that has its index; `VisitedOnce` counts them. */
  method FillRect(framebuffer: array<U32>, w: nat, h: nat, x: int, y: int, width: nat, height: nat, color: U32)
    modifies framebuffer
    ensures forall k :: 0 <= k < framebuffer.Length ==>
      framebuffer[k] == BlendTimes(old(framebuffer[k]), color, Visits(k, x, y, width, height, w, h))
  {
    hide AlphaBlend, Cell, EndOf;
    var xStart, yStart := Max(x, 0), Max(y, 0);
    var xEnd, yEnd := EndOf(x, width, w), EndOf(y, height, h);
    var py := yStart;
    while py < yEnd
      invariant yStart <= py && (py <= yEnd || py == yStart)
      invariant forall k :: 0 <= k < framebuffer.Length ==>
        framebuffer[k] == BlendTimes(old(framebuffer[k]), color, Hits(k, yStart, py, xStart, xEnd, w))
    {
      var px := xStart;
      while px < xEnd
        invariant xStart <= px && (px <= xEnd || px == xStart)
        invariant forall k :: 0 <= k < framebuffer.Length ==>
          framebuffer[k] == BlendTimes(
            old(framebuffer[k]), color, Hits(k, yStart, py, xStart, xEnd, w) + RowHits(k, py, xStart, px, w))
      {
        var idx := Cell(py, px, w);
        if idx < framebuffer.Length {
          framebuffer[idx] := AlphaBlend(framebuffer[idx], color);
        }
        px := px + 1;
      }
      py := py + 1;
    }
  }

  lemma {:induction false} RowHitsOnce(row: nat, r: nat, c: nat, x0: nat, x1: nat, w: nat, h: nat)
    requires w * h <= 0x1_0000_0000 && row < h && c < w && x1 <= w
    ensures RowHits(Idx(r, c, w), row, x0, x1, w) == if row == r && x0 <= c < x1 then 1 else 0
  {
    hide Idx, Cell;
    if x1 > x0 {
      RowHitsOnce(row, r, c, x0, x1 - 1, w, h);
      CellIs(row, x1 - 1, r, c, w, h);
    }
  }

  lemma {:induction false} HitsOnce(r: nat, c: nat, y0: nat, y1: nat, x0: nat, x1: nat, w: nat, h: nat)
    requires w * h <= 0x1_0000_0000 && y1 <= h && c < w && x1 <= w
    ensures Hits(Idx(r, c, w), y0, y1, x0, x1, w) == if y0 <= r < y1 && x0 <= c < x1 then 1 else 0
  {
    hide Idx, RowHits;
    if y1 > y0 {
      HitsOnce(r, c, y0, y1 - 1, x0, x1, w, h);
      RowHitsOnce(y1 - 1, r, c, x0, x1, w, h);
    }
  }

  /** On a screen of at most 2^32 cells every visited pixel is blended exactly once, and no other pixel is. */
  lemma VisitedOnce(r: nat, c: nat, x: int, y: int, width: nat, height: nat, w: nat, h: nat)
    requires w * h <= 0x1_0000_0000 && c < w
    ensures Visits(Idx(r, c, w), x, y, width, height, w, h)
         == if Visited(r, c, x, y, width, height, w, h) then 1 else 0
  {
    hide Idx, Hits;
    HitsOnce(r, c, Max(y, 0), EndOf(y, height, h), Max(x, 0), EndOf(x, width, w), w, h);
  }

  lemma {:induction false} RowIsHit(k: nat, r: nat, c: nat, x1: nat, w: nat)
    requires c < x1 && Cell(r, c, w) == k
    ensures RowHits(k, r, 0, x1, w) >= 1
  {
    hide Cell;
    if c < x1 - 1 { RowIsHit(k, r, c, x1 - 1, w); }
  }

  lemma {:induction false} HitsOfRows(k: nat, r: nat, s: nat, y1: nat, x1: nat, w: nat)
    requires r < y1 && r <= s < y1
    ensures Hits(k, 0, y1, 0, x1, w) >= RowHits(k, r, 0, x1, w)
    ensures r < s ==> Hits(k, 0, y1, 0, x1, w) >= RowHits(k, r, 0, x1, w) + RowHits(k, s, 0, x1, w)
  {
    hide RowHits;
    if s == y1 - 1 {
      if r < s { HitsOfRows(k, r, r, y1 - 1, x1, w); }
    } else {
      HitsOfRows(k, r, s, y1 - 1, x1, w);
    }
  }

  /** No rectangle blends any pixel twice exactly when the screen has at most 2^32 cells. */
  lemma BlendedOnceIff(w: U32, h: U32)
    ensures (forall x: I32, y: I32, width: U32, height: U32, k: nat :: Visits(k, x, y, width, height, w, h) <= 1)
       <==> w * h <= 0x1_0000_0000
  {
    hide Hits, RowHits, Cell, EndOf;
    if w * h <= 0x1_0000_0000 {
      forall x: I32, y: I32, width: U32, height: U32, k: nat ensures Visits(k, x, y, width, height, w, h) <= 1 {
        AtMostOnce(x, y, width, height, w, h, k);
      }
    } else {
      var s, d := WrappedCell(w, h);
      RowIsHit(0, 0, 0, w, w);
      RowIsHit(0, s, d, w, w);
      HitsOfRows(0, 0, s, h, w, w);
      EndIs(0, w, w);
      EndIs(0, h, h);
      assert Visits(0, 0, 0, w, h, w, h) >= 2;
    }
  }

  lemma AtMostOnce(x: int, y: int, width: nat, height: nat, w: nat, h: nat, k: nat)
    requires w * h <= 0x1_0000_0000
    ensures Visits(k, x, y, width, height, w, h) <= 1
  {
    if w == 0 {
      NoColumns(k, Max(y, 0), EndOf(y, height, h), Max(x, 0));
    } else {
      assert k == Idx(k / w, k % w, w);
      VisitedOnce(k / w, k % w, x, y, width, height, w, h);
    }
  }

  lemma {:induction false} NoColumns(k: nat, y0: nat, y1: nat, x0: nat)
    ensures Hits(k, y0, y1, x0, 0, 0) == 0
  {
    if y1 > y0 { NoColumns(k, y0, y1 - 1, x0); }
  }

  /** The cell whose index is 2^32, which wraps to that of the first cell. */
  lemma WrappedCell(w: U32, h: U32) returns (s: nat, d: nat)
    requires w * h > 0x1_0000_0000
    ensures 0 < s < h && d < w && Cell(s, d, w) == 0 == Cell(0, 0, w)
  {
    hide Cell;
    s, d := 0x1_0000_0000 / w, 0x1_0000_0000 % w;
    QuotientWithin(w, h, 0x1_0000_0000);
    CellAt(s, d, w);
    CellAt(0, 0, w);
  }

  lemma QuotientWithin(w: nat, h: nat, n: nat)
    requires 0 < w <= n < w * h
    ensures 0 < n / w < h && Idx(n / w, n % w, w) == n
  {
    assert n == w * (n / w) + n % w;
    if n / w >= h { MulLe(h, n / w, w); }
    if n / w <= 0 { MulLe(n / w, 0, w); }
  }

  lemma CellAt(r: nat, c: nat, w: nat)
    requires Idx(r, c, w) == 0 || Idx(r, c, w) == 0x1_0000_0000
    ensures Cell(r, c, w) == 0
  {
    hide Idx;
  }

  /** The cells of the rectangle that are on screen. */
  predicate Wanted(r: int, c: int, x: int, y: int, width: nat, height: nat, w: nat, h: nat) {
    0 <= r < h && 0 <= c < w && x <= c < x + width && y <= r < y + height
  }

  /** The far edge survives the casts. */
  predicate EdgeKept(x: int, width: nat) {
    0 <= x + width < 0x1_0000_0000
  }

  /** The loop over this axis is empty. */
  predicate NoneVisited(x: int, width: nat, limit: nat) {
    Max(x, 0) >= Min(ToU32(x + width), limit)
  }

  /** The rectangle and the screen share nothing on this axis. */
  predicate NoneWanted(x: int, width: nat, limit: nat) {
    Max(x, 0) >= Min(x + width, limit)
  }

  lemma EndIs(x: int, width: nat, limit: nat)
    ensures EndOf(x, width, limit) == Min(ToU32(x + width), limit)
  {
  }

  /**
  For every position and size `fill_rect` blends exactly the on-screen cells of
  the rectangle if and only if its right and bottom edges are not negative and
  fit in `u32`, or there was nothing to blend and nothing is: a negative edge is
  read as a huge one, an edge beyond 2^32 as a small one.
  */
  lemma FillIsClippedIff(x: I32, y: I32, width: U32, height: U32, w: U32, h: U32)
    ensures (forall r, c :: Visited(r, c, x, y, width, height, w, h) <==> Wanted(r, c, x, y, width, height, w, h))
       <==> (EdgeKept(x, width) && EdgeKept(y, height))
            || ((NoneVisited(x, width, w) || NoneVisited(y, height, h))
                && (NoneWanted(x, width, w) || NoneWanted(y, height, h)))
  {
    hide EndOf;
    EndIs(x, width, w);
    EndIs(y, height, h);
    var good := (EdgeKept(x, width) && EdgeKept(y, height))
                || ((NoneVisited(x, width, w) || NoneVisited(y, height, h))
                    && (NoneWanted(x, width, w) || NoneWanted(y, height, h)));
    if good {
      forall r, c ensures Visited(r, c, x, y, width, height, w, h) <==> Wanted(r, c, x, y, width, height, w, h) { }
    } else {
      var r, c := Max(y, 0), Max(x, 0);
      assert Visited(r, c, x, y, width, height, w, h) != Wanted(r, c, x, y, width, height, w, h);
    }
  }

  /**
  Where nothing wraps, a fill blends the colour once into pixel `r * w + c` for
  every cell of the rectangle that is on screen, and leaves every other pixel.
  */
  lemma FilledIs(p: U32, color: U32, r: nat, c: nat, x: I32, y: I32, width: U32, height: U32, w: U32, h: U32)
    requires w * h <= 0x1_0000_0000 && c < w && EdgeKept(x, width) && EdgeKept(y, height)
    ensures BlendTimes(p, color, Visits(r * w + c, x, y, width, height, w, h))
         == if r < h && x <= c < x + width && y <= r < y + height then AlphaBlend(p, color) else p
  {
    hide AlphaBlend, EndOf, Visits;
    FillIsClippedIff(x, y, width, height, w, h);
    VisitedOnce(r, c, x, y, width, height, w, h);
    assert Idx(r, c, w) == r * w + c;
    assert Visited(r, c, x, y, width, height, w, h) <==> Wanted(r, c, x, y, width, height, w, h);
    assert BlendTimes(p, color, 1) == AlphaBlend(BlendTimes(p, color, 0), color);
  }

  /** A rectangle that ends left of the screen is painted across it. */
  lemma LeftOfScreenIsPainted()
    ensures Visited(0, 3, -10, 0, 5, 1, 4, 4) && !Wanted(0, 3, -10, 0, 5, 1, 4, 4)
  {
    EndIs(-10, 5, 4);
    EndIs(0, 1, 4);
  }

  /** A rectangle from column 1 past the right of the screen is not painted at all. */
  lemma WideIsNotPainted(r: int, c: int)
    ensures !Visited(r, c, 1, 0, 0xFFFF_FFFF, 1, 800, 600)
    ensures Wanted(r, c, 1, 0, 0xFFFF_FFFF, 1, 800, 600) <==> r == 0 && 1 <= c < 800
  {
    EndIs(1, 0xFFFF_FFFF, 800);
  }

  // ----- draw_image -----

  /** Image cell (`dy`, `dx`) is blended into pixel `k`: it has data and a place on screen, as the casts read it. */
  predicate Lands(k: nat, dy: nat, dx: nat, w: nat, h: nat, x: int, y: int, width: nat, size: nat) {
    var px, py := ToI32(x + ToI32(dx)), ToI32(y + ToI32(dy));
    Cell(dy, dx, width) < size && 0 <= px < ToI32(w) && 0 <= py < ToI32(h) && Cell(py, px, w) == k
  }

  /** Pixel `k` after the first `dx` cells of image row `dy`. */
  ghost function RowPaint(p: U32, k: nat, dy: nat, dx: nat, w: nat, h: nat, x: int, y: int, width: nat,
                          data: seq<U32>): U32
  {
    if dx == 0 then p else
    var q := RowPaint(p, k, dy, dx - 1, w, h, x, y, width, data);
    if Lands(k, dy, dx - 1, w, h, x, y, width, |data|) then AlphaBlend(q, data[Cell(dy, dx - 1, width)]) else q
  }

  /** Pixel `k` after the first `dy` rows of the image. */
  ghost function Paint(p: U32, k: nat, dy: nat, w: nat, h: nat, x: int, y: int, width: nat, data: seq<U32>): U32 {
    if dy == 0 then p else
    RowPaint(Paint(p, k, dy - 1, w, h, x, y, width, data), k, dy - 1, width, w, h, x, y, width, data)
  }

  /** Every pixel is blended with the image cells that land on it, in order; `PaintedOnce` says which one that is. */
  method DrawImage(framebuffer: array<U32>, w: nat, h: nat, x: int, y: int, width: nat, height: nat, data: seq<U32>)
    modifies framebuffer
    ensures forall k :: 0 <= k < framebuffer.Length ==>
      framebuffer[k] == Paint(old(framebuffer[k]), k, height, w, h, x, y, width, data)
  {
    hide AlphaBlend, Idx, ToI32;
    for dy := 0 to height
      invariant forall k :: 0 <= k < framebuffer.Length ==>
        framebuffer[k] == Paint(old(framebuffer[k]), k, dy, w, h, x, y, width, data)
    {
      for dx := 0 to width
        invariant forall k :: 0 <= k < framebuffer.Length ==>
          framebuffer[k] ==
          RowPaint(Paint(old(framebuffer[k]), k, dy, w, h, x, y, width, data), k, dy, dx, w, h, x, y, width, data)
      {
        var srcIdx := Cell(dy, dx, width);
        if srcIdx >= |data| {
          continue;
        }
        var px, py := ToI32(x + ToI32(dx)), ToI32(y + ToI32(dy));
        if px >= 0 && py >= 0 && px < ToI32(w) && py < ToI32(h) {
          var dstIdx := Cell(py, px, w);
          if dstIdx < framebuffer.Length {
            framebuffer[dstIdx] := AlphaBlend(framebuffer[dstIdx], data[srcIdx]);
          }
        }
      }
    }
  }

  /** The one image row (or column) that is drawn at row (or column) `c` of the screen. */
  function SourceOf(c: int, x: int): nat {
    ToU32(c - x)
  }

  lemma SourceIs(c: I32, x: int, dx: U32)
    ensures ToI32(x + ToI32(dx)) == c <==> dx == SourceOf(c, x)
  {
  }

  /** The image has a pixel for the screen cell, and the screen's size survives the casts. */
  predicate HasSource(r: nat, c: nat, w: nat, h: nat, x: int, y: int, width: nat, height: nat, size: nat) {
    && c < ToI32(w) && r < ToI32(h) && SourceOf(c, x) < width && SourceOf(r, y) < height
    && Cell(SourceOf(r, y), SourceOf(c, x), width) < size
  }

  lemma LandsIff(r: nat, c: nat, dy: U32, dx: U32, w: U32, h: U32, x: int, y: int, width: nat, size: nat)
    requires w * h <= 0x1_0000_0000 && c < w
    ensures Lands(Idx(r, c, w), dy, dx, w, h, x, y, width, size)
       <==> c < ToI32(w) && r < ToI32(h) && Cell(dy, dx, width) < size && dy == SourceOf(r, y) && dx == SourceOf(c, x)
  {
    var px, py := ToI32(x + ToI32(dx)), ToI32(y + ToI32(dy));
    CastFits(w);
    CastFits(h);
    hide Idx, ToI32, SourceOf, Cell;
    if 0 <= px < ToI32(w) && 0 <= py < ToI32(h) { CellIs(py, px, r, c, w, h); }
    if c < ToI32(w) { SourceIs(c, x, dx); }
    if r < ToI32(h) { SourceIs(r, y, dy); }
  }

  lemma CastFits(n: U32)
    ensures ToI32(n) <= n && ToI32(n) < 0x8000_0000
  {
  }

  lemma {:induction false} RowPaintOnce(p: U32, r: nat, c: nat, dy: U32, dx: U32, w: U32, h: U32, x: int, y: int,
                                        width: nat, data: seq<U32>)
    requires w * h <= 0x1_0000_0000 && c < w
    ensures RowPaint(p, Idx(r, c, w), dy, dx, w, h, x, y, width, data)
         == if c < ToI32(w) && r < ToI32(h) && dy == SourceOf(r, y) && SourceOf(c, x) < dx
               && Cell(dy, SourceOf(c, x), width) < |data|
            then AlphaBlend(p, data[Cell(dy, SourceOf(c, x), width)]) else p
  {
    hide AlphaBlend, Idx, ToI32, SourceOf, Cell, Lands;
    if dx > 0 {
      RowPaintOnce(p, r, c, dy, dx - 1, w, h, x, y, width, data);
      LandsIff(r, c, dy, dx - 1, w, h, x, y, width, |data|);
    }
  }

  lemma {:induction false} PaintedRows(p: U32, r: nat, c: nat, dy: U32, w: U32, h: U32, x: int, y: int,
                                       width: U32, data: seq<U32>)
    requires w * h <= 0x1_0000_0000 && c < w
    ensures Paint(p, Idx(r, c, w), dy, w, h, x, y, width, data)
         == if HasSource(r, c, w, h, x, y, width, dy, |data|)
            then AlphaBlend(p, data[Cell(SourceOf(r, y), SourceOf(c, x), width)]) else p
  {
    hide AlphaBlend, Idx, ToI32, SourceOf, Cell, RowPaint;
    if dy > 0 {
      PaintedRows(p, r, c, dy - 1, w, h, x, y, width, data);
      var q := Paint(p, Idx(r, c, w), dy - 1, w, h, x, y, width, data);
      RowPaintOnce(q, r, c, dy - 1, width, w, h, x, y, width, data);
    }
  }

  /** On a screen of at most 2^32 cells every cell takes its one source pixel, once; without one it is left alone. */
  lemma PaintedOnce(p: U32, r: nat, c: nat, w: U32, h: U32, x: I32, y: I32, width: U32, height: U32, data: seq<U32>)
    requires w * h <= 0x1_0000_0000 && c < w
    ensures Paint(p, Idx(r, c, w), height, w, h, x, y, width, data)
         == if HasSource(r, c, w, h, x, y, width, height, |data|)
            then AlphaBlend(p, data[Cell(SourceOf(r, y), SourceOf(c, x), width)]) else p
  {
    PaintedRows(p, r, c, height, w, h, x, y, width, data);
  }

  /** The image index survives `u32` for every cell of the image exactly when the image has at most 2^32 cells. */
  lemma ImageIndexIff(width: U32, height: U32)
    ensures (forall dy, dx :: 0 <= dy < height && 0 <= dx < width ==> Cell(dy, dx, width) == Idx(dy, dx, width))
       <==> width * height <= 0x1_0000_0000
  {
    hide Idx;
    if width * height <= 0x1_0000_0000 {
      forall dy, dx | 0 <= dy < height && 0 <= dx < width ensures Cell(dy, dx, width) == Idx(dy, dx, width) {
        IdxOnScreen(dy, dx, width, height);
      }
    } else {
      var s, d := 0x1_0000_0000 / width, 0x1_0000_0000 % width;
      QuotientWithin(width, height, 0x1_0000_0000);
      assert Cell(s, d, width) != Idx(s, d, width);
    }
  }

  /** The image covers the screen cell, as the casts read the two. */
  predicate Drawn(r: int, c: int, x: int, y: int, width: nat, height: nat, w: nat, h: nat) {
    0 <= r < ToI32(h) && 0 <= c < ToI32(w) && SourceOf(r, y) < height && SourceOf(c, x) < width
  }

  /** Neither the screen's size nor the image's far edge wraps. */
  predicate AxisKept(x: int, width: nat, limit: nat) {
    limit < 0x8000_0000 && x + width <= 0x1_0000_0000
  }

  /** Nothing is drawn on this axis. */
  predicate NoneDrawn(x: int, width: nat, limit: nat) {
    limit == 0 || limit >= 0x8000_0000 || (x + width <= 0x1_0000_0000 && NoneWanted(x, width, limit))
  }

  lemma AxisDrawn(c: int, x: I32, width: U32, limit: U32)
    ensures AxisKept(x, width, limit) ==>
      (0 <= c < ToI32(limit) && SourceOf(c, x) < width <==> 0 <= c < limit && x <= c < x + width)
    ensures NoneDrawn(x, width, limit) ==> !(0 <= c < ToI32(limit) && SourceOf(c, x) < width)
  {
    CastFits(limit);
  }

  /** Where an axis is not kept, or nothing is drawn on it: a column that tells. */
  lemma AxisWitness(x: I32, width: U32, limit: U32) returns (c: int)
    requires !NoneDrawn(x, width, limit)
    ensures 0 <= c < ToI32(limit) && SourceOf(c, x) < width
    ensures !AxisKept(x, width, limit) ==> !(x <= c)
  {
    c := if x + width > 0x1_0000_0000 then 0 else Max(x, 0);
  }

  /**
  `draw_image` puts the image on exactly the on-screen cells it covers if and
  only if on both axes the screen is below 2^31 and the image ends within 2^32,
  or there was nothing to draw and nothing is.
  */
  lemma DrawIsClippedIff(x: I32, y: I32, width: U32, height: U32, w: U32, h: U32)
    ensures (forall r, c :: Drawn(r, c, x, y, width, height, w, h) <==> Wanted(r, c, x, y, width, height, w, h))
       <==> (AxisKept(x, width, w) && AxisKept(y, height, h))
            || ((NoneDrawn(x, width, w) || NoneDrawn(y, height, h))
                && (NoneWanted(x, width, w) || NoneWanted(y, height, h)))
  {
    hide ToI32, SourceOf;
    var kept := AxisKept(x, width, w) && AxisKept(y, height, h);
    var noneDrawn := NoneDrawn(x, width, w) || NoneDrawn(y, height, h);
    var noneWanted := NoneWanted(x, width, w) || NoneWanted(y, height, h);
    forall r, c ensures (kept || (noneDrawn && noneWanted)) ==>
      (Drawn(r, c, x, y, width, height, w, h) <==> Wanted(r, c, x, y, width, height, w, h))
    {
      AxisDrawn(c, x, width, w);
      AxisDrawn(r, y, height, h);
    }
    if !kept && noneDrawn && !noneWanted {
      var r, c := Max(y, 0), Max(x, 0);
      AxisDrawn(c, x, width, w);
      AxisDrawn(r, y, height, h);
      assert !Drawn(r, c, x, y, width, height, w, h) && Wanted(r, c, x, y, width, height, w, h);
    }
    if !kept && !noneDrawn {
      var c := AxisWitness(x, width, w);
      var r := AxisWitness(y, height, h);
      assert Drawn(r, c, x, y, width, height, w, h) && !Wanted(r, c, x, y, width, height, w, h);
    }
  }

  /**
  Where nothing wraps, pixel `r * w + c` is blended once with the image's pixel
  for that cell, where the image covers the cell and has one, and is left alone
  otherwise.
  */
  lemma PaintedIs(p: U32, r: nat, c: nat, w: U32, h: U32, x: I32, y: I32, width: U32, height: U32, data: seq<U32>)
    requires w * h <= 0x1_0000_0000 && width * height <= 0x1_0000_0000 && c < w
    requires AxisKept(x, width, w) && AxisKept(y, height, h)
    ensures Paint(p, r * w + c, height, w, h, x, y, width, data)
         == if r < h && x <= c < x + width && y <= r < y + height && (r - y) * width + (c - x) < |data|
            then AlphaBlend(p, data[(r - y) * width + (c - x)]) else p
  {
    PaintedOnce(p, r, c, w, h, x, y, width, height, data);
    AxisDrawn(c, x, width, w);
    AxisDrawn(r, y, height, h);
    ImageIndexIff(width, height);
    assert Idx(r, c, w) == r * w + c;
    if r < h && x <= c < x + width && y <= r < y + height {
      AxisSource(c, x, width);
      AxisSource(r, y, height);
      assert Cell(r - y, c - x, width) == Idx(r - y, c - x, width) == (r - y) * width + (c - x);
    }
    hide AlphaBlend, ToI32, SourceOf, Cell, Paint, Idx;
  }

  lemma AxisSource(c: int, x: I32, width: U32)
    requires x <= c < x + width
    ensures SourceOf(c, x) == c - x
  {
  }
}
