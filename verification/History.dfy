/**
The two navigation histories of `kpio-browser`: `Navigator` counts its current
entry from -1, `PageLoader` from 0.  Both are the same zipper.
*/
module History {
  import opened Wrappers

  /** A history entry; `Navigator` keeps only the URL. */
  datatype Page = Page(url: string, title: string, scrollX: int, scrollY: int)

  // ----- the zipper -----

  datatype Zipper = Empty | At(back: seq<Page>, current: Page, forward: seq<Page>)

  function Visit(z: Zipper, x: Page): Zipper {
    match z
    case Empty => At([], x, [])
    case At(b, c, _) => At(b + [c], x, [])
  }

  predicate CanGoBack(z: Zipper) {
    z.At? && z.back != []
  }

  predicate CanGoForward(z: Zipper) {
    z.At? && z.forward != []
  }

  function Back(z: Zipper): Zipper {
    if CanGoBack(z) then At(z.back[..|z.back| - 1], z.back[|z.back| - 1], [z.current] + z.forward) else z
  }

  function Forward(z: Zipper): Zipper {
    if CanGoForward(z) then At(z.back + [z.current], z.forward[0], z.forward[1..]) else z
  }

  function Current(z: Zipper): Option<Page> {
    if z.At? then Some(z.current) else None
  }

  /** All entries, oldest first. */
  function Entries(z: Zipper): seq<Page> {
    if z.At? then z.back + [z.current] + z.forward else []
  }

  /** Forward undoes back, and going back neither loses nor reorders an entry. */
  lemma BackThenForward(z: Zipper)
    ensures CanGoBack(z) ==> CanGoForward(Back(z)) && Forward(Back(z)) == z
    ensures Entries(Back(z)) == Entries(z)
  {
    if CanGoBack(z) {
      var n := |z.back| - 1;
      assert z.back == z.back[..n] + [z.back[n]];
      assert ([z.current] + z.forward)[1..] == z.forward;
    }
  }

  /** Back undoes forward, and going forward neither loses nor reorders an entry. */
  lemma ForwardThenBack(z: Zipper)
    ensures CanGoForward(z) ==> CanGoBack(Forward(z)) && Back(Forward(z)) == z
    ensures Entries(Forward(z)) == Entries(z)
  {
    if CanGoForward(z) {
      assert z.forward == [z.forward[0]] + z.forward[1..];
      assert (z.back + [z.current])[..|z.back|] == z.back;
    }
  }

  /** A visit drops the forward part, and going back from it returns to where it was made. */
  lemma VisitThenBack(z: Zipper, x: Page)
    requires z.At?
    ensures Back(Visit(z, x)) == At(z.back, z.current, [x])
    ensures Entries(Visit(z, x)) == z.back + [z.current, x]
  {
    var v := Visit(z, x);
    assert v.back[..|v.back| - 1] == z.back;
  }

  // ----- the two representations -----

  datatype Op = PushOp(entry: Page) | BackOp | ForwardOp | ClearOp

  function ZipperStep(z: Zipper, op: Op): (Zipper, Option<Page>) {
    match op
    case PushOp(x) => (Visit(z, x), None)
    case BackOp => (Back(z), if CanGoBack(z) then Current(Back(z)) else None)
    case ForwardOp => (Forward(z), if CanGoForward(z) then Current(Forward(z)) else None)
    case ClearOp => (Empty, None)
  }

  /** `history` and an index; `Navigator` stores `index`, `PageLoader` stores `index + 1`. */
  datatype Store = Store(history: seq<Page>, index: int)

  predicate NavValid(s: Store) {
    -1 <= s.index < |s.history| && (s.index == -1 ==> s.history == [])
  }

  predicate LoadValid(s: Store) {
    0 <= s.index <= |s.history| && (s.index == 0 ==> s.history == [])
  }

  function NavView(s: Store): Zipper
    requires NavValid(s)
  {
    if s.index == -1 then Empty else At(s.history[..s.index], s.history[s.index], s.history[s.index + 1..])
  }

  function LoadView(s: Store): Zipper
    requires LoadValid(s)
  {
    if s.index == 0 then Empty else At(s.history[..s.index - 1], s.history[s.index - 1], s.history[s.index..])
  }

  /** `Vec::truncate`. */
  function Truncate(s: seq<Page>, n: nat): seq<Page> {
    if n < |s| then s[..n] else s
  }

  class Navigator {
    var history: seq<Page>
    var currentIndex: int

    ghost predicate Valid()
      reads this
    {
      NavValid(Store(history, currentIndex))
    }

    ghost function View(): Zipper
      reads this
      requires Valid()
    {
      NavView(Store(history, currentIndex))
    }

    constructor ()
      ensures Valid() && View() == Empty
    {
      history, currentIndex := [], -1;
    }

    method PushHistory(x: Page)
      requires Valid()
      modifies this
      ensures Valid() && View() == Visit(old(View()), x)
    {
      if currentIndex >= 0 {
        history := Truncate(history, currentIndex + 1);
      }
      history := history + [x];
      currentIndex := |history| - 1;
      assert old(View()).At? ==> history[..currentIndex] == old(View()).back + [old(View()).current];
    }

    method GoBack() returns (r: Option<Page>)
      requires Valid()
      modifies this
      ensures Valid() && (View(), r) == ZipperStep(old(View()), BackOp)
      ensures var z := old(View());
        r == if z.At? && z.back != [] then Some(z.back[|z.back| - 1]) else None
    {
      if currentIndex > 0 {
        currentIndex := currentIndex - 1;
        r := Some(history[currentIndex]);
        assert history[currentIndex + 1..] == [history[currentIndex + 1]] + history[currentIndex + 2..];
        assert history[..currentIndex] == history[..currentIndex + 1][..currentIndex];
      } else {
        r := None;
      }
    }

    method GoForward() returns (r: Option<Page>)
      requires Valid()
      modifies this
      ensures Valid() && (View(), r) == ZipperStep(old(View()), ForwardOp)
      ensures var z := old(View());
        r == if z.At? && z.forward != [] then Some(z.forward[0]) else None
    {
      if currentIndex < |history| - 1 {
        assert currentIndex >= 0;
        currentIndex := currentIndex + 1;
        r := Some(history[currentIndex]);
        assert history[..currentIndex] == history[..currentIndex - 1] + [history[currentIndex - 1]];
        assert history[currentIndex..][1..] == history[currentIndex + 1..];
      } else {
        r := None;
      }
    }

    method CurrentUrl() returns (r: Option<Page>)
      requires Valid()
      ensures r == if View().At? then Some(View().current) else None
    {
      r := if 0 <= currentIndex < |history| then Some(history[currentIndex]) else None;
    }

    method ClearHistory()
      modifies this
      ensures Valid() && View() == Empty
    {
      history, currentIndex := [], -1;
    }
  }

  class PageLoader {
    var history: seq<Page>
    var historyIndex: nat

    ghost predicate Valid()
      reads this
    {
      LoadValid(Store(history, historyIndex))
    }

    ghost function View(): Zipper
      reads this
      requires Valid()
    {
      LoadView(Store(history, historyIndex))
    }

    constructor ()
      ensures Valid() && View() == Empty
    {
      history, historyIndex := [], 0;
    }

    method PushHistory(x: Page)
      requires Valid()
      modifies this
      ensures Valid() && View() == Visit(old(View()), x)
    {
      if historyIndex < |history| {
        history := Truncate(history, historyIndex);
      }
      history := history + [x];
      historyIndex := |history|;
      assert old(View()).At? ==> history[..historyIndex - 1] == old(View()).back + [old(View()).current];
    }

    /** The current entry's scroll position is replaced in place; its neighbours stay. */
    method UpdateScroll(scrollX: int, scrollY: int)
      requires Valid()
      modifies this
      ensures Valid()
      ensures View() == match old(View())
        case Empty => Empty
        case At(b, c, f) => At(b, c.(scrollX := scrollX, scrollY := scrollY), f)
    {
      if 0 < historyIndex <= |history| {
        history := history[historyIndex - 1 := history[historyIndex - 1].(scrollX := scrollX, scrollY := scrollY)];
      }
    }

    method GoBack() returns (r: Option<Page>)
      requires Valid()
      modifies this
      ensures Valid() && (View(), r) == ZipperStep(old(View()), BackOp)
      ensures var z := old(View());
        r == if z.At? && z.back != [] then Some(z.back[|z.back| - 1]) else None
    {
      if historyIndex > 1 {
        historyIndex := historyIndex - 1;
        r := Some(history[historyIndex - 1]);
        assert history[historyIndex..] == [history[historyIndex]] + history[historyIndex + 1..];
        assert history[..historyIndex - 1] == history[..historyIndex][..historyIndex - 1];
      } else {
        r := None;
      }
    }

    method GoForward() returns (r: Option<Page>)
      requires Valid()
      modifies this
      ensures Valid() && (View(), r) == ZipperStep(old(View()), ForwardOp)
      ensures var z := old(View());
        r == if z.At? && z.forward != [] then Some(z.forward[0]) else None
    {
      if historyIndex < |history| {
        assert historyIndex > 0;
        historyIndex := historyIndex + 1;
        r := Some(history[historyIndex - 1]);
        assert history[..historyIndex - 1] == history[..historyIndex - 2] + [history[historyIndex - 2]];
        assert history[historyIndex - 1..][1..] == history[historyIndex..];
      } else {
        r := None;
      }
    }

    method CurrentEntry() returns (r: Option<Page>)
      requires Valid()
      ensures r == if View().At? then Some(View().current) else None
    {
      r := if historyIndex > 0 then Some(history[historyIndex - 1]) else None;
    }

    method ClearHistory()
      modifies this
      ensures Valid() && View() == Empty
    {
      history, historyIndex := [], 0;
    }
  }

  // ----- the representations stay in lock step -----

  lemma NavEntries(n: Store)
    requires NavValid(n)
    ensures Entries(NavView(n)) == n.history
    ensures (n.index >= 0 <==> NavView(n).At?) && (n.index >= 0 ==> |NavView(n).back| == n.index)
  {
    if n.index >= 0 {
      assert n.history == n.history[..n.index] + [n.history[n.index]] + n.history[n.index + 1..];
    }
  }

  lemma LoadEntries(l: Store)
    requires LoadValid(l)
    ensures Entries(LoadView(l)) == l.history
    ensures (l.index > 0 <==> LoadView(l).At?) && (l.index > 0 ==> |LoadView(l).back| == l.index - 1)
  {
    if l.index > 0 {
      assert l.history == l.history[..l.index - 1] + [l.history[l.index - 1]] + l.history[l.index..];
    }
  }

  lemma SameStoreSameView(n: Store, l: Store)
    requires NavValid(n) && LoadValid(l) && n.history == l.history && l.index == n.index + 1
    ensures NavView(n) == LoadView(l)
  {
  }

  /** The zipper fixes both representations: same entries, indices one apart. */
  lemma SameViewSameStore(n: Store, l: Store)
    requires NavValid(n) && LoadValid(l)
    ensures NavView(n) == LoadView(l) <==> n.history == l.history && l.index == n.index + 1
  {
    hide NavView, LoadView, Entries;
    NavEntries(n);
    LoadEntries(l);
    if n.history == l.history && l.index == n.index + 1 { SameStoreSameView(n, l); }
  }

  function ZipperRun(ops: seq<Op>): (Zipper, seq<Option<Page>>) {
    if ops == [] then (Empty, []) else
    var (z, outs) := ZipperRun(ops[..|ops| - 1]);
    var (z', out) := ZipperStep(z, ops[|ops| - 1]);
    (z', outs + [out])
  }

  /** Any run of the two histories side by side: equal answers, equal entries, indices one apart. */
  method RunBoth(ops: seq<Op>)
    returns (nav: Navigator, load: PageLoader, outs: seq<Option<Page>>, outs': seq<Option<Page>>)
    ensures outs == outs' == ZipperRun(ops).1
    ensures nav.Valid() && load.Valid() && nav.View() == load.View() == ZipperRun(ops).0
    ensures nav.history == load.history && load.historyIndex == nav.currentIndex + 1
  {
    hide NavView, LoadView, NavValid, LoadValid, Visit, Back, Forward;
    nav := new Navigator();
    load := new PageLoader();
    outs, outs' := [], [];
    for i := 0 to |ops|
      invariant fresh(nav) && fresh(load) && nav.Valid() && load.Valid()
      invariant nav.View() == load.View() == ZipperRun(ops[..i]).0
      invariant outs == outs' == ZipperRun(ops[..i]).1
    {
      assert ops[..i + 1][..i] == ops[..i];
      var r, r' := None, None;
      match ops[i] {
        case PushOp(x) =>
          nav.PushHistory(x);
          load.PushHistory(x);
        case BackOp =>
          r := nav.GoBack();
          r' := load.GoBack();
        case ForwardOp =>
          r := nav.GoForward();
          r' := load.GoForward();
        case ClearOp =>
          nav.ClearHistory();
          load.ClearHistory();
      }
      outs, outs' := outs + [r], outs' + [r'];
    }
    assert ops[..|ops|] == ops;
    SameViewSameStore(Store(nav.history, nav.currentIndex), Store(load.history, load.historyIndex));
  }
}
