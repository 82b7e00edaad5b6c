/**
The CSS cascade of `kpio-css`: declarations are applied one by one, and each
property keeps the entry of highest priority.  Priorities compare origin first,
then importance, specificity and order, as the derived order on the record does.
*/
module Cascade {
  import opened Wrappers
  import opened Bits
  import opened Ints
  import opened Selectors

  // ----- priorities -----

  datatype Origin = UserAgent | User | Author

  function OriginWeight(o: Origin): nat {
    match o
    case UserAgent => 0
    case User => 1
    case Author => 2
  }

  datatype Priority = Priority(origin: nat, important: bool, specificity: nat, order: nat)

  predicate Less(a: Priority, b: Priority) {
    if a.origin != b.origin then a.origin < b.origin
    else if a.important != b.important then b.important
    else if a.specificity != b.specificity then a.specificity < b.specificity
    else a.order < b.order
  }

  type PropertyId = nat

  datatype Declaration = Declaration(property: PropertyId, value: string, important: bool)

  datatype Entry = Entry(value: Declaration, priority: Priority)

  function EntryFor(d: Declaration, spec: Specificity, origin: Origin, order: nat): Entry {
    Entry(d, Priority(OriginWeight(origin), d.important, Packed(spec), order))
  }

  // ----- applying declarations -----

  function ApplyOne(m: map<PropertyId, Entry>, e: Entry): map<PropertyId, Entry> {
    var k := e.value.property;
    if k in m && !Less(m[k].priority, e.priority) then m else m[k := e]
  }

  function ApplyAll(m: map<PropertyId, Entry>, es: seq<Entry>): map<PropertyId, Entry> {
    if es == [] then m else ApplyOne(ApplyAll(m, es[..|es| - 1]), es[|es| - 1])
  }

  /** `es[i]` is the first of the entries of greatest priority for its property. */
  ghost predicate FirstGreatest(es: seq<Entry>, i: nat)
    requires i < |es|
  {
    && (forall j :: 0 <= j < |es| && es[j].value.property == es[i].value.property ==>
          !Less(es[i].priority, es[j].priority))
    && (forall j :: 0 <= j < i && es[j].value.property == es[i].value.property ==>
          Less(es[j].priority, es[i].priority))
  }

  /** After any entries in any order, each property holds the first of its greatest entries. */
  lemma {:induction false} FoldIsArgmax(es: seq<Entry>, k: PropertyId)
    ensures k in ApplyAll(map[], es) <==> exists i :: 0 <= i < |es| && es[i].value.property == k
    ensures k in ApplyAll(map[], es) ==>
      exists i :: 0 <= i < |es| && es[i] == ApplyAll(map[], es)[k] && es[i].value.property == k && FirstGreatest(es, i)
  {
    hide Less;
    if es != [] {
      var init, e := es[..|es| - 1], es[|es| - 1];
      FoldIsArgmax(init, k);
      var before := ApplyAll(map[], init);
      assert forall j :: 0 <= j < |init| ==> init[j] == es[j];
      if k in before {
        var i :| 0 <= i < |init| && init[i] == before[k] && init[i].value.property == k && FirstGreatest(init, i);
        if e.value.property == k && Less(before[k].priority, e.priority) {
          forall j | 0 <= j < |init| && es[j].value.property == k ensures Less(es[j].priority, e.priority) {
            LessChain(es[j].priority, before[k].priority, e.priority);
          }
          FirstGreatestAtEnd(es);
        } else {
          assert FirstGreatest(es, i);
        }
      } else if e.value.property == k {
        FirstGreatestAtEnd(es);
      }
    }
  }

  lemma FirstGreatestAtEnd(es: seq<Entry>)
    requires es != []
    requires forall j :: 0 <= j < |es| - 1 && es[j].value.property == es[|es| - 1].value.property ==>
      Less(es[j].priority, es[|es| - 1].priority)
    ensures FirstGreatest(es, |es| - 1)
  {
    var e := es[|es| - 1];
    forall j | 0 <= j < |es| && es[j].value.property == e.value.property ensures !Less(e.priority, es[j].priority) {
      LessTotal(e.priority, es[j].priority);
    }
  }

  lemma LessChain(a: Priority, b: Priority, c: Priority)
    requires !Less(b, a) && Less(b, c)
    ensures Less(a, c)
  {
  }

  /** Different entries for the same property never tie. */
  ghost predicate NoTies(es: seq<Entry>) {
    forall e, f :: e in es && f in es && e.value.property == f.value.property && e.priority == f.priority ==> e == f
  }

  /** Without ties the surviving entry is above every other one, so it is unique. */
  lemma StrictArgmax(es: seq<Entry>, k: PropertyId)
    requires NoTies(es) && k in ApplyAll(map[], es)
    ensures ApplyAll(map[], es)[k] in es && ApplyAll(map[], es)[k].value.property == k
    ensures forall e :: e in es && e.value.property == k && e != ApplyAll(map[], es)[k] ==>
      Less(e.priority, ApplyAll(map[], es)[k].priority)
  {
    hide ApplyAll;
    FoldIsArgmax(es, k);
    var r := ApplyAll(map[], es)[k];
    var i :| 0 <= i < |es| && es[i] == r && es[i].value.property == k && FirstGreatest(es, i);
    forall e | e in es && e.value.property == k && e != r ensures Less(e.priority, r.priority) {
      var j :| 0 <= j < |es| && es[j] == e;
      assert r in es;
      LessTotal(e.priority, r.priority);
    }
  }

  lemma LessTotal(a: Priority, b: Priority)
    ensures a == b || Less(a, b) || Less(b, a)
    ensures !(Less(a, b) && Less(b, a))
  {
  }

  /** Without ties the outcome does not depend on the order of application. */
  lemma PermutationInvariant(es: seq<Entry>, fs: seq<Entry>)
    requires multiset(es) == multiset(fs) && NoTies(es)
    ensures ApplyAll(map[], es) == ApplyAll(map[], fs)
  {
    hide ApplyAll;
    var m, n := ApplyAll(map[], es), ApplyAll(map[], fs);
    forall e ensures e in es <==> e in fs { assert e in multiset(es) <==> e in multiset(fs); }
    forall k ensures (k in m <==> k in n) && (k in m ==> m[k] == n[k]) {
      FoldIsArgmax(es, k);
      FoldIsArgmax(fs, k);
      if k in m { var i :| 0 <= i < |es| && es[i].value.property == k; assert es[i] in fs; }
      if k in n { var i :| 0 <= i < |fs| && fs[i].value.property == k; assert fs[i] in es; }
      if k in m && k in n {
        StrictArgmax(es, k);
        StrictArgmax(fs, k);
        LessTotal(m[k].priority, n[k].priority);
      }
    }
  }

  // ----- declaration blocks -----

  function Without(ds: seq<Declaration>, p: PropertyId): seq<Declaration> {
    if ds == [] then []
    else if ds[0].property == p then Without(ds[1..], p)
    else [ds[0]] + Without(ds[1..], p)
  }

  ghost predicate OnePerProperty(ds: seq<Declaration>) {
    forall i, j :: 0 <= i < j < |ds| ==> ds[i].property != ds[j].property
  }

  lemma {:induction false} WithoutContents(ds: seq<Declaration>, p: PropertyId)
    ensures forall d :: d in Without(ds, p) <==> d in ds && d.property != p
    ensures OnePerProperty(ds) ==> OnePerProperty(Without(ds, p))
  {
    if ds != [] {
      var d0, rest := ds[0], Without(ds[1..], p);
      WithoutContents(ds[1..], p);
      assert forall d :: d in ds <==> d == d0 || d in ds[1..];
      if OnePerProperty(ds) {
        OneInTail(ds);
        OneMore(d0, rest);
      }
    }
  }

  lemma OneInTail(ds: seq<Declaration>)
    requires ds != [] && OnePerProperty(ds)
    ensures OnePerProperty(ds[1..]) && forall d :: d in ds[1..] ==> d.property != ds[0].property
  {
    forall d | d in ds[1..] ensures d.property != ds[0].property {
      var j :| 0 <= j < |ds[1..]| && ds[1..][j] == d;
      assert ds[j + 1] == d;
    }
  }

  lemma OneMore(d: Declaration, ds: seq<Declaration>)
    requires OnePerProperty(ds)
    ensures (forall e :: e in ds ==> e.property != d.property) ==> OnePerProperty([d] + ds)
  {
    assert forall i :: 0 <= i < |ds| ==> ds[i] in ds;
  }

  class DeclarationBlock {
    var declarations: seq<Declaration>

    ghost predicate Valid()
      reads this
    {
      OnePerProperty(declarations)
    }

    constructor ()
      ensures Valid() && declarations == []
    {
      declarations := [];
    }

    method Push(d: Declaration)
      requires Valid()
      modifies this
      ensures Valid() && declarations == Without(old(declarations), d.property) + [d]
      ensures forall e :: e in declarations <==> e == d || (e in old(declarations) && e.property != d.property)
    {
      WithoutContents(declarations, d.property);
      var kept := Without(declarations, d.property);
      assert forall i :: 0 <= i < |kept| ==> kept[i] in kept;
      declarations := kept + [d];
    }

    method Get(p: PropertyId) returns (r: Option<Declaration>)
      requires Valid()
      ensures r.None? <==> forall d :: d in declarations ==> d.property != p
      ensures r.Some? ==> r.value in declarations && r.value.property == p
    {
      for i := 0 to |declarations|
        invariant forall j :: 0 <= j < i ==> declarations[j].property != p
      {
        if declarations[i].property == p {
          return Some(declarations[i]);
        }
      }
      return None;
    }
  }

  // ----- the cascade as the source runs it -----

  function BlockEntries(ds: seq<Declaration>, spec: Specificity, origin: Origin, order: nat): seq<Entry> {
    seq(|ds|, i requires 0 <= i < |ds| => EntryFor(ds[i], spec, origin, order))
  }

  class CascadedValues {
    var declarations: map<PropertyId, Entry>
    ghost var applied: seq<Entry>

    ghost predicate Valid()
      reads this
    {
      declarations == ApplyAll(map[], applied)
    }

    constructor ()
      ensures Valid() && applied == []
    {
      declarations, applied := map[], [];
    }

    method ApplyDeclaration(d: Declaration, spec: Specificity, origin: Origin, order: nat)
      requires Valid()
      modifies this
      ensures Valid() && applied == old(applied) + [EntryFor(d, spec, origin, order)]
    {
      hide Less, Packed;
      var priority := Priority(OriginWeight(origin), d.important, Packed(spec), order);
      var key := d.property;
      var shouldInsert := key !in declarations || Less(declarations[key].priority, priority);
      if shouldInsert {
        declarations := declarations[key := Entry(d, priority)];
      }
      applied := applied + [EntryFor(d, spec, origin, order)];
      assert applied[..|applied| - 1] == old(applied);
    }

    method Apply(ds: seq<Declaration>, spec: Specificity, origin: Origin, order: nat)
      requires Valid()
      modifies this
      ensures Valid() && applied == old(applied) + BlockEntries(ds, spec, origin, order)
    {
      hide ApplyAll, EntryFor;
      for i := 0 to |ds|
        invariant Valid() && applied == old(applied) + BlockEntries(ds[..i], spec, origin, order)
      {
        ApplyDeclaration(ds[i], spec, origin, order);
        assert BlockEntries(ds[..i + 1], spec, origin, order)
            == BlockEntries(ds[..i], spec, origin, order) + [EntryFor(ds[i], spec, origin, order)];
      }
      assert ds[..|ds|] == ds;
    }

    method ApplyInline(ds: seq<Declaration>, order: nat)
      requires Valid()
      modifies this
      ensures Valid() && applied == old(applied) + BlockEntries(ds, INLINE, Author, order)
    {
      Apply(ds, INLINE, Author, order);
    }

    method Get(p: PropertyId) returns (r: Option<Declaration>)
      requires Valid()
      ensures r.None? <==> forall i :: 0 <= i < |applied| ==> applied[i].value.property != p
      ensures r.Some? ==> exists i ::
        0 <= i < |applied| && applied[i].value == r.value && r.value.property == p && FirstGreatest(applied, i)
    {
      FoldIsArgmax(applied, p);
      r := if p in declarations then Some(declarations[p].value) else None;
    }
  }

  /** A block as the builder receives it: from a matching rule, or from the style attribute. */
  datatype Block =
    | Rule(ds: seq<Declaration>, spec: Specificity, origin: Origin)
    | Style(ds: seq<Declaration>)

  function EntriesOf(b: Block, order: nat): (es: seq<Entry>)
    ensures |es| == |b.ds|
  {
    match b
    case Rule(ds, spec, origin) => BlockEntries(ds, spec, origin, order)
    case Style(ds) => BlockEntries(ds, INLINE, Author, order)
  }

  class CascadeBuilder {
    var orderCounter: U32

    constructor ()
      ensures orderCounter == 0
    {
      orderCounter := 0;
    }

    method Apply(cascaded: CascadedValues, ds: seq<Declaration>, spec: Specificity, origin: Origin)
      requires cascaded.Valid()
      modifies this, cascaded
      ensures cascaded.Valid() && orderCounter == ToU32(old(orderCounter) + 1)
      ensures cascaded.applied == old(cascaded.applied) + EntriesOf(Rule(ds, spec, origin), old(orderCounter))
    {
      cascaded.Apply(ds, spec, origin, orderCounter);
      orderCounter := ToU32(orderCounter + 1);
    }

    method ApplyInline(cascaded: CascadedValues, ds: seq<Declaration>)
      requires cascaded.Valid()
      modifies this, cascaded
      ensures cascaded.Valid() && orderCounter == ToU32(old(orderCounter) + 1)
      ensures cascaded.applied == old(cascaded.applied) + EntriesOf(Style(ds), old(orderCounter))
    {
      cascaded.ApplyInline(ds, orderCounter);
      orderCounter := ToU32(orderCounter + 1);
    }
  }

  // ----- whole runs of the builder -----

  /** Everything applied by a run that gives block `i` the order `i`, as a `u32`. */
  function RunEntries(bs: seq<Block>): seq<Entry> {
    if bs == [] then [] else RunEntries(bs[..|bs| - 1]) + EntriesOf(bs[|bs| - 1], ToU32(|bs| - 1))
  }

  lemma RunSnoc(bs: seq<Block>, i: nat)
    requires i < |bs|
    ensures RunEntries(bs[..i + 1]) == RunEntries(bs[..i]) + EntriesOf(bs[i], ToU32(i))
    ensures RunEntries(bs[..0]) == []
  {
    assert bs[..i + 1][..i] == bs[..i];
  }

  lemma CounterStep(n: nat)
    ensures ToU32(ToU32(n) + 1) == ToU32(n + 1) && (n < 0x1_0000_0000 ==> ToU32(n) == n)
  {
  }

  /** A new builder applying the blocks one after the other to new cascaded values. */
  method RunBuilder(bs: seq<Block>) returns (cascaded: CascadedValues)
    ensures fresh(cascaded) && cascaded.Valid() && cascaded.applied == RunEntries(bs)
  {
    if bs != [] { RunSnoc(bs, 0); }
    CounterStep(0);
    hide EntriesOf, ApplyAll, RunEntries, ToU32;
    cascaded := new CascadedValues();
    var builder := new CascadeBuilder();
    for i := 0 to |bs|
      invariant fresh(cascaded) && fresh(builder) && cascaded.Valid()
      invariant builder.orderCounter == ToU32(i) && cascaded.applied == RunEntries(bs[..i])
    {
      match bs[i] {
        case Rule(ds, spec, origin) => builder.Apply(cascaded, ds, spec, origin);
        case Style(ds) => builder.ApplyInline(cascaded, ds);
      }
      RunSnoc(bs, i);
      CounterStep(i);
    }
    assert bs[..|bs|] == bs;
  }

  /** Which block and declaration an applied entry came from. */
  lemma {:induction false} EntryComesFrom(bs: seq<Block>, e: Entry) returns (i: nat, j: nat)
    requires e in RunEntries(bs)
    ensures i < |bs| && j < |bs[i].ds| && e == EntriesOf(bs[i], ToU32(i))[j]
    ensures e.priority.order == ToU32(i) && e.value == bs[i].ds[j]
  {
    hide ToU32;
    var init, b := bs[..|bs| - 1], bs[|bs| - 1];
    if e in RunEntries(init) {
      i, j := EntryComesFrom(init, e);
    } else {
      i := |bs| - 1;
      j :| 0 <= j < |EntriesOf(b, ToU32(i))| && EntriesOf(b, ToU32(i))[j] == e;
    }
  }

  lemma {:induction false} EntryIsApplied(bs: seq<Block>, i: nat, j: nat)
    requires i < |bs| && j < |bs[i].ds|
    ensures EntriesOf(bs[i], ToU32(i))[j] in RunEntries(bs)
  {
    hide ToU32;
    var init := bs[..|bs| - 1];
    if i == |bs| - 1 {
      assert EntriesOf(bs[i], ToU32(i))[j] in EntriesOf(bs[i], ToU32(i));
    } else {
      EntryIsApplied(init, i, j);
    }
  }

  /** Every block was built by `push`. */
  ghost predicate AllBuilt(bs: seq<Block>) {
    forall b :: b in bs ==> OnePerProperty(b.ds)
  }

  /** Blocks built by `push` cannot tie before orders wrap: one entry per property and block, one order per block. */
  lemma RunHasNoTies(bs: seq<Block>)
    requires AllBuilt(bs) && |bs| <= 0x1_0000_0000
    ensures NoTies(RunEntries(bs))
  {
    hide Packed, RunEntries, ToU32, EntriesOf, OnePerProperty;
    var es := RunEntries(bs);
    forall e, f | e in es && f in es && e.value.property == f.value.property && e.priority == f.priority
      ensures e == f
    {
      var i, j := EntryComesFrom(bs, e);
      var k, l := EntryComesFrom(bs, f);
      CounterStep(i);
      CounterStep(k);
      assert bs[i] in bs;
      OneEntryPerBlock(bs[i], ToU32(i), j, l);
    }
  }

  lemma OneEntryPerBlock(b: Block, order: nat, j: nat, l: nat)
    requires OnePerProperty(b.ds) && j < |b.ds| && l < |b.ds| && b.ds[j].property == b.ds[l].property
    ensures EntriesOf(b, order)[j] == EntriesOf(b, order)[l]
  {
    assert j == l;
  }

  /** One declaration in the first block, another in block 2^32, nothing between. */
  function TyingBlocks(n: nat): seq<Block> {
    seq(n, i => if i == 0 then Style([Declaration(0, "a", false)])
                else if i == 0x1_0000_0000 then Style([Declaration(0, "b", false)]) else Style([]))
  }

  /** Runs of `n` blocks never tie exactly when the `u32` order counter has not wrapped. */
  lemma NoTiesIff(n: nat)
    ensures (forall bs :: |bs| == n && AllBuilt(bs) ==> NoTies(RunEntries(bs))) <==> n <= 0x1_0000_0000
  {
    hide RunEntries;
    if n <= 0x1_0000_0000 {
      forall bs | |bs| == n && AllBuilt(bs) ensures NoTies(RunEntries(bs)) { RunHasNoTies(bs); }
    } else {
      var bs := TyingBlocks(n);
      TyingBlocksTie(n);
      assert AllBuilt(bs) && !NoTies(RunEntries(bs));
    }
  }

  lemma TyingBlocksTie(n: nat)
    requires n > 0x1_0000_0000
    ensures AllBuilt(TyingBlocks(n)) && !NoTies(RunEntries(TyingBlocks(n)))
  {
    hide RunEntries, Packed;
    var bs, far := TyingBlocks(n), 0x1_0000_0000;
    EntryIsApplied(bs, 0, 0);
    EntryIsApplied(bs, far, 0);
    var e, f := EntriesOf(bs[0], ToU32(0))[0], EntriesOf(bs[far], ToU32(far))[0];
    assert e.priority == f.priority && e.value.property == f.value.property;
    assert e.value.value != f.value.value by { assert "a"[0] != "b"[0]; }
  }

  /**
  After any run of the builder each declared property holds the first of its
  greatest declarations; in a run of at most 2^32 blocks that is the only one.
  */
  lemma BuilderRunIsArgmax(bs: seq<Block>, k: PropertyId)
    requires exists i, j :: 0 <= i < |bs| && 0 <= j < |bs[i].ds| && bs[i].ds[j].property == k
    ensures var es, m := RunEntries(bs), ApplyAll(map[], RunEntries(bs));
      && k in m
      && (exists i :: 0 <= i < |es| && es[i] == m[k] && es[i].value.property == k && FirstGreatest(es, i))
      && (AllBuilt(bs) && |bs| <= 0x1_0000_0000 ==>
            forall e :: e in es && e.value.property == k && e != m[k] ==> Less(e.priority, m[k].priority))
  {
    hide ApplyAll, Less, ToU32;
    var es := RunEntries(bs);
    var i, j :| 0 <= i < |bs| && 0 <= j < |bs[i].ds| && bs[i].ds[j].property == k;
    EntryIsApplied(bs, i, j);
    var e := EntriesOf(bs[i], ToU32(i))[j];
    assert e.value.property == k;
    var n :| 0 <= n < |es| && es[n] == e;
    FoldIsArgmax(es, k);
    if AllBuilt(bs) && |bs| <= 0x1_0000_0000 {
      RunHasNoTies(bs);
      StrictArgmax(es, k);
    }
  }

  // ----- which declaration survives, in the terms of the blocks -----

  function OriginOf(b: Block): Origin {
    if b.Style? then Author else b.origin
  }

  function SpecOf(b: Block): Specificity {
    if b.Style? then Specificity(1000, 0, 0) else b.spec
  }

  /** Declaration `j` of block `i` declares the property. */
  predicate Declares(bs: seq<Block>, i: nat, j: nat, k: PropertyId) {
    i < |bs| && j < |bs[i].ds| && bs[i].ds[j].property == k
  }

  ghost predicate DeclaredBy(bs: seq<Block>, k: PropertyId, o: Origin) {
    exists i: nat, j: nat :: Declares(bs, i, j, k) && OriginOf(bs[i]) == o
  }

  /** Author declarations come first, then the user's, then the user agent's. */
  ghost predicate BestOrigin(bs: seq<Block>, k: PropertyId, o: Origin) {
    if DeclaredBy(bs, k, Author) then o == Author
    else if DeclaredBy(bs, k, User) then o == User
    else o == UserAgent
  }

  /**
  Declaration `j` of block `i` is from the best origin; within that origin
  important if any is; among those of the greatest packed specificity; and
  among those from the latest block.
  */
  ghost predicate Survives(bs: seq<Block>, k: PropertyId, i: nat, j: nat)
    requires Declares(bs, i, j, k)
  {
    && BestOrigin(bs, k, OriginOf(bs[i]))
    && forall r: nat, q: nat :: Declares(bs, r, q, k) && OriginOf(bs[r]) == OriginOf(bs[i]) ==>
         && (bs[r].ds[q].important ==> bs[i].ds[j].important)
         && (bs[r].ds[q].important == bs[i].ds[j].important ==>
               && Packed(SpecOf(bs[r])) <= Packed(SpecOf(bs[i]))
               && (Packed(SpecOf(bs[r])) == Packed(SpecOf(bs[i])) ==> r <= i))
  }

  lemma EntryIs(b: Block, order: nat, j: nat)
    requires j < |b.ds|
    ensures EntriesOf(b, order)[j] == Entry(b.ds[j], Priority(OriginWeight(OriginOf(b)), b.ds[j].important,
                                                              Packed(SpecOf(b)), order))
  {
    hide Packed;
  }

  /** An entry that no other beats, compared field by field with another one. */
  lemma NotBeaten(bs: seq<Block>, i: nat, j: nat, r: nat, q: nat, k: PropertyId)
    requires |bs| <= 0x1_0000_0000 && Declares(bs, i, j, k) && Declares(bs, r, q, k)
    requires !Less(EntriesOf(bs[i], ToU32(i))[j].priority, EntriesOf(bs[r], ToU32(r))[q].priority)
    ensures OriginOf(bs[r]) == Author ==> OriginOf(bs[i]) == Author
    ensures OriginOf(bs[r]) == User ==> OriginOf(bs[i]) != UserAgent
    ensures OriginOf(bs[r]) == OriginOf(bs[i]) ==>
      && (bs[r].ds[q].important ==> bs[i].ds[j].important)
      && (bs[r].ds[q].important == bs[i].ds[j].important ==>
            && Packed(SpecOf(bs[r])) <= Packed(SpecOf(bs[i]))
            && (Packed(SpecOf(bs[r])) == Packed(SpecOf(bs[i])) ==> r <= i))
  {
    hide Packed, EntriesOf, ToU32;
    EntryIs(bs[i], ToU32(i), j);
    EntryIs(bs[r], ToU32(r), q);
    CounterStep(i);
    CounterStep(r);
  }

  /** In a run of at most 2^32 blocks built by `push`, a property ends up with the declaration that survives. */
  lemma SurvivorDecides(bs: seq<Block>, k: PropertyId) returns (i: nat, j: nat)
    requires AllBuilt(bs) && |bs| <= 0x1_0000_0000
    requires exists r: nat, q: nat :: Declares(bs, r, q, k)
    ensures Declares(bs, i, j, k) && Survives(bs, k, i, j)
    ensures k in ApplyAll(map[], RunEntries(bs)) && ApplyAll(map[], RunEntries(bs))[k].value == bs[i].ds[j]
  {
    hide ApplyAll, Less, Packed, ToU32, RunEntries, EntriesOf, OriginOf, SpecOf;
    var r0: nat, q0: nat :| Declares(bs, r0, q0, k);
    BuilderRunIsArgmax(bs, k);
    var es, m := RunEntries(bs), ApplyAll(map[], RunEntries(bs));
    var n :| 0 <= n < |es| && es[n] == m[k] && es[n].value.property == k && FirstGreatest(es, n);
    i, j := EntryComesFrom(bs, es[n]);
    forall r: nat, q: nat | Declares(bs, r, q, k)
      ensures !Less(EntriesOf(bs[i], ToU32(i))[j].priority, EntriesOf(bs[r], ToU32(r))[q].priority)
    {
      EntryIsApplied(bs, r, q);
      EntryIs(bs[r], ToU32(r), q);
    }
    forall r: nat, q: nat | Declares(bs, r, q, k)
      ensures OriginOf(bs[r]) == Author ==> OriginOf(bs[i]) == Author
      ensures OriginOf(bs[r]) == User ==> OriginOf(bs[i]) != UserAgent
      ensures OriginOf(bs[r]) == OriginOf(bs[i]) ==>
        && (bs[r].ds[q].important ==> bs[i].ds[j].important)
        && (bs[r].ds[q].important == bs[i].ds[j].important ==>
              && Packed(SpecOf(bs[r])) <= Packed(SpecOf(bs[i]))
              && (Packed(SpecOf(bs[r])) == Packed(SpecOf(bs[i])) ==> r <= i))
    {
      NotBeaten(bs, i, j, r, q, k);
    }
  }

  /** Only one declaration survives. */
  lemma SurvivorIsUnique(bs: seq<Block>, k: PropertyId, i: nat, j: nat, r: nat, q: nat)
    requires AllBuilt(bs) && Declares(bs, i, j, k) && Declares(bs, r, q, k)
    requires Survives(bs, k, i, j) && Survives(bs, k, r, q)
    ensures i == r && j == q
  {
    hide Packed;
    assert bs[i] in bs;
  }

  /** Same origin and importance: inline wins whatever the two orders, exactly below the 1000 mark. */
  lemma InlineBeatsIff(d: Declaration, spec: Specificity, s: Declaration)
    requires d.important == s.important
    ensures (forall o, p :: Less(EntryFor(d, spec, Author, o).priority, EntryFor(s, INLINE, Author, p).priority))
       <==> Or(spec.id, spec.class_ / 256) < 1000
  {
    hide Packed, Or;
    InlineOutranksIff(spec);
    if Or(spec.id, spec.class_ / 256) >= 1000 {
      assert !Less(EntryFor(d, spec, Author, 1).priority, EntryFor(s, INLINE, Author, 0).priority);
    }
  }

  /** In any run, a style attribute keeps such author rules of the same importance from deciding its properties. */
  lemma InlineDecides(bs: seq<Block>, k: PropertyId, i: nat, j: nat, r: nat, q: nat)
    requires i < |bs| && bs[i].Style? && j < |bs[i].ds| && bs[i].ds[j].property == k
    requires r < |bs| && bs[r].Rule? && bs[r].origin == Author && q < |bs[r].ds| && bs[r].ds[q].property == k
    requires bs[r].ds[q].important == bs[i].ds[j].important
    requires Or(bs[r].spec.id, bs[r].spec.class_ / 256) < 1000
    ensures k in ApplyAll(map[], RunEntries(bs))
    ensures ApplyAll(map[], RunEntries(bs))[k] != EntriesOf(bs[r], ToU32(r))[q]
  {
    hide ApplyAll, Less, Packed, Or, ToU32, RunEntries;
    BuilderRunIsArgmax(bs, k);
    EntryIsApplied(bs, i, j);
    var o, p := ToU32(r), ToU32(i);
    var inline, rule := EntriesOf(bs[i], p)[j], EntriesOf(bs[r], o)[q];
    InlineBeatsIff(bs[r].ds[q], bs[r].spec, bs[i].ds[j]);
    assert Less(EntryFor(bs[r].ds[q], bs[r].spec, Author, o).priority,
                EntryFor(bs[i].ds[j], INLINE, Author, p).priority);
    assert inline in RunEntries(bs) && inline.value.property == k;
  }
}
