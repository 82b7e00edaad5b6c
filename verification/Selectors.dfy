/** Selectors of `kpio-css`: specificity and its packed form, and `An+B` expressions. */
module Selectors {
  import opened Wrappers
  import opened Bits
  import opened Ints

  // ----- specificity and its packed form -----

  datatype Specificity = Specificity(id: U16, class_: U16, element: U16)

  const INLINE := Specificity(1000, 0, 0)

  function Packed(s: Specificity): nat {
    Or(Or(s.id * 0x1_0000, s.class_ * 0x100), s.element)
  }

  /** The lexicographic order of `Ord for Specificity`. */
  predicate SpecLess(s: Specificity, t: Specificity) {
    s.id < t.id || (s.id == t.id && (s.class_ < t.class_ || (s.class_ == t.class_ && s.element < t.element)))
  }

  lemma FieldWidths()
    ensures Pow2(8) == 0x100 && Pow2(16) == 0x1_0000
  {
    assert Pow2(4) == 16;
    assert Pow2(8) == 16 * Pow2(4);
    assert Pow2(12) == 16 * Pow2(8);
    assert Pow2(16) == 16 * Pow2(12);
  }

  /** The packed key byte by byte: counts above 255 spill into the next field. */
  lemma PackedFields(s: Specificity)
    ensures Packed(s)
         == Or(s.id, s.class_ / 256) * 0x1_0000 + Or(s.class_ % 256, s.element / 256) * 0x100 + s.element % 256
    ensures Or(s.class_ % 256, s.element / 256) < 256
  {
    hide Or;
    FieldWidths();
    var ch, cl, eh, el := s.class_ / 256, s.class_ % 256, s.element / 256, s.element % 256;
    OrFields(s.id, 0, ch, cl * 256, 16);
    OrZero(cl * 256);
    assert Or(s.id * 0x1_0000, s.class_ * 0x100) == Or(s.id, ch) * 0x1_0000 + cl * 256;
    OrFields(Or(s.id, ch), cl * 256, 0, s.element, 16);
    OrZero(Or(s.id, ch));
    OrFields(cl, 0, eh, el, 8);
    OrZero(el);
    OrBounds(cl, eh, 8);
  }

  predicate Within(s: Specificity, maxClass: nat, maxElement: nat) {
    s.class_ <= maxClass && s.element <= maxElement
  }

  ghost predicate OrderKept(maxClass: nat, maxElement: nat) {
    forall s, t :: Within(s, maxClass, maxElement) && Within(t, maxClass, maxElement) ==>
      (SpecLess(s, t) <==> Packed(s) < Packed(t))
  }

  predicate FieldsSuffice(maxClass: nat, maxElement: nat) {
    maxClass <= 255 && (maxElement <= 255 || maxClass == 0)
  }

  lemma PackedOrder(s: Specificity, t: Specificity, maxClass: nat, maxElement: nat)
    requires Within(s, maxClass, maxElement) && Within(t, maxClass, maxElement) && FieldsSuffice(maxClass, maxElement)
    ensures SpecLess(s, t) <==> Packed(s) < Packed(t)
  {
    hide Or, Packed;
    PackedFields(s);
    PackedFields(t);
    OrZero(s.id);
    OrZero(t.id);
    OrZero(s.class_ % 256);
    OrZero(t.class_ % 256);
    OrZero(s.element / 256);
    OrZero(t.element / 256);
  }

  /**
  The packed key orders all specificities up to the given class and element
  counts exactly when the counts fit their 8-bit fields (with no classes at
  all, the element count may use both fields).
  */
  lemma PackingKeepsOrderIff(maxClass: U16, maxElement: U16)
    ensures OrderKept(maxClass, maxElement) <==> FieldsSuffice(maxClass, maxElement)
  {
    hide Or, Packed;
    if FieldsSuffice(maxClass, maxElement) {
      forall s, t | Within(s, maxClass, maxElement) && Within(t, maxClass, maxElement)
        ensures SpecLess(s, t) <==> Packed(s) < Packed(t)
      {
        PackedOrder(s, t, maxClass, maxElement);
      }
    } else {
      var s := if maxClass > 255 then Specificity(0, 256, 0) else Specificity(0, 0, 256);
      var t := if maxClass > 255 then Specificity(1, 0, 0) else Specificity(0, 1, 0);
      PackedFields(s);
      PackedFields(t);
      OrZero(1);
      OrZero(0);
      assert Packed(s) == Packed(t) && SpecLess(s, t);
      assert Within(s, maxClass, maxElement) && Within(t, maxClass, maxElement);
    }
  }

  /** Inline style outranks a selector exactly when ids, or-ed with the overflow of classes, stay below 1000. */
  lemma InlineOutranksIff(s: Specificity)
    ensures Packed(s) < Packed(INLINE) <==> Or(s.id, s.class_ / 256) < 1000
  {
    hide Or, Packed;
    PackedFields(s);
    PackedFields(INLINE);
    OrZero(1000);
    OrZero(0);
  }

  // ----- selectors -----

  datatype Component = IdName | ClassName | Attribute | PseudoClass | TypeName | PseudoElement | Universal | Combinator

  /** How many of the components are among the given kinds. */
  function Count(cs: seq<Component>, kinds: set<Component>): nat {
    if cs == [] then 0 else Count(cs[..|cs| - 1], kinds) + (if cs[|cs| - 1] in kinds then 1 else 0)
  }

  lemma CountStep(cs: seq<Component>, i: nat, kinds: set<Component>)
    requires i < |cs|
    ensures Count(cs[..i + 1], kinds) == Count(cs[..i], kinds) + (if cs[i] in kinds then 1 else 0)
  {
    assert cs[..i + 1][..i] == cs[..i];
  }

  function Inc(x: U16): U16 {
    (x + 1) % 0x1_0000
  }

  lemma IncWraps(n: nat)
    ensures Inc(n % 0x1_0000) == (n + 1) % 0x1_0000
  {
  }

  /** Ids first; then classes, attributes and pseudo-classes; then types and pseudo-elements. */
  method SelectorSpecificity(cs: seq<Component>) returns (spec: Specificity)
    ensures spec.id == Count(cs, {IdName}) % 0x1_0000
    ensures spec.class_ == Count(cs, {ClassName, Attribute, PseudoClass}) % 0x1_0000
    ensures spec.element == Count(cs, {TypeName, PseudoElement}) % 0x1_0000
  {
    ghost var classes, elements := {ClassName, Attribute, PseudoClass}, {TypeName, PseudoElement};
    spec := Specificity(0, 0, 0);
    assert cs[..0] == [];
    hide Inc;
    for i := 0 to |cs|
      invariant spec.id == Count(cs[..i], {IdName}) % 0x1_0000
      invariant spec.class_ == Count(cs[..i], classes) % 0x1_0000
      invariant spec.element == Count(cs[..i], elements) % 0x1_0000
    {
      CountStep(cs, i, {IdName});
      CountStep(cs, i, classes);
      CountStep(cs, i, elements);
      IncWraps(Count(cs[..i], {IdName}));
      IncWraps(Count(cs[..i], classes));
      IncWraps(Count(cs[..i], elements));
      match cs[i]
      case IdName => spec := spec.(id := Inc(spec.id));
      case ClassName | Attribute | PseudoClass => spec := spec.(class_ := Inc(spec.class_));
      case TypeName | PseudoElement => spec := spec.(element := Inc(spec.element));
      case Universal | Combinator =>
    }
    assert cs[..|cs|] == cs;
  }

  // ----- An+B -----

  /** Rust's `%` and `/` truncate toward zero. */
  function TruncDiv(n: int, a: int): int
    requires a != 0
  {
    var q := Abs(n) / Abs(a);
    if (n < 0) == (a < 0) then q else -q
  }

  function TruncRem(n: int, a: int): int
    requires a != 0
  {
    n - a * TruncDiv(n, a)
  }

  function Abs(x: int): nat {
    if x < 0 then -x else x
  }

  /** `matches`, on `i32` with a wrapping difference; `None` where the remainder overflows and panics. */
  function NthMatches(a: I32, b: I32, index: I32): Option<bool> {
    if a == 0 then Some(index == b) else
    var n := ToI32(index - b);
    if a == -1 && n == -0x8000_0000 then None
    else Some(TruncRem(n, a) == 0 && TruncDiv(n, a) >= 0)
  }

  /** The index is one of `b`, `a + b`, `2a + b`, and so on. */
  ghost predicate IsNth(a: int, b: int, index: int) {
    exists k: nat :: a * k + b == index
  }

  lemma ExactQuotient(k: nat, m: nat)
    requires m > 0
    ensures (m * k) / m == k
  {
    var q := (m * k) / m;
    assert 0 <= m * k - m * q < m;
    assert m * k - m * q == m * (k - q);
    AwayFromZero(m, k - q);
  }

  lemma QuotientIff(a: int, b: int, index: int)
    requires a != 0
    ensures TruncRem(index - b, a) == 0 && TruncDiv(index - b, a) >= 0 <==> IsNth(a, b, index)
  {
    var n := index - b;
    if TruncRem(n, a) == 0 && TruncDiv(n, a) >= 0 {
      var k: nat := TruncDiv(n, a);
      assert a * k + b == index;
    }
    if k: nat :| a * k + b == index {
      ExactQuotient(k, Abs(a));
      assert Abs(n) == Abs(a) * k;
    }
  }

  lemma ZeroStep(b: int, index: int)
    ensures IsNth(0, b, index) <==> index == b
  {
    assert 0 * 0 + b == b;
  }

  lemma UnitSteps(b: int, index: int)
    ensures IsNth(1, b, index) <==> index >= b
    ensures IsNth(-1, b, index) <==> index <= b
  {
    if index >= b { assert 1 * (index - b) + b == index; }
    if index <= b { assert -1 * (b - index) + b == index; }
  }

  /**
  For a given `b` and index, `matches` accepts exactly the indices `a*k + b`
  with `k >= 0`, whatever `a`, if and only if the difference neither wraps nor
  is the least `i32`.
  */
  lemma NthMatchesIff(b: I32, index: I32)
    ensures (forall a: I32 :: NthMatches(a, b, index) == Some(IsNth(a, b, index)))
       <==> -0x8000_0000 < index - b < 0x8000_0000
  {
    hide IsNth, TruncDiv, TruncRem;
    var d := index - b;
    if -0x8000_0000 < d < 0x8000_0000 {
      NoWrap(d);
      forall a: I32 ensures NthMatches(a, b, index) == Some(IsNth(a, b, index)) {
        if a == 0 { ZeroStep(b, index); } else { QuotientIff(a, b, index); }
      }
    } else {
      UnitSteps(b, index);
      UnitQuotients(ToI32(d));
      WrapTurns(d);
      assert if d > 0 then NthMatches(1, b, index) != Some(IsNth(1, b, index))
             else NthMatches(-1, b, index) != Some(IsNth(-1, b, index));
    }
  }

  lemma NoWrap(d: I32)
    ensures ToI32(d) == d
  {
  }

  /** A difference that wraps changes its sign. */
  lemma WrapTurns(d: int)
    requires -0x1_0000_0000 < d < 0x1_0000_0000
    ensures d >= 0x8000_0000 ==> ToI32(d) < 0
    ensures d <= -0x8000_0000 ==> ToI32(d) > 0 || ToI32(d) == -0x8000_0000
  {
  }

  lemma UnitQuotients(n: int)
    ensures TruncDiv(n, 1) == n && TruncDiv(n, -1) == -n
  {
  }
}
