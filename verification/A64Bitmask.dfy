/**
 The bitmask immediates of AArch64 logical instructions
 (src/analysis/regstate.rs:850-896).  The meaning proved is the one DecodeBitMasks
 gives in the Arm ARM (DDI 0487): `imms + 1` ones, rotated right by `immr` inside
 an element and repeated over the register.
 */
module A64Bitmask {
  import opened Wrappers
  import opened Bits
  import opened Arith

  predicate IsElementSize(e: nat) { e == 2 || e == 4 || e == 8 || e == 16 || e == 32 || e == 64 }

  // ---- Fields ------------------------------------------------------------------------

  predicate Is64(w: nat) { w / 0x8000_0000 == 1 }

  function FieldN(w: nat): nat { w / 0x40_0000 % 2 }

  function Immr(w: nat): nat { w / 0x1_0000 % 0x40 }

  function Imms(w: nat): nat { w / 0x400 % 0x40 }

  /** `31 - leading_zeros`: the highest set bit. */
  function HighBit(x: nat): Option<nat>
    requires x < 0x80
  {
    if x >= 64 then Some(6) else if x >= 32 then Some(5) else if x >= 16 then Some(4) else if x >= 8 then Some(3)
    else if x >= 4 then Some(2) else if x >= 2 then Some(1) else if x >= 1 then Some(0) else None
  }

  /** The element size N and imms select, unless the encoding is reserved. */
  function ElementSize(w: nat): (r: Option<nat>)
    ensures r.Some? ==> IsElementSize(r.value)
  {
    if !Is64(w) && FieldN(w) == 1 then None
    else
      match HighBit(FieldN(w) * 0x40 + (0x3f - Imms(w)))
      case None => None
      case Some(len) => if len == 0 then None else Some(Pow2Of(len))
  }

  function Pow2Of(len: nat): (e: nat)
    requires 0 < len <= 6
    ensures IsElementSize(e) && e == Pow2(len)
  {
    assert Pow2(1) == 2 && Pow2(2) == 4 && Pow2(3) == 8 && Pow2(4) == 16 && Pow2(5) == 32 && Pow2(6) == 64;
    Pow2(len)
  }

  // ---- One element -------------------------------------------------------------------

  /** `a64_rotate_elem`. */
  function RotateElem(elem: nat, r: nat, e: nat): nat
    requires r < e
  {
    if r == 0 then elem else Low(Or(Shr(elem, r), Shl(elem, e - r)), e)
  }

  function Element(s: nat, r: nat, e: nat): nat
    requires r < e
  {
    RotateElem(Ones(s + 1), r, e)
  }

  /** `k` modulo `e`: masking with `e - 1`, as every element size is a power of two. */
  function Rem(k: nat, e: nat): (r: nat)
    requires e > 0
    ensures r < e
  {
    if k < e then k else Rem(k - e, e)
  }

  lemma {:induction false} RemIsMod(k: nat, e: nat)
    requires IsElementSize(e)
    ensures Rem(k, e) == k % e
  {
    if k >= e {
      RemIsMod(k - e, e);
      OneLess(k, e);
    }
  }

  lemma OneLess(k: nat, e: nat)
    requires IsElementSize(e) && k >= e
    ensures k % e == (k - e) % e
  {
    var q, r := (k - e) / e, (k - e) % e;
    assert k - e == q * e + r;
    Distribute(q + 1, 1, e);
    RemainderUnique(k, e, q + 1, r);
  }

  /** Bit `k` of an element: the ones, read `r` further on and around. */
  lemma ElementBit(s: nat, r: nat, e: nat, k: nat)
    requires s + 1 < e && r < e
    ensures Bit(Element(s, r, e), k) <==> k < e && Rem(k + r, e) <= s
  {
    var n := s + 1;
    if r == 0 {
      OnesBit(n, k);
    } else {
      var joined := Or(Shr(Ones(n), r), Shl(Ones(n), e - r));
      LowBit(joined, e, k);
      OrBit(Shr(Ones(n), r), Shl(Ones(n), e - r), k);
      ShrBit(Ones(n), r, k);
      OnesBit(n, k + r);
      ShlBit(Ones(n), e - r, k);
      if e - r <= k {
        OnesBit(n, k - (e - r));
        assert Rem(k + r, e) == if k < e then k + r - e else Rem(k + r, e);
      }
    }
  }

  // ---- Repetition --------------------------------------------------------------------

  /** Where copy `m` starts. */
  function Pos(e: nat, m: nat): nat { if m == 0 then 0 else Pos(e, m - 1) + e }

  /** `m` copies joined, lowest first. */
  function Repeated(elem: nat, e: nat, m: nat): nat {
    if m == 0 then 0 else Or(Repeated(elem, e, m - 1), Shl(elem, Pos(e, m - 1)))
  }

  lemma {:induction false} RemFrom(e: nat, m: nat, k: nat)
    requires 0 < e && Pos(e, m) <= k < Pos(e, m) + e
    ensures Rem(k, e) == k - Pos(e, m)
    decreases m
  {
    if m > 0 { RemFrom(e, m - 1, k - e); }
  }

  lemma {:induction false} RepeatedBit(elem: nat, e: nat, m: nat, k: nat)
    requires 0 < e && forall j: nat :: e <= j ==> !Bit(elem, j)
    ensures Bit(Repeated(elem, e, m), k) <==> k < Pos(e, m) && Bit(elem, Rem(k, e))
    decreases m
  {
    if m == 0 { ZeroBit(k); } else {
      var at := Pos(e, m - 1);
      RepeatedBit(elem, e, m - 1, k);
      OrBit(Repeated(elem, e, m - 1), Shl(elem, at), k);
      ShlBit(elem, at, k);
      if at <= k < at + e { RemFrom(e, m - 1, k); }
    }
  }

  /** How many copies fill `size` bits. */
  function Copies(size: nat, e: nat): nat
    requires e > 0
  {
    if size < e then 0 else 1 + Copies(size - e, e)
  }

  lemma {:induction false} CopiesFill(size: nat, e: nat)
    requires e > 0
    ensures Pos(e, Copies(size, e)) == size - Rem(size, e)
  {
    if size >= e { CopiesFill(size - e, e); }
  }

  // ---- The immediate -----------------------------------------------------------------

  function RegSize(w: nat): nat { if Is64(w) then 64 else 32 }

  /** `a64_bitmask_imm`: the immediate, or None for a reserved encoding. */
  function BitmaskImm(w: nat): Option<nat> {
    match ElementSize(w)
    case None => None
    case Some(e) =>
      var s, r := Rem(Imms(w), e), Rem(Immr(w), e);
      if s == e - 1 then None else Some(Repeated(Element(s, r, e), e, Copies(RegSize(w), e)))
  }

  /** The loop of the source, a copy at a time. */
  method BitmaskImmLoop(w: nat) returns (r: Option<nat>)
    ensures r == BitmaskImm(w)
  {
    hide Rem, Element, Or, Shl, Copies, Immr;
    if !Is64(w) && FieldN(w) == 1 {
      return None;
    }
    var len := HighBit(FieldN(w) * 0x40 + (0x3f - Imms(w)));
    if len.None? || len.value == 0 {
      return None;
    }
    var e := Pow2Of(len.value);
    var s, rot := Rem(Imms(w), e), Rem(Immr(w), e);
    if s == e - 1 {
      return None;
    }
    var elem := Element(s, rot, e);
    var size := RegSize(w);
    var value, pos := 0, 0;
    ghost var m := 0;
    PosEnd(e, size);
    while pos < size
      invariant pos == Pos(e, m) && m <= Copies(size, e) && value == Repeated(elem, e, m)
    {
      PosBelow(e, m, size);
      value := Or(value, Shl(elem, pos));
      pos := pos + e;
      m := m + 1;
    }
    PosReached(e, m, Copies(size, e));
    r := Some(value);
  }

  lemma PosEnd(e: nat, size: nat)
    requires IsElementSize(e) && (size == 64 || (size == 32 && e <= 32))
    ensures Pos(e, Copies(size, e)) == size
  {
    hide IsElementSize;
    SizesDivide(e, size);
    CopiesFill(size, e);
    RemIsMod(size, e);
  }

  lemma SizesDivide(e: nat, size: nat)
    requires IsElementSize(e) && (size == 64 || (size == 32 && e <= 32))
    ensures e > 0 && size % e == 0
  {
  }

  lemma PosBelow(e: nat, m: nat, size: nat)
    requires IsElementSize(e) && Pos(e, m) < size && Pos(e, Copies(size, e)) == size
    ensures m < Copies(size, e)
  {
    if Copies(size, e) <= m { PosMono(e, Copies(size, e), m); }
  }

  lemma {:induction false} PosMono(e: nat, a: nat, b: nat)
    requires a <= b
    ensures Pos(e, a) <= Pos(e, b)
  {
    if a < b { PosMono(e, a, b - 1); }
  }

  lemma PosReached(e: nat, m: nat, top: nat)
    requires IsElementSize(e) && m <= top && Pos(e, m) >= Pos(e, top)
    ensures m == top
  {
    if m < top { PosMono(e, m + 1, top); }
  }

  /** Reserved: 32-bit with N set, an element of one bit or none, or all ones. */
  predicate Reserved(w: nat) {
    || (!Is64(w) && FieldN(w) == 1)
    || ElementSize(w).None?
    || Rem(Imms(w), ElementSize(w).value) == ElementSize(w).value - 1
  }

  /**
   Bit `k` of the immediate: inside the register, and among the `imms + 1` ones when
   read `immr` places further on, around the element.
   */
  predicate ImmBit(w: nat, e: nat, k: nat)
    requires e > 0
  {
    k < RegSize(w) && Rem(k + Rem(Immr(w), e), e) <= Rem(Imms(w), e)
  }

  lemma SizeFits(w: nat)
    requires ElementSize(w).Some?
    ensures ElementSize(w).value <= RegSize(w)
  {
  }

  /** The decoded immediate has exactly the architecture's bits, and is the only such number. */
  lemma BitmaskExact(w: nat, v: nat)
    ensures BitmaskImm(w).None? <==> Reserved(w)
    ensures !Reserved(w) ==>
      (BitmaskImm(w) == Some(v) <==> forall k: nat :: Bit(v, k) == ImmBit(w, ElementSize(w).value, k))
  {
    if !Reserved(w) {
      var e := ElementSize(w).value;
      var s, r := Rem(Imms(w), e), Rem(Immr(w), e);
      var imm := Repeated(Element(s, r, e), e, Copies(RegSize(w), e));
      forall k: nat
        ensures Bit(imm, k) == ImmBit(w, e, k)
      {
        ImmediateBit(w, e, s, r, k);
      }
      if forall k: nat :: Bit(v, k) == ImmBit(w, e, k) { SameBits(v, imm); }
    }
  }

  lemma ImmediateBit(w: nat, e: nat, s: nat, r: nat, k: nat)
    requires ElementSize(w) == Some(e) && s == Rem(Imms(w), e) && r == Rem(Immr(w), e) && s < e - 1
    ensures Bit(Repeated(Element(s, r, e), e, Copies(RegSize(w), e)), k) == ImmBit(w, e, k)
  {
    hide Element, Repeated, Copies, ElementSize, Pos, Imms, Immr;
    forall j: nat | e <= j
      ensures !Bit(Element(s, r, e), j)
    {
      ElementBit(s, r, e, j);
    }
    RepeatedBit(Element(s, r, e), e, Copies(RegSize(w), e), k);
    SizeFits(w);
    PosEnd(e, RegSize(w));
    ElementBit(s, r, e, Rem(k, e));
    RemBound(k, e);
    RemSum(k, r, e);
  }

  lemma RemBound(k: nat, e: nat)
    requires e > 0
    ensures Rem(k, e) < e
  {
  }

  lemma {:induction false} RemSum(k: nat, r: nat, e: nat)
    requires 0 < e
    ensures Rem(Rem(k, e) + r, e) == Rem(k + r, e)
  {
    if k >= e { RemSum(k - e, r, e); }
  }

  /** The immediate fits the register. */
  lemma BitmaskFits(w: nat)
    requires BitmaskImm(w).Some?
    ensures BitmaskImm(w).value < Pow2(RegSize(w))
  {
    var v := BitmaskImm(w).value;
    BitmaskExact(w, v);
    FewBits(v, RegSize(w));
  }
}
