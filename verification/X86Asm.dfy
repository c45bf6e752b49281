/**
 x86 relative calls and jumps, assembled as the Intel manual lists them (CALL, JMP and
 Jcc in volume 2).  Proved here: the displacement field is found exactly in the
 instructions assembled below, and its value is the one assembled.
 */
module X86Asm {
  import opened Wrappers
  import opened Bytes
  import opened Arith
  import opened X86Branch

  datatype RelIns =
    | Call(disp: int) | Jmp(disp: int) | JmpShort(disp: int)
    | Jcc(cc: nat, disp: int) | JccShort(cc: nat, disp: int)

  predicate Whole(i: RelIns) {
    && (i.Jcc? || i.JccShort? ==> i.cc < 16)
    && (if i.JmpShort? || i.JccShort? then -128 <= i.disp < 128 else -0x8000_0000 <= i.disp < 0x8000_0000)
  }

  /** Two's complement, lowest byte first. */
  function Rel32(x: int): (r: seq<byte>)
    ensures |r| == 4
  {
    var u := x % 0x1_0000_0000;
    [u % 256, u / 256 % 256, u / 0x1_0000 % 256, u / 0x100_0000 % 256]
  }

  function Opcode(i: RelIns): (r: seq<byte>)
    requires Whole(i)
    ensures 0 < |r| <= 2
  {
    match i
    case Call(_) => [0xe8]
    case Jmp(_) => [0xe9]
    case JmpShort(_) => [0xeb]
    case Jcc(cc, _) => [0x0f, 0x80 + cc]
    case JccShort(cc, _) => [0x70 + cc]
  }

  function Displacement(i: RelIns): (r: seq<byte>)
    requires Whole(i)
    ensures |r| in {1, 4}
  {
    if i.JmpShort? || i.JccShort? then [i.disp % 256] else Rel32(i.disp)
  }

  function Code(i: RelIns): seq<byte>
    requires Whole(i)
  {
    Opcode(i) + Displacement(i)
  }

  /** CS and DS (branch hints, NOTRACK), address size and BND. */
  predicate LeadsBranch(b: byte) { b in {0x2e, 0x3e, 0x67, 0xf2} }

  predicate Prefix(p: seq<byte>) { forall k: nat :: k < |p| ==> LeadsBranch(p[k]) }

  /** `raw` begins with prefixes and then `i`. */
  predicate Begins(raw: seq<byte>, p: seq<byte>, i: RelIns)
    requires Whole(i)
  {
    Prefix(p) && p + Code(i) <= raw
  }

  function Le4(a: nat, b: nat, c: nat, d: nat): nat { a + 0x100 * b + 0x1_0000 * c + 0x100_0000 * d }

  lemma ValueStep(b: seq<byte>)
    requires b != []
    ensures LeValue(b) == b[0] as nat + 256 * LeValue(b[1..])
  {
  }

  lemma FourBytes(b: seq<byte>)
    requires |b| == 4
    ensures LeValue(b) == Le4(b[0], b[1], b[2], b[3])
  {
    hide LeValue;
    ValueStep(b);
    ValueStep(b[1..]);
    ValueStep(b[1..][1..]);
    ValueStep(b[1..][1..][1..]);
    assert b[1..][1..][1..][1..] == [];
    assert LeValue([]) == 0 by { NoBytes(); }
  }

  lemma NoBytes() ensures LeValue([]) == 0 {}

  lemma WordDigits(u: nat)
    requires u < 0x1_0000_0000
    ensures u == Le4(u % 256, u / 256 % 256, u / 0x1_0000 % 256, u / 0x100_0000 % 256)
  {
    var q1, q2, q3 := u / 256, u / 0x1_0000, u / 0x100_0000;
    DivDiv(u, 256, 256);
    DivDiv(u, 0x1_0000, 256);
    DivMod(u, 256);
    DivMod(q1, 256);
    DivMod(q2, 256);
    TopDigit(u, q3);
    FromDigits(u, q1, q2, q3, u % 256, q1 % 256, q2 % 256);
  }

  lemma TopDigit(u: nat, q: nat)
    requires u < 0x1_0000_0000 && q == u / 0x100_0000
    ensures q % 256 == q
  {
  }

  lemma FromDigits(u: nat, q1: nat, q2: nat, q3: nat, a: nat, b: nat, c: nat)
    requires u == q1 * 256 + a && q1 == q2 * 256 + b && q2 == q3 * 256 + c
    ensures u == Le4(a, b, c, q3)
  {
  }

  lemma Rel32Reads(x: int)
    requires -0x8000_0000 <= x < 0x8000_0000
    ensures Signed(Rel32(x)) == x
  {
    hide LeValue, Le4;
    FourBytes(Rel32(x));
    WordDigits(x % 0x1_0000_0000);
  }

  lemma DisplacementReads(i: RelIns)
    requires Whole(i)
    ensures Signed(Displacement(i)) == i.disp
  {
    hide Rel32;
    if i.JmpShort? || i.JccShort? { ByteReads(i.disp); } else { Rel32Reads(i.disp); }
  }

  lemma ByteReads(x: int)
    requires -128 <= x < 128
    ensures Signed([x % 256]) == x
  {
  }

  lemma OpcodeField(i: RelIns, rest: seq<byte>)
    requires Whole(i)
    ensures FieldOf(Code(i) + rest) == Some((|Opcode(i)|, |Displacement(i)|))
  {
    var raw := Code(i) + rest;
    assert raw[0] == Opcode(i)[0];
    if i.Jcc? { assert raw[1] == Opcode(i)[1]; }
  }

  lemma {:induction false} PrefixesAre(p: seq<byte>, rest: seq<byte>)
    requires Prefix(p) && rest != [] && !LeadsBranch(rest[0])
    ensures Prefixes(p + rest) == |p|
    decreases |p|
  {
    if p == [] {
      assert p + rest == rest;
    } else {
      assert (p + rest)[1..] == p[1..] + rest;
      PrefixesAre(p[1..], rest);
    }
  }

  lemma NoPrefix(i: RelIns)
    requires Whole(i)
    ensures !LeadsBranch(Code(i)[0])
  {
  }

  /** An assembled branch is read back. */
  lemma BranchReads(raw: seq<byte>, p: seq<byte>, i: RelIns)
    requires Whole(i) && Begins(raw, p, i)
    ensures DecodeRelRef(raw) == Some((|p| + |Opcode(i)|, |Displacement(i)|, i.disp))
  {
    hide FieldOf, Opcode, Displacement, Signed;
    var c := Code(i);
    var rest := raw[|p| + |c|..];
    assert raw == p + (c + rest);
    NoPrefix(i);
    PrefixesAre(p, c + rest);
    assert raw[|p|..] == c + rest;
    OpcodeField(i, rest);
    DisplacementReads(i);
    var q := |p| + |Opcode(i)|;
    assert raw[q..q + |Displacement(i)|] == Displacement(i);
  }

  /** The assembled branch whose bytes begin `raw`. */
  function OfBytes(raw: seq<byte>): RelIns
    requires FieldOf(raw).Some?
  {
    var disp := Signed(raw[FieldOf(raw).value.0..FieldOf(raw).value.0 + FieldOf(raw).value.1]);
    if raw[0] == 0xe8 then Call(disp)
    else if raw[0] == 0xe9 then Jmp(disp)
    else if raw[0] == 0xeb then JmpShort(disp)
    else if raw[0] == 0x0f then Jcc(raw[1] % 16, disp)
    else JccShort(raw[0] % 16, disp)
  }

  lemma SignedBack(b: seq<byte>)
    requires |b| in {1, 4}
    ensures |b| == 1 ==> -128 <= Signed(b) < 128 && [Signed(b) % 256] == b
    ensures |b| == 4 ==> -0x8000_0000 <= Signed(b) < 0x8000_0000 && Rel32(Signed(b)) == b
  {
    hide Rel32, LeValue, Le4;
    if |b| == 4 {
      FourBytes(b);
      BytesOfWord(b, LeValue(b));
      Unsigned(LeValue(b), Signed(b));
      Rel32Is(Signed(b), LeValue(b), b);
    }
  }

  lemma Unsigned(u: nat, x: int)
    requires u < 0x1_0000_0000 && x == if u < 0x8000_0000 then u else u - 0x1_0000_0000
    ensures x % 0x1_0000_0000 == u
  {
  }

  lemma Rel32Is(x: int, u: nat, b: seq<byte>)
    requires x % 0x1_0000_0000 == u && |b| == 4
    requires u % 256 == b[0] && u / 256 % 256 == b[1] && u / 0x1_0000 % 256 == b[2] && u / 0x100_0000 % 256 == b[3]
    ensures Rel32(x) == b
  {
  }

  lemma BytesOfWord(b: seq<byte>, u: nat)
    requires |b| == 4 && u == Le4(b[0], b[1], b[2], b[3])
    ensures u < 0x1_0000_0000
    ensures u % 256 == b[0] && u / 256 % 256 == b[1] && u / 0x1_0000 % 256 == b[2] && u / 0x100_0000 % 256 == b[3]
  {
    DigitsOf(b[0], b[1], b[2], b[3]);
  }

  lemma DigitsOf(a: nat, b: nat, c: nat, d: nat)
    requires a < 256 && b < 256 && c < 256 && d < 256
    ensures var u := Le4(a, b, c, d);
      u < 0x1_0000_0000 && u % 256 == a && u / 256 % 256 == b && u / 0x1_0000 % 256 == c && u / 0x100_0000 % 256 == d
  {
    var u := Le4(a, b, c, d);
    Cut((d * 256 + c) * 256 + b, 256, a);
    Layer(u, 256, d * 256 + c, 256, b);
    Layer(u, 0x1_0000, d, 256, c);
  }

  lemma OpcodeWas(raw: seq<byte>)
    requires FieldOf(raw).Some?
    ensures var (off, size) := FieldOf(raw).value;
      && off + size <= |raw| && size in {1, 4} && (size == 1 <==> OfBytes(raw).JmpShort? || OfBytes(raw).JccShort?)
      && OfBytes(raw).disp == Signed(raw[off..off + size])
  {
    hide Signed;
  }

  lemma PrefixOf(raw: seq<byte>)
    requires FieldOf(raw).Some? && Whole(OfBytes(raw))
    ensures FieldOf(raw).value.0 <= |raw| && Opcode(OfBytes(raw)) == raw[..FieldOf(raw).value.0]
  {
    hide Signed;
  }

  lemma WholeIs(i: RelIns)
    requires i.Jcc? || i.JccShort? ==> i.cc < 16
    requires if i.JmpShort? || i.JccShort? then -128 <= i.disp < 128 else -0x8000_0000 <= i.disp < 0x8000_0000
    ensures Whole(i)
  {
  }

  lemma CcFits(raw: seq<byte>)
    requires FieldOf(raw).Some?
    ensures OfBytes(raw).Jcc? || OfBytes(raw).JccShort? ==> OfBytes(raw).cc < 16
  {
    hide Signed;
  }

  lemma FieldWas(raw: seq<byte>)
    requires FieldOf(raw).Some?
    ensures Whole(OfBytes(raw)) && Code(OfBytes(raw)) <= raw
  {
    hide Signed, FieldOf, OfBytes, Opcode, Rel32, Whole;
    OpcodeWas(raw);
    CcFits(raw);
    var (off, size) := FieldOf(raw).value;
    var b := raw[off..off + size];
    SignedBack(b);
    WholeIs(OfBytes(raw));
    PrefixOf(raw);
    assert Displacement(OfBytes(raw)) == b;
    assert raw[..off + size] == raw[..off] + b;
  }

  /**
   The patcher finds a displacement exactly in the instructions that begin with an
   assembled branch, and reads the displacement assembled, at its place.
   */
  lemma DecodeExact(raw: seq<byte>, at: nat, size: nat, disp: int)
    ensures DecodeRelRef(raw) == Some((at, size, disp))
       <==> exists p: seq<byte>, i: RelIns :: Whole(i) && Begins(raw, p, i) && i.disp == disp
                && at == |p| + |Opcode(i)| && size == |Displacement(i)|
  {
    hide Opcode, Displacement, FieldOf, Whole, Signed;
    if DecodeRelRef(raw) == Some((at, size, disp)) {
      var n := Prefixes(raw);
      var p, tail := raw[..n], raw[n..];
      FieldWas(tail);
      var i := OfBytes(tail);
      assert p + tail == raw;
      assert p + Code(i) <= raw by { assert tail == Code(i) + tail[|Code(i)|..]; assert raw == p + Code(i) + tail[|Code(i)|..]; }
      assert Begins(raw, p, i);
      BranchReads(raw, p, i);
    }
    forall p: seq<byte>, i: RelIns | Whole(i) && Begins(raw, p, i)
      ensures DecodeRelRef(raw) == Some((|p| + |Opcode(i)|, |Displacement(i)|, i.disp))
    {
      BranchReads(raw, p, i);
    }
  }
}
