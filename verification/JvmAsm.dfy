/**
 JVM instructions as the specification lists them (chapter 6 of the JVM
 specification), assembled into bytes.  Proved here: `JvmCode` gives every
 instruction its length, its branch targets and whether it ends the flow, and linear
 decoding of an assembled method meets exactly its instructions.  Nothing below
 decodes, and no decoder above assembles.
 */
module JvmAsm {
  import opened Bytes
  import opened JvmCode
  import opened JavaDead
  import opened JavaHandlers

  /** Groups of instructions that differ in their opcode alone, counted from the first
      opcode of the group.  Offsets, indexes and values are the numbers assembled. */
  datatype JvmIns =
    | Constant(k: nat)
    | Bipush(v: nat) | Sipush(v: nat) | Ldc(i: nat) | LdcW(i: nat) | Ldc2W(i: nat)
    | Load(k: nat, local: nat) | LoadN(k: nat) | ArrayLoad(k: nat)
    | Store(k: nat, local: nat) | StoreN(k: nat) | ArrayStore(k: nat)
    | Stack(k: nat) | Arithmetic(k: nat) | Iinc(local: nat, v: nat) | Convert(k: nat) | Compare(k: nat)
    | If(k: nat, off: int) | Goto(off: int) | Jsr(off: int) | Ret(local: nat)
    | TableSwitch(def: int, low: int, offs: seq<int>) | LookupSwitch(def: int, pairs: seq<(int, int)>)
    | Return(k: nat)
    | Field(k: nat, i: nat) | Invoke(k: nat, i: nat) | InvokeInterface(i: nat, count: nat) | InvokeDynamic(i: nat)
    | New(i: nat) | NewArray(t: nat) | ANewArray(i: nat) | ArrayLength | Athrow | CheckCast(i: nat) | InstanceOf(i: nat)
    | Monitor(k: nat)
    | WideLocal(op: nat, local: nat) | WideIinc(local: nat, v: nat)
    | MultiANewArray(i: nat, dims: nat) | IfNull(k: nat, off: int) | GotoW(off: int) | JsrW(off: int)

  predicate Fits16(x: int) { -0x8000 <= x < 0x8000 }

  predicate Fits32(x: int) { -0x8000_0000 <= x < 0x8000_0000 }

  /** Operands fit their fields, and a group has as many members as the specification lists. */
  predicate Valid(i: JvmIns) {
    match i
    case Constant(k) => k < 16
    case Bipush(v) => v < 256
    case Sipush(v) => v < 0x1_0000
    case Ldc(x) => x < 256
    case LdcW(x) => x < 0x1_0000
    case Ldc2W(x) => x < 0x1_0000
    case Load(k, local) => k < 5 && local < 256
    case LoadN(k) => k < 20
    case ArrayLoad(k) => k < 8
    case Store(k, local) => k < 5 && local < 256
    case StoreN(k) => k < 20
    case ArrayStore(k) => k < 8
    case Stack(k) => k < 9
    case Arithmetic(k) => k < 36
    case Iinc(local, v) => local < 256 && v < 256
    case Convert(k) => k < 15
    case Compare(k) => k < 5
    case If(k, off) => k < 14 && Fits16(off)
    case Goto(off) => Fits16(off)
    case Jsr(off) => Fits16(off)
    case Ret(local) => local < 256
    case TableSwitch(def, low, offs) =>
      Fits32(def) && Fits32(low) && |offs| > 0 && Fits32(low + |offs| - 1) && forall j: nat :: j < |offs| ==> Fits32(offs[j])
    case LookupSwitch(def, pairs) =>
      Fits32(def) && |pairs| < 0x8000_0000 && forall j: nat :: j < |pairs| ==> Fits32(pairs[j].0) && Fits32(pairs[j].1)
    case Return(k) => k < 6
    case Field(k, x) => k < 4 && x < 0x1_0000
    case Invoke(k, x) => k < 3 && x < 0x1_0000
    case InvokeInterface(x, count) => x < 0x1_0000 && count < 256
    case InvokeDynamic(x) => x < 0x1_0000
    case New(x) => x < 0x1_0000
    case NewArray(t) => t < 256
    case ANewArray(x) => x < 0x1_0000
    case ArrayLength => true
    case Athrow => true
    case CheckCast(x) => x < 0x1_0000
    case InstanceOf(x) => x < 0x1_0000
    case Monitor(k) => k < 2
    case WideLocal(op, local) => (0x15 <= op <= 0x19 || 0x36 <= op <= 0x3a || op == 0xa9) && local < 0x1_0000
    case WideIinc(local, v) => local < 0x1_0000 && v < 0x1_0000
    case MultiANewArray(x, dims) => x < 0x1_0000 && dims < 256
    case IfNull(k, off) => k < 2 && Fits16(off)
    case GotoW(off) => Fits32(off)
    case JsrW(off) => Fits32(off)
  }

  // ---- Bytes ---------------------------------------------------------------------------

  function U2(v: nat): (r: seq<byte>)
    ensures |r| == 2
  {
    [v / 256 % 256, v % 256]
  }

  function U4(v: nat): (r: seq<byte>)
    ensures |r| == 4
  {
    [v / 0x100_0000 % 256, v / 0x1_0000 % 256, v / 256 % 256, v % 256]
  }

  /** Two's complement. */
  function S2(x: int): (r: seq<byte>)
    ensures |r| == 2
  {
    U2(x % 0x1_0000)
  }

  function S4(x: int): (r: seq<byte>)
    ensures |r| == 4
  {
    U4(x % 0x1_0000_0000)
  }

  function S4s(xs: seq<int>): (r: seq<byte>)
    ensures |r| == 4 * |xs|
    decreases |xs|
  {
    if xs == [] then [] else S4s(xs[..|xs| - 1]) + S4(xs[|xs| - 1])
  }

  function Pairs(ps: seq<(int, int)>): (r: seq<byte>)
    ensures |r| == 8 * |ps|
    decreases |ps|
  {
    if ps == [] then [] else Pairs(ps[..|ps| - 1]) + S4(ps[|ps| - 1].0) + S4(ps[|ps| - 1].1)
  }

  /** Zeros up to the next position that is a multiple of four. */
  function Padding(pos: nat): (r: seq<byte>)
    ensures |r| == 3 - pos % 4
  {
    if pos % 4 == 0 then [0, 0, 0] else if pos % 4 == 1 then [0, 0] else if pos % 4 == 2 then [0] else []
  }

  /** The bytes of a valid instruction at position `pos` of its method. */
  function Code(i: JvmIns, pos: nat): seq<byte>
    requires Valid(i)
  {
    match i
    case Constant(k) => [k]
    case Bipush(v) => [0x10, v]
    case Sipush(v) => [0x11] + U2(v)
    case Ldc(x) => [0x12, x]
    case LdcW(x) => [0x13] + U2(x)
    case Ldc2W(x) => [0x14] + U2(x)
    case Load(k, local) => [0x15 + k, local]
    case LoadN(k) => [0x1a + k]
    case ArrayLoad(k) => [0x2e + k]
    case Store(k, local) => [0x36 + k, local]
    case StoreN(k) => [0x3b + k]
    case ArrayStore(k) => [0x4f + k]
    case Stack(k) => [0x57 + k]
    case Arithmetic(k) => [0x60 + k]
    case Iinc(local, v) => [0x84, local, v]
    case Convert(k) => [0x85 + k]
    case Compare(k) => [0x94 + k]
    case If(k, off) => [0x99 + k] + S2(off)
    case Goto(off) => [0xa7] + S2(off)
    case Jsr(off) => [0xa8] + S2(off)
    case Ret(local) => [0xa9, local]
    case TableSwitch(def, low, offs) => [0xaa] + Padding(pos) + S4(def) + S4(low) + S4(low + |offs| - 1) + S4s(offs)
    case LookupSwitch(def, pairs) => [0xab] + Padding(pos) + S4(def) + S4(|pairs|) + Pairs(pairs)
    case Return(k) => [0xac + k]
    case Field(k, x) => [0xb2 + k] + U2(x)
    case Invoke(k, x) => [0xb6 + k] + U2(x)
    case InvokeInterface(x, count) => [0xb9] + U2(x) + [count, 0]
    case InvokeDynamic(x) => [0xba] + U2(x) + [0, 0]
    case New(x) => [0xbb] + U2(x)
    case NewArray(t) => [0xbc, t]
    case ANewArray(x) => [0xbd] + U2(x)
    case ArrayLength => [0xbe]
    case Athrow => [0xbf]
    case CheckCast(x) => [0xc0] + U2(x)
    case InstanceOf(x) => [0xc1] + U2(x)
    case Monitor(k) => [0xc2 + k]
    case WideLocal(op, local) => [0xc4, op] + U2(local)
    case WideIinc(local, v) => [0xc4, 0x84] + U2(local) + U2(v)
    case MultiANewArray(x, dims) => [0xc5] + U2(x) + [dims]
    case IfNull(k, off) => [0xc6 + k] + S2(off)
    case GotoW(off) => [0xc8] + S4(off)
    case JsrW(off) => [0xc9] + S4(off)
  }

  /** The offsets an instruction may branch by. */
  function Offsets(i: JvmIns): seq<int> {
    match i
    case If(_, off) => [off]
    case Goto(off) => [off]
    case Jsr(off) => [off]
    case TableSwitch(def, _, offs) => [def] + offs
    case LookupSwitch(def, pairs) => [def] + seq(|pairs|, j requires 0 <= j < |pairs| => pairs[j].1)
    case IfNull(_, off) => [off]
    case GotoW(off) => [off]
    case JsrW(off) => [off]
    case _ => []
  }

  /** The returns, `athrow` and the unconditional jumps; switches are apart. */
  predicate EndsFlow(i: JvmIns) { i.Return? || i.Athrow? || i.Goto? || i.GotoW? }

  predicate Switches(i: JvmIns) { i.TableSwitch? || i.LookupSwitch? }

  /** `code` holds instruction `i` at `pos`. */
  ghost predicate Holds(code: seq<byte>, pos: nat, i: JvmIns) {
    Valid(i) && pos + |Code(i, pos)| <= |code| && code[pos..pos + |Code(i, pos)|] == Code(i, pos)
  }

  // ---- Numbers read back ------------------------------------------------------------------

  lemma ReadS2(code: seq<byte>, at: nat, x: int)
    requires at + 2 <= |code| && code[at..at + 2] == S2(x) && Fits16(x)
    ensures ReadI16(code, at) == x
  {
    var b := code[at..at + 2];
    assert code[at] == b[0] && code[at + 1] == b[1];
  }

  lemma ReadS4(code: seq<byte>, at: nat, x: int)
    requires at + 4 <= |code| && code[at..at + 4] == S4(x) && Fits32(x)
    ensures ReadI32(code, at) == x
  {
    var b := code[at..at + 4];
    assert code[at] == b[0] && code[at + 1] == b[1] && code[at + 2] == b[2] && code[at + 3] == b[3];
    FourBytes(x % 0x1_0000_0000);
  }

  lemma {:induction false} S4sAt(xs: seq<int>, j: nat)
    requires j < |xs|
    ensures S4s(xs)[4 * j..4 * j + 4] == S4(xs[j])
    decreases |xs|
  {
    var k := |xs| - 1;
    if j < k {
      S4sAt(xs[..k], j);
      assert S4s(xs)[4 * j..4 * j + 4] == S4s(xs[..k])[4 * j..4 * j + 4];
    }
  }

  lemma {:induction false} PairsAt(ps: seq<(int, int)>, j: nat)
    requires j < |ps|
    ensures Pairs(ps)[8 * j + 4..8 * j + 8] == S4(ps[j].1)
    decreases |ps|
  {
    var k := |ps| - 1;
    if j < k {
      PairsAt(ps[..k], j);
      assert Pairs(ps)[8 * j + 4..8 * j + 8] == Pairs(ps[..k])[8 * j + 4..8 * j + 8];
    }
  }

  // ---- Lengths -----------------------------------------------------------------------------

  lemma Opcode(code: seq<byte>, pos: nat, i: JvmIns)
    requires Holds(code, pos, i)
    ensures pos < |code| && |Code(i, pos)| > 0 && code[pos] == Code(i, pos)[0]
    ensures |Code(i, pos)| > 1 ==> pos + 1 < |code| && code[pos + 1] == Code(i, pos)[1]
  {
    var b := Code(i, pos);
    assert code[pos] == code[pos..pos + |b|][0];
    if |b| > 1 { assert code[pos + 1] == code[pos..pos + |b|][1]; }
  }

  /** Every instruction but the switches has the length of its bytes. */
  lemma PlainLength(code: seq<byte>, pos: nat, base: nat, i: JvmIns)
    requires Holds(code, pos, i) && !Switches(i)
    ensures Len(code, pos, base) == |Code(i, pos)|
  {
    hide SwitchLength, U2, S2, S4;
    Opcode(code, pos, i);
  }

  lemma PaddingIs(pos: nat)
    ensures Pad(pos) == |Padding(pos)|
  {
  }

  lemma SubSlice(code: seq<byte>, at: nat, n: nat, x: nat, y: nat)
    requires at + n <= |code| && x <= y <= n
    ensures code[at..at + n][x..y] == code[at + x..at + y]
  {
    var a, b := code[at..at + n][x..y], code[at + x..at + y];
    assert |a| == |b| && forall k: nat :: k < |a| ==> a[k] == b[k];
  }

  /** A slice of what an instruction holds. */
  lemma Part(code: seq<byte>, pos: nat, i: JvmIns, a: seq<byte>, b: seq<byte>, c: seq<byte>)
    requires Holds(code, pos, i) && Code(i, pos) == a + b + c
    ensures pos + |a| + |b| <= |code| && code[pos + |a|..pos + |a| + |b|] == b
  {
    hide Code;
    var all := Code(i, pos);
    assert all[|a|..|a| + |b|] == b;
    SubSlice(code, pos, |all|, |a|, |a| + |b|);
  }

  // ---- Control ------------------------------------------------------------------------------

  lemma EndsIs(i: JvmIns, pos: nat)
    requires Valid(i)
    ensures |Code(i, pos)| > 0 && IsTerminator(Code(i, pos)[0]) == EndsFlow(i)
  {
    hide U2, S2, S4, Padding, S4s, Pairs;
  }

  lemma SwitchesIs(i: JvmIns, pos: nat)
    requires Valid(i)
    ensures |Code(i, pos)| > 0 && IsSwitch(Code(i, pos)[0]) == Switches(i)
  {
    hide U2, S2, S4, Padding, S4s, Pairs;
  }

  lemma KindIs(code: seq<byte>, pos: nat, i: JvmIns)
    requires Holds(code, pos, i)
    ensures pos < |code| && IsTerminator(code[pos]) == EndsFlow(i) && IsSwitch(code[pos]) == Switches(i)
  {
    hide Code, IsTerminator, IsSwitch, EndsFlow, Switches;
    Opcode(code, pos, i);
    EndsIs(i, pos);
    SwitchesIs(i, pos);
  }

  /** The branches with one target. */
  predicate Branches(i: JvmIns) { i.If? || i.Goto? || i.Jsr? || i.IfNull? || i.GotoW? || i.JsrW? }

  lemma BranchesIs(code: seq<byte>, pos: nat, i: JvmIns)
    requires Holds(code, pos, i)
    ensures HasTarget(code, pos) == Branches(i)
  {
    hide Padding, S4s, Pairs;
    Opcode(code, pos, i);
  }

  lemma TargetIs(code: seq<byte>, pos: nat, i: JvmIns)
    requires Holds(code, pos, i) && Branches(i)
    ensures HasTarget(code, pos) && BranchTarget(code, pos) == pos + Offsets(i)[0] && |Offsets(i)| == 1
  {
    hide ReadI16, ReadI32, S2, S4, Holds, Code, Fits16, Fits32;
    var x, wide := Offsets(i)[0], i.GotoW? || i.JsrW?;
    BranchesIs(code, pos, i);
    BranchCode(code, pos, i);
    Part(code, pos, i, [code[pos]], if wide then S4(x) else S2(x), []);
    if wide { ReadS4(code, pos + 1, x); } else { ReadS2(code, pos + 1, x); }
  }

  /** The bytes of a branch: its opcode and its offset. */
  lemma BranchCode(code: seq<byte>, pos: nat, i: JvmIns)
    requires Holds(code, pos, i) && Branches(i)
    ensures pos < |code| && |Offsets(i)| == 1
    ensures var x, wide := Offsets(i)[0], i.GotoW? || i.JsrW?;
      && (if wide then IsBranch32(code[pos]) && !IsBranch16(code[pos]) && Fits32(x) else IsBranch16(code[pos]) && Fits16(x))
      && Code(i, pos) == [code[pos]] + (if wide then S4(x) else S2(x)) + []
  {
    hide S2, S4;
    Opcode(code, pos, i);
  }

  // ---- Switches -------------------------------------------------------------------------------

  lemma FourthPart(h: seq<byte>, a: seq<byte>, b: seq<byte>, c: seq<byte>, d: seq<byte>)
    ensures h + a + b + c + d == h + a + (b + c + d) && h + a + b + c + d == (h + a) + b + (c + d)
    ensures h + a + b + c + d == (h + a + b + c) + d + []
  {
  }

  /** A number in the middle of an instruction reads back. */
  lemma Number(code: seq<byte>, pos: nat, i: JvmIns, a: seq<byte>, x: int, c: seq<byte>, at: nat)
    requires Holds(code, pos, i) && Code(i, pos) == a + S4(x) + c && Fits32(x) && at == pos + |a|
    ensures at + 4 <= |code| && ReadI32(code, at) == x
  {
    hide ReadI32, S4, Code;
    Part(code, pos, i, a, S4(x), c);
    ReadS4(code, at, x);
  }

  lemma TableCode(i: JvmIns, pos: nat)
    requires Valid(i) && i.TableSwitch?
    ensures Fits32(i.def) && Fits32(i.low) && Fits32(i.low + |i.offs| - 1)
    ensures Code(i, pos) == [0xaa] + Padding(pos) + S4(i.def) + S4(i.low) + S4(i.low + |i.offs| - 1) + S4s(i.offs)
  {
    hide S4, S4s, Padding;
  }

  /** The head of a switch: its padding, and the three or two numbers after it. */
  lemma TableHead(code: seq<byte>, pos: nat, i: JvmIns)
    requires Holds(code, pos, i) && i.TableSwitch?
    ensures var p := pos + 1 + Pad(pos);
      && p + 12 + 4 * |i.offs| <= |code| && |Code(i, pos)| == 1 + Pad(pos) + 12 + 4 * |i.offs|
      && ReadI32(code, p) == i.def && ReadI32(code, p + 4) == i.low && ReadI32(code, p + 8) == i.low + |i.offs| - 1
      && code[p + 12..p + 12 + 4 * |i.offs|] == S4s(i.offs)
  {
    hide ReadI32, S4, S4s, Padding, Pad, Code, Fits32;
    PaddingIs(pos);
    TableCode(i, pos);
    var h, p := [0xaa] + Padding(pos), pos + 1 + Pad(pos);
    var a, b, c, d := S4(i.def), S4(i.low), S4(i.low + |i.offs| - 1), S4s(i.offs);
    FourthPart(h, a, b, c, d);
    Number(code, pos, i, h, i.def, b + c + d, p);
    Number(code, pos, i, h + a, i.low, c + d, p + 4);
    Number(code, pos, i, h + a + b, i.low + |i.offs| - 1, d, p + 8);
    Part(code, pos, i, h + a + b + c, d, []);
  }

  lemma TableRead(code: seq<byte>, pos: nat, n: nat)
    requires pos < |code| && code[pos] == 0xaa && n > 0
    requires var p := pos + 1 + Pad(pos); p + 12 + 4 * n <= |code| && ReadI32(code, p + 8) - ReadI32(code, p + 4) + 1 == n
    ensures SwitchLength(code, pos, 0) == 1 + Pad(pos) + 12 + 4 * n
    ensures var p, o := pos + 1 + Pad(pos), SwitchOffsets(code, pos);
      |o| == n + 1 && o[0] == ReadI32(code, p) && forall j: nat :: j < n ==> o[j + 1] == ReadI32(code, p + 12 + j * 4)
  {
    hide ReadI32, Pad;
  }

  lemma TableIs(code: seq<byte>, pos: nat, i: JvmIns)
    requires Holds(code, pos, i) && i.TableSwitch?
    ensures pos < |code| && Len(code, pos, 0) == |Code(i, pos)| && SwitchOffsets(code, pos) == Offsets(i)
  {
    hide ReadI32, Pad, Code, Len, SwitchOffsets, SwitchLength, Holds;
    TableHead(code, pos, i);
    TableOpcode(code, pos, i);
    LenOfSwitch(code, 0, pos);
    var p, n := pos + 1 + Pad(pos), |i.offs|;
    TableRead(code, pos, n);
    var o := SwitchOffsets(code, pos);
    forall k: nat | k < |o| ensures o[k] == Offsets(i)[k] {
      if k > 0 { TableEntry(code, p + 12, i.offs, k - 1); }
    }
  }

  lemma TableOpcode(code: seq<byte>, pos: nat, i: JvmIns)
    requires Holds(code, pos, i) && Switches(i)
    ensures pos < |code| && code[pos] == if i.TableSwitch? then 0xaa else 0xab
    ensures i.TableSwitch? ==> |i.offs| > 0 && forall j: nat :: j < |i.offs| ==> Fits32(i.offs[j])
    ensures i.LookupSwitch? ==> forall j: nat :: j < |i.pairs| ==> Fits32(i.pairs[j].1)
  {
    hide S4, S4s, Pairs, Padding;
    Opcode(code, pos, i);
  }

  lemma TableEntry(code: seq<byte>, at: nat, offs: seq<int>, j: nat)
    requires at + 4 * |offs| <= |code| && code[at..at + 4 * |offs|] == S4s(offs) && j < |offs| && Fits32(offs[j])
    ensures ReadI32(code, at + j * 4) == offs[j]
  {
    hide ReadI32, S4, S4s, Fits32;
    S4sAt(offs, j);
    SubSlice(code, at, 4 * |offs|, 4 * j, 4 * j + 4);
    ReadS4(code, at + j * 4, offs[j]);
  }

  lemma LookupCode(i: JvmIns, pos: nat)
    requires Valid(i) && i.LookupSwitch?
    ensures Fits32(i.def) && Fits32(|i.pairs|)
    ensures Code(i, pos) == [0xab] + Padding(pos) + S4(i.def) + S4(|i.pairs|) + Pairs(i.pairs)
  {
    hide S4, Pairs, Padding;
  }

  lemma ThirdPart(h: seq<byte>, a: seq<byte>, b: seq<byte>, d: seq<byte>)
    ensures h + a + b + d == h + a + (b + d) && h + a + b + d == (h + a + b) + d + []
  {
  }

  lemma LookupHead(code: seq<byte>, pos: nat, i: JvmIns)
    requires Holds(code, pos, i) && i.LookupSwitch?
    ensures var p := pos + 1 + Pad(pos);
      && p + 8 + 8 * |i.pairs| <= |code| && |Code(i, pos)| == 1 + Pad(pos) + 8 + 8 * |i.pairs|
      && ReadI32(code, p) == i.def && ReadI32(code, p + 4) == |i.pairs|
      && code[p + 8..p + 8 + 8 * |i.pairs|] == Pairs(i.pairs)
  {
    hide ReadI32, S4, Pairs, Padding, Pad, Code, Fits32;
    PaddingIs(pos);
    LookupCode(i, pos);
    var h, p := [0xab] + Padding(pos), pos + 1 + Pad(pos);
    var a, b, d := S4(i.def), S4(|i.pairs|), Pairs(i.pairs);
    ThirdPart(h, a, b, d);
    Number(code, pos, i, h, i.def, b + d, p);
    Number(code, pos, i, h + a, |i.pairs|, d, p + 4);
    Part(code, pos, i, h + a + b, d, []);
  }

  lemma LookupRead(code: seq<byte>, pos: nat, n: nat)
    requires pos < |code| && code[pos] == 0xab
    requires var p := pos + 1 + Pad(pos); p + 8 + 8 * n <= |code| && ReadI32(code, p + 4) == n
    ensures SwitchLength(code, pos, 0) == 1 + Pad(pos) + 8 + 8 * n
    ensures var p, o := pos + 1 + Pad(pos), SwitchOffsets(code, pos);
      |o| == n + 1 && o[0] == ReadI32(code, p) && forall j: nat :: j < n ==> o[j + 1] == ReadI32(code, p + 8 + j * 8 + 4)
  {
    hide ReadI32, Pad;
  }

  lemma LookupIs(code: seq<byte>, pos: nat, i: JvmIns)
    requires Holds(code, pos, i) && i.LookupSwitch?
    ensures pos < |code| && Len(code, pos, 0) == |Code(i, pos)| && SwitchOffsets(code, pos) == Offsets(i)
  {
    hide ReadI32, Pad, Code, Len, SwitchOffsets, SwitchLength, Holds;
    LookupHead(code, pos, i);
    TableOpcode(code, pos, i);
    LenOfSwitch(code, 0, pos);
    var p, n := pos + 1 + Pad(pos), |i.pairs|;
    LookupRead(code, pos, n);
    var o := SwitchOffsets(code, pos);
    forall k: nat | k < |o| ensures o[k] == Offsets(i)[k] {
      if k > 0 { LookupEntry(code, p + 8, i.pairs, k - 1); }
    }
  }

  lemma LookupEntry(code: seq<byte>, at: nat, ps: seq<(int, int)>, j: nat)
    requires at + 8 * |ps| <= |code| && code[at..at + 8 * |ps|] == Pairs(ps) && j < |ps| && Fits32(ps[j].1)
    ensures ReadI32(code, at + j * 8 + 4) == ps[j].1
  {
    hide ReadI32, S4, Pairs, Fits32;
    PairsAt(ps, j);
    SubSlice(code, at, 8 * |ps|, 8 * j + 4, 8 * j + 8);
    ReadS4(code, at + j * 8 + 4, ps[j].1);
  }

  // ---- One instruction ---------------------------------------------------------------------------

  /** Every instruction, switches and `wide` included, is decoded with its own length. */
  lemma LengthIs(code: seq<byte>, pos: nat, i: JvmIns)
    requires Holds(code, pos, i)
    ensures pos < |code| && Len(code, pos, 0) == |Code(i, pos)|
  {
    hide Code, Len, SwitchOffsets;
    KindIs(code, pos, i);
    if i.TableSwitch? { TableIs(code, pos, i); }
    else if i.LookupSwitch? { LookupIs(code, pos, i); }
    else { PlainLength(code, pos, 0, i); }
  }

  /** What is no instruction is stepped over by one byte, a `wide` at the end by two. */
  lemma NoInstruction(code: seq<byte>, pos: nat, base: nat)
    requires pos < |code|
    ensures code[pos] >= 0xca ==> Len(code, pos, base) == 1
    ensures code[pos] == 0xc4 && pos + 1 == |code| ==> Len(code, pos, base) == 2
  {
  }

  /** The instruction at `pos` may branch to `t`. */
  predicate Aims(i: JvmIns, pos: nat, t: int) { exists o: int :: o in Offsets(i) && t == pos + o }

  /** Its targets are exactly those read from the bytes. */
  lemma TargetsAre(code: seq<byte>, pos: nat, i: JvmIns, next: nat)
    requires Holds(code, pos, i)
    ensures pos < |code| && (Aims(i, pos, next) <==> BranchesTo(code, pos, next) || SwitchesTo(code, pos, next))
  {
    hide Code, BranchTarget, SwitchOffsets, HasTarget, Holds, Valid;
    KindIs(code, pos, i);
    BranchesIs(code, pos, i);
    if i.TableSwitch? { TableIs(code, pos, i); }
    else if i.LookupSwitch? { LookupIs(code, pos, i); }
    else {
      NoOffsets(code, pos);
      if Branches(i) {
        TargetIs(code, pos, i);
        assert Offsets(i) == [Offsets(i)[0]] && Offsets(i)[0] in Offsets(i);
        assert Aims(i, pos, next) <==> next == pos + Offsets(i)[0];
      } else {
        assert Offsets(i) == [];
      }
    }
  }

  /** Where a run of the JVM goes from an instruction: by one of its offsets, to the
      next instruction unless it ends the flow, or to a handler. */
  predicate Leads(i: JvmIns, pos: nat, hs: seq<Handler>, next: nat)
    requires Valid(i)
  {
    Aims(i, pos, next) || (!EndsFlow(i) && !Switches(i) && next == pos + |Code(i, pos)|) || ThrowsTo(hs, pos, next)
  }

  lemma FlowsIs(code: seq<byte>, pos: nat, i: JvmIns, hs: seq<Handler>, next: nat)
    requires Holds(code, pos, i)
    ensures Flows(code, hs, pos, next) <==> next < |code| && Leads(i, pos, hs, next)
  {
    hide Code, Len, BranchesTo, SwitchesTo, ThrowsTo, Aims, IsTerminator, IsSwitch, EndsFlow, Switches, Holds;
    KindIs(code, pos, i);
    LengthIs(code, pos, i);
    TargetsAre(code, pos, i, next);
  }

  // ---- A whole method ------------------------------------------------------------------------------

  predicate AllValid(ins: seq<JvmIns>) { forall k: nat :: k < |ins| ==> Valid(ins[k]) }

  /** The instructions one after the other. */
  function Method(ins: seq<JvmIns>): seq<byte>
    requires AllValid(ins)
    decreases |ins|
  {
    if ins == [] then []
    else
      var head := Method(ins[..|ins| - 1]);
      head + Code(ins[|ins| - 1], |head|)
  }

  lemma HoldsMore(head: seq<byte>, tail: seq<byte>, pos: nat, i: JvmIns)
    requires Holds(head, pos, i)
    ensures Holds(head + tail, pos, i)
  {
    hide Code, Valid;
    var n := |Code(i, pos)|;
    assert (head + tail)[pos..pos + n] == head[pos..pos + n];
  }

  lemma {:induction false} MethodHolds(ins: seq<JvmIns>, k: nat)
    requires AllValid(ins) && k < |ins|
    ensures Holds(Method(ins), |Method(ins[..k])|, ins[k]) && |Method(ins[..k + 1])| == |Method(ins[..k])| + |Code(ins[k], |Method(ins[..k])|)|
    ensures |Method(ins[..k + 1])| <= |Method(ins)|
    decreases |ins|
  {
    hide Code, Valid;
    var last := |ins| - 1;
    var head := Method(ins[..last]);
    var tail := Code(ins[last], |head|);
    assert Method(ins) == head + tail;
    assert ins[..k + 1][..k] == ins[..k];
    if k == last {
      assert ins[..k + 1] == ins;
      assert (head + tail)[|head|..|head| + |tail|] == tail;
    } else {
      MethodHolds(ins[..last], k);
      assert ins[..last][..k] == ins[..k] && ins[..last][..k + 1] == ins[..k + 1];
      HoldsMore(head, tail, |Method(ins[..k])|, ins[k]);
    }
  }

  /** `pc` is where instruction `m` begins, or the end. */
  predicate Begins(ins: seq<JvmIns>, m: nat, pc: nat)
    requires AllValid(ins)
  {
    m <= |ins| && pc == |Method(ins[..m])|
  }

  lemma MeetsStep(code: seq<byte>, pos: nat, next: nat, pc: nat)
    requires pos < |code| && next == pos + Len(code, pos, 0)
    ensures Meets(code, 0, pos, pc) <==> pos == pc || Meets(code, 0, next, pc)
  {
    hide Len;
  }

  /** Linear decoding of an assembled method meets its instructions and nothing else. */
  lemma {:induction false} MethodMeets(ins: seq<JvmIns>, k: nat, pc: nat)
    requires AllValid(ins) && k <= |ins|
    ensures Meets(Method(ins), 0, |Method(ins[..k])|, pc) <==> exists m: nat :: k <= m && Begins(ins, m, pc)
    decreases |ins| - k
  {
    hide Code, Len, Method, Holds, Valid, Meets;
    var code, pos := Method(ins), |Method(ins[..k])|;
    if k == |ins| {
      assert ins[..k] == ins;
      MeetsEnd0(code, pc);
      assert Begins(ins, k, pos);
    } else {
      MethodHolds(ins, k);
      LengthIs(code, pos, ins[k]);
      MeetsStep(code, pos, |Method(ins[..k + 1])|, pc);
      MethodMeets(ins, k + 1, pc);
      assert Begins(ins, k, pos);
    }
  }

  lemma MeetsEnd0(code: seq<byte>, pc: nat)
    ensures Meets(code, 0, |code|, pc) <==> pc == |code|
  {
  }

  lemma MethodStarts(ins: seq<JvmIns>, pc: nat)
    requires AllValid(ins)
    ensures Meets(Method(ins), 0, 0, pc) <==> exists m: nat :: Begins(ins, m, pc)
  {
    assert ins[..0] == [];
    MethodMeets(ins, 0, pc);
  }
}
