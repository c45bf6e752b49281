/**
 JVM bytecode as the class-file pass reads it (src/format/java/bytecode.rs).

 A method body is a byte sequence `code` whose first byte lies at file offset
 `base`.  Instruction lengths follow `opcode_length`, which pads switch
 operands by the file offset; the JVM pads them by the offset in the method
 (section 6.5 of the JVM specification).  The two agree on all code exactly
 when `base` is a multiple of four, and on switch-free code always.
 */
module JvmCode {
  import opened Arith
  import opened Bytes

  // ---- Big-endian signed numbers -------------------------------------------------

  function Signed(v: nat, half: nat): int { if v >= half then v - 2 * half else v }

  function ReadI16(code: seq<byte>, i: nat): int
    requires i + 2 <= |code|
  {
    var a: nat, b: nat := code[i], code[i + 1];
    Signed(a * 256 + b, 0x8000)
  }

  function ReadI32(code: seq<byte>, i: nat): int
    requires i + 4 <= |code|
  {
    var a: nat, b: nat, c: nat, d: nat := code[i], code[i + 1], code[i + 2], code[i + 3];
    Signed(((a * 256 + b) * 256 + c) * 256 + d, 0x8000_0000)
  }

  /** `x as i16` and `x as i32`, as the unsigned pattern. */
  function Low16(x: int): nat { x % 0x1_0000 }
  function Low32(x: int): nat { x % 0x1_0000_0000 }

  function I16Bytes(x: int): (r: seq<byte>)
    ensures |r| == 2
  {
    [Low16(x) / 256, Low16(x) % 256]
  }

  function I32Bytes(x: int): (r: seq<byte>)
    ensures |r| == 4
  {
    var v := Low32(x);
    [v / 0x100_0000, v / 0x1_0000 % 256, v / 0x100 % 256, v % 256]
  }

  lemma I16RoundTrip(x: int, code: seq<byte>, i: nat)
    requires i + 2 <= |code| && code[i..i + 2] == I16Bytes(x) && -0x8000 <= x < 0x8000
    ensures ReadI16(code, i) == x
  {
    assert code[i] == code[i..i + 2][0] && code[i + 1] == code[i..i + 2][1];
  }

  lemma FourBytes(v: nat)
    ensures ((v / 0x100_0000 * 256 + v / 0x1_0000 % 256) * 256 + v / 0x100 % 256) * 256 + v % 256 == v
  {
    DivDiv(v, 0x1_0000, 256);
    DivDiv(v, 0x100, 256);
  }

  lemma I32RoundTrip(x: int, code: seq<byte>, i: nat)
    requires i + 4 <= |code| && code[i..i + 4] == I32Bytes(x) && -0x8000_0000 <= x < 0x8000_0000
    ensures ReadI32(code, i) == x
  {
    var b := code[i..i + 4];
    assert code[i] == b[0] && code[i + 1] == b[1] && code[i + 2] == b[2] && code[i + 3] == b[3];
    FourBytes(Low32(x));
  }

  // ---- Instruction lengths (bytecode.rs:327-399) --------------------------------------

  /** Padding that brings `x + 1` to a multiple of four. */
  function Pad(x: nat): nat { (4 - (x + 1) % 4) % 4 }

  /** The source pads by the file offset, the JVM by the offset in the method:
      they agree on every instruction exactly when the method starts at a
      multiple of four in the file. */
  lemma PadAgrees(base: nat)
    ensures (forall pc: nat :: Pad(base + pc) == Pad(pc)) <==> base % 4 == 0
  {
    hide Pad;
    PadIs(base + 0);
    PadIs(0);
    forall pc: nat | base % 4 == 0 ensures Pad(base + pc) == Pad(pc) {
      PadIs(base + pc);
      PadIs(pc);
      FourApart(base, pc);
    }
    if base % 4 != 0 { assert Pad(base + 0) != Pad(0); }
  }

  lemma FourApart(base: nat, pc: nat)
    requires base % 4 == 0
    ensures (base + pc) % 4 == pc % 4
  {
    var k := base / 4;
    assert base == 4 * k;
  }

  /** The bytes skipped are those up to the next multiple of four. */
  lemma PadIs(pos: nat) ensures 1 + Pad(pos) == 4 - pos % 4 {}

  function Min(a: nat, b: nat): nat { if a <= b then a else b }
  function NonNeg(a: int): nat { if a >= 0 then a else 0 }

  function SwitchLength(code: seq<byte>, pos: nat, base: nat): (n: nat)
    requires pos < |code|
    ensures n > 0
  {
    var end := |code|;
    var pad := Pad(base + pos);
    var p := pos + 1 + pad;
    if code[pos] == 0xAA then
      if p + 12 <= end then
        1 + pad + 12 + Min(NonNeg(ReadI32(code, p + 8) - ReadI32(code, p + 4) + 1), (end - p - 12) / 4) * 4
      else 1
    else if p + 8 <= end then
      1 + pad + 8 + Min(NonNeg(ReadI32(code, p + 4)), (end - p - 8) / 8) * 8
    else 1
  }

  /** A switch takes up the entries its header counts, as many whole ones of `unit`
      bytes as the code holds. */
  predicate TakesEntries(code: seq<byte>, pos: nat, n: nat, head: nat, unit: nat, count: int)
    requires unit > 0
  {
    var most := if count < 0 then 0 else count;
    && head <= n && (n - head) % unit == 0 && pos + n <= |code| && (n - head) / unit <= most
    && ((n - head) / unit == most || |code| < pos + n + unit)
  }

  /** Also a switch cut short by the end of the code. */
  lemma SwitchTakes(code: seq<byte>, pos: nat, base: nat)
    requires pos < |code|
    ensures var p, n := pos + 4 - (base + pos) % 4, SwitchLength(code, pos, base);
      if code[pos] == 0xAA then
        if p + 12 <= |code| then TakesEntries(code, pos, n, p + 12 - pos, 4, ReadI32(code, p + 8) - ReadI32(code, p + 4) + 1)
        else n == 1
      else if p + 8 <= |code| then TakesEntries(code, pos, n, p + 8 - pos, 8, ReadI32(code, p + 4))
      else n == 1
  {
    hide ReadI32;
    PadIs(base + pos);
    var p, n := pos + 4 - (base + pos) % 4, SwitchLength(code, pos, base);
    if code[pos] == 0xAA {
      if p + 12 <= |code| {
        Entries(code, pos, p + 12, 4, ReadI32(code, p + 8) - ReadI32(code, p + 4) + 1, n);
      }
    } else if p + 8 <= |code| {
      Entries(code, pos, p + 8, 8, ReadI32(code, p + 4), n);
    }
  }

  lemma Entries(code: seq<byte>, pos: nat, at: nat, unit: nat, count: int, n: nat)
    requires pos < at <= |code| && unit in {4, 8}
    requires n == at - pos + Min(NonNeg(count), (|code| - at) / unit) * unit
    ensures TakesEntries(code, pos, n, at - pos, unit, count)
  {
    var k := Min(NonNeg(count), (|code| - at) / unit);
    if unit == 4 { assert (n - (at - pos)) / 4 == k; } else { assert (n - (at - pos)) / 8 == k; }
  }

  function Len(code: seq<byte>, pos: nat, base: nat): (n: nat)
    requires pos < |code|
    ensures n > 0
  {
    var op := code[pos];
    if op <= 0x0F || 0x1A <= op <= 0x35 || 0x46 <= op <= 0x83 || 0x85 <= op <= 0x98 || 0xAC <= op <= 0xB1
      || op == 0xBE || op == 0xBF || op == 0xC2 || op == 0xC3 || op == 0xCA then 1
    else if op == 0x10 || op == 0x12 || 0x15 <= op <= 0x19 || 0x36 <= op <= 0x3A || op == 0xA9 || op == 0xBC then 2
    else if op == 0x11 || op == 0x13 || op == 0x14 || op == 0x84 || 0x99 <= op <= 0xA8 || 0xB2 <= op <= 0xB8
      || op == 0xBB || op == 0xBD || op == 0xC0 || op == 0xC1 || op == 0xC6 || op == 0xC7 then 3
    else if op == 0xC8 || op == 0xC9 || op == 0xB9 || op == 0xBA then 5
    else if op == 0xC5 then 4
    else if op == 0xC4 then (if pos + 1 < |code| then (if code[pos + 1] == 0x84 then 6 else 4) else 2)
    else if op == 0xAA || op == 0xAB then SwitchLength(code, pos, base)
    else 1
  }

  predicate IsSwitch(op: byte) { op == 0xAA || op == 0xAB }

  predicate IsBranch16(op: byte) { 0x99 <= op <= 0xA8 || op == 0xC6 || op == 0xC7 }

  predicate IsBranch32(op: byte) { op == 0xC8 || op == 0xC9 }

  /** Returns, `athrow` and the unconditional jumps. */
  predicate IsTerminator(op: byte) { 0xAC <= op <= 0xB1 || op == 0xBF || op == 0xA7 || op == 0xC8 }

  /** Linear decoding from `pos` meets an instruction (or the end) at `pc`. */
  predicate Meets(code: seq<byte>, base: nat, pos: nat, pc: nat)
    decreases |code| - pos
  {
    pos == pc || (pos < |code| && Meets(code, base, pos + Len(code, pos, base), pc))
  }

  /** `pc` is an instruction start. */
  predicate IsStart(code: seq<byte>, base: nat, pc: nat) { pc < |code| && Meets(code, base, 0, pc) }

  /** Decoding from the start ends exactly at the end and meets no switch. */
  ghost predicate Linear(code: seq<byte>, base: nat) {
    && Meets(code, base, 0, |code|)
    && forall pc: nat :: IsStart(code, base, pc) ==> !IsSwitch(code[pc])
  }

  lemma {:induction false} MeetsBound(code: seq<byte>, base: nat, pos: nat, pc: nat)
    requires Meets(code, base, pos, pc)
    ensures pos <= pc
    decreases |code| - pos
  {
    if pos != pc { MeetsBound(code, base, pos + Len(code, pos, base), pc); }
  }

  lemma {:induction false} MeetsTrans(code: seq<byte>, base: nat, pos: nat, mid: nat, pc: nat)
    requires Meets(code, base, pos, mid) && Meets(code, base, mid, pc)
    ensures Meets(code, base, pos, pc)
    decreases |code| - pos
  {
    if pos != mid { MeetsTrans(code, base, pos + Len(code, pos, base), mid, pc); }
  }

  /** Two positions met by one decoding are met one from the other. */
  lemma {:induction false} MeetsOrder(code: seq<byte>, base: nat, pos: nat, a: nat, b: nat)
    requires Meets(code, base, pos, a) && Meets(code, base, pos, b) && a <= b
    ensures Meets(code, base, a, b)
    decreases |code| - pos
  {
    MeetsBound(code, base, pos, a);
    if pos != a {
      MeetsOrderStep(code, base, pos, a, b);
      MeetsOrder(code, base, pos + Len(code, pos, base), a, b);
    }
  }

  lemma MeetsOrderStep(code: seq<byte>, base: nat, pos: nat, a: nat, b: nat)
    requires Meets(code, base, pos, a) && Meets(code, base, pos, b) && a <= b && pos != a
    ensures pos < |code| && Meets(code, base, pos + Len(code, pos, base), b)
  {
    MeetsBound(code, base, pos, a);
  }

  /** No instruction start lies inside the instruction at `a`. */
  lemma NextStart(code: seq<byte>, base: nat, a: nat, b: nat)
    requires IsStart(code, base, a) && Meets(code, base, 0, b) && a < b
    ensures a + Len(code, a, base) <= b && Meets(code, base, 0, a + Len(code, a, base))
  {
    MeetsOrder(code, base, 0, a, b);
    MeetsBound(code, base, a + Len(code, a, base), b);
    MeetsTrans(code, base, 0, a, a + Len(code, a, base));
  }

  // ---- Execution ---------------------------------------------------------------------------

  /** Target of the branch instruction at `pc`. */
  function BranchTarget(code: seq<byte>, pc: nat): int
    requires pc < |code| && (IsBranch16(code[pc]) || IsBranch32(code[pc]))
    requires pc + (if IsBranch16(code[pc]) then 3 else 5) <= |code|
  {
    pc + (if IsBranch16(code[pc]) then ReadI16(code, pc + 1) else ReadI32(code, pc + 1))
  }

  /** The branch instruction at `pc` is complete. */
  predicate HasTarget(code: seq<byte>, pc: nat) {
    pc < |code| && ((IsBranch16(code[pc]) && pc + 3 <= |code|) || (IsBranch32(code[pc]) && pc + 5 <= |code|))
  }

  /** Control may pass from `pc` to `next`: to the branch target, or past the
      instruction unless it ends the flow.  The return address of a `jsr` is
      past it, so a `ret` adds nothing. */
  predicate Goes(code: seq<byte>, base: nat, pc: nat, next: nat) {
    && pc < |code| && next < |code|
    && ((HasTarget(code, pc) && next == BranchTarget(code, pc))
        || (!IsTerminator(code[pc]) && next == pc + Len(code, pc, base)))
  }

  /** The instruction addresses a run of the method visits. */
  ghost predicate IsRun(code: seq<byte>, base: nat, run: seq<nat>) {
    && |run| > 0 && run[0] == 0 && 0 < |code|
    && forall i :: 0 < i < |run| ==> Goes(code, base, run[i - 1], run[i])
  }

  ghost predicate Reachable(code: seq<byte>, base: nat, pc: nat) {
    exists run :: IsRun(code, base, run) && run[|run| - 1] == pc
  }

  lemma ReachStep(code: seq<byte>, base: nat, pc: nat, next: nat)
    requires Reachable(code, base, pc) && Goes(code, base, pc, next)
    ensures Reachable(code, base, next)
  {
    var run :| IsRun(code, base, run) && run[|run| - 1] == pc;
    var longer := run + [next];
    assert IsRun(code, base, longer) by {
      forall i | 0 < i < |longer| ensures Goes(code, base, longer[i - 1], longer[i]) {
        if i < |run| { assert longer[i - 1] == run[i - 1] && longer[i] == run[i]; }
      }
    }
    assert longer[|longer| - 1] == next;
  }

  /** Every branch a run meets goes to an instruction start. */
  ghost predicate BranchesToStarts(code: seq<byte>, base: nat) {
    forall pc: nat :: Reachable(code, base, pc) && HasTarget(code, pc) ==>
      BranchTarget(code, pc) >= 0 && IsStart(code, base, BranchTarget(code, pc))
  }

  lemma {:induction false} ReachedIsStart(code: seq<byte>, base: nat, run: seq<nat>, i: nat)
    requires Linear(code, base) && BranchesToStarts(code, base) && IsRun(code, base, run) && i < |run|
    ensures IsStart(code, base, run[i]) && Reachable(code, base, run[i])
    decreases i
  {
    assert IsRun(code, base, run[..i + 1]) && run[..i + 1][i] == run[i];
    if i > 0 {
      ReachedIsStart(code, base, run, i - 1);
      assert Goes(code, base, run[i - 1], run[i]);
      if !(HasTarget(code, run[i - 1]) && run[i] == BranchTarget(code, run[i - 1])) {
        MeetsTrans(code, base, 0, run[i - 1], run[i]);
      }
    }
  }

  lemma ReachableIsStart(code: seq<byte>, base: nat, pc: nat)
    requires Linear(code, base) && BranchesToStarts(code, base) && Reachable(code, base, pc)
    ensures IsStart(code, base, pc)
  {
    var run :| IsRun(code, base, run) && run[|run| - 1] == pc;
    ReachedIsStart(code, base, run, |run| - 1);
  }
}
