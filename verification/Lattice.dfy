/**
 The three-point value lattice of the constant propagation
 (src/analysis/lattice.rs): Bot < Const < Top.  The source's `i64` is a
 64-bit pattern, and its wrapping operations are the bit-vector ones.
 */
module Lattice {
  type Word = bv64

  datatype Value = Bot | Const(v: Word) | Top
  {
    function Meet(other: Value): Value {
      match (this, other)
      case (Bot, v) => v
      case (v, Bot) => v
      case (Top, _) => Top
      case (_, Top) => Top
      case (Const(a), Const(b)) => if a == b then Const(a) else Top
    }
  }

  datatype BinOp = Add | Sub | And | Or | Xor | Shl | Shr | Sar | Mul

  datatype CondCode = Eq | Ne | Lt | Ge | Le | Gt | Ltu | Geu

  function AddWord(x: Word, y: Word): Word { x + y }

  function SubWord(x: Word, y: Word): Word { x - y }

  function AndWord(x: Word, y: Word): Word { x & y }

  function OrWord(x: Word, y: Word): Word { x | y }

  function XorWord(x: Word, y: Word): Word { x ^ y }

  function MulWord(x: Word, y: Word): Word { x * y }

  function NotWord(x: Word): Word { !x }

  /** The low six bits of a shift count. */
  function Count(y: Word): bv6 { (y & 63) as bv6 }

  function ShlWord(x: Word, s: bv6): Word { x << s }

  function ShrWord(x: Word, s: bv6): Word { x >> s }

  predicate Negative(x: Word) { x & 0x8000_0000_0000_0000 != 0 }

  /** Arithmetic shift right: the vacated bits copy the sign bit. */
  function SarWord(x: Word, s: bv6): Word {
    if Negative(x) then NotWord(ShrWord(NotWord(x), s)) else ShrWord(x, s)
  }

  function ComputeBinop(op: BinOp, x: Word, y: Word): Word {
    match op
    case Add => AddWord(x, y)
    case Sub => SubWord(x, y)
    case And => AndWord(x, y)
    case Or => OrWord(x, y)
    case Xor => XorWord(x, y)
    case Shl => ShlWord(x, Count(y))
    case Shr => ShrWord(x, Count(y))
    case Sar => SarWord(x, Count(y))
    case Mul => MulWord(x, y)
  }

  function EvalBinop(op: BinOp, a: Value, b: Value): Value {
    match (a, b)
    case (Bot, _) => Bot
    case (_, Bot) => Bot
    case (Top, _) => Top
    case (_, Top) => Top
    case (Const(x), Const(y)) => Const(ComputeBinop(op, x, y))
  }

  /** What a compare leaves in FLAGS: the difference of its operands. */
  function Difference(a: Value, b: Value): Value {
    match (a, b)
    case (Bot, _) => Bot
    case (_, Bot) => Bot
    case (Top, _) => Top
    case (_, Top) => Top
    case (Const(x), Const(y)) => Const(SubWord(x, y))
  }

  /** What a test leaves in FLAGS: the common bits of its operands. */
  function CommonBits(a: Value, b: Value): Value {
    match (a, b)
    case (Bot, _) => Bot
    case (_, Bot) => Bot
    case (Top, _) => Top
    case (_, Top) => Top
    case (Const(x), Const(y)) => Const(AndWord(x, y))
  }

  /** The order of the lattice. */
  predicate Leq(a: Value, b: Value) { a.Bot? || b.Top? || a == b }

  /** `meet` is the least upper bound of its operands. */
  lemma MeetIsLub(a: Value, b: Value, c: Value)
    ensures Leq(a, a.Meet(b)) && Leq(b, a.Meet(b))
    ensures Leq(a, c) && Leq(b, c) ==> Leq(a.Meet(b), c)
  {
  }

  /** `x` is a concrete value the abstract value `a` stands for. */
  predicate Stands(a: Value, x: Word) { a.Top? || a == Const(x) }

  lemma BinopSound(op: BinOp, a: Value, b: Value, x: Word, y: Word)
    requires Stands(a, x) && Stands(b, y)
    ensures Stands(EvalBinop(op, a, b), ComputeBinop(op, x, y))
  {
    hide ComputeBinop;
  }

  lemma FlagsSound(a: Value, b: Value, x: Word, y: Word)
    requires Stands(a, x) && Stands(b, y)
    ensures Stands(Difference(a, b), SubWord(x, y)) && Stands(CommonBits(a, b), AndWord(x, y))
  {
  }

  lemma FlagsMonotone(a: Value, b: Value, a': Value, b': Value)
    requires Leq(a, a') && Leq(b, b')
    ensures Leq(Difference(a, b), Difference(a', b')) && Leq(CommonBits(a, b), CommonBits(a', b'))
  {
  }

  lemma BinopMonotone(op: BinOp, a: Value, b: Value, a': Value, b': Value)
    requires Leq(a, a') && Leq(b, b')
    ensures Leq(EvalBinop(op, a, b), EvalBinop(op, a', b'))
  {
  }

  // ---- The operations, on their own terms ---------------------------------------------

  lemma WordOps(x: Word, y: Word)
    ensures ComputeBinop(Add, x, y) == AddWord(x, y) && ComputeBinop(Sub, x, y) == SubWord(x, y)
    ensures ComputeBinop(And, x, y) == AndWord(x, y) && ComputeBinop(Or, x, y) == OrWord(x, y)
    ensures ComputeBinop(Xor, x, y) == XorWord(x, y) && ComputeBinop(Mul, x, y) == MulWord(x, y)
    ensures ComputeBinop(Shl, x, y) == ShlWord(x, Count(y)) && ComputeBinop(Shr, x, y) == ShrWord(x, Count(y))
    ensures ComputeBinop(Sar, x, y) == SarWord(x, Count(y))
  {
    hide AddWord, SubWord, AndWord, OrWord, XorWord, MulWord, ShlWord, ShrWord, SarWord, Count, Negative, NotWord;
  }

  // One lemma an operation keeps the bit-vector terms apart.

  lemma AddWordIs(x: Word, y: Word) ensures AddWord(x, y) == x + y {}

  lemma SubWordIs(x: Word, y: Word) ensures SubWord(x, y) == x - y {}

  lemma AndWordIs(x: Word, y: Word) ensures AndWord(x, y) == x & y {}

  lemma OrWordIs(x: Word, y: Word) ensures OrWord(x, y) == x | y {}

  lemma XorWordIs(x: Word, y: Word) ensures XorWord(x, y) == x ^ y {}

  lemma MulWordIs(x: Word, y: Word) ensures MulWord(x, y) == x * y {}

  lemma NotWordIs(x: Word) ensures NotWord(x) == !x {}

  lemma CountIs(y: Word) ensures Count(y) as bv64 == y & 63 {}

  lemma ShlWordIs(x: Word, s: bv6) ensures ShlWord(x, s) == x << s {}

  lemma ShrWordIs(x: Word, s: bv6) ensures ShrWord(x, s) == x >> s {}

  lemma NotTwice(x: Word) ensures NotWord(NotWord(x)) == x && Negative(NotWord(x)) == !Negative(x) {}

  /** An arithmetic shift is the logical one on a word without the sign bit, and
      commutes with complement. */
  lemma SarWordIs(x: Word, s: bv6)
    ensures !Negative(x) ==> SarWord(x, s) == ShrWord(x, s)
    ensures SarWord(NotWord(x), s) == NotWord(SarWord(x, s))
  {
    hide NotWord, ShrWord, Negative;
    NotTwice(x);
    NotTwice(ShrWord(NotWord(x), s));
  }

  lemma TopBit(x: Word) ensures Negative(x) == (x >> (63 as bv6) == 1) {}
}
