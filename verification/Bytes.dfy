/** Byte sequences, and the fixed-width integers stored in them. */
module Bytes {
  import opened Wrappers
  import opened Arith

  type byte = b: nat | b < 256

  function Pow256(n: nat): (r: nat)
    ensures r > 0
  {
    if n == 0 then 1 else 256 * Pow256(n - 1)
  }

  /** The little-endian number in `b`. */
  function LeValue(b: seq<byte>): nat {
    if b == [] then 0 else b[0] + 256 * LeValue(b[1..])
  }

  /** The big-endian number in `b`. */
  function BeValue(b: seq<byte>): nat {
    if b == [] then 0 else 256 * BeValue(b[..|b| - 1]) + b[|b| - 1]
  }

  /** The low `n` bytes of `v`, little-endian. */
  function LeBytes(v: nat, n: nat): (r: seq<byte>)
    ensures |r| == n
  {
    if n == 0 then [] else [v % 256] + LeBytes(v / 256, n - 1)
  }

  function BeBytes(v: nat, n: nat): (r: seq<byte>)
    ensures |r| == n
  {
    if n == 0 then [] else BeBytes(v / 256, n - 1) + [v % 256]
  }

  function Value(b: seq<byte>, be: bool): nat { if be then BeValue(b) else LeValue(b) }

  function Encode(v: nat, n: nat, be: bool): (r: seq<byte>)
    ensures |r| == n
  {
    if be then BeBytes(v, n) else LeBytes(v, n)
  }

  lemma {:induction false} LeRoundTrip(v: nat, n: nat)
    requires v < Pow256(n)
    ensures LeValue(LeBytes(v, n)) == v
    decreases n
  {
    if n > 0 {
      LeRoundTrip(v / 256, n - 1);
      assert LeBytes(v, n)[1..] == LeBytes(v / 256, n - 1);
    }
  }

  lemma {:induction false} BeRoundTrip(v: nat, n: nat)
    requires v < Pow256(n)
    ensures BeValue(BeBytes(v, n)) == v
    decreases n
  {
    if n > 0 {
      BeRoundTrip(v / 256, n - 1);
      assert BeBytes(v, n)[..n - 1] == BeBytes(v / 256, n - 1);
    }
  }

  /** Bytes are the digits of the number they read as. */
  lemma {:induction false} LeBack(b: seq<byte>)
    ensures LeBytes(LeValue(b), |b|) == b
    decreases |b|
  {
    if b != [] {
      var rest := LeValue(b[1..]);
      LeBack(b[1..]);
      LowDigit(b[0], rest, |b|);
      assert b == [b[0]] + b[1..];
    }
  }

  lemma {:induction false} BeBack(b: seq<byte>)
    ensures BeBytes(BeValue(b), |b|) == b
    decreases |b|
  {
    if b != [] {
      var n := |b| - 1;
      BeBack(b[..n]);
      HighDigit(b[n], BeValue(b[..n]), |b|);
      assert b == b[..n] + [b[n]];
    }
  }

  lemma HighDigit(d: byte, rest: nat, n: nat)
    requires n > 0
    ensures BeBytes(256 * rest + d, n) == BeBytes(rest, n - 1) + [d]
  {
    var v := 256 * rest + d;
    assert v % 256 == d && v / 256 == rest;
  }

  lemma EncodeBack(b: seq<byte>, be: bool)
    ensures Encode(Value(b, be), |b|, be) == b
  {
    if be { BeBack(b); } else { LeBack(b); }
  }

  /** Byte `i` of a little-endian number counts 256 to the power `i`. */
  lemma {:induction false} LeDigit(v: nat, n: nat, i: nat)
    requires i < n
    ensures LeBytes(v, n)[i] == v / Pow256(i) % 256
    decreases i
  {
    if i > 0 {
      LeDigit(v / 256, n - 1, i - 1);
      DivDiv(v, 256, Pow256(i - 1));
    }
  }

  /** A big-endian number has the same bytes from the end on. */
  lemma {:induction false} BeDigit(v: nat, n: nat, i: nat)
    requires i < n
    ensures BeBytes(v, n)[n - 1 - i] == v / Pow256(i) % 256
    decreases i
  {
    if i > 0 {
      BeDigit(v / 256, n - 1, i - 1);
      DivDiv(v, 256, Pow256(i - 1));
    }
  }

  function Digit(v: nat, k: nat): byte { v / Pow256(k) % 256 }

  /** Bytes read as the one number that has them for digits. */
  lemma ValueExact(b: seq<byte>, v: nat)
    ensures LeValue(b) == v <==> v < Pow256(|b|) && forall k: nat :: k < |b| ==> b[k] == Digit(v, k)
  {
    hide LeValue, Pow256, LeBytes, Digit;
    ValueBound(b, false);
    LeBack(b);
    DigitsAre(v, |b|);
    if v < Pow256(|b|) && forall k: nat :: k < |b| ==> b[k] == Digit(v, k) {
      assert LeBytes(v, |b|) == b;
      LeRoundTrip(v, |b|);
    }
  }

  lemma DigitsAre(v: nat, n: nat)
    ensures forall k: nat :: k < n ==> LeBytes(v, n)[k] == Digit(v, k)
  {
    forall k: nat | k < n ensures LeBytes(v, n)[k] == Digit(v, k) { LeDigit(v, n, k); }
  }

  /** Where each byte of a stored number lies. */
  lemma DigitAt(v: nat, n: nat, be: bool, i: nat)
    requires i < n
    ensures Encode(v, n, be)[if be then n - 1 - i else i] == v / Pow256(i) % 256
  {
    if be { BeDigit(v, n, i); } else { LeDigit(v, n, i); }
  }

  lemma LowDigit(d: byte, rest: nat, n: nat)
    requires n > 0
    ensures LeBytes(d + 256 * rest, n) == [d] + LeBytes(rest, n - 1)
  {
    var v := d + 256 * rest;
    assert v % 256 == d && v / 256 == rest;
  }

  lemma {:induction false} LeLow(v: nat, n: nat)
    ensures LeValue(LeBytes(v, n)) == v % Pow256(n)
    decreases n
  {
    if n > 0 {
      LeLow(v / 256, n - 1);
      assert LeBytes(v, n)[1..] == LeBytes(v / 256, n - 1);
      DivDiv(v, 256, Pow256(n - 1));
    }
  }

  lemma {:induction false} BeLow(v: nat, n: nat)
    ensures BeValue(BeBytes(v, n)) == v % Pow256(n)
    decreases n
  {
    if n > 0 {
      BeLow(v / 256, n - 1);
      assert BeBytes(v, n)[..n - 1] == BeBytes(v / 256, n - 1);
      DivDiv(v, 256, Pow256(n - 1));
    }
  }

  /** Any value is stored as its low bytes. */
  lemma StoredLow(v: nat, n: nat, be: bool)
    ensures Value(Encode(v, n, be), be) == v % Pow256(n)
  {
    if be { BeLow(v, n); } else { LeLow(v, n); }
  }

  /** A value that fits its field is read back. */
  lemma RoundTrip(v: nat, n: nat, be: bool)
    requires v < Pow256(n)
    ensures Value(Encode(v, n, be), be) == v
  {
    if be { BeRoundTrip(v, n); } else { LeRoundTrip(v, n); }
  }

  lemma {:induction false} ValueBound(b: seq<byte>, be: bool)
    ensures Value(b, be) < Pow256(|b|)
    decreases |b|
  {
    if b != [] { if be { ValueBound(b[..|b| - 1], be); } else { ValueBound(b[1..], be); } }
  }

  /** `data` with `bytes` written at `off`. */
  function Put(data: seq<byte>, off: nat, bytes: seq<byte>): (r: seq<byte>)
    requires off + |bytes| <= |data|
    ensures |r| == |data|
    ensures r[off..off + |bytes|] == bytes
    ensures forall k: nat :: k < |data| && !(off <= k < off + |bytes|) ==> r[k] == data[k]
  {
    data[..off] + bytes + data[off + |bytes|..]
  }

  /** `read_un`: the `n`-byte number at `off`, if it lies in the data. */
  function ReadUn(data: seq<byte>, off: nat, n: nat, be: bool): Option<nat> {
    if off + n > |data| then None else Some(Value(data[off..off + n], be))
  }

  /** `write_un`: store the low `n` bytes of `v` at `off`, if in bounds. */
  function WriteUn(data: seq<byte>, off: nat, n: nat, v: nat, be: bool): (r: seq<byte>)
    ensures |r| == |data|
  {
    if off + n > |data| then data else Put(data, off, Encode(v, n, be))
  }

  /** One more byte below the number read so far. */
  function Shifted(v: nat, x: byte): nat { 256 * v + x }

  /** The loop of `read_un` (ehframe.rs:109-117) computes `ReadUn`. */
  method ReadUnLoop(data: seq<byte>, off: nat, n: nat, be: bool) returns (r: Option<nat>)
    ensures r == ReadUn(data, off, n, be)
  {
    if off + n > |data| {
      return None;
    }
    var b := data[off..off + n];
    var v: nat := 0;
    var i := 0;
    while i < n
      invariant i <= n
      invariant v == if be then BeValue(b[..i]) else LeValue(b[n - i..])
    {
      var x: byte := if be then b[i] else b[n - 1 - i];
      assert b[..i + 1][..i] == b[..i];
      assert b[n - 1 - i..][1..] == b[n - i..];
      v := Shifted(v, x);
      i := i + 1;
    }
    assert b[..n] == b && b[0..] == b;
    r := Some(v);
  }
}
