/**
 The RELR bitmap codec (src/format/elf/relr.rs:834-883).

 Words are the natural numbers below 2^64; address arithmetic wraps as it does
 in a release build.  The main result is the round trip over every strictly
 increasing list of word-aligned addresses, with no headroom asked for: the
 running address can only wrap once every address has been covered.
 */
module RelrCodec {
  import opened Bits

  const M: nat := 0x1_0000_0000_0000_0000
  const WORD: nat := 8
  const BITMAP_BITS: nat := 63

  /** `wrapping_add` of two words. */
  function Wrap(a: nat, b: nat): nat {
    if a + b < M then a + b else a + b - M
  }

  // ---- Bits of a word --------------------------------------------------------

  /** `w | (1 << k)`. */
  function SetBit(w: nat, k: nat): nat {
    if k == 0 then w - w % 2 + 1 else 2 * SetBit(w / 2, k - 1) + w % 2
  }

  lemma {:induction false} SetBitBits(w: nat, k: nat, j: nat)
    ensures Bit(SetBit(w, k), j) <==> j == k || Bit(w, j)
    decreases j
  {
    if k == 0 {
      assert SetBit(w, 0) % 2 == 1 && SetBit(w, 0) / 2 == w / 2;
    } else {
      assert SetBit(w, k) / 2 == SetBit(w / 2, k - 1) && SetBit(w, k) % 2 == w % 2;
      if j > 0 { SetBitBits(w / 2, k - 1, j - 1); }
    }
  }

  lemma {:induction false} SetBitSmall(w: nat, k: nat, n: nat)
    requires k < n && w < Pow2(n)
    ensures 0 < SetBit(w, k) < Pow2(n)
    decreases k
  {
    if k > 0 { SetBitSmall(w / 2, k - 1, n - 1); }
  }

  // ---- Decoding ------------------------------------------------------------------

  /** The addresses of the first `b` of the 63 payload bits of bitmap word `w`. */
  function BitAddrs(w: nat, next: nat, b: nat): seq<nat> {
    if b == 0 then []
    else BitAddrs(w, next, b - 1) + (if Bit(w, b) then [Wrap(next, (b - 1) * WORD)] else [])
  }

  /** Where the word after the last one covered by `ws` lies. */
  function NextOf(ws: seq<nat>): nat {
    if ws == [] then 0
    else
      var w := ws[|ws| - 1];
      if w % 2 == 0 then Wrap(w, WORD) else Wrap(NextOf(ws[..|ws| - 1]), BITMAP_BITS * WORD)
  }

  /** The addresses the RELR words `ws` relocate, in order. */
  function Decoded(ws: seq<nat>): seq<nat> {
    if ws == [] then []
    else
      var k := |ws| - 1;
      Decoded(ws[..k]) + (if ws[k] % 2 == 0 then [ws[k]] else BitAddrs(ws[k], NextOf(ws[..k]), BITMAP_BITS))
  }

  method DecodeRelr(words: seq<nat>) returns (out: seq<nat>)
    ensures out == Decoded(words)
  {
    out := [];
    var next := 0;
    for i := 0 to |words|
      invariant out == Decoded(words[..i]) && next == NextOf(words[..i])
    {
      var w := words[i];
      assert words[..i + 1][..i] == words[..i];
      if w % 2 == 0 {
        out := out + [w];
        next := Wrap(w, WORD);
        continue;
      }
      ghost var before := out;
      for bit := 0 to BITMAP_BITS
        invariant out == before + BitAddrs(w, next, bit)
      {
        if Bit(w, bit + 1) {
          out := out + [Wrap(next, bit * WORD)];
        }
      }
      next := Wrap(next, BITMAP_BITS * WORD);
    }
    assert words[..|words|] == words;
  }

  // ---- Encoding ------------------------------------------------------------------

  /** What the source asks of its input: sorted, unique, word-aligned `u64`s. */
  predicate Encodable(xs: seq<nat>) {
    && (forall i: nat :: i < |xs| ==> xs[i] < M && xs[i] % WORD == 0)
    && (forall i: nat, j: nat :: i < j < |xs| ==> xs[i] < xs[j])
  }

  /** Bitmap `m` (before the tag bit) under construction: bits below `k` only. */
  ghost predicate BitsBelow(m: nat, k: nat) { forall j: nat :: Bit(m, j) ==> j < k }

  lemma TaggedBit(m: nat, j: nat)
    ensures Bit(2 * m + 1, j + 1) == Bit(m, j)
  {
  }

  lemma {:induction false} BitAddrsSet(m: nat, k: nat, next: nat, b: nat)
    requires BitsBelow(m, k)
    ensures BitAddrs(2 * SetBit(m, k) + 1, next, b)
         == BitAddrs(2 * m + 1, next, b) + (if k < b then [Wrap(next, k * WORD)] else [])
    decreases b
  {
    if b > 0 {
      BitAddrsSet(m, k, next, b - 1);
      TaggedBit(m, b - 1);
      TaggedBit(SetBit(m, k), b - 1);
      SetBitBits(m, k, b - 1);
    }
  }

  lemma BitsBelowSet(m: nat, k: nat)
    requires BitsBelow(m, k)
    ensures BitsBelow(SetBit(m, k), k + 1)
  {
    forall j: nat | Bit(SetBit(m, k), j) ensures j < k + 1 { SetBitBits(m, k, j); }
  }

  lemma {:induction false} NoBits(next: nat, b: nat)
    ensures BitAddrs(1, next, b) == [] && !Bit(0, b)
    decreases b
  {
    if b > 0 {
      NoBits(next, b - 1);
      TaggedBit(0, b - 1);
    }
  }

  lemma AlignedGap(offsets: seq<nat>, i: nat)
    requires Encodable(offsets) && i + 1 < |offsets|
    ensures offsets[i] + WORD <= offsets[i + 1]
  {
  }

  /** The bitmap so far: the addresses `i0 .. i`, all below bit `k`. */
  ghost predicate Collecting(offsets: seq<nat>, i0: nat, i: nat, base: nat, bitmap: nat, k: nat) {
    && i0 <= i <= |offsets| && bitmap < Pow2(63) && BitsBelow(bitmap, k)
    && BitAddrs(2 * bitmap + 1, base, BITMAP_BITS) == offsets[i0..i]
    && (bitmap == 0 <==> i == i0)
    && (if i > i0 then base + k * WORD <= offsets[i - 1] + WORD else k == 0)
  }

  lemma CollectOne(offsets: seq<nat>, i0: nat, i: nat, base: nat, bitmap: nat, k: nat)
    requires Encodable(offsets) && Collecting(offsets, i0, i, base, bitmap, k) && base % WORD == 0
    requires i < |offsets| && base <= offsets[i] < base + BITMAP_BITS * WORD
    ensures var b := (offsets[i] - base) / WORD; Collecting(offsets, i0, i + 1, base, SetBit(bitmap, b), b + 1)
  {
    var b := (offsets[i] - base) / WORD;
    assert base + b * WORD == offsets[i];
    if i > i0 { AlignedGap(offsets, i - 1); }
    BitsRaise(bitmap, k, b);
    BitAddrsSet(bitmap, b, base, BITMAP_BITS);
    BitsBelowSet(bitmap, b);
    SetBitSmall(bitmap, b, 63);
    assert offsets[i0..i + 1] == offsets[i0..i] + [offsets[i]];
  }

  lemma NoneCollected(offsets: seq<nat>, i0: nat, base: nat)
    requires i0 <= |offsets|
    ensures Collecting(offsets, i0, i0, base, 0, 0)
  {
    PowTable();
    NoBits(base, BITMAP_BITS);
    forall j: nat ensures !Bit(0, j) { NoBits(base, j); }
  }

  /** One bitmap: the run of addresses from index `i0` within 63 words of `base`. */
  method Bitmap(offsets: seq<nat>, i0: nat, base: nat) returns (bitmap: nat, i: nat)
    requires Encodable(offsets) && i0 <= |offsets| && base < M && base % WORD == 0
    ensures i0 <= i <= |offsets| && bitmap < Pow2(63)
    ensures BitAddrs(2 * bitmap + 1, base, BITMAP_BITS) == offsets[i0..i]
    ensures bitmap == 0 <==> i == i0
    ensures i < |offsets| && offsets[i] >= base ==> offsets[i] >= base + BITMAP_BITS * WORD
  {
    hide Encodable, BitAddrs, BitsBelow, SetBit;
    bitmap, i := 0, i0;
    ghost var k: nat := 0;
    NoneCollected(offsets, i0, base);
    while i < |offsets| && offsets[i] >= base
      invariant Collecting(offsets, i0, i, base, bitmap, k)
    {
      var d := offsets[i] - base;
      if d >= BITMAP_BITS * WORD {
        break;
      }
      CollectOne(offsets, i0, i, base, bitmap, k);
      bitmap := SetBit(bitmap, d / WORD);
      k := d / WORD + 1;
      i := i + 1;
    }
  }

  lemma BitsRaise(m: nat, k: nat, l: nat)
    requires BitsBelow(m, k) && k <= l
    ensures BitsBelow(m, l)
  {
  }

  /** The words written so far decode to the addresses taken so far; the next
      word covered is at `base`, which is `reach` unless that passed 2^64. */
  ghost predicate Encoding(offsets: seq<nat>, i: nat, words: seq<nat>, base: nat, reach: nat) {
    && 0 < i <= |offsets| && 0 < |words| <= i && words[0] % 2 == 0
    && Decoded(words) == offsets[..i] && NextOf(words) == base
    && base < M && base % WORD == 0 && (reach < M ==> base == reach)
    && (i < |offsets| ==> offsets[i] >= reach)
    && (forall k: nat :: k < |words| ==> words[k] < M)
  }

  /** The words written decode to the first `i` addresses. */
  ghost predicate Taken(offsets: seq<nat>, i: nat, words: seq<nat>) {
    && i <= |offsets| && |words| <= i && Decoded(words) == offsets[..i]
    && (i > 0 ==> |words| > 0 && words[0] % 2 == 0)
    && (forall k: nat :: k < |words| ==> words[k] < M)
  }

  lemma EncodingTaken(offsets: seq<nat>, i: nat, words: seq<nat>, base: nat, reach: nat)
    requires Encoding(offsets, i, words, base, reach)
    ensures Taken(offsets, i, words) && base < M && base % WORD == 0
  {
  }

  lemma AlignedWord(x: nat)
    requires x < M && x % WORD == 0
    ensures x % 2 == 0 && Wrap(x, WORD) < M && Wrap(x, WORD) % WORD == 0
  {
    var q := x / 8;
    assert x == 8 * q == 2 * (4 * q);
    assert x + 8 == 8 * (q + 1);
  }

  lemma AddressWord(offsets: seq<nat>, i: nat, words: seq<nat>)
    requires Encodable(offsets) && i < |offsets| && Taken(offsets, i, words)
    ensures Encoding(offsets, i + 1, words + [offsets[i]], Wrap(offsets[i], WORD), offsets[i] + WORD)
  {
    var ws := words + [offsets[i]];
    assert ws[..|ws| - 1] == words;
    assert offsets[..i + 1] == offsets[..i] + [offsets[i]];
    AlignedWord(offsets[i]);
    assert ws[0] % 2 == 0 by { if words == [] { assert ws[0] == offsets[i]; } else { assert ws[0] == words[0]; } }
    if i + 1 < |offsets| { AlignedGap(offsets, i); }
  }

  lemma BitmapWord(offsets: seq<nat>, i: nat, j: nat, words: seq<nat>, base: nat, reach: nat, bitmap: nat)
    requires Encodable(offsets) && Encoding(offsets, i, words, base, reach)
    requires i < j <= |offsets| && bitmap < Pow2(63)
    requires BitAddrs(2 * bitmap + 1, base, BITMAP_BITS) == offsets[i..j]
    requires j < |offsets| ==> offsets[j] >= base + BITMAP_BITS * WORD
    ensures Wrap(bitmap, bitmap) + 1 == 2 * bitmap + 1 < M
    ensures Encoding(offsets, j, words + [2 * bitmap + 1], Wrap(base, BITMAP_BITS * WORD), reach + BITMAP_BITS * WORD)
  {
    hide BitAddrs, Bit, Pow2;
    PowTable();
    var ws := words + [2 * bitmap + 1];
    assert ws[..|ws| - 1] == words && ws[|ws| - 1] == 2 * bitmap + 1;
    assert offsets[..j] == offsets[..i] + offsets[i..j];
    assert base == reach by { assert offsets[i] < M; }
  }

  method EncodeRelr(offsets: seq<nat>) returns (words: seq<nat>)
    requires Encodable(offsets)
    ensures Decoded(words) == offsets
    ensures |words| <= |offsets|
    ensures forall k: nat :: k < |words| ==> words[k] < M
    ensures |offsets| > 0 ==> |words| > 0 && words[0] % 2 == 0
  {
    hide Encodable, Encoding, BitAddrs;
    words := [];
    var i: nat := 0;
    while i < |offsets|
      invariant Taken(offsets, i, words)
    {
      AddressWord(offsets, i, words);
      words := words + [offsets[i]];
      var base: nat := Wrap(offsets[i], WORD);
      ghost var reach: nat := offsets[i] + WORD;
      i := i + 1;
      EncodingTaken(offsets, i, words, base, reach);
      while true
        invariant Encoding(offsets, i, words, base, reach) && Taken(offsets, i, words) && base < M && base % WORD == 0
        decreases |offsets| - i
      {
        var bitmap, j := Bitmap(offsets, i, base);
        if bitmap == 0 {
          break;
        }
        LaterOffsets(offsets, i, j, base, reach, words);
        BitmapWord(offsets, i, j, words, base, reach, bitmap);
        words := words + [Wrap(bitmap, bitmap) + 1];
        i := j;
        base := Wrap(base, BITMAP_BITS * WORD);
        reach := reach + BITMAP_BITS * WORD;
        EncodingTaken(offsets, i, words, base, reach);
      }
    }
    assert offsets[..|offsets|] == offsets;
  }

  /** Addresses past the bitmap lie past its 63 words: none is below `base`. */
  lemma LaterOffsets(offsets: seq<nat>, i: nat, j: nat, base: nat, reach: nat, words: seq<nat>)
    requires Encodable(offsets) && Encoding(offsets, i, words, base, reach) && i < j <= |offsets|
    requires j < |offsets| && offsets[j] >= base ==> offsets[j] >= base + BITMAP_BITS * WORD
    ensures j < |offsets| ==> offsets[j] >= base + BITMAP_BITS * WORD
  {
    if j < |offsets| { assert offsets[i] < offsets[j]; }
  }

  lemma Pow2Plus8(k: nat)
    ensures Pow2(k + 8) == 256 * Pow2(k)
  {
    assert Pow2(k + 2) == 2 * Pow2(k + 1) == 4 * Pow2(k);
    assert Pow2(k + 4) == 2 * Pow2(k + 3) == 4 * Pow2(k + 2);
    assert Pow2(k + 6) == 2 * Pow2(k + 5) == 4 * Pow2(k + 4);
    assert Pow2(k + 8) == 2 * Pow2(k + 7) == 4 * Pow2(k + 6);
  }

  lemma PowTable()
    ensures Pow2(63) * 2 == M
  {
    Pow2Plus8(0); Pow2Plus8(8); Pow2Plus8(16); Pow2Plus8(24);
    Pow2Plus8(32); Pow2Plus8(40); Pow2Plus8(48); Pow2Plus8(56);
    assert Pow2(64) == 2 * Pow2(63);
  }

  // ---- What the words mean --------------------------------------------------------------

  /** Word `a` is an address word, or `a` is -1, and bitmaps fill `(a, k]`. */
  predicate Run(ws: seq<nat>, a: int, k: nat) {
    && -1 <= a < k < |ws| && (a >= 0 ==> ws[a] % 2 == 0)
    && forall i: nat :: a < i <= k ==> ws[i] % 2 == 1
  }

  /** Where the first bitmap after word `a` starts; a table may begin with a bitmap. */
  function AfterAddress(ws: seq<nat>, a: int): nat
    requires -1 <= a < |ws|
  {
    if a == -1 then 0 else ws[a] + 8
  }

  /** Bit `j + 1` of bitmap `k`, in the run that word `a` begins, is set and stands for `x`. */
  predicate BitNames(ws: seq<nat>, a: int, k: nat, j: nat, x: nat) {
    && Run(ws, a, k) && j < 63 && Bit(ws[k], j + 1)
    && x == (AfterAddress(ws, a) + 8 * (63 * (k - a - 1) + j)) % 0x1_0000_0000_0000_0000
  }

  ghost predicate Names(ws: seq<nat>, x: nat) {
    || (exists a: nat :: a < |ws| && ws[a] % 2 == 0 && x == ws[a])
    || exists a: int, k: nat, j: nat :: BitNames(ws, a, k, j, x)
  }

  lemma WrapIs(a: nat, b: nat)
    requires a < M && b <= M
    ensures Wrap(a, b) == (a + b) % 0x1_0000_0000_0000_0000 && Wrap(a, b) < M
  {
  }

  lemma ModAdd(a: nat, b: nat)
    ensures (a % 0x1_0000_0000_0000_0000 + b) % 0x1_0000_0000_0000_0000 == (a + b) % 0x1_0000_0000_0000_0000
  {
    var m, q, r := 0x1_0000_0000_0000_0000, a / 0x1_0000_0000_0000_0000, a % 0x1_0000_0000_0000_0000;
    assert a + b == q * m + (r + b);
  }

  lemma {:induction false} NextMeans(ws: seq<nat>, a: int, k: nat)
    requires (forall i: nat :: i < |ws| ==> ws[i] < M) && Run(ws, a, k)
    ensures NextOf(ws[..k]) == (AfterAddress(ws, a) + 8 * (63 * (k - a - 1))) % 0x1_0000_0000_0000_0000
    ensures NextOf(ws[..k]) < M
    decreases k
  {
    var p := ws[..k];
    if k > 0 {
      assert p[..k - 1] == ws[..k - 1] && p[k - 1] == ws[k - 1];
      if k - 1 == a {
        WrapIs(ws[a], 8);
      } else {
        NextMeans(ws, a, k - 1);
        WrapIs(NextOf(ws[..k - 1]), 504);
        ModAdd(AfterAddress(ws, a) + 8 * (63 * (k - 1 - a - 1)), 504);
      }
    }
  }

  /** Bit `j + 1` of `w` is set and stands for `x`, counting from `next`. */
  predicate BitAt(w: nat, next: nat, j: nat, x: nat) { Bit(w, j + 1) && x == (next + 8 * j) % 0x1_0000_0000_0000_0000 }

  lemma {:induction false} BitAddrsMeans(w: nat, next: nat, b: nat, x: nat)
    requires next < M && b <= 63
    ensures x in BitAddrs(w, next, b) <==> exists j: nat :: j < b && BitAt(w, next, j, x)
    decreases b
  {
    if b > 0 {
      BitAddrsMeans(w, next, b - 1, x);
      WrapIs(next, (b - 1) * 8);
      var last: nat := b - 1;
      assert BitAt(w, next, last, x) <==> Bit(w, b) && x == Wrap(next, last * 8);
    }
  }

  /** Every bitmap belongs to one run. */
  lemma {:induction false} RunOf(ws: seq<nat>, k: nat) returns (a: int)
    requires k < |ws| && ws[k] % 2 == 1
    ensures Run(ws, a, k) && forall b: int :: Run(ws, b, k) ==> b == a
    decreases k
  {
    if k == 0 { a := -1; }
    else if ws[k - 1] % 2 == 0 { a := k - 1; }
    else { a := RunOf(ws, k - 1); forall b: int | Run(ws, b, k) ensures b == a { assert Run(ws, b, k - 1); } }
  }

  /** What the last word adds. */
  lemma LastNames(ws: seq<nat>, x: nat)
    requires ws != [] && (forall i: nat :: i < |ws| ==> ws[i] < M) && ws[|ws| - 1] % 2 == 1
    ensures var k := |ws| - 1;
      x in BitAddrs(ws[k], NextOf(ws[..k]), 63) <==> exists a: int, j: nat :: BitNames(ws, a, k, j, x)
  {
    var k: nat := |ws| - 1;
    var a0 := RunOf(ws, k);
    NextMeans(ws, a0, k);
    BitAddrsMeans(ws[k], NextOf(ws[..k]), 63, x);
    hide BitAddrs, NextOf, Run, Bit;
    forall j: nat ensures j < 63 && BitAt(ws[k], NextOf(ws[..k]), j, x) <==> BitNames(ws, a0, k, j, x) {
      ModAdd(AfterAddress(ws, a0) + 8 * (63 * (k - a0 - 1)), 8 * j);
    }
  }

  lemma NamesPrefix(ws: seq<nat>, x: nat)
    requires ws != []
    ensures var k := |ws| - 1;
      Names(ws, x) <==> Names(ws[..k], x) || (ws[k] % 2 == 0 && x == ws[k]) || exists a: int, j: nat :: BitNames(ws, a, k, j, x)
  {
    var k: nat := |ws| - 1;
    var p := ws[..k];
    forall a: int, m: nat, j: nat ensures BitNames(p, a, m, j, x) <==> m < k && BitNames(ws, a, m, j, x) {
      if m < k { assert Run(p, a, m) <==> Run(ws, a, m); }
    }
    if a: nat :| a < |p| && p[a] % 2 == 0 && x == p[a] { assert ws[a] == p[a]; }
    if a: nat :| a < |ws| && ws[a] % 2 == 0 && x == ws[a] { if a < k { assert p[a] == ws[a]; } }
  }

  /**
   The addresses a table of 64-bit words names: its even words, and for each bit but
   the lowest of a bitmap the word it stands for, 63 a bitmap, counted on from the
   address word before the run of bitmaps or from 0.
   */
  lemma {:induction false} DecodedMeans(ws: seq<nat>, x: nat)
    requires forall i: nat :: i < |ws| ==> ws[i] < 0x1_0000_0000_0000_0000
    ensures x in Decoded(ws) <==> Names(ws, x)
    decreases |ws|
  {
    hide BitNames, BitAddrs;
    if ws != [] {
      var k: nat := |ws| - 1;
      DecodedMeans(ws[..k], x);
      NamesPrefix(ws, x);
      if ws[k] % 2 == 1 { LastNames(ws, x); } else { EvenNamesNoBit(ws, k, x); }
    } else {
      NothingNamed(x);
    }
  }

  lemma EvenNamesNoBit(ws: seq<nat>, k: nat, x: nat)
    requires k < |ws| && ws[k] % 2 == 0
    ensures forall a: int, j: nat :: !BitNames(ws, a, k, j, x)
  {
  }

  lemma NothingNamed(x: nat)
    ensures !Names([], x)
  {
  }
}
