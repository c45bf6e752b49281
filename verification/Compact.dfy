/**
 Physical removal of dead bytes from .text (src/patch/compact.rs).

 A file is a sequence of bytes; .text is given by its file offset, size and
 address.  The result ties the byte move to the address map: every live byte
 ends where the map says, every byte after .text moves down by the whole pages
 freed, and no byte before .text changes.
 */
module Compact {
  import opened Wrappers
  import opened AddressMap
  import opened Bytes

  datatype Text = Text(vaddr: nat, size: nat, offset: nat)

  const MAX_ADDR: nat := 0xFFFF_FFFF_FFFF_FFFF

  /** `compaction_fits`: the plan is consistent exactly when .text exists, its
      end does not overflow, its bytes are in the file, and the intervals fit. */
  method CompactionFits(dataLen: nat, text: Option<Text>, intervals: Intervals) returns (fits: bool)
    ensures fits <==> text.Some? && var t := text.value;
      t.vaddr + t.size < 0x1_0000_0000_0000_0000 && t.offset + t.size <= dataLen && Fits(intervals, t.vaddr, t.vaddr + t.size)
  {
    if text.None? {
      return false;
    }
    var t := text.value;
    if t.vaddr + t.size > MAX_ADDR || t.offset + t.size > dataLen {
      return false;
    }
    var te := t.vaddr + t.size;
    var prev := t.vaddr;
    for i := 0 to |intervals|
      invariant Fits(intervals[..i], t.vaddr, te)
      invariant t.vaddr <= prev <= te && prev == if i == 0 then t.vaddr else intervals[i - 1].1
      invariant forall k: nat :: k < i ==> intervals[k].1 <= prev
    {
      var (s, e) := intervals[i];
      if s < prev || e < s || e > te {
        assert !Fits(intervals, t.vaddr, te);
        return false;
      }
      prev := e;
    }
    assert intervals[..|intervals|] == intervals;
    return true;
  }

  /** The live bytes among the first `n` bytes of .text, in order. */
  ghost function LiveBytes(text: seq<byte>, ivs: Intervals, vma: nat, n: nat): seq<byte>
    requires n <= |text|
  {
    if n == 0 then []
    else LiveBytes(text, ivs, vma, n - 1) + (if InDead(vma + n - 1, ivs) then [] else [text[n - 1]])
  }

  lemma {:induction false} LiveStretch(text: seq<byte>, ivs: Intervals, vma: nat, m: nat, n: nat)
    requires m <= n <= |text| && forall a: nat :: vma + m <= a < vma + n ==> !InDead(a, ivs)
    ensures LiveBytes(text, ivs, vma, n) == LiveBytes(text, ivs, vma, m) + text[m..n]
    decreases n - m
  {
    if m < n {
      LiveStretch(text, ivs, vma, m, n - 1);
      assert text[m..n] == text[m..n - 1] + [text[n - 1]];
    }
  }

  lemma {:induction false} DeadStretch(text: seq<byte>, ivs: Intervals, vma: nat, m: nat, n: nat)
    requires m <= n <= |text| && forall a: nat :: vma + m <= a < vma + n ==> InDead(a, ivs)
    ensures LiveBytes(text, ivs, vma, n) == LiveBytes(text, ivs, vma, m)
    decreases n - m
  {
    if m < n { DeadStretch(text, ivs, vma, m, n - 1); }
  }

  /** Where a live byte lands, and how many there are. */
  lemma {:induction false} LivePlace(text: seq<byte>, ivs: Intervals, vma: nat, n: nat)
    requires n <= |text| && Fits(ivs, vma, vma + |text|)
    ensures |LiveBytes(text, ivs, vma, n)| == n - Shift(vma + n, ivs)
    ensures forall a: nat :: vma <= a < vma + n && !InDead(a, ivs) ==> PlacedAt(text, ivs, vma, n, a)
    decreases n
  {
    hide Shift, Fits, PlacedAt, InDead;
    if n == 0 { NothingPlaced(text, ivs, vma); } else {
      LivePlace(text, ivs, vma, n - 1);
      ShiftStep(ivs, vma, vma + |text|, vma + n - 1);
      forall a: nat | vma <= a < vma + n && !InDead(a, ivs) ensures PlacedAt(text, ivs, vma, n, a) {
        PlaceStep(text, ivs, vma, n, a);
      }
    }
  }

  lemma NothingPlaced(text: seq<byte>, ivs: Intervals, vma: nat)
    requires Fits(ivs, vma, vma + |text|)
    ensures LiveBytes(text, ivs, vma, 0) == [] && Shift(vma, ivs) == 0
  {
    ShiftBefore(ivs, vma);
  }

  lemma PlaceStep(text: seq<byte>, ivs: Intervals, vma: nat, n: nat, a: nat)
    requires 0 < n <= |text| && vma <= a < vma + n && !InDead(a, ivs)
    requires a < vma + n - 1 ==> PlacedAt(text, ivs, vma, n - 1, a)
    requires |LiveBytes(text, ivs, vma, n - 1)| == n - 1 - Shift(vma + n - 1, ivs)
    ensures PlacedAt(text, ivs, vma, n, a)
  {
    hide Shift, InDead;
    var was, now := LiveBytes(text, ivs, vma, n - 1), LiveBytes(text, ivs, vma, n);
    assert was <= now;
  }

  /** The byte at address `a` is at its offset less the shift of `a`. */
  ghost predicate PlacedAt(text: seq<byte>, ivs: Intervals, vma: nat, n: nat, a: nat)
    requires n <= |text| && vma <= a < vma + n
  {
    var i := a - vma - Shift(a, ivs);
    0 <= i < |LiveBytes(text, ivs, vma, n)| && LiveBytes(text, ivs, vma, n)[i] == text[a - vma]
  }

  lemma LiveRunFits(text: seq<byte>, ivs: Intervals, vma: nat, a: nat, n: nat)
    requires Fits(ivs, vma, vma + |text|) && vma <= a && a + n <= vma + |text|
    requires forall x: nat :: a <= x < a + n ==> !InDead(x, ivs)
    ensures 0 <= a - vma - Shift(a, ivs) && a - vma - Shift(a, ivs) + n <= |LiveBytes(text, ivs, vma, |text|)|
  {
    hide Fits, InDead, LiveBytes, PlacedAt, Shift;
    LivePlace(text, ivs, vma, |text|);
    ShiftInside(ivs, vma, vma + |text|, a);
    ShiftBetween(ivs, vma, vma + |text|, a + n, vma + |text|);
    ShiftFlat(ivs, vma, vma + |text|, a, a + n);
  }

  lemma LiveByteLands(text: seq<byte>, ivs: Intervals, vma: nat, a: nat, b: nat)
    requires Fits(ivs, vma, vma + |text|) && vma <= a <= b < vma + |text|
    requires forall x: nat :: a <= x <= b ==> !InDead(x, ivs)
    ensures var i := b - vma - Shift(a, ivs);
      0 <= i < |LiveBytes(text, ivs, vma, |text|)| && LiveBytes(text, ivs, vma, |text|)[i] == text[b - vma]
  {
    hide Fits, InDead, LiveBytes, Shift;
    LivePlace(text, ivs, vma, |text|);
    assert PlacedAt(text, ivs, vma, |text|, b);
    ShiftFlat(ivs, vma, vma + |text|, a, b);
  }

  /** A run of live bytes lands as a run. */
  lemma LiveRunLands(text: seq<byte>, ivs: Intervals, vma: nat, a: nat, n: nat)
    requires Fits(ivs, vma, vma + |text|) && vma <= a && a + n <= vma + |text|
    requires forall x: nat :: a <= x < a + n ==> !InDead(x, ivs)
    ensures var live := LiveBytes(text, ivs, vma, |text|); var i := a - vma - Shift(a, ivs);
      0 <= i && i + n <= |live| && live[i..i + n] == text[a - vma..a - vma + n]
  {
    hide Fits, InDead, LiveBytes, Shift;
    LiveRunFits(text, ivs, vma, a, n);
    var live, i := LiveBytes(text, ivs, vma, |text|), a - vma - Shift(a, ivs);
    var l, t := live[i..i + n], text[a - vma..a - vma + n];
    forall k: nat | k < n
      ensures l[k] == t[k]
    {
      LiveByteLands(text, ivs, vma, a, a + k);
    }
  }

  /** `build_live_text`: intervals not wholly inside .text are ignored. */
  method BuildLiveText(text: seq<byte>, intervals: Intervals, vma: nat) returns (newText: seq<byte>)
    ensures Fits(intervals, vma, vma + |text|) ==> newText == LiveBytes(text, intervals, vma, |text|)
  {
    ghost var fits := Fits(intervals, vma, vma + |text|);
    newText := [];
    var pos: nat := 0;
    for i := 0 to |intervals|
      invariant pos <= |text|
      invariant fits ==> newText == LiveBytes(text, intervals, vma, pos)
      invariant fits ==> pos == if i == 0 then 0 else intervals[i - 1].1 - vma
    {
      var (s, e) := intervals[i];
      if s < vma || e < s || e - vma > |text| {
        continue;
      }
      var ds, de := s - vma, e - vma;
      if fits {
        LiveGap(intervals, vma, vma + |text|, i);
        LiveStretch(text, intervals, vma, pos, ds);
        DeadStretch(text, intervals, vma, ds, de);
      }
      if pos <= ds {
        newText := newText + text[pos..ds];
      }
      pos := Max(pos, de);
    }
    if fits {
      LiveGap(intervals, vma, vma + |text|, |intervals|);
      LiveStretch(text, intervals, vma, pos, |text|);
    }
    newText := newText + text[pos..];
  }

  /** Between interval `i - 1` and interval `i` every byte is live; interval
      `i` itself is dead. */
  lemma LiveGap(ivs: Intervals, ts: nat, te: nat, i: nat)
    requires Fits(ivs, ts, te) && i <= |ivs|
    ensures var lo := if i == 0 then ts else ivs[i - 1].1; var hi := if i == |ivs| then te else ivs[i].0;
      ts <= lo <= hi <= te && (forall x: nat :: lo <= x < hi ==> !InDead(x, ivs))
      && (i < |ivs| ==> forall x: nat :: ivs[i].0 <= x < ivs[i].1 ==> InDead(x, ivs))
  {
  }

  function Zeros(n: int): (r: seq<byte>)
    ensures |r| == (if n < 0 then 0 else n) && forall i: nat :: i < |r| ==> r[i] == 0
  {
    if n <= 0 then [] else seq(n, i => 0)
  }

  /** The compacted file: live bytes, zero padding, and the tail moved down. */
  ghost function Compacted(data: seq<byte>, t: Text, ivs: Intervals): seq<byte>
    requires t.offset + t.size <= |data|
  {
    var live := LiveBytes(data[t.offset..t.offset + t.size], ivs, t.vaddr, t.size);
    data[..t.offset] + live + Zeros(t.size - PageShrink(ivs) - |live|) + data[t.offset + t.size..]
  }

  /** `text_file_range`: .text lies inside the file. */
  predicate InFile(t: Text, dataLen: nat) { t.offset + t.size <= dataLen }

  /** Everything before .text is in place and everything after it still ends
      the file. */
  predicate OutsideKept(data: seq<byte>, out: seq<byte>, t: Text)
    requires InFile(t, |data|)
  {
    && t.offset <= |out| && out[..t.offset] == data[..t.offset]
    && |data| - t.offset - t.size <= |out| - t.offset
    && out[|out| - (|data| - t.offset - t.size)..] == data[t.offset + t.size..]
  }

  method CompactText(data: seq<byte>, text: Option<Text>, intervals: Intervals) returns (out: seq<byte>, saved: nat)
    ensures text.None? || !InFile(text.value, |data|) ==> out == data && saved == 0
    ensures text.Some? && InFile(text.value, |data|) ==> OutsideKept(data, out, text.value)
    ensures text.Some? && InFile(text.value, |data|) && Fits(intervals, text.value.vaddr, text.value.vaddr + text.value.size)
      ==> out == Compacted(data, text.value, intervals) && saved == TotalDead(intervals)
  {
    hide LiveBytes, Fits, TotalDead;
    out, saved := data, 0;
    if text.None? || !InFile(text.value, |data|) {
      return;
    }
    var t := text.value;
    var bytes := data[t.offset..t.offset + t.size];
    var newText := BuildLiveText(bytes, intervals, t.vaddr);
    if Fits(intervals, t.vaddr, t.vaddr + t.size) { FitCounts(bytes, intervals, t.vaddr); }
    var freed := Monus(t.size, |newText|);
    if freed == 0 {
      if Fits(intervals, t.vaddr, t.vaddr + t.size) { UnchangedText(data, t, intervals); }
      return;
    }
    var done;
    out, done := ApplyCompact(data, t.offset, t.size, newText, intervals);
    if done { saved := freed; }
  }

  lemma FitCounts(text: seq<byte>, ivs: Intervals, vma: nat)
    requires Fits(ivs, vma, vma + |text|)
    ensures |LiveBytes(text, ivs, vma, |text|)| + TotalDead(ivs) == |text|
  {
    LivePlace(text, ivs, vma, |text|);
    ShiftAtEnd(ivs, vma + |text|);
  }

  lemma UnchangedText(data: seq<byte>, t: Text, ivs: Intervals)
    requires InFile(t, |data|) && Fits(ivs, t.vaddr, t.vaddr + t.size) && TotalDead(ivs) == 0
    ensures Compacted(data, t, ivs) == data
  {
    var text := data[t.offset..t.offset + t.size];
    hide LiveBytes, Fits, TotalDead;
    FitCounts(text, ivs, t.vaddr);
    NothingDead(text, ivs, t.vaddr, t.size);
    assert text[..t.size] == text;
    assert data[..t.offset] + text == data[..t.offset + t.size];
    assert data == data[..t.offset + t.size] + data[t.offset + t.size..];
  }

  lemma {:induction false} NothingDead(text: seq<byte>, ivs: Intervals, vma: nat, n: nat)
    requires n <= |text| && |LiveBytes(text, ivs, vma, n)| >= n
    ensures LiveBytes(text, ivs, vma, n) == text[..n]
    decreases n
  {
    if n > 0 {
      LiveAtMost(text, ivs, vma, n - 1);
      NothingDead(text, ivs, vma, n - 1);
      assert text[..n] == text[..n - 1] + [text[n - 1]];
    }
  }

  lemma {:induction false} LiveAtMost(text: seq<byte>, ivs: Intervals, vma: nat, n: nat)
    requires n <= |text|
    ensures |LiveBytes(text, ivs, vma, n)| <= n
    decreases n
  {
    if n > 0 { LiveAtMost(text, ivs, vma, n - 1); }
  }

  /** Overwrite .text with the live bytes, zero what is left of it before the
      freed pages, and drain those pages from the file.  Refused, with nothing
      changed, when the drain would exceed the bytes freed. */
  method ApplyCompact(data: seq<byte>, off: nat, size: nat, newText: seq<byte>, intervals: Intervals)
    returns (out: seq<byte>, done: bool)
    requires off + size <= |data|
    ensures done <==> |newText| <= size && PageShrink(intervals) <= size - |newText|
    ensures !done ==> out == data
    ensures done ==> out == data[..off] + newText + Zeros(size - PageShrink(intervals) - |newText|) + data[off + size..]
  {
    var ps := PageShrink(intervals);
    if |newText| > size || ps > size - |newText| {
      return data, false;
    }
    var textEnd := off + size;
    var padEnd := textEnd - ps;
    var pad := Zeros(padEnd - off - |newText|);
    out := data[..off] + newText + pad + data[padEnd..];
    if ps > 0 {
      out := out[..padEnd] + out[textEnd..];
    }
    assert out[..padEnd] == data[..off] + newText + pad;
    return out, true;
  }

  /** The move agrees with the address map. */
  lemma CompactedAgrees(data: seq<byte>, t: Text, ivs: Intervals)
    requires InFile(t, |data|) && Fits(ivs, t.vaddr, t.vaddr + t.size)
    ensures |Compacted(data, t, ivs)| == |data| - PageShrink(ivs)
    ensures forall k: nat :: k < t.offset ==> Compacted(data, t, ivs)[k] == data[k]
    ensures forall a: nat :: t.vaddr <= a < t.vaddr + t.size && !InDead(a, ivs) ==> LandsAt(data, t, ivs, a)
    ensures forall k: nat :: t.offset + t.size <= k < |data| ==> TailAt(data, t, ivs, k)
  {
    hide LandsAt, TailAt, LiveBytes, InDead, Fits;
    CompactedSize(data, t, ivs);
    forall a: nat | t.vaddr <= a < t.vaddr + t.size && !InDead(a, ivs) ensures LandsAt(data, t, ivs, a) {
      LandsWhere(data, t, ivs, a);
    }
    forall k: nat | t.offset + t.size <= k < |data| ensures TailAt(data, t, ivs, k) { TailDown(data, t, ivs, k); }
  }

  lemma CompactedSize(data: seq<byte>, t: Text, ivs: Intervals)
    requires InFile(t, |data|) && Fits(ivs, t.vaddr, t.vaddr + t.size)
    ensures |Compacted(data, t, ivs)| == |data| - PageShrink(ivs) && PageShrink(ivs) <= t.size
  {
    hide LiveBytes;
    FitCounts(data[t.offset..t.offset + t.size], ivs, t.vaddr);
    PagesBelow(ivs);
  }

  lemma PagesBelow(ivs: Intervals)
    ensures PageShrink(ivs) <= TotalDead(ivs)
  {
  }

  lemma TailDown(data: seq<byte>, t: Text, ivs: Intervals, k: nat)
    requires InFile(t, |data|) && Fits(ivs, t.vaddr, t.vaddr + t.size) && t.offset + t.size <= k < |data|
    ensures TailAt(data, t, ivs, k)
  {
    hide LiveBytes, PageShrink, Fits;
    CompactedSize(data, t, ivs);
    var live := LiveBytes(data[t.offset..t.offset + t.size], ivs, t.vaddr, t.size);
    var head, tail := data[..t.offset] + live + Zeros(t.size - PageShrink(ivs) - |live|), data[t.offset + t.size..];
    assert Compacted(data, t, ivs) == head + tail;
    assert |head| == t.offset + t.size - PageShrink(ivs);
  }

  lemma LandsWhere(data: seq<byte>, t: Text, ivs: Intervals, a: nat)
    requires InFile(t, |data|) && Fits(ivs, t.vaddr, t.vaddr + t.size)
    requires t.vaddr <= a < t.vaddr + t.size && !InDead(a, ivs)
    ensures LandsAt(data, t, ivs, a)
  {
    hide LiveBytes, Shift, InDead, Fits;
    var text := data[t.offset..t.offset + t.size];
    LivePlace(text, ivs, t.vaddr, t.size);
    assert PlacedAt(text, ivs, t.vaddr, t.size, a);
    var live := LiveBytes(text, ivs, t.vaddr, t.size);
    var i := a - t.vaddr - Shift(a, ivs);
    assert (data[..t.offset] + live)[t.offset + i] == live[i] == data[t.offset + (a - t.vaddr)];
    assert Moved(a, ivs, t.vaddr, t.vaddr + t.size) - t.vaddr == i;
  }

  /** The live .text byte at address `a` is now at the mapped address. */
  ghost predicate LandsAt(data: seq<byte>, t: Text, ivs: Intervals, a: nat)
    requires InFile(t, |data|) && t.vaddr <= a < t.vaddr + t.size
  {
    var i := t.offset + (Moved(a, ivs, t.vaddr, t.vaddr + t.size) - t.vaddr);
    t.offset <= i < |Compacted(data, t, ivs)| && Compacted(data, t, ivs)[i] == data[t.offset + (a - t.vaddr)]
  }

  /** File byte `k`, after .text, is now lower by the pages freed. */
  ghost predicate TailAt(data: seq<byte>, t: Text, ivs: Intervals, k: nat)
    requires InFile(t, |data|) && k < |data|
  {
    0 <= k - PageShrink(ivs) < |Compacted(data, t, ivs)| && Compacted(data, t, ivs)[k - PageShrink(ivs)] == data[k]
  }
}
