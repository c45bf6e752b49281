/**
 The stream of commands that rebuilds .NET memory, assembled
 (src/format/elf/nativeaot.rs:86-99, 818-899).  Proved here: replaying an assembled
 stream does what each command says, and every stream that replays is an assembled one.
 */
module HydrateAsm {
  import opened Wrappers
  import opened Bytes
  import opened MethodTables

  /** A command, with the number of extra bytes its payload is written in.
      Inline pointers are kept as their four bytes each. */
  datatype Command =
    | Copy(extra: nat, bytes: seq<byte>)
    | ZeroFill(extra: nat, count: nat)
    | RelPtr32(extra: nat, fixup: nat)
    | Ptr(extra: nat, fixup: nat)
    | InlineRelPtr32(extra: nat, raw: seq<byte>)
    | InlinePtr(extra: nat, raw: seq<byte>)

  function Kind(c: Command): (r: nat)
    ensures r < 6
  {
    match c
    case Copy(_, _) => 0
    case ZeroFill(_, _) => 1
    case RelPtr32(_, _) => 2
    case Ptr(_, _) => 3
    case InlineRelPtr32(_, _) => 4
    case InlinePtr(_, _) => 5
  }

  function Payload(c: Command): nat {
    match c
    case Copy(_, bytes) => |bytes|
    case ZeroFill(_, count) => count
    case RelPtr32(_, fixup) => fixup
    case Ptr(_, fixup) => fixup
    case InlineRelPtr32(_, raw) => |raw| / 4
    case InlinePtr(_, raw) => |raw| / 4
  }

  /** Bytes of the stream that follow the head. */
  function Tail(c: Command): seq<byte> {
    match c
    case Copy(_, bytes) => bytes
    case ZeroFill(_, _) => []
    case RelPtr32(_, _) => []
    case Ptr(_, _) => []
    case InlineRelPtr32(_, raw) => raw
    case InlinePtr(_, raw) => raw
  }

  /** Up to 28 a payload fits beside the kind; above, up to three bytes hold the excess. */
  predicate PayloadFits(extra: nat, payload: nat) {
    if extra == 0 then payload <= 28
    else 28 <= payload && if extra == 1 then payload < 0x11c else if extra == 2 then payload < 0x1_001c else extra == 3 && payload < 0x100_001c
  }

  predicate Whole(c: Command) {
    && PayloadFits(c.extra, Payload(c))
    && (c.InlineRelPtr32? || c.InlinePtr? ==> |c.raw| > 0 && |c.raw| % 4 == 0)
  }

  function Head(kind: nat, extra: nat, payload: nat): (r: seq<byte>)
    requires kind < 8 && PayloadFits(extra, payload)
    ensures |r| == 1 + extra
  {
    if extra == 0 then [kind + 8 * payload]
    else if extra == 1 then [kind + 232, payload - 28]
    else if extra == 2 then [kind + 240, (payload - 28) % 256, (payload - 28) / 256]
    else [kind + 248, (payload - 28) % 256, (payload - 28) / 256 % 256, (payload - 28) / 0x1_0000]
  }

  function Code(c: Command): (r: seq<byte>)
    requires Whole(c)
    ensures |r| == 1 + c.extra + |Tail(c)|
  {
    Head(Kind(c), c.extra, Payload(c)) + Tail(c)
  }

  predicate AllWhole(cs: seq<Command>) { forall i: nat :: i < |cs| ==> Whole(cs[i]) }

  function Stream(cs: seq<Command>): seq<byte>
    requires AllWhole(cs)
  {
    if cs == [] then [] else Code(cs[0]) + Stream(cs[1..])
  }

  // ---- What the commands do ---------------------------------------------------------

  function Target(relptr: Reader, loc: nat): nat {
    match relptr(loc)
    case Some(t) => t
    case None => 0
  }

  predicate Readable(relptr: Reader, loc: nat, n: nat) { forall k: nat :: k < n ==> relptr(loc + 4 * k).Some? }

  /** The slots of `n` inline pointers, `width` bytes each, from address `slot` on. */
  function Slots(slot: nat, width: nat, loc: nat, n: nat, relptr: Reader): (r: seq<Write>)
    ensures |r| == n && forall k: nat :: k < n ==> r[k] == Write(slot + width * k, width, Target(relptr, loc + 4 * k))
  {
    seq(n, (k: nat) => Write(slot + width * k, width, Target(relptr, loc + 4 * k)))
  }

  /** What `c` makes of `b`, its inline pointers lying at image address `loc`. */
  function Does(c: Command, b: Built, base: nat, loc: nat, relptr: Reader): Option<Built> {
    match c
    case Copy(_, bytes) => Some(Built(b.bytes + bytes, b.writes, b.uses))
    case ZeroFill(_, count) => Some(Built(b.bytes + Zeros(count), b.writes, b.uses))
    case RelPtr32(_, fixup) => Some(Built(b.bytes + Zeros(4), b.writes, b.uses + [Write(base + |b.bytes|, 4, fixup)]))
    case Ptr(_, fixup) => Some(Built(b.bytes + Zeros(8), b.writes, b.uses + [Write(base + |b.bytes|, 8, fixup)]))
    case InlineRelPtr32(_, raw) =>
      if !Readable(relptr, loc, |raw| / 4) then None
      else Some(Built(b.bytes + Zeros(4 * (|raw| / 4)), b.writes + Slots(base + |b.bytes|, 4, loc, |raw| / 4, relptr), b.uses))
    case InlinePtr(_, raw) =>
      if !Readable(relptr, loc, |raw| / 4) then None
      else Some(Built(b.bytes + Zeros(8 * (|raw| / 4)), b.writes + Slots(base + |b.bytes|, 8, loc, |raw| / 4, relptr), b.uses))
  }

  /** What the commands make of `b` in `room` bytes, the first one lying at image address `loc`. */
  function DoesAll(cs: seq<Command>, b: Built, base: nat, room: nat, loc: nat, relptr: Reader): Option<Built>
    requires AllWhole(cs)
  {
    if cs == [] then Some(b)
    else
      match Does(cs[0], b, base, loc + 1 + cs[0].extra, relptr)
      case None => None
      case Some(b2) =>
        if |b2.bytes| > room then None else DoesAll(cs[1..], b2, base, room, loc + |Code(cs[0])|, relptr)
  }

  // ---- Reading the stream back ----------------------------------------------------------

  lemma LeOne(x: byte)
    ensures LeValue([x]) == x
  {
    assert [x][1..] == [];
  }

  lemma LeTwo(x: byte, y: byte)
    ensures LeValue([x, y]) == x + 256 * y
  {
    LeOne(y);
    assert [x, y][1..] == [y];
  }

  lemma LeThree(x: byte, y: byte, z: byte)
    ensures LeValue([x, y, z]) == x + 256 * y + 0x1_0000 * z
  {
    LeTwo(y, z);
    assert [x, y, z][1..] == [y, z];
  }

  /** `s` holds `part` at offset `p`. */
  predicate At(s: seq<byte>, p: nat, part: seq<byte>) { p + |part| <= |s| && s[p..p + |part|] == part }

  lemma AtParts(s: seq<byte>, p: nat, a: seq<byte>, b: seq<byte>)
    requires At(s, p, a + b)
    ensures At(s, p, a) && At(s, p + |a|, b)
  {
    assert s[p..p + |a|] == (a + b)[..|a|];
    assert s[p + |a|..p + |a + b|] == (a + b)[|a|..];
  }

  /** The head of a command is decoded as its kind and payload. */
  lemma HeadReads(s: seq<byte>, p: nat, kind: nat, extra: nat, payload: nat)
    requires kind < 8 && PayloadFits(extra, payload) && At(s, p, Head(kind, extra, payload))
    ensures DecodeCommand(s, p) == Some((kind, payload, p + 1 + extra))
  {
    var h := Head(kind, extra, payload);
    assert s[p] == s[p..p + |h|][0];
    assert s[p + 1..p + 1 + extra] == h[1..];
    if extra == 1 {
      assert h[1..] == [h[1]];
      LeOne(h[1]);
    } else if extra == 2 {
      assert h[1..] == [h[1], h[2]];
      LeTwo(h[1], h[2]);
    } else if extra == 3 {
      assert h[1..] == [h[1], h[2], h[3]];
      LeThree(h[1], h[2], h[3]);
    }
  }

  /** The inline pointers, all at once. */
  lemma {:induction false} InlinedIs(b: Built, base: nat, loc: nat, n: nat, width: nat, relptr: Reader)
    ensures Inlined(b, base, loc, n, width, relptr)
         == if Readable(relptr, loc, n)
            then Some(Built(b.bytes + Zeros(width * n), b.writes + Slots(base + |b.bytes|, width, loc, n, relptr), b.uses))
            else None
    decreases n
  {
    var all := Slots(base + |b.bytes|, width, loc, n, relptr);
    if n == 0 {
      assert b.bytes + Zeros(0) == b.bytes && b.writes + all == b.writes;
    } else {
      match relptr(loc)
      case None => assert relptr(loc + 4 * 0).None?;
      case Some(t) =>
        var c := AddWrite(b, base, width, t);
        InlinedIs(c, base, loc + 4, n - 1, width, relptr);
        ReadableStep(relptr, loc, n);
        var rest := Slots(base + |c.bytes|, width, loc + 4, n - 1, relptr);
        SlotsStep(base + |b.bytes|, width, loc, n, relptr);
        assert b.writes + [Write(base + |b.bytes|, width, t)] + rest == b.writes + ([Write(base + |b.bytes|, width, t)] + rest);
        ZerosStep(b.bytes, width, n);
    }
  }

  lemma ReadableStep(relptr: Reader, loc: nat, n: nat)
    requires n > 0 && relptr(loc).Some?
    ensures Readable(relptr, loc, n) == Readable(relptr, loc + 4, n - 1)
  {
    if Readable(relptr, loc, n) {
      forall k: nat | k < n - 1
        ensures relptr(loc + 4 + 4 * k).Some?
      {
        assert loc + 4 + 4 * k == loc + 4 * (k + 1);
      }
    }
    if Readable(relptr, loc + 4, n - 1) {
      forall k: nat | k < n
        ensures relptr(loc + 4 * k).Some?
      {
        if k > 0 { assert loc + 4 + 4 * (k - 1) == loc + 4 * k; }
      }
    }
  }

  lemma SlotsStep(slot: nat, width: nat, loc: nat, n: nat, relptr: Reader)
    requires n > 0
    ensures Slots(slot, width, loc, n, relptr)
         == [Write(slot, width, Target(relptr, loc))] + Slots(slot + width, width, loc + 4, n - 1, relptr)
  {
    var a, b := Slots(slot, width, loc, n, relptr), Slots(slot + width, width, loc + 4, n - 1, relptr);
    forall k: nat | k < n
      ensures a[k] == ([Write(slot, width, Target(relptr, loc))] + b)[k]
    {
      if k > 0 {
        assert slot + width + width * (k - 1) == slot + width * k;
        assert loc + 4 + 4 * (k - 1) == loc + 4 * k;
      }
    }
  }

  lemma ZerosStep(bytes: seq<byte>, width: nat, n: nat)
    requires n > 0
    ensures bytes + Zeros(width) + Zeros(width * (n - 1)) == bytes + Zeros(width * n)
  {
    assert width + width * (n - 1) == width * n;
    assert Zeros(width) + Zeros(width * (n - 1)) == Zeros(width * n);
    assert bytes + Zeros(width) + Zeros(width * (n - 1)) == bytes + (Zeros(width) + Zeros(width * (n - 1)));
  }

  /** One command of a stream: it does what it says, within the room, and the rest follows. */
  lemma CommandReplays(s: seq<byte>, p: nat, c: Command, b: Built, base: nat, room: nat, at: nat, relptr: Reader)
    requires Whole(c) && At(s, p, Code(c))
    ensures Replayed(s, p, b, base, room, at, relptr)
         == match Does(c, b, base, at + p + 1 + c.extra, relptr)
            case None => None
            case Some(b2) => if |b2.bytes| > room then None else Replayed(s, p + |Code(c)|, b2, base, room, at, relptr)
  {
    hide DecodeCommand, Zeros, Slots, Readable, At, Head, Inlined;
    AtParts(s, p, Head(Kind(c), c.extra, Payload(c)), Tail(c));
    HeadReads(s, p, Kind(c), c.extra, Payload(c));
    TailThere(s, p + 1 + c.extra, Tail(c));
    if c.InlineRelPtr32? || c.InlinePtr? {
      InlinedIs(b, base, at + p + 1 + c.extra, Payload(c), InlineWidth(Kind(c)), relptr);
    }
  }

  lemma TailThere(s: seq<byte>, p: nat, t: seq<byte>)
    requires At(s, p, t)
    ensures p + |t| <= |s| && s[p..p + |t|] == t
  {
  }

  /** Replaying an assembled stream does what its commands say, one after the other. */
  lemma {:induction false} StreamReplays(s: seq<byte>, p: nat, cs: seq<Command>, b: Built, base: nat, room: nat, at: nat, relptr: Reader)
    requires AllWhole(cs) && p <= |s| && s[p..] == Stream(cs)
    ensures Replayed(s, p, b, base, room, at, relptr) == DoesAll(cs, b, base, room, at + p, relptr)
    decreases |cs|
  {
    hide Does, Replayed, Code, Stream, DoesAll, Whole;
    if cs == [] {
      NothingLeft(s, p, b, base, room, at, relptr) by { StreamEnds(s, p); }
      DoesNothing(b, base, room, at + p, relptr);
    } else {
      FirstCommand(s, p, cs);
      CommandReplays(s, p, cs[0], b, base, room, at, relptr);
      DoesFirst(cs, b, base, room, at + p, relptr);
      var d := Does(cs[0], b, base, at + p + 1 + cs[0].extra, relptr);
      if d.Some? && |d.value.bytes| <= room {
        StreamReplays(s, p + |Code(cs[0])|, cs[1..], d.value, base, room, at, relptr);
      }
    }
  }

  lemma StreamEnds(s: seq<byte>, p: nat)
    requires p <= |s| && s[p..] == Stream([])
    ensures p == |s|
  {
  }

  lemma NothingLeft(s: seq<byte>, p: nat, b: Built, base: nat, room: nat, at: nat, relptr: Reader)
    requires p == |s|
    ensures Replayed(s, p, b, base, room, at, relptr) == Some(b)
  {
  }

  lemma DoesNothing(b: Built, base: nat, room: nat, loc: nat, relptr: Reader)
    ensures DoesAll([], b, base, room, loc, relptr) == Some(b)
  {
  }

  lemma DoesFirst(cs: seq<Command>, b: Built, base: nat, room: nat, loc: nat, relptr: Reader)
    requires AllWhole(cs) && cs != []
    ensures DoesAll(cs, b, base, room, loc, relptr)
         == match Does(cs[0], b, base, loc + 1 + cs[0].extra, relptr)
            case None => None
            case Some(b2) => if |b2.bytes| > room then None else DoesAll(cs[1..], b2, base, room, loc + |Code(cs[0])|, relptr)
  {
    hide Does, Code, Whole;
  }

  lemma FirstCommand(s: seq<byte>, p: nat, cs: seq<Command>)
    requires AllWhole(cs) && cs != [] && p <= |s| && s[p..] == Stream(cs)
    ensures AllWhole(cs[1..]) && At(s, p, Code(cs[0])) && s[p + |Code(cs[0])|..] == Stream(cs[1..])
  {
    hide Code, Whole;
    var c := Code(cs[0]);
    assert s[p..] == c + Stream(cs[1..]);
    assert s[p..p + |c|] == s[p..][..|c|];
    assert s[p + |c|..] == s[p..][|c|..];
  }

  // ---- Every stream that replays is assembled -----------------------------------------------

  /** A decoded head is the head of that kind and payload. */
  lemma HeadWas(s: seq<byte>, p: nat) returns (extra: nat)
    requires DecodeCommand(s, p).Some?
    ensures var (kind, payload, next) := DecodeCommand(s, p).value;
      kind < 8 && PayloadFits(extra, payload) && next == p + 1 + extra && At(s, p, Head(kind, extra, payload))
  {
    var short, kind := s[p] / 8, s[p] % 8;
    extra := if short <= 28 then 0 else short - 28;
    if extra == 0 {
      assert s[p..p + 1] == [kind + 8 * short];
    } else if extra == 1 {
      LeOne(s[p + 1]);
      assert s[p + 1..p + 2] == [s[p + 1]];
      assert s[p..p + 2] == [kind + 232, s[p + 1]];
    } else if extra == 2 {
      LeTwo(s[p + 1], s[p + 2]);
      TwoDigits(s[p + 1], s[p + 2]);
      assert s[p + 1..p + 3] == [s[p + 1], s[p + 2]];
      assert s[p..p + 3] == [kind + 240, s[p + 1], s[p + 2]];
    } else {
      LeThree(s[p + 1], s[p + 2], s[p + 3]);
      ThreeDigits(s[p + 1], s[p + 2], s[p + 3]);
      assert s[p + 1..p + 4] == [s[p + 1], s[p + 2], s[p + 3]];
      assert s[p..p + 4] == [kind + 248, s[p + 1], s[p + 2], s[p + 3]];
    }
  }

  lemma TwoDigits(x: byte, y: byte)
    ensures (x + 256 * y) % 256 == x && (x + 256 * y) / 256 == y
  {
  }

  lemma ThreeDigits(x: byte, y: byte, z: byte)
    ensures var v := x + 256 * y + 0x1_0000 * z; v % 256 == x && v / 256 % 256 == y && v / 0x1_0000 == z
  {
    var v := x + 256 * y + 0x1_0000 * z;
    assert v / 256 == y + 256 * z;
  }

  /** The command with which a stream that replays begins. */
  lemma CommandWas(s: seq<byte>, p: nat, b: Built, base: nat, room: nat, at: nat, relptr: Reader) returns (c: Command)
    requires p < |s| && Replayed(s, p, b, base, room, at, relptr).Some?
    ensures Whole(c) && At(s, p, Code(c))
  {
    hide DecodeCommand, Zeros, Head, PayloadFits, Replayed;
    TailStays(s, p, b, base, room, at, relptr);
    var extra := HeadWas(s, p);
    var (kind, payload, next) := DecodeCommand(s, p).value;
    if kind == 0 {
      c := Copy(extra, s[next..next + payload]);
    } else if kind == 1 {
      c := ZeroFill(extra, payload);
    } else if kind == 2 {
      c := RelPtr32(extra, payload);
    } else if kind == 3 {
      c := Ptr(extra, payload);
    } else {
      var raw := s[next..next + 4 * payload];
      c := if kind == 4 then InlineRelPtr32(extra, raw) else InlinePtr(extra, raw);
    }
    assert Kind(c) == kind && Payload(c) == payload;
    AtBoth(s, p, Head(kind, extra, payload), Tail(c));
  }

  lemma AtBoth(s: seq<byte>, p: nat, a: seq<byte>, b: seq<byte>)
    requires At(s, p, a) && At(s, p + |a|, b)
    ensures At(s, p, a + b)
  {
    assert s[p..p + |a + b|] == s[p..p + |a|] + s[p + |a|..p + |a| + |b|];
  }

  /** The command is a known one, and its tail lies in the stream. */
  lemma TailStays(s: seq<byte>, p: nat, b: Built, base: nat, room: nat, at: nat, relptr: Reader)
    requires p < |s| && Replayed(s, p, b, base, room, at, relptr).Some?
    ensures DecodeCommand(s, p).Some?
    ensures var (kind, payload, next) := DecodeCommand(s, p).value;
      && kind <= 5 && (kind == 0 ==> next + payload <= |s|)
      && (kind >= 4 ==> payload > 0 && next + 4 * payload <= |s|)
  {
    hide DecodeCommand, Zeros, Inlined;
    var (kind, payload, next) := DecodeCommand(s, p).value;
    if kind >= 4 {
      var b2 := Inlined(b, base, at + next, payload, InlineWidth(kind), relptr).value;
      ReplayEnds(s, next + 4 * payload, b2, base, room, at, relptr);
    }
  }

  /** A replay does not begin past the end. */
  lemma ReplayEnds(s: seq<byte>, p: nat, b: Built, base: nat, room: nat, at: nat, relptr: Reader)
    requires Replayed(s, p, b, base, room, at, relptr).Some?
    ensures p <= |s|
  {
  }

  /** A stream that replays is assembled from commands. */
  lemma {:induction false} StreamWas(s: seq<byte>, p: nat, b: Built, base: nat, room: nat, at: nat, relptr: Reader) returns (cs: seq<Command>)
    requires Replayed(s, p, b, base, room, at, relptr).Some?
    ensures p <= |s| && AllWhole(cs) && s[p..] == Stream(cs)
    decreases |s| - p
  {
    hide Does, Code, Replayed, Whole;
    ReplayEnds(s, p, b, base, room, at, relptr);
    if p == |s| {
      cs := [];
    } else {
      var c := CommandWas(s, p, b, base, room, at, relptr);
      CommandReplays(s, p, c, b, base, room, at, relptr);
      var d := Does(c, b, base, at + p + 1 + c.extra, relptr).value;
      var rest := StreamWas(s, p + |Code(c)|, d, base, room, at, relptr);
      cs := [c] + rest;
      assert cs[1..] == rest;
      assert s[p..] == s[p..p + |Code(c)|] + s[p + |Code(c)|..];
    }
  }

  /** A stream replays as `b` exactly when it is assembled from commands that build `b`. */
  lemma ReplayExact(s: seq<byte>, base: nat, room: nat, at: nat, relptr: Reader, b: Built)
    ensures Replayed(s, 0, Built([], [], []), base, room, at, relptr) == Some(b)
       <==> exists cs: seq<Command> :: AllWhole(cs) && s == Stream(cs)
                && DoesAll(cs, Built([], [], []), base, room, at, relptr) == Some(b)
  {
    hide Replayed, DoesAll, Stream;
    var none := Built([], [], []);
    assert s[0..] == s;
    if Replayed(s, 0, none, base, room, at, relptr) == Some(b) {
      var cs := StreamWas(s, 0, none, base, room, at, relptr);
      StreamReplays(s, 0, cs, none, base, room, at, relptr);
    }
    forall cs: seq<Command> | AllWhole(cs) && s == Stream(cs)
      ensures Replayed(s, 0, none, base, room, at, relptr) == DoesAll(cs, none, base, room, at, relptr)
    {
      StreamReplays(s, 0, cs, none, base, room, at, relptr);
    }
  }
}
