/** The GDB remote serial protocol codec of `kernel-core/src/gdb_rsp.rs`: framing with a checksum, and the
incremental packet reader with run-length expansion. */
module GdbRsp {
  import opened Options
  import opened Seqs

  type byte = b: int | 0 <= b < 256

  const DOLLAR: byte := 0x24
  const HASH: byte := 0x23
  const STAR: byte := 0x2a
  const ACK: byte := 0x2b
  const NAK: byte := 0x2d
  const INTERRUPT: byte := 0x03
  const MAX_PACKET: nat := 4096

  // ---- checksum and hex ----

  /** Sum of the bytes modulo 256. */
  function Checksum(payload: seq<byte>): byte {
    if payload == [] then 0
    else (Checksum(payload[..|payload| - 1]) + payload[|payload| - 1]) % 256
  }

  method ComputeChecksum(payload: seq<byte>) returns (sum: byte)
    ensures sum == Checksum(payload)
  {
    sum := 0;
    for i := 0 to |payload|
      invariant sum == Checksum(payload[..i])
    {
      assert payload[..i + 1][..i] == payload[..i];
      sum := (sum + payload[i]) % 256;
    }
    assert payload[..|payload|] == payload;
  }

  function HexDigit(n: byte): byte {
    var d := n % 16;
    if d < 10 then 0x30 + d else 0x61 + (d - 10)
  }

  function ParseHexDigit(c: byte): Option<byte> {
    if 0x30 <= c <= 0x39 then Some(c - 0x30)
    else if 0x61 <= c <= 0x66 then Some(c - 0x61 + 10)
    else if 0x41 <= c <= 0x46 then Some(c - 0x41 + 10)
    else None
  }

  lemma HexRoundTrip(n: byte)
    ensures ParseHexDigit(HexDigit(n / 16)) == Some(n / 16)
    ensures ParseHexDigit(HexDigit(n)) == Some(n % 16)
    ensures (n / 16) * 16 + n % 16 == n
  {
  }

  const LOWER_HEX: string := "0123456789abcdef"
  const UPPER_HEX: string := "0123456789ABCDEF"

  /** Digits are written in lower case. */
  lemma HexWritten(n: byte)
    ensures HexDigit(n) == LOWER_HEX[n % 16] as int
  {
  }

  /** Digits are read in either case, and nothing else is a digit. */
  lemma HexRead(d: byte, c: byte)
    requires d < 16
    ensures ParseHexDigit(c) == Some(d) <==> c == LOWER_HEX[d] as int || c == UPPER_HEX[d] as int
    ensures ParseHexDigit(c).Some? ==> ParseHexDigit(c).value < 16
  {
  }

  function Sum(payload: seq<byte>): nat {
    if payload == [] then 0 else Sum(payload[..|payload| - 1]) + payload[|payload| - 1]
  }

  lemma WrapOnce(sum: nat, b: byte)
    ensures (sum % 256 + b) % 256 == (sum + b) % 256
  {
  }

  /** The checksum never wraps differently from the unbounded sum. */
  lemma {:induction false} ChecksumIsSum(payload: seq<byte>)
    ensures Checksum(payload) == Sum(payload) % 256
    decreases |payload|
  {
    if payload != [] {
      ChecksumIsSum(payload[..|payload| - 1]);
      WrapOnce(Sum(payload[..|payload| - 1]), payload[|payload| - 1]);
    }
  }

  // ---- framing ----

  /** `$<payload>#<cc>`. */
  function Frame(payload: seq<byte>): seq<byte> {
    [DOLLAR] + payload + [HASH, HexDigit(Checksum(payload) / 16), HexDigit(Checksum(payload))]
  }

  /** A dollar sign, the payload, a hash sign and the two digits of the sum, high one first. */
  lemma FrameLayout(payload: seq<byte>)
    ensures var n, f := |payload|, Frame(payload);
      && |f| == n + 4 && f[0] == '$' as int && f[1..n + 1] == payload && f[n + 1] == '#' as int
      && f[n + 2] == HexDigit(Sum(payload) % 256 / 16) && f[n + 3] == HexDigit(Sum(payload) % 256)
  {
    ChecksumIsSum(payload);
  }

  /** Write the frame at the start of `out`, or nothing if it does not fit. */
  method EncodePacket(payload: seq<byte>, out: array<byte>) returns (r: Option<nat>)
    modifies out
    ensures r == if out.Length < |payload| + 4 then None else Some(|payload| + 4)
    ensures r.None? ==> out[..] == old(out[..])
    ensures r.Some? ==> out[..r.value] == Frame(payload) && out[r.value..] == old(out[..])[r.value..]
  {
    var need := |payload| + 4;
    if out.Length < need {
      return None;
    }
    out[0] := DOLLAR;
    for i := 0 to |payload|
      invariant out[0] == DOLLAR
      invariant forall k | 0 <= k < i :: out[1 + k] == payload[k]
      invariant forall k | need <= k < out.Length :: out[k] == old(out[k])
    {
      out[1 + i] := payload[i];
    }
    var cs := ComputeChecksum(payload);
    out[1 + |payload|] := HASH;
    out[2 + |payload|] := HexDigit(cs / 16);
    out[3 + |payload|] := HexDigit(cs);
    r := Some(need);
  }

  // ---- run-length expansion ----

  /** Additional copies that a run-length count byte stands for. */
  function RunCount(count: byte): nat {
    (count + 256 - 29) % 256
  }

  function LastOrZero(out: seq<byte>): byte {
    if out == [] then 0 else out[|out| - 1]
  }

  /** `out` followed by what `body` stands for: a `*` and a count byte repeat the last byte. */
  function ExpandOnto(out: seq<byte>, body: seq<byte>): seq<byte>
    decreases |body|
  {
    if body == [] then out
    else if body[0] != STAR then ExpandOnto(out + [body[0]], body[1..])
    else if |body| == 1 then out
    else ExpandOnto(out + Repeat(LastOrZero(out), RunCount(body[1])), body[2..])
  }

  function Expand(body: seq<byte>): seq<byte> {
    ExpandOnto([], body)
  }

  /** A byte, a `*` and a count: a space stands for three more copies, and each count after it for one more. */
  lemma RunLength(x: byte, count: byte)
    requires x != '*' as int
    ensures Expand([x, '*' as int, count]) == Repeat(x, if count >= 29 then count - 28 else count + 228)
  {
    var body := [x, STAR, count];
    assert body[1..] == [STAR, count] && [STAR, count][2..] == [];
    assert [] + [x] == [x];
    assert Expand(body) == ExpandOnto([x], [STAR, count]);
    assert ExpandOnto([x], [STAR, count]) == [x] + Repeat(x, RunCount(count));
  }

  /** A body without `*` stands for itself. */
  lemma {:induction false} ExpandPlain(out: seq<byte>, body: seq<byte>)
    requires STAR !in body
    ensures ExpandOnto(out, body) == out + body
    decreases |body|
  {
    if body != [] {
      ExpandPlain(out + [body[0]], body[1..]);
      assert out + [body[0]] + body[1..] == out + body;
    }
  }

  /** What fits in the packet buffer. */
  function Clip(out: seq<byte>): seq<byte> {
    if |out| <= MAX_PACKET then out else out[..MAX_PACKET]
  }

  // ---- the reader ----

  datatype Phase = Idle | Body | Check

  datatype Event = Packet(len: nat) | BadChecksum | Ack | Nak | Interrupted

  /** The reader as a value: decoded payload so far, phase, first checksum digit, raw sum, pending run. */
  datatype Reader = Reader(payload: seq<byte>, phase: Phase, hi: Option<byte>, rawSum: byte, rle: bool)

  function PushBody(r: Reader, b: byte): Reader {
    if r.rle then r.(rle := false, payload := Clip(r.payload + Repeat(LastOrZero(r.payload), RunCount(b))))
    else if b == STAR then r.(rle := true)
    else r.(payload := Clip(r.payload + [b]))
  }

  function Feed(r: Reader, b: byte): (Reader, Option<Event>) {
    match r.phase
    case Idle =>
      if b == DOLLAR then (Reader([], Body, r.hi, 0, false), None)
      else (r, if b == ACK then Some(Ack) else if b == NAK then Some(Nak)
               else if b == INTERRUPT then Some(Interrupted) else None)
    case Body =>
      if b == HASH then (r.(phase := Check, hi := None), None)
      else (PushBody(r.(rawSum := (r.rawSum + b) % 256), b), None)
    case Check =>
      match ParseHexDigit(b) {
        case None => (r.(phase := Idle), Some(BadChecksum))
        case Some(d) =>
          match r.hi {
            case None => (r.(hi := Some(d)), None)
            case Some(hi) =>
              var done := r.(phase := Idle, hi := None);
              (done, Some(if (hi * 16 + d) % 256 == r.rawSum then Packet(|r.payload|) else BadChecksum))
          }
      }
  }

  /** Between packets `$` starts one, `+`, `-` and the interrupt byte raise their events, and the rest is dropped. */
  lemma IdleBytes(r: Reader, b: byte)
    requires r.phase.Idle?
    ensures Feed(r, '$' as int).0.phase.Body? && Feed(r, '$' as int).1.None?
    ensures Feed(r, '+' as int) == (r, Some(Ack)) && Feed(r, '-' as int) == (r, Some(Nak))
    ensures Feed(r, 3) == (r, Some(Interrupted))
    ensures b !in {0x24, 0x2b, 0x2d, 0x03} ==> Feed(r, b) == (r, None)
  {
  }

  /** The reader after a stream of bytes. */
  function After(r: Reader, bytes: seq<byte>): Reader
    decreases |bytes|
  {
    if bytes == [] then r else After(Feed(r, bytes[0]).0, bytes[1..])
  }

  function Completed(r: Reader, b: byte): seq<seq<byte>> {
    var (next, event) := Feed(r, b);
    if event.Some? && event.value.Packet? then [next.payload] else []
  }

  /** The payloads of the packets that a stream of bytes completes, in order. */
  function Packets(r: Reader, bytes: seq<byte>): seq<seq<byte>>
    decreases |bytes|
  {
    if bytes == [] then [] else Completed(r, bytes[0]) + Packets(Feed(r, bytes[0]).0, bytes[1..])
  }

  /** Everything a stream of bytes raises, in order. */
  function Events(r: Reader, bytes: seq<byte>): seq<Event>
    decreases |bytes|
  {
    if bytes == [] then [] else Raised(r, bytes[0]) + Events(Feed(r, bytes[0]).0, bytes[1..])
  }

  function Raised(r: Reader, b: byte): seq<Event> {
    var event := Feed(r, b).1;
    if event.None? then [] else [event.value]
  }

  lemma {:induction false} EventsConcat(r: Reader, xs: seq<byte>, ys: seq<byte>)
    ensures Events(r, xs + ys) == Events(r, xs) + Events(After(r, xs), ys)
    decreases |xs|
  {
    if xs == [] {
      assert xs + ys == ys;
    } else {
      EventsConcat(Feed(r, xs[0]).0, xs[1..], ys);
      assert (xs + ys)[1..] == xs[1..] + ys;
    }
  }

  lemma {:induction false} StreamConcat(r: Reader, xs: seq<byte>, ys: seq<byte>)
    ensures After(r, xs + ys) == After(After(r, xs), ys)
    ensures Packets(r, xs + ys) == Packets(r, xs) + Packets(After(r, xs), ys)
    decreases |xs|
  {
    if xs == [] {
      assert xs + ys == ys;
    } else {
      StreamConcat(Feed(r, xs[0]).0, xs[1..], ys);
      assert (xs + ys)[1..] == xs[1..] + ys;
    }
  }

  lemma StreamOne(r: Reader, b: byte)
    ensures After(r, [b]) == Feed(r, b).0
    ensures Packets(r, [b]) == Completed(r, b)
  {
    assert [b][1..] == [];
  }

  lemma AfterTwo(r: Reader, bytes: seq<byte>)
    requires |bytes| >= 2
    ensures After(r, bytes) == After(Feed(Feed(r, bytes[0]).0, bytes[1]).0, bytes[2..])
  {
    assert bytes[1..][1..] == bytes[2..];
  }

  // ---- reading a body ----

  lemma ClipAppend(out: seq<byte>, more: seq<byte>)
    ensures Clip(Clip(out) + more) == Clip(out + more)
  {
  }

  lemma ChecksumAppend(xs: seq<byte>, b: byte)
    ensures Checksum(xs + [b]) == (Checksum(xs) + b) % 256
  {
    assert (xs + [b])[..|xs|] == xs;
  }

  /** Appending to a full buffer keeps nothing, so the clipped reader may repeat the clipped last byte. */
  lemma ClipRun(out: seq<byte>, n: nat)
    ensures Clip(Clip(out) + Repeat(LastOrZero(Clip(out)), n)) == Clip(out + Repeat(LastOrZero(out), n))
  {
    if |out| > MAX_PACKET {
      assert Clip(out + Repeat(LastOrZero(out), n)) == out[..MAX_PACKET];
    }
  }

  /** A reader inside a body, with `out` expanded so far and no run pending. */
  ghost predicate Reading(r: Reader, out: seq<byte>) {
    r.phase.Body? && !r.rle && r.payload == Clip(out)
  }

  lemma TakePlain(r: Reader, out: seq<byte>, b: byte)
    requires Reading(r, out) && b != HASH && b != STAR
    ensures Reading(Feed(r, b).0, out + [b])
  {
    ClipAppend(out, [b]);
  }

  lemma TakeRun(r: Reader, out: seq<byte>, b: byte)
    requires Reading(r, out) && b != HASH
    ensures Reading(Feed(Feed(r, STAR).0, b).0, out + Repeat(LastOrZero(out), RunCount(b)))
  {
    ClipRun(out, RunCount(b));
  }

  /** Nothing is raised before the `#`. */
  lemma {:induction false} BodyIsQuiet(r: Reader, body: seq<byte>)
    requires r.phase.Body? && HASH !in body
    ensures Packets(r, body) == [] && Events(r, body) == [] && After(r, body).phase.Body?
    decreases |body|
  {
    if body != [] {
      BodyIsQuiet(Feed(r, body[0]).0, body[1..]);
    }
  }

  /** The raw sum covers every byte of the body as it came, runs not expanded. */
  lemma {:induction false} BodySum(r: Reader, sofar: seq<byte>, body: seq<byte>)
    requires r.phase.Body? && HASH !in body && r.rawSum == Checksum(sofar)
    ensures After(r, body).rawSum == Checksum(sofar + body)
    decreases |body|
  {
    if body == [] {
      assert sofar + body == sofar;
    } else {
      ChecksumAppend(sofar, body[0]);
      BodySum(Feed(r, body[0]).0, sofar + [body[0]], body[1..]);
      assert sofar + [body[0]] + body[1..] == sofar + body;
    }
  }

  /** The buffer holds the expansion of the body, clipped. */
  lemma {:induction false} BodyPayload(r: Reader, out: seq<byte>, body: seq<byte>)
    requires Reading(r, out) && HASH !in body
    ensures After(r, body).payload == Clip(ExpandOnto(out, body))
    decreases |body|
  {
    if body == [] {
    } else if body[0] != STAR {
      TakePlain(r, out, body[0]);
      BodyPayload(Feed(r, body[0]).0, out + [body[0]], body[1..]);
    } else if |body| == 1 {
      assert body == [STAR];
      StreamOne(r, STAR);
    } else {
      TakeRun(r, out, body[1]);
      AfterTwo(r, body);
      BodyPayload(Feed(Feed(r, STAR).0, body[1]).0, out + Repeat(LastOrZero(out), RunCount(body[1])), body[2..]);
    }
  }

  /** Reading a body without `#` raises nothing and leaves its clipped expansion and its raw sum. */
  lemma ReadBody(r: Reader, body: seq<byte>)
    requires Reading(r, []) && r.rawSum == 0 && HASH !in body
    ensures Packets(r, body) == [] && Events(r, body) == []
    ensures var last := After(r, body);
      last.phase.Body? && last.payload == Clip(Expand(body)) && last.rawSum == Checksum(body)
  {
    BodyIsQuiet(r, body);
    BodySum(r, [], body);
    BodyPayload(r, [], body);
    assert [] + body == body;
  }

  /** The two digits spell this sum. */
  predicate Spells(h: byte, l: byte, sum: byte) {
    && ParseHexDigit(h).Some? && ParseHexDigit(l).Some?
    && (ParseHexDigit(h).value * 16 + ParseHexDigit(l).value) % 256 == sum
  }

  /** The end of a packet: `#` and two bytes, the second left out when the first is no hex digit. */
  function Trailer(h: byte, l: byte): seq<byte> {
    if ParseHexDigit(h).None? then [HASH, h] else [HASH, h, l]
  }

  lemma ReadTrailer(r: Reader, h: byte, l: byte)
    requires r.phase.Body?
    ensures After(r, Trailer(h, l)).phase.Idle?
    ensures Packets(r, Trailer(h, l)) == if Spells(h, l, r.rawSum) then [r.payload] else []
    ensures Events(r, Trailer(h, l)) == [if Spells(h, l, r.rawSum) then Packet(|r.payload|) else BadChecksum]
  {
    var r1 := Feed(r, HASH).0;
    var r2 := Feed(r1, h).0;
    if ParseHexDigit(h).None? {
      assert [HASH, h][1..] == [h];
      StreamOne(r1, h);
      EventsOne(r1, h);
    } else {
      assert [HASH, h, l][1..] == [h, l] && [h, l][1..] == [l];
      StreamOne(r2, l);
      EventsOne(r2, l);
    }
  }

  lemma EventsOne(r: Reader, b: byte)
    ensures Events(r, [b]) == Raised(r, b)
  {
    assert [b][1..] == [];
    assert Raised(r, b) + [] == Raised(r, b);
  }

  /** `$`, a body without `#`, and a trailer of any bytes: one packet with the clipped expansion if they spell the
      checksum of the body, and a bad-checksum report otherwise; either way the reader is idle again. */
  lemma ReadFramed(r: Reader, body: seq<byte>, h: byte, l: byte)
    requires r.phase.Idle? && HASH !in body
    ensures After(r, [DOLLAR] + body + Trailer(h, l)).phase.Idle?
    ensures Packets(r, [DOLLAR] + body + Trailer(h, l)) ==
            if Spells(h, l, Checksum(body)) then [Clip(Expand(body))] else []
    ensures Events(r, [DOLLAR] + body + Trailer(h, l)) ==
            [if Spells(h, l, Checksum(body)) then Packet(|Clip(Expand(body))|) else BadChecksum]
  {
    StreamOne(r, DOLLAR);
    EventsOne(r, DOLLAR);
    StreamConcat(r, [DOLLAR], body);
    EventsConcat(r, [DOLLAR], body);
    StreamConcat(r, [DOLLAR] + body, Trailer(h, l));
    EventsConcat(r, [DOLLAR] + body, Trailer(h, l));
    var r1 := After(r, [DOLLAR]);
    ReadBody(r1, body);
    ReadTrailer(After(r1, body), h, l);
  }

  // ---- what a packet can hold ----

  predicate IsPlain(payload: seq<byte>) {
    HASH !in payload && STAR !in payload && |payload| <= MAX_PACKET
  }

  /** A packet starts empty and takes in neither `#` nor `*`. */
  predicate HoldsPlain(r: Reader) {
    r.phase.Idle? || IsPlain(r.payload)
  }

  lemma FeedPlainOnly(r: Reader, b: byte)
    requires HoldsPlain(r)
    ensures HoldsPlain(Feed(r, b).0)
    ensures forall p | p in Completed(r, b) :: IsPlain(p)
  {
    if r.phase.Body? && b != HASH && r.rle {
      var more := Repeat(LastOrZero(r.payload), RunCount(b));
      assert forall x | x in more :: x == LastOrZero(r.payload);
      assert forall x | x in r.payload + more :: x in r.payload || x == 0;
    }
  }

  lemma {:induction false} PacketsPlainOnly(r: Reader, bytes: seq<byte>)
    requires HoldsPlain(r)
    ensures forall p | p in Packets(r, bytes) :: IsPlain(p)
    decreases |bytes|
  {
    if bytes != [] {
      FeedPlainOnly(r, bytes[0]);
      PacketsPlainOnly(Feed(r, bytes[0]).0, bytes[1..]);
    }
  }

  /** Reading a frame gives the clipped expansion of its body. */
  lemma FrameReads(r: Reader, body: seq<byte>)
    requires r.phase.Idle? && HASH !in body
    ensures After(r, Frame(body)).phase.Idle?
    ensures Packets(r, Frame(body)) == [Clip(Expand(body))]
    ensures Events(r, Frame(body)) == [Packet(|Clip(Expand(body))|)]
  {
    FrameParts(body);
    ReadFramed(r, body, HexDigit(Checksum(body) / 16), HexDigit(Checksum(body)));
  }

  lemma FrameParts(body: seq<byte>)
    ensures var h, l := HexDigit(Checksum(body) / 16), HexDigit(Checksum(body));
      Spells(h, l, Checksum(body)) && Frame(body) == [DOLLAR] + body + Trailer(h, l)
  {
    HexRoundTrip(Checksum(body));
  }

  lemma OnlyMember(all: seq<seq<byte>>, body: seq<byte>)
    requires all == [body] && forall p | p in all :: IsPlain(p)
    ensures IsPlain(body)
  {
    assert body in all;
  }

  /** A body comes back from its frame exactly when it holds neither `#` nor `*` and fits: the encoder escapes nothing. */
  lemma FrameRoundTrip(r: Reader, body: seq<byte>)
    requires r.phase.Idle?
    ensures Packets(r, Frame(body)) == [body] <==> IsPlain(body)
  {
    PacketsPlainOnly(r, Frame(body));
    if IsPlain(body) {
      FrameReads(r, body);
      ExpandPlain([], body);
      assert [] + body == body;
    } else if Packets(r, Frame(body)) == [body] {
      OnlyMember(Packets(r, Frame(body)), body);
    }
  }

  /** Bytes between packets, acks and interrupts among them, are no part of any packet. */
  lemma {:induction false} NoiseIgnored(r: Reader, noise: seq<byte>)
    requires r.phase.Idle? && DOLLAR !in noise
    ensures After(r, noise) == r && Packets(r, noise) == []
    decreases |noise|
  {
    if noise != [] {
      NoiseIgnored(r, noise[1..]);
    }
  }

  /** A stream of packets, each preceded by bytes that do not start a packet. */
  datatype Chunk = Chunk(noise: seq<byte>, body: seq<byte>)

  function Wire(chunks: seq<Chunk>): seq<byte> {
    if chunks == [] then []
    else Wire(chunks[..|chunks| - 1]) + chunks[|chunks| - 1].noise + Frame(chunks[|chunks| - 1].body)
  }

  function Payloads(chunks: seq<Chunk>): seq<seq<byte>> {
    if chunks == [] then [] else Payloads(chunks[..|chunks| - 1]) + [Clip(Expand(chunks[|chunks| - 1].body))]
  }

  /** Any concatenation of packets, with anything but `$` in between, decodes to the same list, in order. */
  lemma {:induction false} StreamRoundTrip(r: Reader, chunks: seq<Chunk>)
    requires r.phase.Idle?
    requires forall i | 0 <= i < |chunks| :: HASH !in chunks[i].body && DOLLAR !in chunks[i].noise
    ensures After(r, Wire(chunks)).phase.Idle?
    ensures Packets(r, Wire(chunks)) == Payloads(chunks)
    decreases |chunks|
  {
    if chunks != [] {
      var front, last := chunks[..|chunks| - 1], chunks[|chunks| - 1];
      StreamRoundTrip(r, front);
      var r1 := After(r, Wire(front));
      NoiseIgnored(r1, last.noise);
      FrameReads(r1, last.body);
      StreamConcat(r, Wire(front), last.noise);
      StreamConcat(r, Wire(front) + last.noise, Frame(last.body));
    }
  }

  // ---- the reader as it runs ----

  class PacketReader {
    const buf: array<byte>
    var len: nat
    var phase: Phase
    var cksumHi: Option<byte>
    var rawSum: byte
    var rle: bool

    ghost predicate Valid()
      reads this, buf
    {
      buf.Length == MAX_PACKET && len <= MAX_PACKET
    }

    ghost function Value(): Reader
      reads this, buf
      requires Valid()
    {
      Reader(buf[..len], phase, cksumHi, rawSum, rle)
    }

    constructor ()
      ensures Valid() && fresh(buf)
      ensures Value() == Reader([], Idle, None, 0, false)
    {
      buf := new byte[MAX_PACKET](_ => 0);
      len, phase, cksumHi, rawSum, rle := 0, Idle, None, 0, false;
    }

    method FeedByte(b: byte) returns (event: Option<Event>)
      requires Valid()
      modifies this, buf
      ensures Valid()
      ensures (Value(), event) == Feed(old(Value()), b)
    {
      event := None;
      match phase {
        case Idle =>
          if b == DOLLAR {
            len, rawSum, rle, phase := 0, 0, false, Body;
          } else if b == ACK {
            event := Some(Ack);
          } else if b == NAK {
            event := Some(Nak);
          } else if b == INTERRUPT {
            event := Some(Interrupted);
          }
        case Body =>
          if b == HASH {
            phase, cksumHi := Check, None;
          } else {
            rawSum := (rawSum + b) % 256;
            PushBodyByte(b);
          }
        case Check =>
          match ParseHexDigit(b) {
            case None =>
              phase := Idle;
              event := Some(BadChecksum);
            case Some(d) =>
              match cksumHi {
                case None => cksumHi := Some(d);
                case Some(hi) =>
                  cksumHi := None;
                  phase := Idle;
                  event := Some(if (hi * 16 + d) % 256 == rawSum then Packet(len) else BadChecksum);
              }
          }
      }
    }

    method PushBodyByte(b: byte)
      requires Valid()
      modifies this`len, this`rle, buf
      ensures Valid() && Value() == PushBody(old(Value()), b)
    {
      ghost var before := buf[..len];
      if rle {
        rle := false;
        var repeat := (b + 256 - 29) % 256;
        var last := if len > 0 then buf[len - 1] else 0;
        for i := 0 to repeat
          invariant Valid() && !rle
          invariant buf[..len] == Clip(before + Repeat(last, i))
        {
          assert before + Repeat(last, i + 1) == before + Repeat(last, i) + [last];
          ClipAppend(before + Repeat(last, i), [last]);
          if len < MAX_PACKET {
            buf[len] := last;
            len := len + 1;
          }
        }
        return;
      }
      if b == STAR {
        rle := true;
        return;
      }
      if len < MAX_PACKET {
        buf[len] := b;
        len := len + 1;
      }
    }
  }
}
