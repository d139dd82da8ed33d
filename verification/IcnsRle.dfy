/** Apple's ICNS channel run-length encoding: a control byte below 0x80 copies the next n+1 bytes, one
    at or above 0x80 repeats the next byte n-0x80+3 times. */
module IcnsRle {
  import opened Wrappers
  import opened Sequences

  newtype byte = b: int | 0 <= b < 256

  type bytes = seq<byte>

  // ---- Packets ----

  datatype Packet = Run(len: nat, value: byte) | Literal(content: bytes)

  /** The packets the format can spell. */
  predicate WellSized(p: Packet) {
    match p
    case Run(len, _) => 3 <= len <= 130
    case Literal(content) => 1 <= |content| <= 128
  }

  /** How many bytes of the plane a packet stands for. */
  function Span(p: Packet): nat {
    match p
    case Run(len, _) => len
    case Literal(content) => |content|
  }

  function Repeat(value: byte, len: nat): (r: bytes)
    ensures |r| == len && forall k | 0 <= k < len :: r[k] == value
  {
    if len == 0 then [] else Repeat(value, len - 1) + [value]
  }

  function Expand(p: Packet): (r: bytes)
    ensures |r| == Span(p)
  {
    match p
    case Run(len, value) => Repeat(value, len)
    case Literal(content) => content
  }

  function Spell(p: Packet): bytes
    requires WellSized(p)
  {
    match p
    case Run(len, value) => [(0x80 + len - 3) as byte, value]
    case Literal(content) => [(|content| - 1) as byte] + content
  }

  /** Read one packet off the front. None when it is cut short. */
  function ReadPacket(s: bytes): (r: Option<(Packet, bytes)>)
    ensures r.Some? ==> WellSized(r.value.0)
  {
    if |s| < 2 then None
    else if s[0] >= 0x80 then Some((Run(s[0] as int - 0x80 + 3, s[1]), s[2..]))
    else
      var len := s[0] as int + 1;
      if |s| < 1 + len then None else Some((Literal(s[1..1 + len]), s[1 + len..]))
  }

  lemma PacketReadsBack(p: Packet, tail: bytes)
    requires WellSized(p)
    ensures ReadPacket(Spell(p) + tail) == Some((p, tail))
  {
    var s := Spell(p) + tail;
    match p {
      case Run(len, value) =>
        assert s[2..] == tail;
      case Literal(content) =>
        assert s[1..1 + |content|] == content;
        assert s[1 + |content|..] == tail;
    }
  }

  // ---- The encoder ----

  /** Three equal bytes at i: what makes a run packet, and ends a literal. */
  predicate RunAt(data: bytes, i: nat) {
    i + 2 < |data| && data[i + 1] == data[i] && data[i + 2] == data[i]
  }

  /** How long a run at i gets, k of its bytes having been seen, when limit is the most it may. */
  function RunLength(data: bytes, i: nat, k: nat, limit: nat): (run: nat)
    requires 1 <= k <= limit && i + k <= |data|
    ensures k <= run <= limit && i + run <= |data|
    decreases limit - k
  {
    if i + k < |data| && data[i + k] == data[i] && k < limit then RunLength(data, i, k + 1, limit) else k
  }

  /** Where the literal that has taken len bytes and stands at i ends. */
  function LiteralEnd(data: bytes, i: nat, len: nat): (end: nat)
    requires i <= |data| && len <= 128
    ensures i <= end <= |data| && end - i <= 128 - len
    ensures end == |data| || end - i == 128 - len || RunAt(data, end)
    decreases |data| - i
  {
    if i < |data| && len < 128 && !RunAt(data, i) then LiteralEnd(data, i + 1, len + 1) else i
  }

  lemma RunIsThree(data: bytes, i: nat, limit: nat)
    requires i < |data| && limit >= 3
    ensures RunLength(data, i, 1, limit) >= 3 <==> RunAt(data, i)
  {
    assert RunLength(data, i, 1, limit) >= 2 <==> i + 1 < |data| && data[i + 1] == data[i];
    if i + 1 < |data| && data[i + 1] == data[i] {
      assert RunLength(data, i, 1, limit) == RunLength(data, i, 2, limit);
    }
  }

  lemma {:induction false} RunIsRepeated(data: bytes, i: nat, k: nat, limit: nat)
    requires 1 <= k <= limit && i + k <= |data|
    requires forall m | i <= m < i + k :: data[m] == data[i]
    ensures forall m | i <= m < i + RunLength(data, i, k, limit) :: data[m] == data[i]
    decreases limit - k
  {
    if i + k < |data| && data[i + k] == data[i] && k < limit {
      RunIsRepeated(data, i, k + 1, limit);
    }
  }

  /** It goes on until it is as long as it may be, the plane ends, or another byte follows. */
  lemma {:induction false} RunIsLongest(data: bytes, i: nat, k: nat, limit: nat)
    requires 1 <= k <= limit && i + k <= |data|
    ensures var run := RunLength(data, i, k, limit);
            run == limit || i + run == |data| || data[i + run] != data[i]
    decreases limit - k
  {
    if i + k < |data| && data[i + k] == data[i] && k < limit {
      RunIsLongest(data, i, k + 1, limit);
    }
  }

  /** The packet the encoder emits at i. */
  function NextPacket(data: bytes, i: nat): Packet
    requires i < |data|
  {
    var run := RunLength(data, i, 1, 130);
    if run >= 3 then Run(run, data[i]) else Literal(data[i..LiteralEnd(data, i, 0)])
  }

  /** It is one the format can spell, never empty; it stands for exactly the next bytes of the plane;
      a run is as long as it may be, the plane ends after it, or another byte follows; and only a run, a full
      literal or the end of the plane follows a literal. */
  lemma NextPacketIsRight(data: bytes, i: nat)
    requires i < |data|
    ensures var p := NextPacket(data, i);
            && WellSized(p)
            && i + Span(p) <= |data|
            && Expand(p) == data[i..i + Span(p)]
            && (p.Run? <==> RunAt(data, i))
            && (p.Run? ==> Span(p) == 130 || i + Span(p) == |data| || data[i + Span(p)] != data[i])
            && (p.Literal? ==> i + Span(p) == |data| || Span(p) == 128 || RunAt(data, i + Span(p)))
  {
    RunIsThree(data, i, 130);
    RunIsRepeated(data, i, 1, 130);
    RunIsLongest(data, i, 1, 130);
  }

  /** The packets of data[i..]. */
  function Packets(data: bytes, i: nat): seq<Packet>
    requires i <= |data|
    decreases |data| - i
  {
    if i == |data| then []
    else
      NextPacketIsRight(data, i);
      var p := NextPacket(data, i);
      [p] + Packets(data, i + Span(p))
  }

  predicate AllWellSized(ps: seq<Packet>) {
    ps != [] ==> WellSized(ps[0]) && AllWellSized(ps[1..])
  }

  function SpellAll(ps: seq<Packet>): bytes
    requires AllWellSized(ps)
  {
    if ps == [] then [] else Spell(ps[0]) + SpellAll(ps[1..])
  }

  function ExpandAll(ps: seq<Packet>): bytes {
    if ps == [] then [] else Expand(ps[0]) + ExpandAll(ps[1..])
  }

  /** A literal of fewer than 128 bytes is followed by a run, or is the last packet. */
  ghost predicate ShortLiteralsEndAtRuns(ps: seq<Packet>) {
    |ps| >= 2 ==> (ps[0].Literal? && Span(ps[0]) < 128 ==> ps[1].Run?) && ShortLiteralsEndAtRuns(ps[1..])
  }

  lemma PacketsStep(data: bytes, i: nat)
    requires i < |data|
    ensures var p := NextPacket(data, i);
            && i + Span(p) <= |data| && Packets(data, i) == [p] + Packets(data, i + Span(p))
            && Packets(data, i)[0] == p && Packets(data, i)[1..] == Packets(data, i + Span(p))
  {
    NextPacketIsRight(data, i);
    var p := NextPacket(data, i);
    FirstAndRest(p, Packets(data, i + Span(p)));
  }

  lemma {:induction false} PacketsAreWellSized(data: bytes, i: nat)
    requires i <= |data|
    ensures AllWellSized(Packets(data, i))
    decreases |data| - i
  {
    if i == |data| {
    } else {
      NextPacketIsRight(data, i);
      PacketsStep(data, i);
      PacketsAreWellSized(data, i + Span(NextPacket(data, i)));
    }
  }

  lemma CoverOneMore(data: bytes, i: nat, ps: seq<Packet>)
    requires ps != [] && i + Span(ps[0]) <= |data|
    requires Expand(ps[0]) == data[i..i + Span(ps[0])]
    requires data[..i + Span(ps[0])] + ExpandAll(ps[1..]) == data
    ensures data[..i] + ExpandAll(ps) == data
  {
    var next := i + Span(ps[0]);
    Regroup(data[..i], data[i..next], ExpandAll(ps[1..]));
    assert data[..i] + data[i..next] == data[..next];
  }

  lemma {:induction false} PacketsCoverData(data: bytes, i: nat)
    requires i <= |data|
    ensures data[..i] + ExpandAll(Packets(data, i)) == data
    decreases |data| - i
  {
    if i == |data| {
    } else {
      NextPacketIsRight(data, i);
      PacketsStep(data, i);
      var ps := Packets(data, i);
      PacketsCoverData(data, i + Span(ps[0]));
      CoverOneMore(data, i, ps);
    }
  }

  lemma {:induction false} PacketsEndLiteralsAtRuns(data: bytes, i: nat)
    requires i <= |data|
    ensures ShortLiteralsEndAtRuns(Packets(data, i))
    decreases |data| - i
  {
    if i == |data| {
    } else {
      NextPacketIsRight(data, i);
      PacketsStep(data, i);
      var next := i + Span(NextPacket(data, i));
      PacketsEndLiteralsAtRuns(data, next);
      if next < |data| {
        NextPacketIsRight(data, next);
        PacketsStep(data, next);
      }
    }
  }

  /** The encoding of a plane. */
  function Encode(data: bytes): bytes {
    PacketsAreWellSized(data, 0);
    SpellAll(Packets(data, 0))
  }

  /** The counting loop _icns_rle has twice: `run` with limit 130 and `ahead` with limit 3. */
  method CountEqual(data: bytes, i: nat, limit: nat) returns (run: nat)
    requires i < |data| && limit >= 3
    ensures run == RunLength(data, i, 1, limit)
    ensures run >= 3 <==> RunAt(data, i)
    ensures 1 <= run <= limit && i + run <= |data|
    ensures run == limit || i + run == |data| || data[i + run] != data[i]
    ensures forall m | i <= m < i + run :: data[m] == data[i]
  {
    RunIsThree(data, i, limit);
    RunIsLongest(data, i, 1, limit);
    RunIsRepeated(data, i, 1, limit);
    run := 1;
    while i + run < |data| && data[i + run] == data[i] && run < limit
      invariant 1 <= run <= limit && i + run <= |data|
      invariant RunLength(data, i, run, limit) == RunLength(data, i, 1, limit)
    {
      run := run + 1;
    }
  }

  lemma SliceStep<T>(s: seq<T>, i: nat, j: nat)
    requires i <= j < |s|
    ensures s[i..j + 1] == s[i..j] + [s[j]]
  {
  }

  /** The inner loop of _icns_rle: collect bytes until 128, the end, or three equal ones ahead. */
  method TakeLiteral(data: bytes, start: nat) returns (literal: bytes)
    requires start < |data| && !RunAt(data, start)
    ensures Literal(literal) == NextPacket(data, start)
  {
    RunIsThree(data, start, 130);
    var i := start;
    literal := [];
    while i < |data| && |literal| < 128
      invariant start <= i <= |data| && |literal| == i - start <= 128
      invariant literal == data[start..i]
      invariant LiteralEnd(data, i, |literal|) == LiteralEnd(data, start, 0)
    {
      var ahead := CountEqual(data, i, 3);
      if ahead >= 3 {
        break;
      }
      SliceStep(data, start, i);
      literal := literal + [data[i]];
      i := i + 1;
    }
  }

  lemma {:induction false} SpellOneMore(ps: seq<Packet>, p: Packet)
    requires AllWellSized(ps) && WellSized(p)
    ensures AllWellSized(ps + [p]) && SpellAll(ps + [p]) == SpellAll(ps) + Spell(p)
  {
    if ps == [] {
      assert ps + [p] == [p];
      assert SpellAll([p]) == Spell(p) + [];
    } else {
      SpellOneMore(ps[1..], p);
      assert (ps + [p])[1..] == ps[1..] + [p];
      Regroup(Spell(ps[0]), SpellAll(ps[1..]), Spell(p));
    }
  }

  /** out spells the packets that come before i. */
  ghost predicate Progress(data: bytes, i: nat, out: bytes)
    requires i <= |data|
  {
    exists emitted: seq<Packet> :: Emitted(data, i, out, emitted)
  }

  ghost predicate Emitted(data: bytes, i: nat, out: bytes, emitted: seq<Packet>)
    requires i <= |data|
  {
    AllWellSized(emitted) && out == SpellAll(emitted) && emitted + Packets(data, i) == Packets(data, 0)
  }

  lemma EmittedOneMore(data: bytes, i: nat, out: bytes, emitted: seq<Packet>, p: Packet, next: nat)
    requires i <= next <= |data| && Emitted(data, i, out, emitted) && WellSized(p)
    requires Packets(data, i) == [p] + Packets(data, next)
    ensures Progress(data, next, out + Spell(p))
  {
    SpellOneMore(emitted, p);
    Regroup(emitted, [p], Packets(data, next));
    assert Emitted(data, next, out + Spell(p), emitted + [p]);
  }

  lemma PacketAdvances(data: bytes, i: nat)
    requires i < |data|
    ensures var p := NextPacket(data, i);
            WellSized(p) && i + Span(p) <= |data| && Packets(data, i) == [p] + Packets(data, i + Span(p))
  {
    NextPacketIsRight(data, i);
    PacketsStep(data, i);
  }

  lemma AdvanceAfter(data: bytes, i: nat, out: bytes, emitted: seq<Packet>)
    requires i < |data| && Emitted(data, i, out, emitted)
    ensures var p := NextPacket(data, i);
            WellSized(p) && i + Span(p) <= |data| && Progress(data, i + Span(p), out + Spell(p))
  {
    var p := NextPacket(data, i);
    PacketAdvances(data, i);
    EmittedOneMore(data, i, out, emitted, p, i + Span(p));
  }

  /** Emitting the packet due at i. */
  lemma Advance(data: bytes, i: nat, out: bytes)
    requires i < |data| && Progress(data, i, out)
    ensures var p := NextPacket(data, i);
            WellSized(p) && i + Span(p) <= |data| && Progress(data, i + Span(p), out + Spell(p))
  {
    var emitted :| Emitted(data, i, out, emitted);
    AdvanceAfter(data, i, out, emitted);
  }

  lemma Start(data: bytes)
    ensures Progress(data, 0, [])
  {
    assert Emitted(data, 0, [], []);
  }

  lemma Done(data: bytes, out: bytes)
    requires Progress(data, |data|, out)
    ensures out == Encode(data)
  {
    var emitted :| Emitted(data, |data|, out, emitted);
    assert emitted + [] == emitted;
  }

  lemma AdvanceBy(data: bytes, i: nat, out: bytes, p: Packet, span: nat, packet: bytes)
    requires i < |data| && Progress(data, i, out) && p == NextPacket(data, i)
    requires WellSized(p) && span == Span(p) && packet == Spell(p)
    ensures i + span <= |data| && Progress(data, i + span, out + packet)
  {
    Advance(data, i, out);
  }

  lemma NextIsRun(data: bytes, i: nat, run: nat)
    requires i < |data| && run == RunLength(data, i, 1, 130) >= 3
    ensures NextPacket(data, i) == Run(run, data[i]) && run <= 130
  {
    NextPacketIsRight(data, i);
  }

  lemma RunSpelled(run: nat, value: byte)
    requires 3 <= run <= 130
    ensures WellSized(Run(run, value)) && Span(Run(run, value)) == run
    ensures Spell(Run(run, value)) == [(0x80 + run - 3) as byte, value]
  {
  }

  lemma RunStep(data: bytes, i: nat, out: bytes, run: nat)
    requires i < |data| && Progress(data, i, out) && 3 <= run <= 130 && NextPacket(data, i) == Run(run, data[i])
    ensures i + run <= |data| && Progress(data, i + run, out + [(0x80 + run - 3) as byte, data[i]])
  {
    RunSpelled(run, data[i]);
    AdvanceBy(data, i, out, Run(run, data[i]), run, [(0x80 + run - 3) as byte, data[i]]);
  }

  lemma LiteralStep(data: bytes, i: nat, out: bytes, literal: bytes)
    requires i < |data| && Progress(data, i, out) && NextPacket(data, i) == Literal(literal)
    ensures 1 <= |literal| <= 128 && i + |literal| <= |data|
    ensures Progress(data, i + |literal|, out + ([(|literal| - 1) as byte] + literal))
  {
    NextPacketIsRight(data, i);
    AdvanceBy(data, i, out, Literal(literal), |literal|, [(|literal| - 1) as byte] + literal);
  }

  /** _icns_rle. */
  method Rle(data: bytes) returns (out: bytes)
    ensures out == Encode(data)
  {
    var i: nat := 0;
    out := [];
    Start(data);
    while i < |data|
      invariant i <= |data| && Progress(data, i, out)
    {
      var run := CountEqual(data, i, 130);
      if run >= 3 {
        NextIsRun(data, i, run);
        RunStep(data, i, out, run);
        out := out + [(0x80 + run - 3) as byte, data[i]];
        i := i + run;
      } else {
        var literal := TakeLiteral(data, i);
        LiteralStep(data, i, out, literal);
        out := out + ([(|literal| - 1) as byte] + literal);
        i := i + |literal|;
      }
    }
    Done(data, out);
  }

  // ---- The decoder, from the format ----

  /** Read packets until exactly n bytes are produced: the plane, and what follows its packets.
      None when a packet is cut short or runs past n. */
  function Decode(s: bytes, n: nat): Option<(bytes, bytes)>
    decreases n
  {
    if n == 0 then Some(([], s))
    else
      match ReadPacket(s)
      case None => None
      case Some((p, tail)) =>
        if Span(p) > n then None
        else
          match Decode(tail, n - Span(p))
          case None => None
          case Some((plane, rest)) => Some((Expand(p) + plane, rest))
  }

  /** Any list of packets the format can spell decodes to what it stands for, in any context. */
  lemma {:induction false} PacketsDecode(ps: seq<Packet>, rest: bytes)
    requires AllWellSized(ps)
    ensures Decode(SpellAll(ps) + rest, |ExpandAll(ps)|) == Some((ExpandAll(ps), rest))
  {
    if ps == [] {
      assert SpellAll(ps) + rest == rest;
    } else {
      PacketsDecode(ps[1..], rest);
      Regroup(Spell(ps[0]), SpellAll(ps[1..]), rest);
      PacketReadsBack(ps[0], SpellAll(ps[1..]) + rest);
    }
  }

  /** Round trip: the decoder, told only how many bytes the plane has, consumes one encoding exactly and
      gives the plane back, whatever follows. */
  lemma RoundTrip(data: bytes, rest: bytes)
    ensures Decode(Encode(data) + rest, |data|) == Some((data, rest))
  {
    PacketsAreWellSized(data, 0);
    PacketsCoverData(data, 0);
    PacketsDecode(Packets(data, 0), rest);
    assert data[..0] + ExpandAll(Packets(data, 0)) == ExpandAll(Packets(data, 0));
  }

  /** The body of an ARGB slot, after its tag: four planes of n bytes, alpha first. */
  datatype Planes = Planes(r: bytes, g: bytes, b: bytes, a: bytes)

  function EncodePlanes(p: Planes): bytes {
    Encode(p.a) + (Encode(p.r) + (Encode(p.g) + Encode(p.b)))
  }

  function DecodePlanes(s: bytes, n: nat): Option<(Planes, bytes)> {
    match Decode(s, n)
    case None => None
    case Some((a, s1)) =>
      match Decode(s1, n)
      case None => None
      case Some((r, s2)) =>
        match Decode(s2, n)
        case None => None
        case Some((g, s3)) =>
          match Decode(s3, n)
          case None => None
          case Some((b, s4)) => Some((Planes(r, g, b, a), s4))
  }

  /** The four concatenated encodings come apart exactly where they were joined. */
  lemma FourPlanes(p: Planes, n: nat, rest: bytes)
    requires |p.r| == |p.g| == |p.b| == |p.a| == n
    ensures DecodePlanes(EncodePlanes(p) + rest, n) == Some((p, rest))
  {
    var a, r, g, b := Encode(p.a), Encode(p.r), Encode(p.g), Encode(p.b);
    Regroup(a, r + (g + b), rest);
    Regroup(r, g + b, rest);
    Regroup(g, b, rest);
    RoundTrip(p.a, r + (g + (b + rest)));
    RoundTrip(p.r, g + (b + rest));
    RoundTrip(p.g, b + rest);
    RoundTrip(p.b, rest);
  }

  /** The four planes come in this order: alpha, red, green, blue. */
  lemma PlaneOrder(p: Planes, n: nat, rest: bytes)
    requires |p.r| == |p.g| == |p.b| == |p.a| == n
    ensures var s := EncodePlanes(p) + rest;
            && Decode(s, n).Some? && Decode(s, n).value.0 == p.a
            && var s1 := Decode(s, n).value.1;
               && Decode(s1, n).Some? && Decode(s1, n).value.0 == p.r
               && var s2 := Decode(s1, n).value.1;
                  && Decode(s2, n).Some? && Decode(s2, n).value.0 == p.g
                  && var s3 := Decode(s2, n).value.1;
                     Decode(s3, n) == Some((p.b, rest))
  {
    FourPlanes(p, n, rest);
  }

  // ---- Bytes of the simplest planes ----

  /** A plane of equal bytes, three to 130 of them, is one packet of two bytes. */
  lemma FlatPlane(value: byte, len: nat)
    requires 3 <= len <= 130
    ensures Encode(Repeat(value, len)) == [(0x80 + len - 3) as byte, value]
  {
    var data := Repeat(value, len);
    NextPacketIsRight(data, 0);
    assert RunAt(data, 0);
    OnePacket(data);
  }

  /** A plane of up to 128 bytes without three equal ones together is its length less one, and itself. */
  lemma PlainPlane(data: bytes)
    requires 1 <= |data| <= 128 && forall k: nat | k < |data| :: !RunAt(data, k)
    ensures Encode(data) == [(|data| - 1) as byte] + data
  {
    NextPacketIsRight(data, 0);
    assert !RunAt(data, 0);
    OnePacket(data);
  }

  lemma OnePacket(data: bytes)
    requires data != [] && Span(NextPacket(data, 0)) == |data|
    ensures WellSized(NextPacket(data, 0)) && Encode(data) == Spell(NextPacket(data, 0))
  {
    NextPacketIsRight(data, 0);
    PacketsStep(data, 0);
    PacketsAreWellSized(data, 0);
    var p := NextPacket(data, 0);
    assert Packets(data, 0) == [p];
    assert SpellAll([p]) == Spell(p) + SpellAll([p][1..]);
  }

  // ---- Size ----

  /** n plus one header for every 128 bytes begun. */
  function SizeBound(n: nat): nat { n + (n + 127) / 128 }

  lemma SizeBoundOfParts(short: nat, run: nat, rest: nat)
    requires run >= 3
    ensures short + 3 + SizeBound(rest) <= SizeBound(short + run + rest)
  {
    assert (rest + 127) / 128 <= (short + run + rest + 127) / 128;
  }

  lemma {:induction false} PacketSizes(ps: seq<Packet>)
    requires AllWellSized(ps) && ShortLiteralsEndAtRuns(ps)
    ensures |SpellAll(ps)| <= SizeBound(|ExpandAll(ps)|)
  {
    if ps == [] {
    } else {
      var p, tail := ps[0], ps[1..];
      PacketSizes(tail);
      if p.Literal? && Span(p) < 128 && tail != [] {
        var q := tail[0];
        assert q == ps[1] && q.Run?;
        PacketSizes(tail[1..]);
        assert |SpellAll(ps)| == 1 + Span(p) + 2 + |SpellAll(tail[1..])|;
        assert |ExpandAll(ps)| == Span(p) + Span(q) + |ExpandAll(tail[1..])|;
        SizeBoundOfParts(Span(p), Span(q), |ExpandAll(tail[1..])|);
      }
    }
  }

  /** However many short literals data forces, the encoding costs at most one byte for every 128 bytes
      begun: a short literal's header is paid for by the run that ended it. */
  lemma SizeIsBounded(data: bytes)
    ensures |Encode(data)| <= SizeBound(|data|)
  {
    PacketsAreWellSized(data, 0);
    PacketsCoverData(data, 0);
    PacketsEndLiteralsAtRuns(data, 0);
    PacketSizes(Packets(data, 0));
    assert data[..0] + ExpandAll(Packets(data, 0)) == ExpandAll(Packets(data, 0));
  }

  lemma {:induction false} SizeFrom(data: bytes, i: nat)
    requires i <= |data| && forall k: nat | k < |data| :: !RunAt(data, k)
    ensures AllWellSized(Packets(data, i)) && |SpellAll(Packets(data, i))| == SizeBound(|data| - i)
    decreases |data| - i
  {
    PacketsAreWellSized(data, i);
    if i == |data| {
    } else {
      NextPacketIsRight(data, i);
      var p := NextPacket(data, i);
      SizeFrom(data, i + Span(p));
      PacketsStep(data, i);
    }
  }

  /** The bound is met wherever nothing compresses. (It can be met elsewhere too.) */
  lemma SizeWithoutRuns(data: bytes)
    requires forall k: nat | k < |data| :: !RunAt(data, k)
    ensures |Encode(data)| == SizeBound(|data|)
  {
    SizeFrom(data, 0);
  }
}
