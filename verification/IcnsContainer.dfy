/** The ICNS file: a tag and a big-endian length, then one tagged, length-prefixed chunk for each slot. */
module IcnsContainer {
  import opened Wrappers
  import opened Sequences
  import opened IcnsRle

  const LIMIT := 0x1_0000_0000

  // ---- Four-byte big-endian lengths ----

  function BigEndian(n: nat): (r: bytes)
    requires n < LIMIT
    ensures |r| == 4
  {
    [(n / 0x100_0000) as byte, (n / 0x1_0000 % 0x100) as byte, (n / 0x100 % 0x100) as byte, (n % 0x100) as byte]
  }

  function FromBigEndian(s: bytes): nat
    requires |s| == 4
  {
    s[0] as int * 0x100_0000 + s[1] as int * 0x1_0000 + s[2] as int * 0x100 + s[3] as int
  }

  /** Most significant byte first. */
  lemma LengthReadsBack(n: nat)
    requires n < LIMIT
    ensures FromBigEndian(BigEndian(n)) == n
    ensures var b := BigEndian(n);
            b[0] as int * 0x100_0000 + b[1] as int * 0x1_0000 + b[2] as int * 0x100 + b[3] as int == n
  {
    var hi := n / 0x100;
    var top := hi / 0x100;
    assert n / 0x1_0000 == top && n / 0x100_0000 == top / 0x100;
  }

  // ---- Slots ----

  const ICNS: bytes := [0x69, 0x63, 0x6E, 0x73]
  const ARGB: bytes := [0x41, 0x52, 0x47, 0x42]

  /** The tag "ic" followed by two digits. */
  function Ic(tens: nat, units: nat): bytes
    requires tens < 10 && units < 10
  {
    [0x69, 0x63, (0x30 + tens) as byte, (0x30 + units) as byte]
  }

  datatype Slot = Slot(tag: bytes, size: nat)

  const SLOTS := [
    Slot(Ic(0, 4), 16), Slot(Ic(0, 5), 32), Slot(Ic(0, 7), 128), Slot(Ic(0, 8), 256), Slot(Ic(0, 9), 512),
    Slot(Ic(1, 0), 1024), Slot(Ic(1, 1), 32), Slot(Ic(1, 2), 64), Slot(Ic(1, 3), 256), Slot(Ic(1, 4), 512)
  ]

  /** A rendered size: the PNG file's bytes, and its channel planes once decoded. */
  datatype Rep = Rep(png: bytes, pixels: Planes)

  /** One chunk: a four-byte tag and a body whose length has yet to fit its field. */
  datatype Chunk = Chunk(tag: bytes, body: bytes)

  predicate IsArgb(tag: bytes) { tag == Ic(0, 4) || tag == Ic(0, 5) }

  /** How an image's planes are encoded: EncodePlanes, for write_icns. */
  type Encoding = Planes -> bytes

  function ChunkOf(slot: Slot, rep: Rep, encode: Encoding): Chunk {
    Chunk(slot.tag, if IsArgb(slot.tag) then ARGB + encode(rep.pixels) else rep.png)
  }

  predicate FourByteTags(slots: seq<Slot>) {
    forall s | s in slots :: |s.tag| == 4
  }

  lemma SlotTagsAreFourBytes()
    ensures FourByteTags(SLOTS)
  {
  }

  /** The sizes of the first n slots were rendered. */
  predicate Rendered(slots: seq<Slot>, n: nat, reps: map<nat, Rep>)
    requires n <= |slots|
  {
    forall k | 0 <= k < n :: slots[k].size in reps
  }

  /** Their chunks. */
  function ChunksOf(slots: seq<Slot>, n: nat, reps: map<nat, Rep>, encode: Encoding): (chunks: seq<Chunk>)
    requires n <= |slots| && Rendered(slots, n, reps)
    ensures |chunks| == n
  {
    if n == 0 then [] else ChunksOf(slots, n - 1, reps, encode) + [ChunkOf(slots[n - 1], reps[slots[n - 1].size], encode)]
  }

  lemma {:induction false} ChunkAt(slots: seq<Slot>, n: nat, reps: map<nat, Rep>, encode: Encoding, k: nat)
    requires k < n <= |slots| && Rendered(slots, n, reps)
    ensures ChunksOf(slots, n, reps, encode)[k] == ChunkOf(slots[k], reps[slots[k].size], encode)
  {
    var c := ChunkOf(slots[n - 1], reps[slots[n - 1].size], encode);
    assert ChunksOf(slots, n, reps, encode) == ChunksOf(slots, n - 1, reps, encode) + [c];
    if k >= n - 1 {
    } else {
      ChunkAt(slots, n - 1, reps, encode, k);
    }
  }

  function TotalSize(chunks: seq<Chunk>): nat {
    if chunks == [] then 0 else 8 + |chunks[0].body| + TotalSize(chunks[1..])
  }

  predicate Writable(c: Chunk) {
    |c.tag| == 4 && 8 + |c.body| < LIMIT
  }

  predicate AllWritable(chunks: seq<Chunk>) {
    chunks != [] ==> Writable(chunks[0]) && AllWritable(chunks[1..])
  }

  function ChunkBytes(c: Chunk): (r: bytes)
    requires Writable(c)
    ensures |r| == 8 + |c.body|
  {
    c.tag + BigEndian(|c.body| + 8) + c.body
  }

  function AllBytes(chunks: seq<Chunk>): (r: bytes)
    requires AllWritable(chunks)
    ensures |r| == TotalSize(chunks)
  {
    if chunks == [] then [] else ChunkBytes(chunks[0]) + AllBytes(chunks[1..])
  }

  function FileBytes(chunks: seq<Chunk>): bytes
    requires AllWritable(chunks) && 8 + TotalSize(chunks) < LIMIT
  {
    ICNS + BigEndian(TotalSize(chunks) + 8) + AllBytes(chunks)
  }

  // ---- The writer ----

  datatype WriteError = MissingSize(size: nat) | TooLarge

  lemma {:induction false} BytesOfOneMore(chunks: seq<Chunk>, c: Chunk)
    requires AllWritable(chunks) && Writable(c)
    ensures AllWritable(chunks + [c]) && AllBytes(chunks + [c]) == AllBytes(chunks) + ChunkBytes(c)
  {
    if chunks == [] {
      assert chunks + [c] == [c];
      assert AllBytes([c]) == ChunkBytes(c) + [];
    } else {
      BytesOfOneMore(chunks[1..], c);
      assert (chunks + [c])[1..] == chunks[1..] + [c];
      Regroup(ChunkBytes(chunks[0]), AllBytes(chunks[1..]), ChunkBytes(c));
    }
  }

  lemma {:induction false} TotalCountsEach(chunks: seq<Chunk>, k: nat)
    requires k < |chunks|
    ensures TotalSize(chunks) >= 8 + |chunks[k].body|
  {
    if k == 0 {
    } else {
      TotalCountsEach(chunks[1..], k - 1);
    }
  }

  lemma {:induction false} WritableFromSizes(chunks: seq<Chunk>)
    requires forall k | 0 <= k < |chunks| :: |chunks[k].tag| == 4
    requires TotalSize(chunks) < LIMIT
    ensures AllWritable(chunks)
  {
    if chunks == [] {
    } else {
      WritableFromSizes(chunks[1..]);
    }
  }

  lemma ChunksAreWritable(slots: seq<Slot>, n: nat, reps: map<nat, Rep>, encode: Encoding)
    requires FourByteTags(slots) && n <= |slots| && Rendered(slots, n, reps)
    requires TotalSize(ChunksOf(slots, n, reps, encode)) < LIMIT
    ensures AllWritable(ChunksOf(slots, n, reps, encode))
  {
    forall k: nat | k < n ensures |ChunksOf(slots, n, reps, encode)[k].tag| == 4 {
      ChunkAt(slots, n, reps, encode, k);
      assert slots[k] in slots;
    }
    WritableFromSizes(ChunksOf(slots, n, reps, encode));
  }

  /** Every size is rendered and the file's own length fits its field. */
  predicate Fits(slots: seq<Slot>, reps: map<nat, Rep>, encode: Encoding) {
    Rendered(slots, |slots|, reps) && 8 + TotalSize(ChunksOf(slots, |slots|, reps, encode)) < LIMIT
  }

  /** The file that holds the slots' chunks in order. */
  function FileOf(slots: seq<Slot>, reps: map<nat, Rep>, encode: Encoding): bytes
    requires FourByteTags(slots) && Fits(slots, reps, encode)
  {
    ChunksAreWritable(slots, |slots|, reps, encode);
    FileBytes(ChunksOf(slots, |slots|, reps, encode))
  }

  /** bytes are those of the first k slots' chunks. */
  ghost predicate WrittenUpTo(slots: seq<Slot>, k: nat, reps: map<nat, Rep>, encode: Encoding, chunks: bytes) {
    && k <= |slots| && Rendered(slots, k, reps)
    && AllWritable(ChunksOf(slots, k, reps, encode))
    && chunks == AllBytes(ChunksOf(slots, k, reps, encode))
  }

  lemma WriteStep(slots: seq<Slot>, k: nat, reps: map<nat, Rep>, encode: Encoding, chunks: bytes)
    requires FourByteTags(slots) && k < |slots| && slots[k].size in reps && WrittenUpTo(slots, k, reps, encode, chunks)
    requires |ChunkOf(slots[k], reps[slots[k].size], encode).body| + 8 < LIMIT
    ensures var c := ChunkOf(slots[k], reps[slots[k].size], encode);
            WrittenUpTo(slots, k + 1, reps, encode, chunks + (slots[k].tag + BigEndian(|c.body| + 8) + c.body))
  {
    assert slots[k] in slots;
    BytesOfOneMore(ChunksOf(slots, k, reps, encode), ChunkOf(slots[k], reps[slots[k].size], encode));
  }

  lemma OversizedChunk(slots: seq<Slot>, k: nat, reps: map<nat, Rep>, encode: Encoding)
    requires k < |slots| && slots[k].size in reps
    requires |ChunkOf(slots[k], reps[slots[k].size], encode).body| + 8 >= LIMIT
    ensures !Fits(slots, reps, encode)
  {
    if Rendered(slots, |slots|, reps) {
      ChunkAt(slots, |slots|, reps, encode, k);
      TotalCountsEach(ChunksOf(slots, |slots|, reps, encode), k);
    }
  }

  lemma WrittenAll(slots: seq<Slot>, reps: map<nat, Rep>, encode: Encoding, chunks: bytes)
    requires FourByteTags(slots) && WrittenUpTo(slots, |slots|, reps, encode, chunks)
    ensures Fits(slots, reps, encode) <==> |chunks| + 8 < LIMIT
    ensures |chunks| + 8 < LIMIT ==> FileOf(slots, reps, encode) == ICNS + BigEndian(|chunks| + 8) + chunks
  {
  }

  /** The loop of write_icns over any slots. */
  method WriteSlots(slots: seq<Slot>, reps: map<nat, Rep>, encode: Encoding) returns (file: Result<bytes, WriteError>)
    requires FourByteTags(slots)
    ensures file.Ok? <==> Fits(slots, reps, encode)
    ensures file.Ok? ==> file.value == FileOf(slots, reps, encode)
    ensures file.Err? && file.error.MissingSize? ==>
              file.error.size !in reps && exists s | s in slots :: s.size == file.error.size
  {
    var chunks: bytes := [];
    for k := 0 to |slots|
      invariant WrittenUpTo(slots, k, reps, encode, chunks)
    {
      var slot := slots[k];
      if slot.size !in reps {
        assert slot in slots;
        return Err(MissingSize(slot.size));
      }
      var c := ChunkOf(slot, reps[slot.size], encode);
      if |c.body| + 8 >= LIMIT {
        OversizedChunk(slots, k, reps, encode);
        return Err(TooLarge);
      }
      WriteStep(slots, k, reps, encode, chunks);
      chunks := chunks + (slot.tag + BigEndian(|c.body| + 8) + c.body);
    }
    WrittenAll(slots, reps, encode, chunks);
    if |chunks| + 8 >= LIMIT {
      return Err(TooLarge);
    }
    return Ok(ICNS + BigEndian(|chunks| + 8) + chunks);
  }

  /** write_icns: it succeeds exactly when every slot's size was rendered and the whole file's length
      fits its field, and then the file holds the slots' chunks in order. */
  method WriteIcns(reps: map<nat, Rep>) returns (file: Result<bytes, WriteError>)
    ensures FourByteTags(SLOTS)
    ensures file.Ok? <==> Fits(SLOTS, reps, EncodePlanes)
    ensures file.Ok? ==> file.value == FileOf(SLOTS, reps, EncodePlanes)
    ensures file.Err? && file.error.MissingSize? ==>
              file.error.size !in reps && exists s | s in SLOTS :: s.size == file.error.size
  {
    SlotTagsAreFourBytes();
    file := WriteSlots(SLOTS, reps, EncodePlanes);
  }

  // ---- A reader, from the layout ----

  /** Chunks to the end of s. None when a length is wrong. */
  function ReadChunks(s: bytes): Option<seq<Chunk>> {
    if s == [] then Some([])
    else if |s| < 8 then None
    else
      var len := FromBigEndian(s[4..8]);
      if len < 8 || len > |s| then None
      else
        match ReadChunks(s[len..])
        case None => None
        case Some(more) => Some([Chunk(s[..4], s[8..len])] + more)
  }

  /** The chunks of the file at the front of s, and what lies beyond its outer length. */
  function ReadIcns(s: bytes): Option<(seq<Chunk>, bytes)> {
    if |s| < 8 || s[..4] != ICNS then None
    else
      var len := FromBigEndian(s[4..8]);
      if len < 8 || len > |s| then None
      else
        match ReadChunks(s[8..len])
        case None => None
        case Some(chunks) => Some((chunks, s[len..]))
  }

  /** A header and its body come apart where they were joined. */
  lemma HeaderSlices(tag: bytes, len: bytes, body: bytes, rest: bytes)
    requires |tag| == |len| == 4
    ensures var s := tag + len + body + rest;
            s[..4] == tag && s[4..8] == len && s[8..8 + |body|] == body && s[8 + |body|..] == rest
  {
  }

  lemma ReadOneChunk(c: Chunk, tail: bytes)
    requires Writable(c)
    ensures ReadChunks(ChunkBytes(c) + tail) ==
            match ReadChunks(tail)
            case None => None
            case Some(more) => Some([c] + more)
  {
    var s := ChunkBytes(c) + tail;
    var len := |c.body| + 8;
    LengthReadsBack(len);
    HeaderSlices(c.tag, BigEndian(len), c.body, tail);
  }

  lemma {:induction false} ChunksReadBack(chunks: seq<Chunk>)
    requires AllWritable(chunks)
    ensures ReadChunks(AllBytes(chunks)) == Some(chunks)
  {
    if chunks == [] {
    } else {
      ChunksReadBack(chunks[1..]);
      ReadOneChunk(chunks[0], AllBytes(chunks[1..]));
      assert chunks == [chunks[0]] + chunks[1..];
    }
  }

  lemma ReadFramed(length: bytes, body: bytes, rest: bytes, chunks: seq<Chunk>)
    requires |length| == 4 && FromBigEndian(length) == 8 + |body| && ReadChunks(body) == Some(chunks)
    ensures ReadIcns(ICNS + length + body + rest) == Some((chunks, rest))
  {
    HeaderSlices(ICNS, length, body, rest);
  }

  lemma FileParts(chunks: seq<Chunk>) returns (length: bytes, body: bytes)
    requires AllWritable(chunks) && 8 + TotalSize(chunks) < LIMIT
    ensures length == BigEndian(8 + TotalSize(chunks)) && |body| == TotalSize(chunks) && body == AllBytes(chunks)
    ensures FileBytes(chunks) == ICNS + length + body
  {
    length, body := BigEndian(8 + TotalSize(chunks)), AllBytes(chunks);
  }

  lemma PartsReadBack(chunks: seq<Chunk>) returns (length: bytes, body: bytes)
    requires AllWritable(chunks) && 8 + TotalSize(chunks) < LIMIT
    ensures |length| == 4 && FromBigEndian(length) == 8 + |body| && ReadChunks(body) == Some(chunks)
    ensures FileBytes(chunks) == ICNS + length + body
  {
    length, body := FileParts(chunks);
    LengthReadsBack(8 + TotalSize(chunks));
    ChunksReadBack(chunks);
  }

  /** Container round trip: every chunk list whose file length fits is read back in order, and the
      reader stops exactly at the outer length, whatever follows. */
  lemma FileReadsBack(chunks: seq<Chunk>, rest: bytes)
    requires AllWritable(chunks) && 8 + TotalSize(chunks) < LIMIT
    ensures ReadIcns(FileBytes(chunks) + rest) == Some((chunks, rest))
  {
    var length, body := PartsReadBack(chunks);
    ReadFramed(length, body, rest, chunks);
  }

  // ---- Where the bytes lie ----

  lemma {:induction false} BytesAround(chunks: seq<Chunk>, k: nat)
    requires AllWritable(chunks) && k < |chunks|
    ensures AllWritable(chunks[..k]) && AllWritable(chunks[k + 1..]) && Writable(chunks[k])
    ensures AllBytes(chunks) == AllBytes(chunks[..k]) + (ChunkBytes(chunks[k]) + AllBytes(chunks[k + 1..]))
  {
    if k == 0 {
    } else {
      BytesAround(chunks[1..], k - 1);
      assert chunks[1..][..k - 1] == chunks[..k][1..] && chunks[1..][k..] == chunks[k + 1..];
      Regroup(ChunkBytes(chunks[0]), AllBytes(chunks[1..k]), ChunkBytes(chunks[k]) + AllBytes(chunks[k + 1..]));
    }
  }

  lemma SlicesAfter(front: bytes, tag: bytes, len: bytes, body: bytes, rest: bytes, file: bytes)
    requires |tag| == |len| == 4 && file == front + (tag + len + body + rest)
    ensures var at := |front|;
            && at + 8 + |body| <= |file|
            && file[at..at + 4] == tag && file[at + 4..at + 8] == len && file[at + 8..at + 8 + |body|] == body
  {
    HeaderSlices(tag, len, body, rest);
    var s := tag + len + body + rest;
    assert file[|front|..] == s;
    assert file[|front|..][..4] == file[|front|..|front| + 4];
    assert file[|front|..][4..8] == file[|front| + 4..|front| + 8];
    assert file[|front|..][8..8 + |body|] == file[|front| + 8..|front| + 8 + |body|];
  }

  /** A tag, a length field and a body lie at this offset of the file. */
  ghost predicate LiesAt(file: bytes, at: nat, tag: bytes, len: bytes, body: bytes) {
    && at + 8 + |body| <= |file|
    && file[at..at + 4] == tag && file[at + 4..at + 8] == len && file[at + 8..at + 8 + |body|] == body
  }

  lemma FileSlices(head: bytes, before: bytes, tag: bytes, len: bytes, body: bytes, after: bytes, file: bytes, at: nat)
    requires |tag| == |len| == 4 && at == |head| + |before|
    requires file == head + (before + ((tag + len + body) + after))
    ensures LiesAt(file, at, tag, len, body)
  {
    Regroup(head, before, (tag + len + body) + after);
    SlicesAfter(head + before, tag, len, body, after, file);
  }

  /** The file around chunk k. */
  lemma FileAround(chunks: seq<Chunk>, k: nat) returns (head: bytes, before: bytes, after: bytes)
    requires AllWritable(chunks) && 8 + TotalSize(chunks) < LIMIT && k < |chunks|
    ensures Writable(chunks[k]) && |head| == 8 && |before| == TotalSize(chunks[..k])
    ensures FileBytes(chunks) == head + (before + (ChunkBytes(chunks[k]) + after))
  {
    BytesAround(chunks, k);
    head, before, after := ICNS + BigEndian(TotalSize(chunks) + 8), AllBytes(chunks[..k]), AllBytes(chunks[k + 1..]);
  }

  lemma HeadSlices(mark: bytes, len: bytes, rest: bytes)
    requires |mark| == |len| == 4
    ensures (mark + len + rest)[..4] == mark && (mark + len + rest)[4..8] == len
  {
  }

  /** The file begins with "icns" and its own length, and nothing follows the chunks. */
  lemma HeadLies(chunks: seq<Chunk>)
    requires AllWritable(chunks) && 8 + TotalSize(chunks) < LIMIT
    ensures var file := FileBytes(chunks);
            |file| == 8 + TotalSize(chunks) && file[..4] == [0x69, 0x63, 0x6E, 0x73] && file[4..8] == BigEndian(|file|)
  {
    var length, body := FileParts(chunks);
    HeadSlices(ICNS, length, body);
  }

  /** Chunk k lies behind the earlier ones: its tag, its length with the eight bytes of its header, its body. */
  lemma ChunkLies(chunks: seq<Chunk>, k: nat)
    requires AllWritable(chunks) && 8 + TotalSize(chunks) < LIMIT && k < |chunks|
    ensures var c := chunks[k];
            && 8 + |c.body| < LIMIT
            && LiesAt(FileBytes(chunks), 8 + TotalSize(chunks[..k]), c.tag, BigEndian(8 + |c.body|), c.body)
  {
    var c := chunks[k];
    var head, before, after := FileAround(chunks, k);
    FileSlices(head, before, c.tag, BigEndian(8 + |c.body|), c.body, after, FileBytes(chunks),
               8 + TotalSize(chunks[..k]));
  }

  /** An ARGB body decodes to the four planes of the image and nothing more. */
  lemma ArgbBodyDecodes(p: Planes)
    requires |p.r| == |p.g| == |p.b| == |p.a|
    ensures var body := ARGB + EncodePlanes(p);
            body[..4] == ARGB && DecodePlanes(body[4..], |p.a|) == Some((p, []))
  {
    var planes := EncodePlanes(p);
    FourPlanes(p, |p.a|, []);
    assert (ARGB + planes)[4..] == planes;
    assert planes + [] == planes;
  }

  /** The tags in order: "ic" and these two digits. */
  const DIGITS := ["04", "05", "07", "08", "09", "10", "11", "12", "13", "14"]

  const SIZES: seq<nat> := [16, 32, 128, 256, 512, 1024, 32, 64, 256, 512]

  lemma SlotsAre(k: nat)
    requires k < |SLOTS|
    ensures |SLOTS| == |DIGITS| == |SIZES| == 10
    ensures SLOTS[k].tag == [0x69, 0x63, DIGITS[k][0] as byte, DIGITS[k][1] as byte] && SLOTS[k].size == SIZES[k]
    ensures IsArgb(SLOTS[k].tag) <==> k < 2
  {
  }

  /** The whole pipeline: reading a written file gives ten chunks in order and stops at its end; chunk k is
      tagged "ic" and the digits of slot k. The first two hold "ARGB" and planes that decode to those of the
      image of their size, the other eight the PNG file of theirs. */
  lemma IconReadsBack(reps: map<nat, Rep>, k: nat, rest: bytes)
    requires Fits(SLOTS, reps, EncodePlanes) && k < 10
    requires assert SLOTS[k].size == SIZES[k]; var p := reps[SIZES[k]].pixels; |p.r| == |p.g| == |p.b| == |p.a|
    ensures FourByteTags(SLOTS)
    ensures var rep := reps[SIZES[k]];
            var chunks := ChunksOf(SLOTS, 10, reps, EncodePlanes);
            && ReadIcns(FileOf(SLOTS, reps, EncodePlanes) + rest) == Some((chunks, rest))
            && chunks[k].tag == [0x69, 0x63, DIGITS[k][0] as byte, DIGITS[k][1] as byte]
            && if k < 2
               then |chunks[k].body| >= 4
                    && chunks[k].body[..4] == [0x41, 0x52, 0x47, 0x42]
                    && DecodePlanes(chunks[k].body[4..], |rep.pixels.a|) == Some((rep.pixels, []))
               else chunks[k].body == rep.png
  {
    SlotTagsAreFourBytes();
    SlotsAre(k);
    ChunksAreWritable(SLOTS, |SLOTS|, reps, EncodePlanes);
    FileReadsBack(ChunksOf(SLOTS, |SLOTS|, reps, EncodePlanes), rest);
    ChunkAt(SLOTS, |SLOTS|, reps, EncodePlanes, k);
    ArgbBodyDecodes(reps[SIZES[k]].pixels);
  }
}
