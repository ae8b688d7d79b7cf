/** The .icns container (`BuildIcns`): chunks of big-endian length, one or two for each known icon size. */
module IcnsFile {
  import opened Wrappers
  import opened ResourceBytes
  import opened AppInfo

  datatype Chunk = Chunk(kind: Bytes, payload: Bytes)

  /** A size and the chunk types it is stored under. */
  datatype IconSlot = IconSlot(size: nat, kinds: seq<Bytes>)

  const MAGIC := Ascii("icns")

  const SLOTS: seq<IconSlot> :=
    [IconSlot(16, [Ascii("icp4")]), IconSlot(32, [Ascii("icp5"), Ascii("ic11")]), IconSlot(64, [Ascii("ic12")]),
     IconSlot(128, [Ascii("ic07")]), IconSlot(256, [Ascii("ic08"), Ascii("ic13")]),
     IconSlot(512, [Ascii("ic09"), Ascii("ic14")]), IconSlot(1024, [Ascii("ic10")])]

  function U32Be(v: nat): (r: Bytes)
    ensures |r| == 4
  {
    [v / 0x100 / 0x100 / 0x100 % 0x100, v / 0x100 / 0x100 % 0x100, v / 0x100 % 0x100, v % 0x100]
  }

  function U32BeAt(s: Bytes): (r: nat)
    requires |s| >= 4
    ensures r < 0x1_0000_0000
  {
    U32At([s[3], s[2], s[1], s[0]], 0)
  }

  lemma NextBe(v: nat, rest: Bytes)
    ensures U32BeAt(U32Be(v) + rest) == v % 0x1_0000_0000 && (U32Be(v) + rest)[4..] == rest
  {
    var s := U32Be(v) + rest;
    assert [s[3], s[2], s[1], s[0]] == U32(v);
    hide U32At;
    U32RoundTrip(v);
  }

  // ---------------------------------------------------------------------------------------------
  // The format and its reader
  // ---------------------------------------------------------------------------------------------

  function ChunkBytes(c: Chunk, rest: Bytes): Bytes {
    c.kind + (U32Be(|c.payload| + 8) + (c.payload + rest))
  }

  function ChunksBytes(chunks: seq<Chunk>): Bytes {
    if chunks == [] then [] else ChunkBytes(chunks[0], ChunksBytes(chunks[1..]))
  }

  /** The first image of a width, if any. */
  function FirstOfWidth(icons: seq<IconImage>, width: nat): Option<IconImage> {
    if icons == [] then None else if icons[0].width == width then Some(icons[0]) else FirstOfWidth(icons[1..], width)
  }

  function KindChunks(kinds: seq<Bytes>, payload: Bytes): seq<Chunk> {
    if kinds == [] then [] else [Chunk(kinds[0], payload)] + KindChunks(kinds[1..], payload)
  }

  function SlotChunks(icons: seq<IconImage>, slot: IconSlot): seq<Chunk> {
    var image := FirstOfWidth(icons, slot.size);
    if image.None? then [] else KindChunks(slot.kinds, image.value.bytes)
  }

  function Chunks(icons: seq<IconImage>, slots: seq<IconSlot>): seq<Chunk> {
    if slots == [] then [] else SlotChunks(icons, slots[0]) + Chunks(icons, slots[1..])
  }

  function Container(chunks: seq<Chunk>): Bytes {
    if chunks == [] then [] else MAGIC + (U32Be(|ChunksBytes(chunks)| + 8) + ChunksBytes(chunks))
  }

  function ReadChunks(s: Bytes): Option<seq<Chunk>>
    decreases |s|
  {
    if s == [] then Some([])
    else if |s| < 8 then None
    else
      var size := U32BeAt(s[4..]);
      var body := s[4..][4..];
      if size < 8 || size - 8 > |body| then None
      else
        var others := ReadChunks(body[size - 8..]);
        if others.None? then None else Some([Chunk(s[..4], body[..size - 8])] + others.value)
  }

  /** The chunks of a container whose length field is its own length. */
  function ReadIcns(s: Bytes): Option<seq<Chunk>> {
    if |s| < 8 || s[..4] != MAGIC || U32BeAt(s[4..]) != |s| then None else ReadChunks(s[4..][4..])
  }

  ghost predicate FourByteKinds(chunks: seq<Chunk>) {
    forall c | c in chunks :: |c.kind| == 4
  }

  lemma ChunkLength(c: Chunk, rest: Bytes)
    ensures |ChunkBytes(c, rest)| == |c.kind| + 4 + |c.payload| + |rest|
  {}

  lemma ReadsChunk(c: Chunk, rest: Bytes, s: Bytes)
    requires s == ChunkBytes(c, rest) && |c.kind| == 4 && |s| < 0x1_0000_0000
    ensures |s| >= 8 && s[..4] == c.kind && U32BeAt(s[4..]) == |c.payload| + 8
    ensures var body := s[4..][4..];
      |c.payload| <= |body| && body[..|c.payload|] == c.payload && body[|c.payload|..] == rest
  {
    hide U32Be, U32BeAt;
    NextBe(|c.payload| + 8, c.payload + rest);
    assert s[..4] == c.kind && s[4..] == U32Be(|c.payload| + 8) + (c.payload + rest);
    assert (c.payload + rest)[..|c.payload|] == c.payload && (c.payload + rest)[|c.payload|..] == rest;
  }

  lemma {:induction false} ReadsChunks(chunks: seq<Chunk>)
    requires FourByteKinds(chunks) && |ChunksBytes(chunks)| < 0x1_0000_0000
    ensures ReadChunks(ChunksBytes(chunks)) == Some(chunks)
  {
    hide U32Be, U32BeAt, ChunkBytes;
    if chunks != [] {
      var c, rest := chunks[0], ChunksBytes(chunks[1..]);
      assert c in chunks && forall x | x in chunks[1..] :: x in chunks;
      ChunkLength(c, rest);
      ReadsChunks(chunks[1..]);
      ReadsChunk(c, rest, ChunkBytes(c, rest));
      assert chunks == [c] + chunks[1..];
    }
  }

  /** Reading a container back gives exactly its chunks. */
  lemma ReadsIcns(chunks: seq<Chunk>)
    requires chunks != [] && FourByteKinds(chunks) && |ChunksBytes(chunks)| + 8 < 0x1_0000_0000
    ensures ReadIcns(Container(chunks)) == Some(chunks)
  {
    hide U32Be, U32BeAt, ReadChunks, ChunksBytes, Ascii;
    var body, s := ChunksBytes(chunks), Container(chunks);
    ReadsChunks(chunks);
    NextBe(|body| + 8, body);
    assert s[..4] == MAGIC && s[4..] == U32Be(|body| + 8) + body;
  }

  lemma {:induction false} KindChunksHave(kinds: seq<Bytes>, payload: Bytes, c: Chunk)
    ensures c in KindChunks(kinds, payload) <==> c.kind in kinds && c.payload == payload
  {
    if kinds != [] { KindChunksHave(kinds[1..], payload, c); }
  }

  /** A chunk is there exactly for a slot's types and the first image of that slot's size. */
  lemma {:induction false} ChunksHave(icons: seq<IconImage>, slots: seq<IconSlot>, c: Chunk)
    ensures c in Chunks(icons, slots) <==>
      exists slot :: slot in slots && c.kind in slot.kinds && FirstOfWidth(icons, slot.size).Some? &&
                     c.payload == FirstOfWidth(icons, slot.size).value.bytes
  {
    hide FirstOfWidth;
    if slots != [] {
      ChunksHave(icons, slots[1..], c);
      var image := FirstOfWidth(icons, slots[0].size);
      if image.Some? { KindChunksHave(slots[0].kinds, image.value.bytes, c); }
    }
  }

  lemma SlotKindsAreFourBytes(icons: seq<IconImage>)
    ensures FourByteKinds(Chunks(icons, SLOTS))
  {
    assert forall slot, kind | slot in SLOTS && kind in slot.kinds :: |kind| == 4;
    hide Chunks, Ascii;
    forall c | c in Chunks(icons, SLOTS)
      ensures |c.kind| == 4
    {
      ChunksHave(icons, SLOTS, c);
    }
  }

  // ---------------------------------------------------------------------------------------------
  // The writer
  // ---------------------------------------------------------------------------------------------

  lemma {:induction false} ChunksBytesAcross(a: seq<Chunk>, b: seq<Chunk>)
    ensures ChunksBytes(a + b) == ChunksBytes(a) + ChunksBytes(b)
    decreases |a|
  {
    hide ChunkBytes;
    if a == [] {
      assert a + b == b && [] + ChunksBytes(b) == ChunksBytes(b);
    } else {
      ChunksBytesAcross(a[1..], b);
      assert (a + b)[1..] == a[1..] + b && (a + b)[0] == a[0];
      ChunkThenMore(a[0], ChunksBytes(a[1..]), ChunksBytes(b));
    }
  }

  lemma ChunkThenMore(c: Chunk, rest: Bytes, more: Bytes)
    ensures ChunkBytes(c, rest + more) == ChunkBytes(c, rest) + more
  {
    hide U32Be;
    var x := U32Be(|c.payload| + 8);
    assert c.kind + (x + (c.payload + (rest + more))) == c.kind + (x + (c.payload + rest)) + more;
  }

  function Icns(info: AppInfoData): Bytes {
    match info.iconKind
    case Icns => if info.icons == [] then [] else info.icons[0].bytes
    case Ico => []
    case NoIcon => []
    case PngSet => Container(Chunks(info.icons, SLOTS))
  }

  lemma NonEmptyBody(chunks: seq<Chunk>)
    requires FourByteKinds(chunks)
    ensures ChunksBytes(chunks) == [] <==> chunks == []
  {}

  method FindImage(icons: seq<IconImage>, width: nat) returns (image: Option<IconImage>)
    ensures image == FirstOfWidth(icons, width)
  {
    for i := 0 to |icons|
      invariant FirstOfWidth(icons, width) == FirstOfWidth(icons[i..], width)
    {
      if icons[i].width == width { return Some(icons[i]); }
      assert icons[i..][1..] == icons[i + 1..];
    }
    image := None;
  }

  lemma {:induction false} KindChunksOfLast(kinds: seq<Bytes>, kind: Bytes, payload: Bytes)
    ensures KindChunks(kinds + [kind], payload) == KindChunks(kinds, payload) + [Chunk(kind, payload)]
  {
    if kinds == [] {
      assert kinds + [kind] == [kind] && [kind][1..] == [];
    } else {
      KindChunksOfLast(kinds[1..], kind, payload);
      assert (kinds + [kind])[1..] == kinds[1..] + [kind];
    }
  }

  /** One image under every type of its slot; `done` are the chunks already there. */
  method PushKinds(body0: Bytes, kinds: seq<Bytes>, payload: Bytes, ghost done: seq<Chunk>) returns (body: Bytes)
    requires body0 == ChunksBytes(done)
    ensures body == ChunksBytes(done + KindChunks(kinds, payload))
  {
    hide ChunksBytes, U32Be;
    body := body0;
    assert kinds[..0] == [] && done + KindChunks(kinds[..0], payload) == done;
    for j := 0 to |kinds|
      invariant body == ChunksBytes(done + KindChunks(kinds[..j], payload))
    {
      ghost var before, c := done + KindChunks(kinds[..j], payload), Chunk(kinds[j], payload);
      KindChunksOfLast(kinds[..j], kinds[j], payload);
      assert kinds[..j + 1] == kinds[..j] + [kinds[j]];
      assert before + [c] == done + KindChunks(kinds[..j + 1], payload);
      ChunksBytesAcross(before, [c]);
      OneChunk(c);
      body := body + kinds[j];
      body := body + U32Be(|payload| + 8);
      body := body + payload;
    }
    assert kinds[..|kinds|] == kinds;
  }

  lemma OneChunk(c: Chunk)
    ensures ChunksBytes([c]) == c.kind + (U32Be(|c.payload| + 8) + c.payload)
  {
    assert ChunksBytes([c][1..]) == [] && c.payload + [] == c.payload;
  }

  /** Slot by slot; an absent size is not emitted. */
  method PushSlots(icons: seq<IconImage>, slots: seq<IconSlot>) returns (body: Bytes)
    ensures body == ChunksBytes(Chunks(icons, slots))
  {
    hide ChunksBytes, FirstOfWidth, KindChunks;
    body := [];
    ghost var done: seq<Chunk> := [];
    NoChunks();
    assert slots[0..] == slots;
    for i := 0 to |slots|
      invariant body == ChunksBytes(done) && Chunks(icons, slots) == done + Chunks(icons, slots[i..])
    {
      assert slots[i..][1..] == slots[i + 1..];
      var image := FindImage(icons, slots[i].size);
      if image.Some? {
        body := PushKinds(body, slots[i].kinds, image.value.bytes, done);
      }
      assert done + [] == done;
      done := done + SlotChunks(icons, slots[i]);
    }
    assert done + [] == done;
  }

  lemma NoChunks()
    ensures ChunksBytes([]) == []
  {}

  /** A user's .icns verbatim, or the container made from a set of images. */
  method BuildIcns(info: AppInfoData) returns (out: Bytes)
    ensures out == Icns(info)
  {
    hide Ascii, ChunksBytes, U32Be, Chunks;
    if info.iconKind == IconKind.Icns {
      return if info.icons == [] then [] else info.icons[0].bytes;
    }
    if info.iconKind == Ico || info.iconKind == NoIcon { return []; }
    var body := PushSlots(info.icons, SLOTS);
    SlotKindsAreFourBytes(info.icons);
    NonEmptyBody(Chunks(info.icons, SLOTS));
    if body == [] { return []; }
    out := MAGIC;
    out := out + U32Be(|body| + 8);
    out := out + body;
    Associate(MAGIC, U32Be(|body| + 8), body);
  }

  /**
   A set of images with a known size among them reads back as its chunks iff its length fits the length
   field; one without gives nothing.
   */
  lemma IcnsReadsBack(info: AppInfoData)
    requires info.iconKind == PngSet
    ensures if Chunks(info.icons, SLOTS) == [] then Icns(info) == []
            else ReadIcns(Icns(info)) == Some(Chunks(info.icons, SLOTS)) <==> |Icns(info)| < 0x1_0000_0000
  {
    hide Chunks, ChunksBytes, ReadChunks, U32BeAt;
    SlotKindsAreFourBytes(info.icons);
    if Chunks(info.icons, SLOTS) != [] && |Icns(info)| < 0x1_0000_0000 {
      ReadsIcns(Chunks(info.icons, SLOTS));
    }
  }
}
