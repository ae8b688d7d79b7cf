/**
 Version-resource blocks: nested, length-prefixed, four-byte aligned, their length patched in once the
 children are known (`VersionBlock`); and an independent reader of that format.
 */
module VersionBlocks {
  import opened Utf16
  import opened ResourceBytes

  /** A block: a NUL-terminated key, a value counted in bytes (binary) or in units (text), and child blocks. */
  datatype Block = Block(key: seq<Unit>, text: bool, value: Bytes, children: seq<Block>)

  const LIMIT: nat := 0xFFFF

  function ValueLength(b: Block): nat {
    if b.text then |b.value| / 2 else |b.value|
  }

  // ---------------------------------------------------------------------------------------------
  // The format
  // ---------------------------------------------------------------------------------------------

  /** The six-byte prologue with its length left at zero, the key, and the padding after it. */
  function Prologue(key: seq<Unit>, valueLength: nat, text: bool): Bytes {
    Pad4(U16(0) + U16(valueLength) + U16(if text then 1 else 0) + (UnitBytes(key) + U16(0)))
  }

  function Patch(raw: Bytes): (r: Bytes)
    requires |raw| >= 2
    ensures |r| == |raw| && r[2..] == raw[2..]
  {
    U16(|raw|) + raw[2..]
  }

  function Append(bytes: Bytes, child: Bytes): Bytes {
    Pad4(bytes) + child
  }

  function AppendAll(bytes: Bytes, children: seq<Block>): (r: Bytes)
    ensures |r| >= |bytes| && r[..|bytes|] == bytes
    decreases children, 0
  {
    if children == [] then bytes
    else
      var r := AppendAll(Append(bytes, BlockBytes(children[0])), children[1..]);
      assert r[..|bytes|] == r[..|Append(bytes, BlockBytes(children[0]))|][..|bytes|] == bytes;
      r
  }

  function Raw(b: Block): (r: Bytes)
    ensures |r| >= 8
    decreases b, 0
  {
    AppendAll(Prologue(b.key, ValueLength(b), b.text) + b.value, b.children)
  }

  function BlockBytes(b: Block): (r: Bytes)
    ensures |r| >= 8
    decreases b, 1
  {
    Patch(Raw(b))
  }

  /** Every length fits its sixteen bits, here and below. */
  predicate Fits(b: Block)
    decreases b, 1
  {
    ValueLength(b) <= LIMIT && |BlockBytes(b)| <= LIMIT && AllFit(b.children)
  }

  predicate AllFit(children: seq<Block>)
    decreases children, 0
  {
    children == [] || (Fits(children[0]) && AllFit(children[1..]))
  }

  /** Keys hold no NUL, and a text value is a whole number of units. */
  predicate WellFormedBlock(b: Block)
    decreases b, 1
  {
    0 !in b.key && (b.text ==> |b.value| % 2 == 0) && AllWellFormed(b.children)
  }

  predicate AllWellFormed(children: seq<Block>)
    decreases children, 0
  {
    children == [] || (WellFormedBlock(children[0]) && AllWellFormed(children[1..]))
  }

  // ---------------------------------------------------------------------------------------------
  // The reader
  // ---------------------------------------------------------------------------------------------

  datatype Parsed = Malformed | Parsed(blocks: seq<Block>)

  /** A block's key and kind, and where its value lies. */
  datatype Header = Header(good: bool, key: seq<Unit>, text: bool, at: nat, end: nat)

  const NO_HEADER := Header(false, [], false, 0, 0)

  /** The prologue of a block that takes all of s. */
  function ReadHeader(s: Bytes): (h: Header)
    ensures h.good ==> 8 <= h.at <= h.end <= |s|
  {
    if |s| < 6 || U16At(s, 0) != |s| || U16At(s, 4) > 1 then NO_HEADER
    else
      var text := U16At(s, 4) == 1;
      var size := if text then 2 * U16At(s, 2) else U16At(s, 2);
      var key := ReadUnits(s[6..]);
      if key.NoKey? || Align4(6 + key.taken) + size > |s| then NO_HEADER
      else Header(true, key.units, text, Align4(6 + key.taken), Align4(6 + key.taken) + size)
  }

  /** Reads one block that takes all of s. */
  function ReadBlock(s: Bytes): Parsed
    decreases |s|, 0
  {
    var h := ReadHeader(s);
    if !h.good then Malformed
    else if h.end == |s| then Parsed([Block(h.key, h.text, s[h.at..], [])])
    else if Align4(h.end) >= |s| then Malformed
    else
      var children := ReadBlocks(s[Align4(h.end)..]);
      if children.Malformed? then Malformed
      else Parsed([Block(h.key, h.text, s[h.at..h.end], children.blocks)])
  }

  /** Reads the blocks s is made of: each lies inside s, after the one before it and its padding. */
  function ReadBlocks(s: Bytes): Parsed
    decreases |s|, 1
  {
    if |s| < 2 || U16At(s, 0) < 6 || U16At(s, 0) > |s| then Malformed
    else
      var n := U16At(s, 0);
      var first := ReadBlock(s[..n]);
      if first.Malformed? then Malformed
      else if n == |s| then first
      else if Align4(n) >= |s| then Malformed
      else
        var rest := ReadBlocks(s[Align4(n)..]);
        if rest.Malformed? then Malformed else Parsed(first.blocks + rest.blocks)
  }

  // ---------------------------------------------------------------------------------------------
  // The reader undoes the format
  // ---------------------------------------------------------------------------------------------

  /** Sibling blocks, each padded before the next. */
  function Siblings(children: seq<Block>): Bytes
    requires children != []
  {
    if |children| == 1 then BlockBytes(children[0])
    else Pad4(BlockBytes(children[0])) + Siblings(children[1..])
  }

  lemma {:induction false} AppendAllIsSiblings(bytes: Bytes, children: seq<Block>)
    requires children != []
    ensures AppendAll(bytes, children) == Pad4(bytes) + Siblings(children)
    decreases |children|
  {
    var first := BlockBytes(children[0]);
    if |children| == 1 {
      assert children[1..] == [];
    } else {
      AppendAllIsSiblings(Append(bytes, first), children[1..]);
      PadAfterAligned(Pad4(bytes), first);
    }
  }

  function Words(key: seq<Unit>, valueLength: nat, text: bool): Bytes {
    U16(0) + U16(valueLength) + U16(if text then 1 else 0) + (UnitBytes(key) + U16(0))
  }

  lemma ReadsPrologue(key: seq<Unit>, valueLength: nat, text: bool, rest: Bytes)
    requires 0 !in key && valueLength <= LIMIT
    ensures var s := Prologue(key, valueLength, text) + rest;
      && |s| >= 8 && U16At(s, 2) == valueLength && U16At(s, 4) == (if text then 1 else 0)
      && ReadUnits(s[6..]) == Key(key, 2 * |key| + 2)
      && |Prologue(key, valueLength, text)| == Align4(6 + (2 * |key| + 2))
  {
    var kind := if text then 1 else 0;
    var words := Words(key, valueLength, text);
    var pad := Zeros(Align4(|words|) - |words|);
    var s := Prologue(key, valueLength, text) + rest;
    var tail := pad + rest;
    assert s == words + tail;
    U16AtIn(U16(0), valueLength, U16(kind) + (UnitBytes(key) + U16(0)) + tail);
    assert s == U16(0) + U16(valueLength) + (U16(kind) + (UnitBytes(key) + U16(0)) + tail);
    U16AtIn(U16(0) + U16(valueLength), kind, UnitBytes(key) + U16(0) + tail);
    assert s == U16(0) + U16(valueLength) + U16(kind) + (UnitBytes(key) + U16(0) + tail);
    assert s[6..] == UnitBytes(key) + U16(0) + tail;
    ReadsUnits(key, tail);
  }

  lemma PatchKeepsTail(raw: Bytes)
    requires 8 <= |raw| <= LIMIT
    ensures var s := Patch(raw);
      && U16At(s, 0) == |s| && U16At(s, 2) == U16At(raw, 2) && U16At(s, 4) == U16At(raw, 4)
      && forall i | 2 <= i <= |raw| :: s[i..] == raw[i..]
  {
    var s := Patch(raw);
    U16RoundTrip(|raw|);
    assert s[0] == U16(|raw|)[0] && s[1] == U16(|raw|)[1];
    assert forall i | 2 <= i < |raw| :: s[i] == s[2..][i - 2] == raw[2..][i - 2] == raw[i];
    forall i | 2 <= i <= |raw|
      ensures s[i..] == raw[i..]
    {
      assert s[i..] == s[2..][i - 2..] && raw[i..] == raw[2..][i - 2..];
    }
  }

  lemma BlockStarts(b: Block, rest: Bytes)
    requires Fits(b) && 0 !in b.key && (b.text ==> |b.value| % 2 == 0)
    requires Raw(b) == Prologue(b.key, ValueLength(b), b.text) + rest && |b.value| <= |rest|
    ensures var at := |Prologue(b.key, ValueLength(b), b.text)|;
      ReadHeader(BlockBytes(b)) == Header(true, b.key, b.text, at, at + |b.value|)
    ensures forall i | 2 <= i <= |Raw(b)| :: BlockBytes(b)[i..] == Raw(b)[i..]
  {
    ReadsPrologue(b.key, ValueLength(b), b.text, rest);
    PatchKeepsTail(Raw(b));
  }

  lemma ReadsLeaf(b: Block)
    requires Fits(b) && WellFormedBlock(b) && b.children == []
    ensures ReadBlock(BlockBytes(b)) == Parsed([b])
  {
    var prologue := Prologue(b.key, ValueLength(b), b.text);
    BlockStarts(b, b.value);
    assert Raw(b)[|prologue|..] == b.value;
  }

  /** What the reader makes of a header, a value, and siblings after it. */
  lemma ReadsFrom(s: Bytes, b: Block, at: nat, tail: Bytes)
    requires ReadHeader(s) == Header(true, b.key, b.text, at, at + |b.value|)
    requires Align4(at + |b.value|) < |s| && tail == s[Align4(at + |b.value|)..]
    requires s[at..at + |b.value|] == b.value && ReadBlocks(tail) == Parsed(b.children)
    ensures ReadBlock(s) == Parsed([b])
  {
    hide ReadHeader, Align4, ReadBlocks, U16At, ReadUnits;
    assert b == Block(b.key, b.text, b.value, b.children);
  }

  lemma ReadsParent(b: Block, siblings: Bytes)
    requires Fits(b) && WellFormedBlock(b) && b.children != [] && siblings == Siblings(b.children)
    requires ReadBlocks(siblings) == Parsed(b.children)
    ensures ReadBlock(BlockBytes(b)) == Parsed([b])
  {
    hide ReadHeader, ReadBlock, ReadBlocks, BlockBytes, Raw, Siblings, Prologue, Fits;
    var prologue := Prologue(b.key, ValueLength(b), b.text);
    ParentShape(b, prologue, siblings);
    ParentStarts(b, prologue, Pad4(prologue + b.value), siblings);
    ReadsFrom(BlockBytes(b), b, |prologue|, siblings);
  }

  lemma ParentShape(b: Block, prologue: Bytes, siblings: Bytes)
    requires b.children != [] && siblings == Siblings(b.children)
    requires prologue == Prologue(b.key, ValueLength(b), b.text)
    ensures Raw(b) == Pad4(prologue + b.value) + siblings && |siblings| >= 8
  {
    AppendAllIsSiblings(prologue + b.value, b.children);
    SiblingsNotEmpty(b.children);
  }

  lemma ParentStarts(b: Block, prologue: Bytes, padded: Bytes, siblings: Bytes)
    requires Fits(b) && 0 !in b.key && (b.text ==> |b.value| % 2 == 0) && |siblings| >= 8
    requires prologue == Prologue(b.key, ValueLength(b), b.text) && padded == Pad4(prologue + b.value)
    requires Raw(b) == padded + siblings
    ensures var s, at := BlockBytes(b), |prologue|;
      && ReadHeader(s) == Header(true, b.key, b.text, at, at + |b.value|)
      && Align4(at + |b.value|) < |s| && s[Align4(at + |b.value|)..] == siblings
      && s[at..at + |b.value|] == b.value
  {
    var s, raw, at := BlockBytes(b), Raw(b), |prologue|;
    ValueThenSiblings(b, prologue, padded, siblings, raw);
    BlockStarts(b, padded[at..] + siblings);
    TailsAgree(s, raw, at);
    TailsAgree(s, raw, |padded|);
    SliceOfTail(s, raw, at, |b.value|);
  }

  lemma TailsAgree(s: Bytes, raw: Bytes, at: nat)
    requires |s| == |raw| && 2 <= at <= |raw|
    requires forall i | 2 <= i <= |raw| :: s[i..] == raw[i..]
    ensures s[at..] == raw[at..]
  {}

  lemma ValueThenSiblings(b: Block, prologue: Bytes, padded: Bytes, siblings: Bytes, raw: Bytes)
    requires padded == Pad4(prologue + b.value) && raw == padded + siblings
    ensures |padded| >= |prologue + b.value| && raw == prologue + (padded[|prologue|..] + siblings)
    ensures raw[|prologue|..|prologue| + |b.value|] == b.value && raw[|padded|..] == siblings
  {
    assert padded[..|prologue + b.value|] == prologue + b.value;
    assert padded == prologue + padded[|prologue|..];
  }

  lemma SiblingsNotEmpty(children: seq<Block>)
    requires children != []
    ensures |Siblings(children)| >= 8
  {}

  lemma SliceOfTail(s: Bytes, raw: Bytes, at: nat, n: nat)
    requires |s| == |raw| && at + n <= |raw| && s[at..] == raw[at..]
    ensures s[at..at + n] == raw[at..at + n]
  {
    assert s[at..at + n] == s[at..][..n] && raw[at..at + n] == raw[at..][..n];
  }

  lemma {:induction false} ReadsBlock(b: Block)
    requires Fits(b) && WellFormedBlock(b)
    ensures ReadBlock(BlockBytes(b)) == Parsed([b])
    decreases b, 1
  {
    if b.children == [] {
      ReadsLeaf(b);
    } else {
      ReadsSiblings(b.children);
      ReadsParent(b, Siblings(b.children));
    }
  }

  lemma {:induction false} ReadsSiblings(children: seq<Block>)
    requires children != [] && AllFit(children) && AllWellFormed(children)
    ensures ReadBlocks(Siblings(children)) == Parsed(children)
    decreases children, 0
  {
    hide ReadBlock, BlockBytes, U16At, Align4;
    ReadsBlock(children[0]);
    FirstSibling(children);
    if |children| == 1 {
      assert children == [children[0]];
      assert Siblings(children)[..|Siblings(children)|] == Siblings(children);
    } else {
      ReadsSiblings(children[1..]);
      assert children == [children[0]] + children[1..];
    }
  }

  /** The first sibling starts with its own length, and the next one after its padding. */
  lemma FirstSibling(children: seq<Block>)
    requires children != [] && AllFit(children)
    ensures var first, s := BlockBytes(children[0]), Siblings(children);
      && 6 <= |first| <= |s| && s[..|first|] == first && U16At(s, 0) == |first|
      && if |children| == 1 then s == first
         else |first| <= Align4(|first|) < |s| && |first| < |s| && s[Align4(|first|)..] == Siblings(children[1..])
  {
    var first, s := BlockBytes(children[0]), Siblings(children);
    PatchKeepsTail(Raw(children[0]));
    assert s[..|first|] == first;
    if |children| > 1 {
      SiblingsNotEmpty(children[1..]);
    }
  }

  // ---------------------------------------------------------------------------------------------
  // The writer
  // ---------------------------------------------------------------------------------------------

  lemma {:induction false} AppendAllOfLast(bytes: Bytes, children: seq<Block>, last: Block)
    ensures AppendAll(bytes, children + [last]) == Append(AppendAll(bytes, children), BlockBytes(last))
    ensures AllFit(children + [last]) <==> AllFit(children) && Fits(last)
    decreases |children|
  {
    if children == [] {
      assert children + [last] == [last] && [last][1..] == [];
    } else {
      AppendAllOfLast(Append(bytes, BlockBytes(children[0])), children[1..], last);
      assert (children + [last])[1..] == children[1..] + [last];
    }
  }

  /** A block fits iff its own length does: no inner length is larger. */
  lemma {:induction false} FitsIffLengthFits(b: Block)
    ensures Fits(b) <==> |BlockBytes(b)| <= LIMIT
    decreases b, 1
  {
    var front := Prologue(b.key, ValueLength(b), b.text) + b.value;
    AllFitIfLengthFits(front, b.children);
  }

  lemma {:induction false} AllFitIfLengthFits(bytes: Bytes, children: seq<Block>)
    ensures |AppendAll(bytes, children)| <= LIMIT ==> AllFit(children)
    decreases children, 0
  {
    if children != [] {
      FitsIffLengthFits(children[0]);
      AllFitIfLengthFits(Append(bytes, BlockBytes(children[0])), children[1..]);
    }
  }

  /**
   A block under construction at the end of `base`, its children so far those of b: the bytes always
   have the right length, and they are the right ones unless a length did not fit.
   */
  ghost predicate Building(bytes: Bytes, failed: bool, base: Bytes, failed0: bool, b: Block) {
    && |base| % 4 == 0 && |bytes| == |base| + |Raw(b)|
    && (failed <==> failed0 || ValueLength(b) > LIMIT || !AllFit(b.children))
    && (!failed ==> bytes == base + Raw(b))
  }

  /** A finished block at the end of `base`. */
  ghost predicate Written(bytes: Bytes, failed: bool, base: Bytes, failed0: bool, b: Block) {
    && |base| % 4 == 0 && |bytes| == |base| + |BlockBytes(b)|
    && (failed <==> failed0 || !Fits(b))
    && (!failed ==> bytes == base + BlockBytes(b))
  }

  function DeclaredLength(n: nat): nat {
    if n > LIMIT then 0 else n
  }

  lemma Opened(bytes: Bytes, failed: bool, base: Bytes, failed0: bool, b: Block)
    requires |base| % 4 == 0 && b.children == []
    requires bytes == base + Prologue(b.key, DeclaredLength(ValueLength(b)), b.text) + b.value
    requires failed <==> failed0 || ValueLength(b) > LIMIT
    ensures Building(bytes, failed, base, failed0, b)
  {
    assert |Prologue(b.key, DeclaredLength(ValueLength(b)), b.text)| == |Prologue(b.key, ValueLength(b), b.text)|;
    assert Raw(b) == Prologue(b.key, ValueLength(b), b.text) + b.value;
    assert base + (Prologue(b.key, ValueLength(b), b.text) + b.value)
        == base + Prologue(b.key, ValueLength(b), b.text) + b.value;
  }

  lemma Nested(bytes: Bytes, failed: bool, base: Bytes, failed0: bool, b: Block,
               more: Bytes, failedMore: bool, child: Block, whole: Block)
    requires Building(bytes, failed, base, failed0, b)
    requires Written(more, failedMore, Pad4(bytes), failed, child)
    requires whole == b.(children := b.children + [child])
    ensures Building(more, failedMore, base, failed0, whole)
  {
    hide Prologue, BlockBytes, Pad4, Align4, Fits;
    AppendAllOfLast(Prologue(b.key, ValueLength(b), b.text) + b.value, b.children, child);
    assert Raw(whole) == Append(Raw(b), BlockBytes(child));
    if !failedMore {
      PadAfterAligned(base, Raw(b));
      assert base + (Pad4(Raw(b)) + BlockBytes(child)) == base + Pad4(Raw(b)) + BlockBytes(child);
    }
  }

  /** The version-resource writer: the shared byte vector and the overflow flag. */
  class VersionWriter {
    const out: ByteVector
    var failed: bool

    constructor ()
      ensures fresh(out) && out.bytes == [] && !failed
    {
      out := new ByteVector();
      failed := false;
    }

    /** Starts a block; where it starts. */
    method Begin(key: Bytes, valueLength0: nat, text: bool) returns (start: nat)
      modifies this`failed, out
      ensures start == |Pad4(old(out.bytes))| && failed == (old(failed) || valueLength0 > LIMIT)
      ensures out.bytes == Pad4(old(out.bytes)) + Prologue(ToUtf16(key), DeclaredLength(valueLength0), text)
    {
      hide Pad4, Align4, U16, UnitBytes, ToUtf16;
      var valueLength := valueLength0;
      if valueLength > LIMIT {
        failed := true;
        valueLength := 0;
      }
      out.PadTo4();
      ghost var base := out.bytes;
      start := |out.bytes|;
      out.PushU16(0);
      out.PushU16(valueLength);
      out.PushU16(if text then 1 else 0);
      var _ := out.PushUtf16(key);
      ghost var words := Words(ToUtf16(key), valueLength, text);
      assert out.bytes == base + words;
      out.PadTo4();
      PadAfterAligned(base, words);
    }

    /** Patches the length in, or records that it does not fit. */
    method Finish(start: nat, ghost base: Bytes, ghost failed0: bool, ghost b: Block)
      requires Building(out.bytes, failed, base, failed0, b) && start == |base|
      modifies this`failed, out
      ensures Written(out.bytes, failed, base, failed0, b)
    {
      hide Raw;
      var length := |out.bytes| - start;
      if length > LIMIT { failed := true; return; }
      ghost var before := out.bytes;
      out.bytes := out.bytes[start := length % 0x100];
      out.bytes := out.bytes[start + 1 := length / 0x100 % 0x100];
      if !failed {
        PatchedInPlace(base, Raw(b), before, out.bytes);
      }
    }
  }

  lemma PatchedInPlace(base: Bytes, raw: Bytes, before: Bytes, after: Bytes)
    requires |raw| >= 2 && before == base + raw
    requires after == before[|base| := |raw| % 0x100][|base| + 1 := |raw| / 0x100 % 0x100]
    ensures after == base + Patch(raw)
  {}
}
