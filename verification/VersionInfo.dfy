/**
 The VS_VERSIONINFO resource (`BuildVersionInfo`): what the writer produces, when it overflows, and
 that a reader of the block format recovers exactly the declaration's version data.
 */
module VersionInfo {
  import opened Wrappers
  import opened Utf16
  import opened ResourceBytes
  import opened AppInfo
  import opened VersionBlocks
  import VersionQuad

  const VS_VERSION_INFO := Ascii("VS_VERSION_INFO")
  const STRING_FILE_INFO := Ascii("StringFileInfo")
  const VAR_FILE_INFO := Ascii("VarFileInfo")
  const TRANSLATION := Ascii("Translation")
  const COMPANY_NAME := Ascii("CompanyName")
  const FILE_DESCRIPTION := Ascii("FileDescription")
  const FILE_VERSION := Ascii("FileVersion")
  const INTERNAL_NAME := Ascii("InternalName")
  const LEGAL_COPYRIGHT := Ascii("LegalCopyright")
  const ORIGINAL_FILENAME := Ascii("OriginalFilename")
  const PRODUCT_NAME := Ascii("ProductName")
  const PRODUCT_VERSION := Ascii("ProductVersion")

  /** Unicode, as a code page and in the string table's key. */
  const CODE_PAGE: nat := 0x04B0
  const CODE_PAGE_TEXT := Ascii("04B0")

  datatype Entry = Entry(key: Bytes, value: Bytes)

  /** The string table, in the order both the resource and its description list it. */
  function Entries(info: AppInfoData, outputFileName: Bytes): seq<Entry> {
    [Entry(COMPANY_NAME, info.company), Entry(FILE_DESCRIPTION, info.description),
     Entry(FILE_VERSION, info.version.file), Entry(INTERNAL_NAME, info.identifier),
     Entry(LEGAL_COPYRIGHT, info.copyright), Entry(ORIGINAL_FILENAME, outputFileName),
     Entry(PRODUCT_NAME, info.name), Entry(PRODUCT_VERSION, info.ProductText())]
  }

  function HexDigit(d: nat): Byte
    requires d < 16
  {
    if d < 10 then 0x30 + d else 0x41 + (d - 10)
  }

  function Hex(v: nat): Bytes {
    [HexDigit(v / 0x10 / 0x10 / 0x10 % 0x10), HexDigit(v / 0x10 / 0x10 % 0x10), HexDigit(v / 0x10 % 0x10),
      HexDigit(v % 0x10)]
  }

  function DigitOf(b: Byte): int {
    if b < 0x41 then b - 0x30 else b - 0x41 + 10
  }

  /** Four hexadecimal digits determine the low sixteen bits. */
  lemma HexReads(v: nat)
    ensures ((DigitOf(Hex(v)[0]) * 0x10 + DigitOf(Hex(v)[1])) * 0x10 + DigitOf(Hex(v)[2])) * 0x10
      + DigitOf(Hex(v)[3]) == v % 0x1_0000
  {
    assert forall d: nat | d < 16 :: DigitOf(HexDigit(d)) == d;
    var a := v / 0x10;
    var b := a / 0x10;
    var c := b / 0x10;
    assert v == 0x10 * a + v % 0x10 && a == 0x10 * b + a % 0x10 && b == 0x10 * c + b % 0x10;
    assert v % 0x1_0000 == ((c % 0x10 * 0x10 + b % 0x10) * 0x10 + a % 0x10) * 0x10 + v % 0x10;
  }

  method HexU16(value0: nat) returns (out: Bytes)
    ensures out == Hex(value0)
  {
    out := [0x30, 0x30, 0x30, 0x30];
    var value, i := value0, 3;
    while i >= 0
      invariant -1 <= i <= 3 && |out| == 4
      invariant value == if i == 3 then value0 else if i == 2 then value0 / 0x10
                         else if i == 1 then value0 / 0x10 / 0x10
                         else if i == 0 then value0 / 0x10 / 0x10 / 0x10 else value0 / 0x10 / 0x10 / 0x10 / 0x10
      invariant forall k | i < k < 4 :: out[k] == Hex(value0)[k]
    {
      out := out[i := HexDigit(value % 0x10)];
      value := value / 0x10;
      i := i - 1;
    }
  }

  // ---------------------------------------------------------------------------------------------
  // The block tree
  // ---------------------------------------------------------------------------------------------

  function U32s(words: seq<nat>): Bytes {
    if words == [] then [] else U32(words[0]) + U32s(words[1..])
  }

  function FixedWords(info: AppInfoData): (words: seq<nat>)
    ensures |words| == 13
  {
    var file := VersionQuad.Quad(VersionQuad.Split(info.version.file));
    var product := VersionQuad.Quad(VersionQuad.Split(info.ProductText()));
    [0xFEEF04BD, 0x0001_0000,
     Packed(file[0], file[1]), Packed(file[2], file[3]), Packed(product[0], product[1]), Packed(product[2], product[3]),
     0x3F, Flags(info.version), 0x0004_0004, info.fileType % 0x1_0000_0000, 0, 0, 0]
  }

  /** Two components in one word, the first in the high half. */
  function Packed(high: Unit, low: Unit): nat {
    high as nat * 0x1_0000 + low as nat
  }

  function Flags(version: VersionData): nat {
    (if version.debug then 1 else 0) + (if version.prerelease then 2 else 0)
  }

  function StringBlock(e: Entry): Block {
    Block(ToUtf16(e.key), true, UnitBytes(ToUtf16(e.value)) + U16(0), [])
  }

  /** Entries without a value have no block. */
  function StringBlocks(entries: seq<Entry>): seq<Block> {
    if entries == [] then []
    else (if entries[0].value == [] then [] else [StringBlock(entries[0])]) + StringBlocks(entries[1..])
  }

  function TableKey(info: AppInfoData): Bytes {
    Hex(info.Language()) + CODE_PAGE_TEXT
  }

  function TableBlock(info: AppInfoData, entries: seq<Entry>): Block {
    Block(ToUtf16(TableKey(info)), true, [], StringBlocks(entries))
  }

  function StringFileInfo(info: AppInfoData, outputFileName: Bytes): Block {
    Block(ToUtf16(STRING_FILE_INFO), true, [], [TableBlock(info, Entries(info, outputFileName))])
  }

  function Translation(info: AppInfoData): Block {
    Block(ToUtf16(TRANSLATION), false, U16(info.Language()) + U16(CODE_PAGE), [])
  }

  function VarFileInfo(info: AppInfoData): Block {
    Block(ToUtf16(VAR_FILE_INFO), true, [], [Translation(info)])
  }

  function RootBlock(info: AppInfoData, children: seq<Block>): Block {
    Block(ToUtf16(VS_VERSION_INFO), false, U32s(FixedWords(info)), children)
  }

  function VersionTree(info: AppInfoData, outputFileName: Bytes): Block {
    RootBlock(info, [StringFileInfo(info, outputFileName), VarFileInfo(info)])
  }

  // ---------------------------------------------------------------------------------------------
  // The reader
  // ---------------------------------------------------------------------------------------------

  /** What a version resource says. */
  datatype VersionContent = VersionContent(fixedWords: seq<nat>, table: seq<Unit>, strings: seq<(seq<Unit>, seq<Unit>)>,
                                           language: nat, codePage: nat)

  function Words(s: Bytes): seq<nat> {
    if |s| < 4 then [] else [U32At(s, 0)] + Words(s[4..])
  }

  function Units(s: Bytes): seq<Unit> {
    if |s| < 2 then [] else [U16At(s, 0)] + Units(s[2..])
  }

  /** A text value without its terminating NUL. */
  function TextOf(b: Block): (seq<Unit>, seq<Unit>) {
    var units := Units(b.value);
    (b.key, if units == [] then [] else units[..|units| - 1])
  }

  function TextsOf(blocks: seq<Block>): seq<(seq<Unit>, seq<Unit>)> {
    if blocks == [] then [] else [TextOf(blocks[0])] + TextsOf(blocks[1..])
  }

  predicate Has(b: Block, key: seq<Unit>, children: nat) {
    b.key == key && |b.children| == children
  }

  function ContentOf(root: Block): Option<VersionContent> {
    if !Has(root, VS_VERSION_INFO, 2) || |root.value| != 52 then None
    else
      var stringInfo, varInfo := root.children[0], root.children[1];
      if !Has(stringInfo, STRING_FILE_INFO, 1) || !Has(varInfo, VAR_FILE_INFO, 1) then None
      else
        var table, translation := stringInfo.children[0], varInfo.children[0];
        if !Has(translation, TRANSLATION, 0) || |translation.value| != 4 then None
        else Some(VersionContent(Words(root.value), table.key, TextsOf(table.children),
                                 U16At(translation.value, 0), U16At(translation.value, 2)))
  }

  function ReadVersionInfo(bytes: Bytes): Option<VersionContent> {
    var parsed := ReadBlock(bytes);
    if parsed.Malformed? || |parsed.blocks| != 1 then None else ContentOf(parsed.blocks[0])
  }

  /** The entries that have a value, as UTF-16. */
  function Strings(entries: seq<Entry>): seq<(seq<Unit>, seq<Unit>)> {
    if entries == [] then []
    else (if entries[0].value == [] then [] else [(entries[0].key, ToUtf16(entries[0].value))]) + Strings(entries[1..])
  }

  function Expected(info: AppInfoData, outputFileName: Bytes): VersionContent {
    VersionContent(FixedWords(info), TableKey(info), Strings(Entries(info, outputFileName)), info.Language(), CODE_PAGE)
  }

  // ---------------------------------------------------------------------------------------------
  // The reader recovers the data
  // ---------------------------------------------------------------------------------------------

  lemma {:induction false} ReadsWords(words: seq<nat>)
    requires forall w | w in words :: w < 0x1_0000_0000
    ensures Words(U32s(words)) == words && |U32s(words)| == 4 * |words|
  {
    hide U32At, U32;
    if words != [] {
      var rest := U32s(words[1..]);
      assert words[0] in words && words == [words[0]] + words[1..];
      assert forall w | w in words[1..] :: w in words;
      ReadsWords(words[1..]);
      FirstWord(words[0], rest, U32s(words));
    }
  }

  lemma FirstWord(word: nat, rest: Bytes, s: Bytes)
    requires s == U32(word) + rest && word < 0x1_0000_0000
    ensures U32At(s, 0) == word && s[4..] == rest
  {
    hide U32At;
    U32AtIn([], word, rest);
    assert [] + U32(word) + rest == s;
  }

  lemma {:induction false} ReadsText(units: seq<Unit>)
    ensures Units(UnitBytes(units) + U16(0)) == units + [0]
  {
    var s := UnitBytes(units) + U16(0);
    if units == [] {
      assert s == U16(0) && s[2..] == [];
    } else {
      var rest := UnitBytes(units[1..]) + U16(0);
      U16AtIn([], units[0], rest);
      assert [] + U16(units[0]) + rest == s && s[2..] == rest;
      ReadsText(units[1..]);
      assert units == [units[0]] + units[1..];
    }
  }

  lemma {:induction false} ReadsStrings(entries: seq<Entry>)
    requires forall e | e in entries :: PlainBytes(e.key)
    ensures AllWellFormed(StringBlocks(entries)) && TextsOf(StringBlocks(entries)) == Strings(entries)
  {
    if entries != [] {
      var e, rest := entries[0], StringBlocks(entries[1..]);
      assert e in entries;
      PlainUnits(e.key);
      ReadsStrings(entries[1..]);
      if e.value != [] {
        ReadsText(ToUtf16(e.value));
        assert ([StringBlock(e)] + rest)[1..] == rest;
      } else {
        assert [] + rest == rest;
      }
    }
  }

  lemma KeysArePlain(info: AppInfoData, outputFileName: Bytes)
    ensures PlainBytes(VS_VERSION_INFO) && PlainBytes(STRING_FILE_INFO) && PlainBytes(VAR_FILE_INFO) &&
      PlainBytes(TRANSLATION)
    ensures PlainBytes(TableKey(info))
    ensures forall e | e in Entries(info, outputFileName) :: PlainBytes(e.key)
  {
    hide Ascii;
    assert PlainBytes(Hex(info.Language()));
  }

  lemma FixedWordsFit(info: AppInfoData)
    ensures forall w | w in FixedWords(info) :: w < 0x1_0000_0000
  {
    hide VersionQuad.Quad, VersionQuad.Split;
  }

  lemma TreeIsWellFormed(info: AppInfoData, outputFileName: Bytes)
    ensures WellFormedBlock(VersionTree(info, outputFileName))
  {
    var tree, entries := VersionTree(info, outputFileName), Entries(info, outputFileName);
    KeysArePlain(info, outputFileName);
    ReadsStrings(entries);
    PlainUnits(VS_VERSION_INFO);
    PlainUnits(STRING_FILE_INFO);
    PlainUnits(VAR_FILE_INFO);
    PlainUnits(TRANSLATION);
    PlainUnits(TableKey(info));
    SingleIsWellFormed(TableBlock(info, entries));
    SingleIsWellFormed(Translation(info));
    PairIsWellFormed(StringFileInfo(info, outputFileName), VarFileInfo(info));
  }

  lemma SingleIsWellFormed(b: Block)
    requires WellFormedBlock(b)
    ensures AllWellFormed([b])
  {
    assert [b][1..] == [];
  }

  lemma PairIsWellFormed(a: Block, b: Block)
    requires WellFormedBlock(a) && WellFormedBlock(b)
    ensures AllWellFormed([a, b])
  {
    SingleIsWellFormed(b);
    assert [a, b][1..] == [b];
  }

  lemma TreeContent(info: AppInfoData, outputFileName: Bytes)
    ensures ContentOf(VersionTree(info, outputFileName)) == Some(Expected(info, outputFileName))
  {
    hide FixedWords, Entries, Ascii, Hex, Words, U32s, U32At, U16At, Strings, StringBlocks, TextsOf, ToUtf16, U16;
    KeysArePlain(info, outputFileName);
    ReadsStrings(Entries(info, outputFileName));
    PlainUnits(VS_VERSION_INFO);
    PlainUnits(STRING_FILE_INFO);
    PlainUnits(VAR_FILE_INFO);
    PlainUnits(TRANSLATION);
    PlainUnits(TableKey(info));
    FixedWordsFit(info);
    ReadsWords(FixedWords(info));
    TranslationReads(info.Language());
  }

  lemma TranslationReads(language: nat)
    requires language < 0x1_0000
    ensures var value := U16(language) + U16(CODE_PAGE); U16At(value, 0) == language && U16At(value, 2) == CODE_PAGE
  {
    var value := U16(language) + U16(CODE_PAGE);
    U16AtIn([], language, U16(CODE_PAGE));
    U16AtIn(U16(language), CODE_PAGE, []);
    assert [] + U16(language) + U16(CODE_PAGE) == value == value + [];
  }

  /** Whenever the resource does not overflow, reading it back gives exactly the declared data. */
  lemma ReadsBack(info: AppInfoData, outputFileName: Bytes)
    requires Fits(VersionTree(info, outputFileName))
    ensures ReadVersionInfo(BlockBytes(VersionTree(info, outputFileName))) == Some(Expected(info, outputFileName))
  {
    hide VersionTree, Fits, WellFormedBlock, BlockBytes, ReadBlock, ContentOf, Expected;
    TreeIsWellFormed(info, outputFileName);
    ReadsBlock(VersionTree(info, outputFileName));
    TreeContent(info, outputFileName);
  }

  // ---------------------------------------------------------------------------------------------
  // The writer
  // ---------------------------------------------------------------------------------------------

  lemma {:induction false} StringBlocksOfLast(entries: seq<Entry>, e: Entry)
    ensures StringBlocks(entries + [e]) == StringBlocks(entries) + if e.value == [] then [] else [StringBlock(e)]
  {
    hide StringBlock;
    if entries == [] {
      assert entries + [e] == [e] && [e][1..] == [];
    } else {
      StringBlocksOfLast(entries[1..], e);
      assert (entries + [e])[1..] == entries[1..] + [e] && (entries + [e])[0] == entries[0];
      var first := if entries[0].value == [] then [] else [StringBlock(entries[0])];
      var last := if e.value == [] then [] else [StringBlock(e)];
      assert first + (StringBlocks(entries[1..]) + last) == first + StringBlocks(entries[1..]) + last;
    }
  }

  /** One string of the table, unless it is empty; `before` are the entries already there. */
  method PushStringBlock(w: VersionWriter, key: Bytes, value: Bytes,
                         ghost base: Bytes, ghost failed0: bool, ghost table: Block, ghost before: seq<Entry>)
    requires Building(w.out.bytes, w.failed, base, failed0, table.(children := StringBlocks(before)))
    modifies w`failed, w.out
    ensures Building(w.out.bytes, w.failed, base, failed0,
                     table.(children := StringBlocks(before + [Entry(key, value)])))
  {
    hide Building, Written, Raw, BlockBytes, Prologue, U16, UnitBytes, StringBlocks;
    StringBlocksOfLast(before, Entry(key, value));
    if value == [] {
      assert StringBlocks(before) + [] == StringBlocks(before);
      return;
    }
    ghost var outer, outerFailed, child := w.out.bytes, w.failed, StringBlock(Entry(key, value));
    var units := Utf8ToUtf16(value);
    var start := w.Begin(key, |units| + 1, true);
    var _ := w.out.PushUtf16(value);
    Opened(w.out.bytes, w.failed, Pad4(outer), outerFailed, child);
    w.Finish(start, Pad4(outer), outerFailed, child);
    Nested(outer, outerFailed, base, failed0, table.(children := StringBlocks(before)), w.out.bytes, w.failed, child,
           table.(children := StringBlocks(before + [Entry(key, value)])));
  }

  /** A block without a value, just begun. */
  lemma OpensEmpty(bytes: Bytes, failed: bool, base: Bytes, failed0: bool, b: Block)
    requires |base| % 4 == 0 && b.children == [] && b.value == []
    requires bytes == base + Prologue(b.key, 0, b.text) && failed == failed0
    ensures Building(bytes, failed, base, failed0, b)
  {
    hide Prologue, Building;
    assert bytes + [] == bytes;
    Opened(bytes, failed, base, failed0, b);
  }

  method PushTable(w: VersionWriter, info: AppInfoData, outputFileName: Bytes)
    modifies w`failed, w.out
    ensures Written(w.out.bytes, w.failed, Pad4(old(w.out.bytes)), old(w.failed),
                    TableBlock(info, Entries(info, outputFileName)))
  {
    hide Building, Written, Prologue, ToUtf16, Ascii, Hex;
    ghost var base, failed0, t := Pad4(w.out.bytes), w.failed, TableBlock(info, []);
    var langKey := HexU16(info.Language());
    langKey := langKey + CODE_PAGE_TEXT;
    var start := w.Begin(langKey, 0, true);
    OpensEmpty(w.out.bytes, w.failed, base, failed0, t);
    PushStrings(w, info, outputFileName, base, failed0, t);
    w.Finish(start, base, failed0, TableBlock(info, Entries(info, outputFileName)));
  }

  method PushStrings(w: VersionWriter, info: AppInfoData, outputFileName: Bytes,
                     ghost base: Bytes, ghost failed0: bool, ghost t: Block)
    requires Building(w.out.bytes, w.failed, base, failed0, t) && t.children == []
    modifies w`failed, w.out
    ensures Building(w.out.bytes, w.failed, base, failed0, t.(children := StringBlocks(Entries(info, outputFileName))))
  {
    hide Building, Ascii, StringBlock;
    ghost var done: seq<Entry> := [];
    assert t.(children := StringBlocks(done)) == t;
    PushStringBlock(w, COMPANY_NAME, info.company, base, failed0, t, done);
    done := done + [Entry(COMPANY_NAME, info.company)];
    PushStringBlock(w, FILE_DESCRIPTION, info.description, base, failed0, t, done);
    done := done + [Entry(FILE_DESCRIPTION, info.description)];
    PushStringBlock(w, FILE_VERSION, info.version.file, base, failed0, t, done);
    done := done + [Entry(FILE_VERSION, info.version.file)];
    PushStringBlock(w, INTERNAL_NAME, info.identifier, base, failed0, t, done);
    done := done + [Entry(INTERNAL_NAME, info.identifier)];
    PushStringBlock(w, LEGAL_COPYRIGHT, info.copyright, base, failed0, t, done);
    done := done + [Entry(LEGAL_COPYRIGHT, info.copyright)];
    PushStringBlock(w, ORIGINAL_FILENAME, outputFileName, base, failed0, t, done);
    done := done + [Entry(ORIGINAL_FILENAME, outputFileName)];
    PushStringBlock(w, PRODUCT_NAME, info.name, base, failed0, t, done);
    done := done + [Entry(PRODUCT_NAME, info.name)];
    PushStringBlock(w, PRODUCT_VERSION, info.ProductText(), base, failed0, t, done);
    done := done + [Entry(PRODUCT_VERSION, info.ProductText())];
    assert done == Entries(info, outputFileName);
  }

  method PushStringFileInfo(w: VersionWriter, info: AppInfoData, outputFileName: Bytes)
    modifies w`failed, w.out
    ensures Written(w.out.bytes, w.failed, Pad4(old(w.out.bytes)), old(w.failed), StringFileInfo(info, outputFileName))
  {
    hide Building, Written, Prologue, ToUtf16, Ascii, TableBlock;
    ghost var base, failed0, b := Pad4(w.out.bytes), w.failed, StringFileInfo(info, outputFileName);
    var start := w.Begin(STRING_FILE_INFO, 0, true);
    OpensEmpty(w.out.bytes, w.failed, base, failed0, b.(children := []));
    ghost var outer, outerFailed := w.out.bytes, w.failed;
    PushTable(w, info, outputFileName);
    Nested(outer, outerFailed, base, failed0, b.(children := []), w.out.bytes, w.failed,
           TableBlock(info, Entries(info, outputFileName)), b);
    w.Finish(start, base, failed0, b);
  }

  method PushTranslation(w: VersionWriter, info: AppInfoData)
    modifies w`failed, w.out
    ensures Written(w.out.bytes, w.failed, Pad4(old(w.out.bytes)), old(w.failed), Translation(info))
  {
    hide Building, Written, Prologue, ToUtf16, Ascii, U16;
    ghost var base, failed0, b := Pad4(w.out.bytes), w.failed, Translation(info);
    var start := w.Begin(TRANSLATION, 4, false);
    ghost var begun := w.out.bytes;
    w.out.PushU16(info.Language());
    w.out.PushU16(CODE_PAGE);
    assert w.out.bytes == begun + b.value;
    Opened(w.out.bytes, w.failed, base, failed0, b);
    w.Finish(start, base, failed0, b);
  }

  method PushVarFileInfo(w: VersionWriter, info: AppInfoData)
    modifies w`failed, w.out
    ensures Written(w.out.bytes, w.failed, Pad4(old(w.out.bytes)), old(w.failed), VarFileInfo(info))
  {
    hide Building, Written, Prologue, ToUtf16, Ascii, Translation;
    ghost var base, failed0, b := Pad4(w.out.bytes), w.failed, VarFileInfo(info);
    var start := w.Begin(VAR_FILE_INFO, 0, true);
    OpensEmpty(w.out.bytes, w.failed, base, failed0, b.(children := []));
    ghost var outer, outerFailed := w.out.bytes, w.failed;
    PushTranslation(w, info);
    Nested(outer, outerFailed, base, failed0, b.(children := []), w.out.bytes, w.failed, Translation(info), b);
    w.Finish(start, base, failed0, b);
  }

  lemma {:induction false} U32sOfLast(words: seq<nat>, w: nat)
    ensures U32s(words + [w]) == U32s(words) + U32(w)
  {
    hide U32;
    if words == [] {
      assert words + [w] == [w] && [w][1..] == [] && U32(w) + [] == [] + U32(w);
    } else {
      U32sOfLast(words[1..], w);
      assert (words + [w])[1..] == words[1..] + [w] && (words + [w])[0] == words[0];
      assert U32(words[0]) + (U32s(words[1..]) + U32(w)) == U32(words[0]) + U32s(words[1..]) + U32(w);
    }
  }

  /** One more of the fixed words; `done` are those before it. */
  method PushWord(out: ByteVector, word: nat, ghost before: Bytes, ghost done: seq<nat>)
    requires out.bytes == before + U32s(done)
    modifies out
    ensures out.bytes == before + U32s(done + [word])
  {
    hide U32s, U32;
    U32sOfLast(done, word);
    out.PushU32(word);
    assert before + U32s(done) + U32(word) == before + (U32s(done) + U32(word));
  }

  /** The four components of a version text that may be absent. */
  method QuadOf(text: Bytes) returns (quad: array<Unit>)
    ensures fresh(quad) && quad.Length == 4 && quad[..] == VersionQuad.Quad(VersionQuad.Split(text))
  {
    quad := new Unit[4](_ => 0);
    VersionQuad.QuadOfNothing();
    assert quad[..] == [0, 0, 0, 0];
    if text != [] {
      var _ := VersionQuad.ParseVersionQuad(text, quad);
    }
  }

  method PushFixedWords(out: ByteVector, info: AppInfoData)
    modifies out
    ensures out.bytes == old(out.bytes) + U32s(FixedWords(info))
  {
    hide VersionQuad.Quad, VersionQuad.Split, U32s, Packed;
    var fileQuad := QuadOf(info.version.file);
    var productQuad := QuadOf(info.ProductText());
    var flags := 0;
    if info.version.debug { flags := flags + 1; }
    if info.version.prerelease { flags := flags + 2; }
    var quads := [Packed(fileQuad[0], fileQuad[1]), Packed(fileQuad[2], fileQuad[3]),
                  Packed(productQuad[0], productQuad[1]), Packed(productQuad[2], productQuad[3])];
    assert forall k | 0 <= k < 4 :: fileQuad[k] == fileQuad[..][k] && productQuad[k] == productQuad[..][k];
    PushThirteen(out, quads, flags, info.fileType % 0x1_0000_0000);
    assert FixedWords(info) ==
      [0xFEEF04BD, 0x0001_0000] + quads + [0x3F, flags, 0x0004_0004, info.fileType % 0x1_0000_0000, 0, 0, 0];
  }

  /** The structure itself: signature, structure version, the two versions, flags and their mask, system, type. */
  method PushThirteen(out: ByteVector, quads: seq<nat>, flags: nat, fileType: nat)
    requires |quads| == 4
    modifies out
    ensures out.bytes ==
      old(out.bytes) + U32s([0xFEEF04BD, 0x0001_0000] + quads + [0x3F, flags, 0x0004_0004, fileType, 0, 0, 0])
  {
    hide U32s;
    ghost var before: Bytes, done: seq<nat> := out.bytes, [];
    NoWords(before);
    PushWord(out, 0xFEEF04BD, before, done); done := done + [0xFEEF04BD];
    PushWord(out, 0x0001_0000, before, done); done := done + [0x0001_0000];
    PushWord(out, quads[0], before, done); done := done + [quads[0]];
    PushWord(out, quads[1], before, done); done := done + [quads[1]];
    PushWord(out, quads[2], before, done); done := done + [quads[2]];
    PushWord(out, quads[3], before, done); done := done + [quads[3]];
    PushWord(out, 0x3F, before, done); done := done + [0x3F];
    PushWord(out, flags, before, done); done := done + [flags];
    PushWord(out, 0x0004_0004, before, done); done := done + [0x0004_0004];
    PushWord(out, fileType, before, done); done := done + [fileType];
    PushWord(out, 0, before, done); done := done + [0];
    PushWord(out, 0, before, done); done := done + [0];
    PushWord(out, 0, before, done); done := done + [0];
    assert done == [0xFEEF04BD, 0x0001_0000] + quads + [0x3F, flags, 0x0004_0004, fileType, 0, 0, 0];
  }

  lemma NoWords(before: Bytes)
    ensures before + U32s([]) == before
  {}

  /** The whole resource, or nothing and the overflow flag. */
  method BuildVersionInfo(info: AppInfoData, outputFileName: Bytes) returns (bytes: Bytes, overflow: bool)
    ensures overflow <==> !Fits(VersionTree(info, outputFileName))
    ensures bytes == if overflow then [] else BlockBytes(VersionTree(info, outputFileName))
  {
    hide Building, Prologue, ToUtf16, Ascii, FixedWords, U32s, StringFileInfo, VarFileInfo;
    var w := new VersionWriter();
    ghost var root := RootBlock(info, []);
    var start := w.Begin(VS_VERSION_INFO, 52, false);
    PushFixedWords(w.out, info);
    assert |U32s(FixedWords(info))| == 52 by {
      FixedWordsFit(info);
      ReadsWords(FixedWords(info));
    }
    assert w.out.bytes == [] + Prologue(root.key, 52, false) + root.value;
    Opened(w.out.bytes, w.failed, [], false, root);
    root := PushInfos(w, info, outputFileName, root);
    w.Finish(start, [], false, root);
    overflow := w.failed;
    bytes := if overflow then [] else w.out.bytes;
    assert [] + BlockBytes(root) == BlockBytes(root);
  }

  /** The two children of the root. */
  method PushInfos(w: VersionWriter, info: AppInfoData, outputFileName: Bytes, ghost root: Block)
    returns (ghost whole: Block)
    requires Building(w.out.bytes, w.failed, [], false, root) && root.children == []
    modifies w`failed, w.out
    ensures whole == root.(children := [StringFileInfo(info, outputFileName), VarFileInfo(info)])
    ensures Building(w.out.bytes, w.failed, [], false, whole)
  {
    hide Building, StringFileInfo, VarFileInfo;
    ghost var before, failedBefore := w.out.bytes, w.failed;
    PushStringFileInfo(w, info, outputFileName);
    ghost var half := root.(children := [StringFileInfo(info, outputFileName)]);
    Nested(before, failedBefore, [], false, root, w.out.bytes, w.failed, StringFileInfo(info, outputFileName), half);
    before, failedBefore := w.out.bytes, w.failed;
    PushVarFileInfo(w, info);
    whole := half.(children := half.children + [VarFileInfo(info)]);
    Nested(before, failedBefore, [], false, half, w.out.bytes, w.failed, VarFileInfo(info), whole);
  }

  /** Overflow is one comparison: the resource fits iff its total length does, since every inner length is smaller. */
  lemma OverflowIff(info: AppInfoData, outputFileName: Bytes)
    ensures Fits(VersionTree(info, outputFileName)) <==> |BlockBytes(VersionTree(info, outputFileName))| <= LIMIT
  {
    FitsIffLengthFits(VersionTree(info, outputFileName));
  }

  // ---------------------------------------------------------------------------------------------
  // The readable description
  // ---------------------------------------------------------------------------------------------

  function Line(e: Entry): Bytes {
    if e.value == [] then [] else Ascii("  ") + e.key + Ascii(" = ") + e.value + Ascii("\n")
  }

  function Lines(entries: seq<Entry>): Bytes {
    if entries == [] then [] else Line(entries[0]) + Lines(entries[1..])
  }

  function Heading(info: AppInfoData): Bytes {
    Ascii("VS_VERSIONINFO string table ") + Ascii("(language ") + Hex(info.Language()) + CODE_PAGE_TEXT + Ascii("):\n")
  }

  /** The description lists the resource's own entries: the same ones, in the same order, empty ones skipped. */
  method DescribeVersionBlock(info: AppInfoData, outputFileName: Bytes) returns (out: Bytes)
    ensures out == Heading(info) + Lines(Entries(info, outputFileName))
  {
    hide Ascii, Hex, Line;
    var productText := if info.version.product == [] then info.version.file else info.version.product;
    var entries := [Entry(COMPANY_NAME, info.company), Entry(FILE_DESCRIPTION, info.description),
                    Entry(FILE_VERSION, info.version.file), Entry(INTERNAL_NAME, info.identifier),
                    Entry(LEGAL_COPYRIGHT, info.copyright), Entry(ORIGINAL_FILENAME, outputFileName),
                    Entry(PRODUCT_NAME, info.name), Entry(PRODUCT_VERSION, productText)];
    var language := HexU16(info.Language());
    out := Ascii("VS_VERSIONINFO string table ") + Ascii("(language ") + language + CODE_PAGE_TEXT + Ascii("):\n");
    assert entries[0..] == entries;
    for i := 0 to |entries|
      invariant out + Lines(entries[i..]) == Heading(info) + Lines(entries)
    {
      assert entries[i..][0] == entries[i] && entries[i..][1..] == entries[i + 1..];
      Associate(out, Line(entries[i]), Lines(entries[i + 1..]));
      DescribedLine(out, entries[i]);
      if entries[i].value != [] {
        out := out + (Ascii("  ") + entries[i].key + Ascii(" = ") + entries[i].value + Ascii("\n"));
      }
    }
  }

  lemma DescribedLine(out: Bytes, e: Entry)
    ensures e.value == [] ==> out + Line(e) == out
    ensures e.value != [] ==> Line(e) == Ascii("  ") + e.key + Ascii(" = ") + e.value + Ascii("\n")
  {
    hide Ascii;
  }
}
