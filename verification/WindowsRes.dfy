/**
 The .res container (`BuildWindowsRes`): aligned entries with 32-byte headers, and a reader that walks
 them by header size, data size and alignment.
 */
module WindowsRes {
  import opened Wrappers
  import opened ResourceBytes
  import opened AppInfo
  import opened IconFiles
  import VersionBlocks
  import VersionInfo

  /** A resource whose type and name are ordinals. */
  datatype ResEntry = ResEntry(typeId: nat, id: nat, flags: nat, language: nat, payload: Bytes)

  const RT_ICON: nat := 3
  const RT_GROUP_ICON: nat := 14
  const RT_VERSION: nat := 16
  const RT_MANIFEST: nat := 24
  const MEMORY_FLAGS: nat := 0x0030

  const LEADING := ResEntry(0, 0, 0, 0, [])

  // ---------------------------------------------------------------------------------------------
  // The format
  // ---------------------------------------------------------------------------------------------

  /** The tail of a header after its ordinals: data version, flags, language, version, characteristics. */
  function HeaderTail(e: ResEntry, rest: Bytes): Bytes {
    U32(0) + (U16(e.flags) + (U16(e.language) + (U32(0) + (U32(0) + rest))))
  }

  function Header(e: ResEntry, rest: Bytes): Bytes {
    U32(|e.payload|) + (U32(32) + (U16(0xFFFF) + (U16(e.typeId) + (U16(0xFFFF) + (U16(e.id) + HeaderTail(e, rest))))))
  }

  function EntryBytes(e: ResEntry): Bytes {
    Pad4(Header(e, e.payload))
  }

  function ResBytes(entries: seq<ResEntry>): Bytes {
    if entries == [] then [] else EntryBytes(entries[0]) + ResBytes(entries[1..])
  }

  // ---------------------------------------------------------------------------------------------
  // The reader
  // ---------------------------------------------------------------------------------------------

  datatype HeaderRead = BadHeader | HeaderRead(size: nat, typeId: nat, id: nat, flags: nat, language: nat, rest: Bytes)

  function ReadHeaderTail(size: nat, typeId: nat, id: nat, s: Bytes): HeaderRead {
    if |s| < 16 then BadHeader
    else
      var s1 := s[4..];
      var s2 := s1[2..];
      var s3 := s2[2..];
      var s4 := s3[4..];
      if U32At(s, 0) != 0 || U32At(s3, 0) != 0 || U32At(s4, 0) != 0 then BadHeader
      else HeaderRead(size, typeId, id, U16At(s1, 0), U16At(s2, 0), s4[4..])
  }

  function ReadHeader(s: Bytes): HeaderRead {
    if |s| < 32 || U32At(s[4..], 0) != 32 then BadHeader
    else
      var s1 := s[4..][4..];
      var s2 := s1[2..];
      var s3 := s2[2..];
      var s4 := s3[2..];
      if U16At(s1, 0) != 0xFFFF || U16At(s3, 0) != 0xFFFF then BadHeader
      else ReadHeaderTail(U32At(s, 0), U16At(s2, 0), U16At(s4, 0), s4[2..])
  }

  /** Every entry of a container, or None when the walk does not end exactly at its end. */
  function ReadRes(s: Bytes): Option<seq<ResEntry>>
    decreases |s|
  {
    if s == [] then Some([])
    else
      var h := ReadHeader(s);
      if h.BadHeader? || |h.rest| < Align4(h.size) || |h.rest| >= |s| then None
      else
        var others := ReadRes(h.rest[Align4(h.size)..]);
        if others.None? then None
        else Some([ResEntry(h.typeId, h.id, h.flags, h.language, h.rest[..h.size])] + others.value)
  }

  predicate FitsHeader(e: ResEntry) {
    e.typeId < 0x1_0000 && e.id < 0x1_0000 && e.flags < 0x1_0000 && e.language < 0x1_0000 && |e.payload| < 0x1_0000_0000
  }

  lemma ReadsHeaderTail(e: ResEntry, rest: Bytes, s: Bytes, size: nat)
    requires FitsHeader(e) && s == HeaderTail(e, rest)
    ensures ReadHeaderTail(size, e.typeId, e.id, s) == HeaderRead(size, e.typeId, e.id, e.flags, e.language, rest)
    ensures |s| == 16 + |rest|
  {
    hide U16, U32, U16At, U32At;
    var s4 := U32(0) + rest;
    var s3 := U32(0) + s4;
    var s2 := U16(e.language) + s3;
    var s1 := U16(e.flags) + s2;
    Next32(0, s1);
    Next16(e.flags, s2);
    Next16(e.language, s3);
    Next32(0, s4);
    Next32(0, rest);
  }

  lemma ReadsHeader(e: ResEntry, rest: Bytes, s: Bytes)
    requires FitsHeader(e) && s == Header(e, rest)
    ensures ReadHeader(s) == HeaderRead(|e.payload|, e.typeId, e.id, e.flags, e.language, rest)
    ensures |s| == 32 + |rest|
  {
    hide U16, U32, U16At, U32At, HeaderTail, ReadHeaderTail;
    var s5 := HeaderTail(e, rest);
    var s4 := U16(e.id) + s5;
    var s3 := U16(0xFFFF) + s4;
    var s2 := U16(e.typeId) + s3;
    var s1 := U16(0xFFFF) + s2;
    Next32(|e.payload|, U32(32) + s1);
    Next32(32, s1);
    Next16(0xFFFF, s2);
    Next16(e.typeId, s3);
    Next16(0xFFFF, s4);
    Next16(e.id, s5);
    ReadsHeaderTail(e, rest, s5, |e.payload|);
  }

  /** Padding a header and its payload pads the payload, since headers are aligned. */
  lemma HeaderThenMore(e: ResEntry, more: Bytes)
    requires FitsHeader(e)
    ensures EntryBytes(e) + more == Header(e, Pad4(e.payload) + more)
  {
    hide U16, U32;
    var front := Header(e, []);
    HeaderIsFront(e, e.payload);
    HeaderIsFront(e, Pad4(e.payload) + more);
    ReadsHeader(e, [], front);
    PadAfterAligned(front, e.payload);
    assert front + Pad4(e.payload) + more == front + (Pad4(e.payload) + more);
  }

  lemma HeaderIsFront(e: ResEntry, rest: Bytes)
    ensures Header(e, rest) == Header(e, []) + rest
  {
    hide U16, U32;
  }

  /** Walking a container visits exactly its entries, with their payloads. */
  lemma {:induction false} ReadsRes(entries: seq<ResEntry>)
    requires forall e | e in entries :: FitsHeader(e)
    ensures ReadRes(ResBytes(entries)) == Some(entries)
  {
    hide ReadHeader, Header, EntryBytes, FitsHeader;
    if entries != [] {
      var e, more := entries[0], ResBytes(entries[1..]);
      assert e in entries && forall x | x in entries[1..] :: x in entries;
      ReadsRes(entries[1..]);
      HeaderThenMore(e, more);
      ReadsHeader(e, Pad4(e.payload) + more, ResBytes(entries));
      assert (Pad4(e.payload) + more)[..|e.payload|] == e.payload;
      assert entries == [e] + entries[1..];
    }
  }

  // ---------------------------------------------------------------------------------------------
  // What the container holds
  // ---------------------------------------------------------------------------------------------

  predicate HasVersionContent(info: AppInfoData) {
    info.name != [] || info.identifier != [] || info.description != [] || info.company != [] || info.copyright != [] ||
    info.version.file != [] || info.version.product != []
  }

  function IconEntries(icons: seq<IconImage>, id: nat, language: nat): seq<ResEntry> {
    if icons == [] then []
    else
      [ResEntry(RT_ICON, id % 0x1_0000, MEMORY_FLAGS, language, icons[0].bytes)]
      + IconEntries(icons[1..], id + 1, language)
  }

  function IconPart(info: AppInfoData): seq<ResEntry> {
    if info.icons == [] || info.iconKind == NoIcon then []
    else IconEntries(info.icons, 1, info.Language()) +
         [ResEntry(RT_GROUP_ICON, 1, MEMORY_FLAGS, info.Language(), GroupBytes(info.icons))]
  }

  function VersionPart(info: AppInfoData, outputFileName: Bytes): seq<ResEntry> {
    if !HasVersionContent(info) then []
    else [ResEntry(RT_VERSION, 1, MEMORY_FLAGS, info.Language(),
                   VersionBlocks.BlockBytes(VersionInfo.VersionTree(info, outputFileName)))]
  }

  function ManifestPart(info: AppInfoData, manifestXml: Bytes): seq<ResEntry> {
    if manifestXml == [] then [] else [ResEntry(RT_MANIFEST, 1, MEMORY_FLAGS, info.Language(), manifestXml)]
  }

  function Resources(info: AppInfoData, outputFileName: Bytes, manifestXml: Bytes): seq<ResEntry> {
    [LEADING] + IconPart(info) + VersionPart(info, outputFileName) + ManifestPart(info, manifestXml)
  }

  predicate Overflows(info: AppInfoData, outputFileName: Bytes) {
    HasVersionContent(info) && !VersionBlocks.Fits(VersionInfo.VersionTree(info, outputFileName))
  }

  lemma {:induction false} IconEntriesFit(icons: seq<IconImage>, id: nat, language: nat)
    requires language < 0x1_0000 && forall i | i in icons :: |i.bytes| < 0x1_0000_0000
    ensures forall e | e in IconEntries(icons, id, language) :: FitsHeader(e)
    decreases |icons|
  {
    if icons != [] {
      assert icons[0] in icons && forall x | x in icons[1..] :: x in icons;
      IconEntriesFit(icons[1..], id + 1, language);
    }
  }

  lemma {:induction false} GroupLength(icons: seq<IconImage>, id: nat)
    ensures |GroupEntries(icons, id)| == 14 * |icons|
    decreases |icons|
  {
    if icons != [] { GroupLength(icons[1..], id + 1); }
  }

  /** Unless it overflows, walking what is built visits the empty entry, the icons, group, version and manifest. */
  lemma WalksResources(info: AppInfoData, outputFileName: Bytes, manifestXml: Bytes)
    requires forall i | i in info.icons :: |i.bytes| < 0x1_0000_0000
    requires |info.icons| < 0x1_0000 && |manifestXml| < 0x1_0000_0000 && !Overflows(info, outputFileName)
    ensures ReadRes(ResBytes(Resources(info, outputFileName, manifestXml))) ==
      Some(Resources(info, outputFileName, manifestXml))
  {
    hide VersionBlocks.BlockBytes, VersionInfo.VersionTree, ReadRes, ResBytes;
    IconEntriesFit(info.icons, 1, info.Language());
    GroupLength(info.icons, 1);
    VersionBlocks.FitsIffLengthFits(VersionInfo.VersionTree(info, outputFileName));
    ReadsRes(Resources(info, outputFileName, manifestXml));
  }

  // ---------------------------------------------------------------------------------------------
  // The writer
  // ---------------------------------------------------------------------------------------------

  lemma {:induction false} ResBytesOfLast(entries: seq<ResEntry>, e: ResEntry)
    ensures ResBytes(entries + [e]) == ResBytes(entries) + EntryBytes(e)
    ensures |ResBytes(entries)| % 4 == 0
  {
    hide EntryBytes;
    if entries == [] {
      assert entries + [e] == [e] && [e][1..] == [];
      assert EntryBytes(e) + [] == [] + EntryBytes(e);
    } else {
      ResBytesOfLast(entries[1..], e);
      EntryIsAligned(entries[0]);
      assert (entries + [e])[1..] == entries[1..] + [e] && (entries + [e])[0] == entries[0];
      Associate(EntryBytes(entries[0]), ResBytes(entries[1..]), EntryBytes(e));
    }
  }

  lemma EntryIsAligned(e: ResEntry)
    ensures |EntryBytes(e)| % 4 == 0
  {
    hide Header;
  }

  /** The writer's pushes, in order. */
  lemma HeaderInOrder(before: Bytes, e: ResEntry)
    ensures before + U32(|e.payload|) + U32(32) + U16(0xFFFF) + U16(e.typeId) + U16(0xFFFF) + U16(e.id)
            + U32(0) + U16(e.flags) + U16(e.language) + U32(0) + U32(0) == before + Header(e, [])
  {
    hide U16, U32;
    var half := before + U32(|e.payload|) + U32(32) + U16(0xFFFF) + U16(e.typeId) + U16(0xFFFF) + U16(e.id);
    assert half + U32(0) + U16(e.flags) + U16(e.language) + U32(0) + U32(0) == half + HeaderTail(e, []);
    assert half + HeaderTail(e, []) == before + Header(e, []);
  }

  /** The entries pushed so far are the whole of the vector. */
  method PushEntry(out: ByteVector, e: ResEntry, ghost before: seq<ResEntry>)
    requires out.bytes == ResBytes(before)
    modifies out
    ensures out.bytes == ResBytes(before + [e])
  {
    hide U16, U32, ResBytes, Header;
    ghost var base := out.bytes;
    out.PushU32(|e.payload|);
    out.PushU32(32);
    out.PushU16(0xFFFF);
    out.PushU16(e.typeId);
    out.PushU16(0xFFFF);
    out.PushU16(e.id);
    out.PushU32(0);
    out.PushU16(e.flags);
    out.PushU16(e.language);
    out.PushU32(0);
    out.PushU32(0);
    HeaderInOrder(base, e);
    if |e.payload| != 0 { out.Append(e.payload); }
    HeaderIsFront(e, e.payload);
    assert out.bytes == base + Header(e, e.payload);
    ResBytesOfLast(before, e);
    PadAfterAligned(base, Header(e, e.payload));
    out.PadTo4();
  }

  method PushResEntry(out: ByteVector, typeId: nat, id: nat, language: nat, payload: Bytes, ghost before: seq<ResEntry>)
    requires out.bytes == ResBytes(before)
    modifies out
    ensures out.bytes == ResBytes(before + [ResEntry(typeId, id, MEMORY_FLAGS, language, payload)])
  {
    PushEntry(out, ResEntry(typeId, id, MEMORY_FLAGS, language, payload), before);
  }

  lemma {:induction false} IconEntriesOfLast(icons: seq<IconImage>, icon: IconImage, id: nat, language: nat)
    ensures IconEntries(icons + [icon], id, language) ==
            IconEntries(icons, id, language)
              + [ResEntry(RT_ICON, (id + |icons|) % 0x1_0000, MEMORY_FLAGS, language, icon.bytes)]
    decreases |icons|
  {
    if icons == [] {
      assert icons + [icon] == [icon] && [icon][1..] == [];
    } else {
      IconEntriesOfLast(icons[1..], icon, id + 1, language);
      assert (icons + [icon])[1..] == icons[1..] + [icon];
    }
  }

  lemma {:induction false} GroupOfLast(icons: seq<IconImage>, icon: IconImage, id: nat)
    ensures GroupEntries(icons + [icon], id) == GroupEntries(icons, id) + GroupEntry(icon, id + |icons|, [])
    decreases |icons|
  {
    hide GroupEntry;
    if icons == [] {
      assert icons + [icon] == [icon] && [icon][1..] == [];
      assert GroupEntries([], id + 1) == [];
    } else {
      assert (icons + [icon])[0] == icons[0];
      GroupOfLast(icons[1..], icon, id + 1);
      assert (icons + [icon])[1..] == icons[1..] + [icon];
      EntryThenMore(icons[0], id, GroupEntries(icons[1..], id + 1), GroupEntry(icon, id + |icons|, []));
    }
  }

  lemma EntryThenMore(icon: IconImage, id: nat, rest: Bytes, more: Bytes)
    ensures GroupEntry(icon, id, rest + more) == GroupEntry(icon, id, rest) + more
  {
    hide U16, U32;
  }

  method PushGroupEntry(group: ByteVector, icon: IconImage, id: nat)
    modifies group
    ensures group.bytes == old(group.bytes) + GroupEntry(icon, id, [])
  {
    hide U16, U32;
    group.Append([SideByte(icon.width)]);
    group.Append([SideByte(icon.height)]);
    group.Append([0]);
    group.Append([0]);
    group.PushU16(1);
    group.PushU16(32);
    group.PushU32(|icon.bytes|);
    group.PushU16(id);
  }

  method PushGroup(icons: seq<IconImage>) returns (bytes: Bytes)
    ensures bytes == GroupBytes(icons)
  {
    hide U16, U32, GroupEntries, GroupEntry;
    var group := new ByteVector();
    group.PushU16(0);
    group.PushU16(1);
    group.PushU16(|icons|);
    ghost var front := group.bytes;
    NoGroupEntries();
    assert icons[..0] == [];
    for i := 0 to |icons|
      invariant group.bytes == front + GroupEntries(icons[..i], 1)
    {
      PushGroupEntry(group, icons[i], i + 1);
      assert icons[..i + 1] == icons[..i] + [icons[i]];
      GroupOfLast(icons[..i], icons[i], 1);
    }
    assert icons[..|icons|] == icons;
    bytes := group.bytes;
  }

  lemma NoGroupEntries()
    ensures GroupEntries([], 1) == []
  {}

  /** Icons 1..N, then their group. */
  method PushIcons(out: ByteVector, info: AppInfoData, ghost before: seq<ResEntry>)
    requires out.bytes == ResBytes(before)
    modifies out
    ensures out.bytes == ResBytes(before + IconPart(info))
  {
    hide ResBytes, GroupBytes;
    var icons, language := info.icons, info.Language();
    if icons == [] || info.iconKind == NoIcon {
      assert before + [] == before;
      return;
    }
    ghost var done: seq<ResEntry> := [];
    assert before + done == before && icons[..0] == [];
    for i := 0 to |icons|
      invariant done == IconEntries(icons[..i], 1, language) && out.bytes == ResBytes(before + done)
    {
      PushResEntry(out, RT_ICON, (i + 1) % 0x1_0000, language, icons[i].bytes, before + done);
      ghost var e := ResEntry(RT_ICON, (i + 1) % 0x1_0000, MEMORY_FLAGS, language, icons[i].bytes);
      assert before + done + [e] == before + (done + [e]);
      assert icons[..i + 1] == icons[..i] + [icons[i]];
      IconEntriesOfLast(icons[..i], icons[i], 1, language);
      done := done + [e];
    }
    assert icons[..|icons|] == icons;
    var group := PushGroup(icons);
    PushResEntry(out, RT_GROUP_ICON, 1, language, group, before + done);
    assert before + done + [ResEntry(RT_GROUP_ICON, 1, MEMORY_FLAGS, language, group)] == before + IconPart(info);
  }

  /** The whole container, or nothing when the version resource overflows. */
  method BuildWindowsRes(info: AppInfoData, outputFileName: Bytes, manifestXml: Bytes)
    returns (bytes: Bytes, overflow: bool)
    ensures overflow <==> Overflows(info, outputFileName)
    ensures bytes == if overflow then [] else ResBytes(Resources(info, outputFileName, manifestXml))
  {
    hide ResBytes, IconPart, VersionBlocks.BlockBytes, VersionInfo.VersionTree, VersionBlocks.Fits;
    overflow := false;
    var out := new ByteVector();
    var language := info.Language();
    NoResources();
    PushEntry(out, LEADING, []);
    assert [] + [LEADING] == [LEADING];
    PushIcons(out, info, [LEADING]);
    ghost var done := [LEADING] + IconPart(info);
    if HasVersionContent(info) {
      var version;
      version, overflow := VersionInfo.BuildVersionInfo(info, outputFileName);
      if overflow { return [], overflow; }
      PushResEntry(out, RT_VERSION, 1, language, version, done);
    }
    assert done + [] == done;
    done := done + VersionPart(info, outputFileName);
    if manifestXml != [] {
      PushResEntry(out, RT_MANIFEST, 1, language, manifestXml, done);
    }
    assert done + [] == done;
    bytes := out.bytes;
  }

  lemma NoResources()
    ensures ResBytes([]) == []
  {}
}
