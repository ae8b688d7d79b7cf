/** What the built application resources tell a reader, field by field and name by name. */
module ResourceMeaning {
  import opened Wrappers
  import opened Utf16
  import opened ResourceBytes
  import opened AppInfo
  import VersionQuad
  import VersionBlocks
  import V = VersionInfo
  import W = WindowsRes
  import IconFiles
  import I = IcnsFile
  import P = InfoPlist

  // ---------------------------------------------------------------------------------------------
  // The version resource
  // ---------------------------------------------------------------------------------------------

  ghost predicate Spells(bytes: seq<int>, name: string) {
    |bytes| == |name| && forall i | 0 <= i < |name| :: bytes[i] == name[i] as int
  }

  /** The string the resource gives under a name: the text as UTF-16, none when the text is empty. */
  ghost predicate Says(content: V.VersionContent, name: string, text: Bytes) {
    forall key, value | Spells(key, name) ::
      (key, value) in content.strings <==> text != [] && value == ToUtf16(text)
  }

  lemma {:induction false} StringsHave(entries: seq<V.Entry>, key: Bytes, value: seq<Unit>)
    ensures (key, value) in V.Strings(entries) <==>
            exists e :: e in entries && e.key == key && e.value != [] && value == ToUtf16(e.value)
  {
    hide ToUtf16;
    if entries != [] {
      StringsHave(entries[1..], key, value);
      assert forall e :: e in entries <==> e == entries[0] || e in entries[1..];
    }
  }

  ghost predicate KeysDiffer(entries: seq<V.Entry>) {
    forall i, j | 0 <= i < j < |entries| :: entries[i].key != entries[j].key
  }

  lemma NamesOne(entries: seq<V.Entry>, content: V.VersionContent, name: string, i: nat)
    requires content.strings == V.Strings(entries) && KeysDiffer(entries)
    requires i < |entries| && Spells(entries[i].key, name)
    ensures Says(content, name, entries[i].value)
  {
    hide V.Strings, ToUtf16;
    forall key, value | Spells(key, name)
      ensures (key, value) in content.strings <==> entries[i].value != [] && value == ToUtf16(entries[i].value)
    {
      assert key == entries[i].key;
      HasOne(entries, i, value);
    }
  }

  lemma HasOne(entries: seq<V.Entry>, i: nat, value: seq<Unit>)
    requires i < |entries| && KeysDiffer(entries)
    ensures (entries[i].key, value) in V.Strings(entries) <==>
            entries[i].value != [] && value == ToUtf16(entries[i].value)
  {
    hide V.Strings, ToUtf16;
    StringsHave(entries, entries[i].key, value);
    if e :| e in entries && e.key == entries[i].key && e.value != [] && value == ToUtf16(e.value) {
      var j :| 0 <= j < |entries| && entries[j] == e;
      assert !(i < j) && !(j < i);
    }
  }

  lemma VersionKeysDiffer(info: AppInfoData, file: Bytes)
    ensures KeysDiffer(V.Entries(info, file))
  {
    hide Ascii;
    var shape := map[0 := (11, 'C'), 1 := (15, 'F'), 2 := (11, 'F'), 3 := (12, 'I'), 4 := (14, 'L'), 5 := (16, 'O'),
                     6 := (11, 'P'), 7 := (14, 'P')];
    var entries := V.Entries(info, file);
    assert |entries| == 8;
    forall i | 0 <= i < 8
      ensures |entries[i].key| == shape[i].0 && entries[i].key[0] == shape[i].1 as int
    {}
  }

  function TwoParts(high: nat, low: nat): nat {
    high * 65536 + low
  }

  /** The fixed part: signature and format, both versions as four 16-bit parts, the flags, Windows, the file type. */
  ghost predicate FixedPartIs(words: seq<nat>, info: AppInfoData) {
    var file := VersionQuad.Quad(VersionQuad.Split(info.version.file));
    var product := VersionQuad.Quad(VersionQuad.Split(
      if info.version.product == [] then info.version.file else info.version.product));
    && |words| == 13 && words[0] == 0xFEEF04BD && words[1] == 0x10000
    && words[2] == TwoParts(file[0], file[1]) && words[3] == TwoParts(file[2], file[3])
    && words[4] == TwoParts(product[0], product[1]) && words[5] == TwoParts(product[2], product[3])
    && words[6] == 0x3F && words[7] < 4
    && (words[7] % 2 == 1 <==> info.version.debug) && (words[7] / 2 == 1 <==> info.version.prerelease)
    && words[8] == 0x40004 && words[9] == info.fileType % 0x1_0000_0000
    && words[10] == words[11] == words[12] == 0
  }

  ghost predicate StringsAre(content: V.VersionContent, info: AppInfoData, file: Bytes) {
    && Says(content, "CompanyName", info.company) && Says(content, "FileDescription", info.description)
    && Says(content, "FileVersion", info.version.file) && Says(content, "InternalName", info.identifier)
    && Says(content, "LegalCopyright", info.copyright) && Says(content, "OriginalFilename", file)
    && Says(content, "ProductName", info.name)
    && Says(content, "ProductVersion",
            if info.version.product == [] then info.version.file else info.version.product)
  }

  /** Unless it overflows, the version resource that is read back says what was declared, each under its name. */
  lemma VersionIsDeclared(info: AppInfoData, file: Bytes)
    requires VersionBlocks.Fits(V.VersionTree(info, file))
    ensures var read := V.ReadVersionInfo(VersionBlocks.BlockBytes(V.VersionTree(info, file)));
      && read.Some? && FixedPartIs(read.value.fixedWords, info) && StringsAre(read.value, info, file)
      && read.value.language == info.language % 65536 && read.value.codePage == 1200
  {
    hide VersionBlocks.BlockBytes, V.VersionTree, VersionBlocks.Fits, V.ReadVersionInfo, StringsAre, FixedPartIs;
    V.ReadsBack(info, file);
    FixedPart(info);
    TableStrings(info, file, V.Expected(info, file));
  }

  lemma FixedPart(info: AppInfoData)
    ensures FixedPartIs(V.FixedWords(info), info)
  {
    hide VersionQuad.Quad, VersionQuad.Split;
  }

  lemma TableStrings(info: AppInfoData, file: Bytes, content: V.VersionContent)
    requires content.strings == V.Strings(V.Entries(info, file))
    ensures StringsAre(content, info, file)
  {
    VersionKeysDiffer(info, file);
    VersionKeysSpell(info, file);
    hide Says, Spells, V.Strings, KeysDiffer, Ascii;
    var entries := V.Entries(info, file);
    NamesOne(entries, content, "CompanyName", 0);
    NamesOne(entries, content, "FileDescription", 1);
    NamesOne(entries, content, "FileVersion", 2);
    NamesOne(entries, content, "InternalName", 3);
    NamesOne(entries, content, "LegalCopyright", 4);
    NamesOne(entries, content, "OriginalFilename", 5);
    NamesOne(entries, content, "ProductName", 6);
    NamesOne(entries, content, "ProductVersion", 7);
  }

  lemma VersionKeysSpell(info: AppInfoData, file: Bytes)
    ensures var entries := V.Entries(info, file);
      && Spells(entries[0].key, "CompanyName") && Spells(entries[1].key, "FileDescription")
      && Spells(entries[2].key, "FileVersion") && Spells(entries[3].key, "InternalName")
      && Spells(entries[4].key, "LegalCopyright") && Spells(entries[5].key, "OriginalFilename")
      && Spells(entries[6].key, "ProductName") && Spells(entries[7].key, "ProductVersion")
  {
    hide Ascii;
  }

  /** The blocks a version resource must hold are named as the format asks, the table after language and code page. */
  lemma TreeIsNamed(info: AppInfoData, file: Bytes)
    ensures var root := V.VersionTree(info, file);
      && |root.children| == 2 && |root.children[0].children| == 1 && |root.children[1].children| == 1
      && Spells(root.key, "VS_VERSION_INFO") && Spells(root.children[0].key, "StringFileInfo")
      && root.children[0].children[0].key == V.Hex(info.language % 65536) + [0x30, 0x34, 0x42, 0x30]
      && Spells(root.children[1].key, "VarFileInfo") && Spells(root.children[1].children[0].key, "Translation")
  {
    hide V.FixedWords, V.StringBlocks, V.Hex, ToUtf16, Ascii;
    V.KeysArePlain(info, file);
    PlainUnits(V.VS_VERSION_INFO);
    PlainUnits(V.STRING_FILE_INFO);
    PlainUnits(V.VAR_FILE_INFO);
    PlainUnits(V.TRANSLATION);
    PlainUnits(V.TableKey(info));
    assert V.CODE_PAGE_TEXT == [0x30, 0x34, 0x42, 0x30];
  }

  // ---------------------------------------------------------------------------------------------
  // The resource container
  // ---------------------------------------------------------------------------------------------

  /** An entry as the container lists it: any resource may be moved and discarded, and has the language. */
  ghost predicate IsResource(e: W.ResEntry, kind: nat, id: nat, info: AppInfoData, payload: Bytes) {
    e == W.ResEntry(kind, id, 0x30, info.language % 65536, payload)
  }

  ghost predicate IsIcon(e: W.ResEntry, info: AppInfoData) {
    exists i :: 0 <= i < |info.icons| && IsResource(e, 3, (i + 1) % 65536, info, info.icons[i].bytes)
  }

  lemma {:induction false} IconEntriesAre(icons: seq<IconImage>, id: nat, language: nat)
    ensures var entries := W.IconEntries(icons, id, language);
      |entries| == |icons| && forall i: nat | i < |icons| ::
        entries[i] == W.ResEntry(3, (id + i) % 65536, 0x30, language, icons[i].bytes)
    decreases |icons|
  {
    if icons != [] {
      IconEntriesAre(icons[1..], id + 1, language);
      var entries := W.IconEntries(icons, id, language);
      forall i: nat | i < |icons|
        ensures entries[i] == W.ResEntry(3, (id + i) % 65536, 0x30, language, icons[i].bytes)
      {
        if i > 0 {
          assert entries[i] == W.IconEntries(icons[1..], id + 1, language)[i - 1];
          assert id + 1 + (i - 1) == id + i;
        }
      }
    }
  }

  ghost predicate DescribesIt(info: AppInfoData) {
    exists text :: text in [info.name, info.identifier, info.description, info.company, info.copyright,
                            info.version.file, info.version.product] && text != []
  }

  /**
   The container holds the empty entry, icon i+1 for image i and the group under 1 when there are icons, the
   version under 1 when there is anything to say, the manifest under 1 when there is one, and nothing else.
   */
  lemma ContainerHolds(info: AppInfoData, file: Bytes, manifest: Bytes, e: W.ResEntry)
    ensures e in W.Resources(info, file, manifest) <==>
            || e == W.ResEntry(0, 0, 0, 0, [])
            || (!info.iconKind.NoIcon? && IsIcon(e, info))
            || (&& !info.iconKind.NoIcon? && info.icons != []
                && IsResource(e, 14, 1, info, IconFiles.GroupBytes(info.icons)))
            || (DescribesIt(info) && IsResource(e, 16, 1, info, VersionBlocks.BlockBytes(V.VersionTree(info, file))))
            || (manifest != [] && IsResource(e, 24, 1, info, manifest))
  {
    hide VersionBlocks.BlockBytes, V.VersionTree, IconFiles.GroupBytes, W.IconEntries;
    DescribesIff(info);
    IconIs(e, info);
    assert info.icons == [] ==> !IsIcon(e, info);
    hide DescribesIt, W.HasVersionContent, IsIcon;
  }

  lemma IconIs(e: W.ResEntry, info: AppInfoData)
    ensures IsIcon(e, info) <==> e in W.IconEntries(info.icons, 1, info.Language())
  {
    var entries := W.IconEntries(info.icons, 1, info.Language());
    IconEntriesAre(info.icons, 1, info.Language());
    hide W.IconEntries;
    if e in entries {
      var i: nat :| i < |entries| && entries[i] == e;
      assert IsResource(e, 3, (i + 1) % 65536, info, info.icons[i].bytes);
    }
    if IsIcon(e, info) {
      var i :| 0 <= i < |info.icons| && IsResource(e, 3, (i + 1) % 65536, info, info.icons[i].bytes);
      assert e == entries[i];
    }
  }

  lemma DescribesIff(info: AppInfoData)
    ensures DescribesIt(info) <==> W.HasVersionContent(info)
  {
    var texts := [info.name, info.identifier, info.description, info.company, info.copyright,
                  info.version.file, info.version.product];
    assert forall i | 0 <= i < 7 :: texts[i] in texts;
    assert texts[0] == info.name && texts[1] == info.identifier && texts[2] == info.description
           && texts[3] == info.company && texts[4] == info.copyright && texts[5] == info.version.file
           && texts[6] == info.version.product;
  }

  // ---------------------------------------------------------------------------------------------
  // The icon container
  // ---------------------------------------------------------------------------------------------

  /** The width of the image a chunk type is for, from the type's own name. */
  function WidthOf(kind: string): Option<nat> {
    if kind == "icp4" then Some(16)
    else if kind == "icp5" || kind == "ic11" then Some(32)
    else if kind == "ic12" then Some(64)
    else if kind == "ic07" then Some(128)
    else if kind == "ic08" || kind == "ic13" then Some(256)
    else if kind == "ic09" || kind == "ic14" then Some(512)
    else if kind == "ic10" then Some(1024)
    else None
  }

  /** A chunk type stands for the first image of its width. */
  ghost predicate ShowsFirst(icons: seq<IconImage>, kind: string, payload: Bytes) {
    exists i :: 0 <= i < |icons| && icons[i].bytes == payload && WidthOf(kind) == Some(icons[i].width)
                && forall j | 0 <= j < i :: icons[j].width != icons[i].width
  }

  lemma {:induction false} FirstOfWidthIs(icons: seq<IconImage>, width: nat)
    ensures match I.FirstOfWidth(icons, width)
      case Some(image) => exists i :: 0 <= i < |icons| && icons[i] == image && image.width == width
                                      && forall j | 0 <= j < i :: icons[j].width != width
      case None => forall i | 0 <= i < |icons| :: icons[i].width != width
  {
    if icons != [] && icons[0].width != width {
      FirstOfWidthIs(icons[1..], width);
      assert forall j | 0 < j < |icons| :: icons[j] == icons[1..][j - 1];
      if I.FirstOfWidth(icons, width).Some? {
        var i :| 0 <= i < |icons[1..]| && icons[1..][i] == I.FirstOfWidth(icons, width).value
                 && forall j | 0 <= j < i :: icons[1..][j].width != width;
        assert icons[i + 1] == icons[1..][i];
      }
    }
  }

  lemma KindNames(slot: I.IconSlot, kind: Bytes) returns (name: string)
    requires slot in I.SLOTS && kind in slot.kinds
    ensures Spells(kind, name) && WidthOf(name) == Some(slot.size)
  {
    hide Ascii;
    name := [kind[0] as char, kind[1] as char, kind[2] as char, kind[3] as char];
  }

  lemma NamesKind(name: string) returns (slot: I.IconSlot, kind: Bytes)
    requires WidthOf(name).Some?
    ensures slot in I.SLOTS && slot.size == WidthOf(name).value && kind in slot.kinds && Spells(kind, name)
  {
    hide Ascii;
    var i := match WidthOf(name).value
      case 16 => 0 case 32 => 1 case 64 => 2 case 128 => 3 case 256 => 4 case 512 => 5 case _ => 6;
    slot := I.SLOTS[i];
    kind := slot.kinds[if name == "ic11" || name == "ic13" || name == "ic14" then 1 else 0];
  }

  /**
   The container of a set of images has, under each chunk type that shows a width, the first image of that
   width, and nothing else.
   */
  lemma IcnsShows(icons: seq<IconImage>, c: I.Chunk)
    ensures c in I.Chunks(icons, I.SLOTS) <==>
            exists name :: Spells(c.kind, name) && ShowsFirst(icons, name, c.payload)
  {
    hide I.SLOTS, I.Chunks, WidthOf, ShowsFirst;
    I.ChunksHave(icons, I.SLOTS, c);
    if slot :| slot in I.SLOTS && c.kind in slot.kinds && I.FirstOfWidth(icons, slot.size).Some? &&
               c.payload == I.FirstOfWidth(icons, slot.size).value.bytes {
      var name := KindNames(slot, c.kind);
      FirstIsShown(icons, name, slot.size, c.payload);
    }
    if name :| Spells(c.kind, name) && ShowsFirst(icons, name, c.payload) {
      ShownIsFirst(icons, name, c.payload);
      var slot, kind := NamesKind(name);
      assert kind == c.kind;
    }
  }

  lemma FirstIsShown(icons: seq<IconImage>, name: string, width: nat, payload: Bytes)
    requires WidthOf(name) == Some(width) && I.FirstOfWidth(icons, width).Some?
    requires payload == I.FirstOfWidth(icons, width).value.bytes
    ensures ShowsFirst(icons, name, payload)
  {
    hide WidthOf;
    FirstOfWidthIs(icons, width);
  }

  lemma ShownIsFirst(icons: seq<IconImage>, name: string, payload: Bytes)
    requires ShowsFirst(icons, name, payload)
    ensures WidthOf(name).Some?
    ensures var image := I.FirstOfWidth(icons, WidthOf(name).value); image.Some? && image.value.bytes == payload
  {
    hide WidthOf;
    var i :| 0 <= i < |icons| && icons[i].bytes == payload && WidthOf(name) == Some(icons[i].width)
             && forall j | 0 <= j < i :: icons[j].width != icons[i].width;
    FirstOfWidthIs(icons, icons[i].width);
  }

  /** A container begins with its type. */
  lemma IcnsIsNamed(info: AppInfoData)
    requires info.iconKind == PngSet && I.Icns(info) != []
    ensures |I.Icns(info)| >= 8 && Spells(I.Icns(info)[..4], "icns")
  {
    hide I.Chunks, Ascii;
    assert I.Icns(info)[..4] == I.MAGIC;
  }

  // ---------------------------------------------------------------------------------------------
  // The property list
  // ---------------------------------------------------------------------------------------------

  /** The pair a property list gives under a key: none when the text is empty. */
  ghost predicate Gives(pairs: seq<P.Pair>, name: string, text: Bytes) {
    forall key: Bytes, value | Spells(key, name) :: P.Pair(key, value) in pairs <==> text != [] && value == text
  }

  lemma {:induction false} NonEmptyHave(pairs: seq<P.Pair>, p: P.Pair)
    ensures p in P.NonEmpty(pairs) <==> p in pairs && p.value != []
  {
    if pairs != [] { NonEmptyHave(pairs[1..], p); }
  }

  ghost predicate PairKeysDiffer(pairs: seq<P.Pair>) {
    forall i, j | 0 <= i < j < |pairs| :: pairs[i].key != pairs[j].key
  }

  lemma GivesOne(pairs: seq<P.Pair>, name: string, i: nat)
    requires PairKeysDiffer(pairs) && i < |pairs| && Spells(pairs[i].key, name)
    ensures Gives(P.NonEmpty(pairs), name, pairs[i].value)
  {
    hide P.NonEmpty;
    forall key: Bytes, value | Spells(key, name)
      ensures P.Pair(key, value) in P.NonEmpty(pairs) <==> pairs[i].value != [] && value == pairs[i].value
    {
      assert key == pairs[i].key;
      HasOnePair(pairs, i, value);
    }
  }

  lemma HasOnePair(pairs: seq<P.Pair>, i: nat, value: Bytes)
    requires i < |pairs| && PairKeysDiffer(pairs)
    ensures P.Pair(pairs[i].key, value) in P.NonEmpty(pairs) <==> pairs[i].value != [] && value == pairs[i].value
  {
    hide P.NonEmpty;
    var p := P.Pair(pairs[i].key, value);
    NonEmptyHave(pairs, p);
    if p in pairs {
      var j :| 0 <= j < |pairs| && pairs[j] == p;
      assert !(i < j) && !(j < i);
    }
    if value == pairs[i].value { assert pairs[i] == p; }
  }

  lemma NoneGiven(pairs: seq<P.Pair>, name: string)
    requires forall p | p in pairs :: !Spells(p.key, name)
    ensures Gives(P.NonEmpty(pairs), name, [])
  {
    hide P.NonEmpty, Spells;
    forall key: Bytes, value | Spells(key, name)
      ensures P.Pair(key, value) !in P.NonEmpty(pairs)
    {
      NonEmptyHave(pairs, P.Pair(key, value));
    }
  }

  /** What a bundle's property list says of its files and names, each under its key. */
  ghost predicate SaysFiles(pairs: seq<P.Pair>, info: AppInfoData, executable: Bytes, icon: bool) {
    && Gives(pairs, "CFBundleExecutable", executable)
    && Gives(pairs, "CFBundleIconFile", if icon then executable + Ascii(".icns") else [])
    && Gives(pairs, "CFBundleIdentifier", info.identifier) && Gives(pairs, "CFBundleName", info.name)
    && Gives(pairs, "CFBundlePackageType", Ascii("APPL"))
  }

  /** Likewise of its versions and copyright. */
  ghost predicate SaysVersions(pairs: seq<P.Pair>, info: AppInfoData, minimum: Bytes) {
    && Gives(pairs, "CFBundleShortVersionString",
             if info.version.product == [] then info.version.file else info.version.product)
    && Gives(pairs, "CFBundleVersion", info.version.file) && Gives(pairs, "LSMinimumSystemVersion", minimum)
    && Gives(pairs, "NSHumanReadableCopyright", info.copyright)
  }

  /** The lengths and tenth letters of the keys tell them apart. */
  lemma BundleKeysDiffer(info: AppInfoData, executable: Bytes, minimum: Bytes, icon: bool)
    ensures PairKeysDiffer(P.Pairs(info, executable, minimum, icon))
    ensures !icon ==> forall p | p in P.Pairs(info, executable, minimum, icon) :: !Spells(p.key, "CFBundleIconFile")
  {
    hide Ascii;
    var lengths := if icon then [18, 16, 18, 12, 19, 26, 15, 22, 24] else [18, 18, 12, 19, 26, 15, 22, 24];
    var pairs := P.Pairs(info, executable, minimum, icon);
    assert |pairs| == |lengths|;
    forall i | 0 <= i < |lengths|
      ensures |pairs[i].key| == lengths[i]
    {}
    var second := if icon then 2 else 1;
    assert pairs[0].key[9] == 'x' as int && pairs[second].key[9] == 'd' as int;
  }

  lemma BundleKeysSpell(info: AppInfoData, executable: Bytes, minimum: Bytes, icon: bool)
    ensures var pairs, k := P.Pairs(info, executable, minimum, icon), if icon then 1 else 0;
      && Spells(pairs[0].key, "CFBundleExecutable") && (icon ==> Spells(pairs[1].key, "CFBundleIconFile"))
      && Spells(pairs[k + 1].key, "CFBundleIdentifier") && Spells(pairs[k + 2].key, "CFBundleName")
      && Spells(pairs[k + 3].key, "CFBundlePackageType")
  {
    hide Ascii;
  }

  lemma VersionPairsSpell(info: AppInfoData, executable: Bytes, minimum: Bytes, icon: bool)
    ensures var pairs, k := P.Pairs(info, executable, minimum, icon), if icon then 1 else 0;
      && Spells(pairs[k + 4].key, "CFBundleShortVersionString") && Spells(pairs[k + 5].key, "CFBundleVersion")
      && Spells(pairs[k + 6].key, "LSMinimumSystemVersion") && Spells(pairs[k + 7].key, "NSHumanReadableCopyright")
  {
    hide Ascii;
  }

  lemma FilesAreSaid(pairs: seq<P.Pair>, info: AppInfoData, executable: Bytes, minimum: Bytes, icon: bool)
    requires pairs == P.Pairs(info, executable, minimum, icon)
    ensures SaysFiles(P.NonEmpty(pairs), info, executable, icon)
  {
    BundleKeysDiffer(info, executable, minimum, icon);
    BundleKeysSpell(info, executable, minimum, icon);
    hide P.NonEmpty, Gives, Spells, PairKeysDiffer, Ascii;
    var k := if icon then 1 else 0;
    GivesOne(pairs, "CFBundleExecutable", 0);
    if icon { GivesOne(pairs, "CFBundleIconFile", 1); } else { NoneGiven(pairs, "CFBundleIconFile"); }
    GivesOne(pairs, "CFBundleIdentifier", k + 1);
    GivesOne(pairs, "CFBundleName", k + 2);
    GivesOne(pairs, "CFBundlePackageType", k + 3);
  }

  lemma VersionsAreSaid(pairs: seq<P.Pair>, info: AppInfoData, executable: Bytes, minimum: Bytes, icon: bool)
    requires pairs == P.Pairs(info, executable, minimum, icon)
    ensures SaysVersions(P.NonEmpty(pairs), info, minimum)
  {
    BundleKeysDiffer(info, executable, minimum, icon);
    VersionPairsSpell(info, executable, minimum, icon);
    hide P.NonEmpty, Gives, Spells, PairKeysDiffer, Ascii;
    var k := if icon then 1 else 0;
    GivesOne(pairs, "CFBundleShortVersionString", k + 4);
    GivesOne(pairs, "CFBundleVersion", k + 5);
    GivesOne(pairs, "LSMinimumSystemVersion", k + 6);
    GivesOne(pairs, "NSHumanReadableCopyright", k + 7);
  }

  /** The property list that is read back says what the bundle declares, each under its key. */
  lemma BundleIsDeclared(info: AppInfoData, executable: Bytes, minimum: Bytes, icon: bool)
    ensures var read := P.ReadPlist(P.PlistBytes(P.Pairs(info, executable, minimum, icon)));
      read.Some? && SaysFiles(read.value, info, executable, icon) && SaysVersions(read.value, info, minimum)
  {
    hide P.ReadPlist, P.PlistBytes, P.NonEmpty, SaysFiles, SaysVersions;
    var pairs := P.Pairs(info, executable, minimum, icon);
    P.ReadsPlist(pairs);
    FilesAreSaid(pairs, info, executable, minimum, icon);
    VersionsAreSaid(pairs, info, executable, minimum, icon);
  }
}
