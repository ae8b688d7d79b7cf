/** Icon containers: splitting a .ico (`SplitIco`) and the group directory made from its images. */
module IconFiles {
  import opened Utf16
  import opened ResourceBytes
  import opened AppInfo

  // ---------------------------------------------------------------------------------------------
  // Splitting an .ico
  // ---------------------------------------------------------------------------------------------

  predicate LooksLikeIco(ico: Bytes) {
    |ico| >= 6 && U16At(ico, 0) == 0 && U16At(ico, 2) == 1 && U16At(ico, 4) != 0
  }

  /** A header and a directory that lies inside the file. */
  predicate HasDirectory(ico: Bytes) {
    LooksLikeIco(ico) && 6 + U16At(ico, 4) * 16 <= |ico|
  }

  function EntryAt(i: nat): nat {
    6 + i * 16
  }

  predicate InFile(ico: Bytes, i: nat)
    requires HasDirectory(ico) && i < U16At(ico, 4)
  {
    U32At(ico, EntryAt(i) + 12) + U32At(ico, EntryAt(i) + 8) <= |ico|
  }

  /** A zero side byte means 256. */
  function Side(b: Byte): nat {
    if b == 0 then 256 else b
  }

  function ImageAt(ico: Bytes, i: nat): IconImage
    requires HasDirectory(ico) && i < U16At(ico, 4) && InFile(ico, i)
  {
    var size, offset := U32At(ico, EntryAt(i) + 8), U32At(ico, EntryAt(i) + 12);
    IconImage(ico[offset..offset + size], Side(ico[EntryAt(i)]), Side(ico[EntryAt(i) + 1]))
  }

  datatype SplitError = NoError | NotAnIco | DirectoryTooLong | ImageOutsideFile(number: nat)

  /** The first image, from the i-th on, that runs past the end of the file. */
  function FirstOutside(ico: Bytes, i: nat): (n: nat)
    requires HasDirectory(ico) && i <= U16At(ico, 4)
    ensures i <= n <= U16At(ico, 4) && (forall k | i <= k < n :: InFile(ico, k)) &&
      (n < U16At(ico, 4) ==> !InFile(ico, n))
    decreases U16At(ico, 4) - i
  {
    if i == U16At(ico, 4) || !InFile(ico, i) then i else FirstOutside(ico, i + 1)
  }

  method SplitIco(ico: Bytes) returns (images: seq<IconImage>, error: SplitError)
    ensures error.NotAnIco? <==> !LooksLikeIco(ico)
    ensures error.DirectoryTooLong? <==> LooksLikeIco(ico) && !HasDirectory(ico)
    ensures !HasDirectory(ico) ==> images == []
    ensures HasDirectory(ico) ==>
      && |images| == FirstOutside(ico, 0) && (forall k | 0 <= k < |images| :: images[k] == ImageAt(ico, k))
      && error == if |images| == U16At(ico, 4) then NoError else ImageOutsideFile(|images| + 1)
  {
    hide U16At, U32At;
    images := [];
    if !LooksLikeIco(ico) { return images, NotAnIco; }
    var count := U16At(ico, 4);
    if |ico| < 6 + count * 16 { return images, DirectoryTooLong; }
    for i := 0 to count
      invariant |images| == i && (forall k | 0 <= k < i :: InFile(ico, k) && images[k] == ImageAt(ico, k))
      invariant FirstOutside(ico, 0) == FirstOutside(ico, i)
    {
      var entry := 6 + i * 16;
      var width, height := ico[entry] as nat, ico[entry + 1] as nat;
      if width == 0 { width := 256; }
      if height == 0 { height := 256; }
      var size, offset := U32At(ico, entry + 8), U32At(ico, entry + 12);
      if offset + size > |ico| { return images, ImageOutsideFile(i + 1); }
      images := images + [IconImage(ico[offset..offset + size], width, height)];
    }
    error := NoError;
  }

  /** An .ico of these images: the header, a directory entry for each in order, and its bytes at its offset. */
  ghost predicate Packs(ico: Bytes, images: seq<IconImage>, offsets: seq<nat>) {
    && 0 < |images| == |offsets| < 65536 && 6 + 16 * |images| <= |ico|
    && ico[..6] == [0, 0, 1, 0] + U16(|images|)
    && forall k | 0 <= k < |images| :: PacksImage(ico, 6 + 16 * k, images[k], offsets[k])
  }

  /** Sides of 1 to 256, of which 256 is written as 0; the size and the offset follow. */
  ghost predicate PacksImage(ico: Bytes, at: nat, image: IconImage, offset: nat) {
    && at + 16 <= |ico| && offset + |image.bytes| <= |ico| && |image.bytes| < 0x1_0000_0000 && offset < 0x1_0000_0000
    && 1 <= image.width <= 256 && 1 <= image.height <= 256
    && ico[at] == image.width % 256 && ico[at + 1] == image.height % 256
    && ico[at + 8..at + 16] == U32(|image.bytes|) + U32(offset)
    && ico[offset..offset + |image.bytes|] == image.bytes
  }

  lemma WordIn(s: Bytes, at: nat, v: nat)
    requires at + 4 <= |s| && s[at..at + 4] == U32(v) && v < 0x1_0000_0000
    ensures U32At(s, at) == v
  {
    U32RoundTrip(v);
    var word := s[at..at + 4];
    assert word[0] == s[at] && word[1] == s[at + 1] && word[2] == s[at + 2] && word[3] == s[at + 3];
  }

  lemma HalfIn(s: Bytes, at: nat, v: nat)
    requires at + 2 <= |s| && s[at..at + 2] == U16(v) && v < 0x1_0000
    ensures U16At(s, at) == v
  {
    U16RoundTrip(v);
    var half := s[at..at + 2];
    assert half[0] == s[at] && half[1] == s[at + 1];
  }

  lemma PackedHeader(ico: Bytes, images: seq<IconImage>, offsets: seq<nat>)
    requires Packs(ico, images, offsets)
    ensures HasDirectory(ico) && U16At(ico, 4) == |images|
  {
    hide PacksImage;
    var front := ico[..6];
    assert ico[4..6] == front[4..6] == U16(|images|);
    HalfIn(ico, 4, |images|);
    assert forall k | 0 <= k < 4 :: ico[k] == front[k] == [0, 0, 1, 0][k];
  }

  lemma PackedEntry(ico: Bytes, images: seq<IconImage>, offsets: seq<nat>, k: nat)
    requires Packs(ico, images, offsets) && HasDirectory(ico) && U16At(ico, 4) == |images| && k < |images|
    ensures InFile(ico, k) && ImageAt(ico, k) == images[k]
  {
    hide U32At, U32, U16, U16At;
    var at := EntryAt(k);
    assert PacksImage(ico, 6 + 16 * k, images[k], offsets[k]);
    var words := ico[at + 8..at + 16];
    assert ico[at + 8..at + 12] == words[..4] == U32(|images[k].bytes|);
    assert ico[at + 12..at + 16] == words[4..] == U32(offsets[k]);
    WordIn(ico, at + 8, |images[k].bytes|);
    WordIn(ico, at + 12, offsets[k]);
  }

  /** Splitting an .ico gives back the images it was made of, in order. */
  lemma SplitsWhatIsPacked(ico: Bytes, images: seq<IconImage>, offsets: seq<nat>)
    requires Packs(ico, images, offsets)
    ensures HasDirectory(ico) && FirstOutside(ico, 0) == |images| == U16At(ico, 4)
    ensures forall k | 0 <= k < |images| :: ImageAt(ico, k) == images[k]
  {
    PackedHeader(ico, images, offsets);
    hide Packs, InFile, ImageAt, HasDirectory, U16At;
    forall k | 0 <= k < |images|
      ensures InFile(ico, k) && ImageAt(ico, k) == images[k]
    {
      PackedEntry(ico, images, offsets, k);
    }
  }

  // ---------------------------------------------------------------------------------------------
  // The group directory
  // ---------------------------------------------------------------------------------------------

  /** A side of 256 or more is written as zero. */
  function SideByte(side: nat): Byte {
    if side >= 256 then 0 else side
  }

  /** One directory entry, and what follows it. */
  function GroupEntry(icon: IconImage, id: nat, rest: Bytes): Bytes {
    [SideByte(icon.width), SideByte(icon.height), 0, 0] + (U16(1) + (U16(32) + (U32(|icon.bytes|) + (U16(id) + rest))))
  }

  function GroupEntries(icons: seq<IconImage>, id: nat): Bytes {
    if icons == [] then [] else GroupEntry(icons[0], id, GroupEntries(icons[1..], id + 1))
  }

  function GroupBytes(icons: seq<IconImage>): Bytes {
    U16(0) + (U16(1) + (U16(|icons|) + GroupEntries(icons, 1)))
  }

  /** An image as the group lists it, with its color planes and bits per pixel. */
  datatype GroupIcon = GroupIcon(width: Byte, height: Byte, planes: nat, bits: nat, size: nat, id: nat)

  function FirstEntry(s: Bytes): GroupIcon
    requires |s| >= 14
  {
    var s1 := s[4..];
    var s2 := s1[2..];
    var s3 := s2[2..];
    GroupIcon(s[0], s[1], U16At(s1, 0), U16At(s2, 0), U32At(s3, 0), U16At(s3[4..], 0))
  }

  function ReadGroupEntries(s: Bytes): seq<GroupIcon> {
    if |s| < 14 then [] else [FirstEntry(s)] + ReadGroupEntries(s[14..])
  }

  /** The image count and the entries. */
  function ReadGroup(s: Bytes): (nat, seq<GroupIcon>)
    requires |s| >= 6
  {
    (U16At(s[2..][2..], 0), ReadGroupEntries(s[2..][2..][2..]))
  }

  lemma Next16(v: nat, rest: Bytes)
    ensures U16At(U16(v) + rest, 0) == v % 0x1_0000 && (U16(v) + rest)[2..] == rest
  {
    U16RoundTrip(v);
  }

  lemma Next32(v: nat, rest: Bytes)
    ensures U32At(U32(v) + rest, 0) == v % 0x1_0000_0000 && (U32(v) + rest)[4..] == rest
  {
    hide U32At;
    U32AtIn([], v, rest);
    assert [] + U32(v) + rest == U32(v) + rest;
  }

  /** How an image is listed: a full-color one of a single plane. */
  function ListedAs(icon: IconImage, id: nat): GroupIcon {
    GroupIcon(SideByte(icon.width), SideByte(icon.height), 1, 32, |icon.bytes| % 0x1_0000_0000, id % 0x1_0000)
  }

  function GroupIcons(icons: seq<IconImage>, id: nat): seq<GroupIcon> {
    if icons == [] then [] else [ListedAs(icons[0], id)] + GroupIcons(icons[1..], id + 1)
  }

  lemma FirstEntryIs(icon: IconImage, id: nat, rest: Bytes, s: Bytes)
    requires s == GroupEntry(icon, id, rest)
    ensures |s| == 14 + |rest| && FirstEntry(s) == ListedAs(icon, id) && s[14..] == rest
  {
    hide U16, U32, U16At, U32At, SideByte;
    var s4 := U16(id) + rest;
    var s3 := U32(|icon.bytes|) + s4;
    var s2 := U16(32) + s3;
    var s1 := U16(1) + s2;
    assert s[4..] == s1;
    Next16(1, s2);
    Next16(32, s3);
    Next32(|icon.bytes|, s4);
    Next16(id, rest);
  }

  lemma {:induction false} ReadsGroupEntries(icons: seq<IconImage>, id: nat)
    ensures ReadGroupEntries(GroupEntries(icons, id)) == GroupIcons(icons, id)
    decreases |icons|
  {
    if icons != [] {
      ReadsGroupEntries(icons[1..], id + 1);
      FirstEntryIs(icons[0], id, GroupEntries(icons[1..], id + 1), GroupEntries(icons, id));
    }
  }

  lemma ReadsGroup(icons: seq<IconImage>)
    ensures |GroupBytes(icons)| >= 6
    ensures ReadGroup(GroupBytes(icons)) == (|icons| % 0x1_0000, GroupIcons(icons, 1))
  {
    hide U16, U16At;
    Next16(0, U16(1) + (U16(|icons|) + GroupEntries(icons, 1)));
    Next16(1, U16(|icons|) + GroupEntries(icons, 1));
    Next16(|icons|, GroupEntries(icons, 1));
    ReadsGroupEntries(icons, 1);
  }

  lemma GroupStarts(icons: seq<IconImage>)
    ensures |GroupBytes(icons)| >= 6 && GroupBytes(icons)[..4] == [0, 0, 1, 0]
  {
    hide GroupEntries;
    assert U16(0) == [0, 0] && U16(1) == [1, 0];
  }

  lemma {:induction false} GroupIconAt(icons: seq<IconImage>, id: nat, k: nat)
    requires k < |icons|
    ensures |GroupIcons(icons, id)| == |icons|
    ensures GroupIcons(icons, id)[k] ==
      GroupIcon(SideByte(icons[k].width), SideByte(icons[k].height), 1, 32, |icons[k].bytes| % 0x1_0000_0000,
        (id + k) % 0x1_0000)
    decreases |icons|
  {
    if |icons| > 1 { GroupIconAt(icons[1..], id + 1, if k > 0 then k - 1 else 0); }
  }

  lemma DirectoryEntryKept(ico: Bytes, k: nat, image: IconImage)
    requires HasDirectory(ico) && k < U16At(ico, 4) && InFile(ico, k) && image == ImageAt(ico, k)
    ensures SideByte(image.width) == ico[EntryAt(k)] && SideByte(image.height) == ico[EntryAt(k) + 1]
    ensures |image.bytes| == U32At(ico, EntryAt(k) + 8) == |image.bytes| % 0x1_0000_0000
  {}

  /** The group directory of a split .ico repeats its directory: side bytes, sizes, and consecutive ids, in order. */
  lemma GroupRepeatsDirectory(ico: Bytes, images: seq<IconImage>)
    requires HasDirectory(ico) && FirstOutside(ico, 0) == |images| == U16At(ico, 4)
    requires forall k | 0 <= k < |images| :: images[k] == ImageAt(ico, k)
    ensures |GroupBytes(images)| >= 6 && GroupBytes(images)[..4] == [0, 0, 1, 0]
    ensures var (count, icons) := ReadGroup(GroupBytes(images));
      && count == U16At(ico, 4) == |icons|
      && forall k | 0 <= k < count ::
           icons[k] == GroupIcon(ico[EntryAt(k)], ico[EntryAt(k) + 1], 1, 32, U32At(ico, EntryAt(k) + 8), k + 1)
  {
    hide U16At, U32At, ReadGroup, GroupBytes;
    ReadsGroup(images);
    GroupStarts(images);
    forall k | 0 <= k < |images|
      ensures |GroupIcons(images, 1)| == |images| && GroupIcons(images, 1)[k] ==
        GroupIcon(ico[EntryAt(k)], ico[EntryAt(k) + 1], 1, 32, U32At(ico, EntryAt(k) + 8), k + 1)
    {
      GroupIconAt(images, 1, k);
      DirectoryEntryKept(ico, k, images[k]);
      assert (1 + k) % 0x1_0000 == k + 1;
    }
    GroupIconAt(images, 1, 0);
  }
}
