/** The data of an `application` declaration that the resource writers serialize; texts are UTF-8 bytes. */
module AppInfo {
  import opened Utf16
  import opened ResourceBytes

  datatype VersionData = VersionData(file: Bytes, product: Bytes, prerelease: bool, debug: bool)

  datatype IconImage = IconImage(bytes: Bytes, width: nat, height: nat)

  datatype IconKind = NoIcon | PngSet | Ico | Icns

  /** `fileType` and `language` are C++ ints. */
  datatype AppInfoData = AppInfoData(name: Bytes, identifier: Bytes, description: Bytes, company: Bytes,
                                     copyright: Bytes, version: VersionData, fileType: int,
                                     language: int, iconKind: IconKind, icons: seq<IconImage>)
  {
    /** The product version, which defaults to the file version. */
    function ProductText(): Bytes {
      if version.product == [] then version.file else version.product
    }

    /** The language as a 16-bit word. */
    function Language(): (r: nat)
      ensures r < 0x1_0000
    {
      language % 0x1_0000
    }
  }

  function Ascii(s: string): (r: Bytes)
    requires Plain(s)
    ensures |r| == |s| && (forall i | 0 <= i < |s| :: r[i] == s[i] as int) && PlainBytes(r)
  {
    seq(|s|, i requires 0 <= i < |s| => s[i] as int)
  }

  /** ASCII without NUL. */
  predicate Plain(s: string) {
    forall i | 0 <= i < |s| :: 0 < s[i] as int < 0x80
  }

  predicate PlainBytes(s: Bytes) {
    forall b | b in s :: 0 < b < 0x80
  }

  /** A plain text is its own UTF-16. */
  lemma PlainUnits(bytes: Bytes)
    requires PlainBytes(bytes)
    ensures ToUtf16(bytes) == bytes && 0 !in ToUtf16(bytes)
  {
    PlainIsEncoded(bytes);
    TranscodesScalars(bytes);
  }

  lemma {:induction false} PlainIsEncoded(bytes: Bytes)
    requires forall b | b in bytes :: 0 < b < 0x80
    ensures (forall b | b in bytes :: Scalar(b)) && EncodeUtf8(bytes) == bytes && EncodeUtf16(bytes) == bytes
  {
    if bytes != [] {
      assert bytes[0] in bytes && bytes == [bytes[0]] + bytes[1..];
      assert forall b | b in bytes[1..] :: b in bytes;
      PlainIsEncoded(bytes[1..]);
    }
  }
}
