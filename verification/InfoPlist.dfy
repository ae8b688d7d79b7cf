/** The Info.plist writer (`BuildInfoPlist`): escaped key/value pairs between fixed tags, and a reader for them. */
module InfoPlist {
  import opened Wrappers
  import opened Utf16
  import opened ResourceBytes
  import opened AppInfo

  datatype Pair = Pair(key: Bytes, value: Bytes)

  const AMP: Byte := 0x26
  const LT: Byte := 0x3C
  const GT: Byte := 0x3E
  const QUOT: Byte := 0x22
  const APOS: Byte := 0x27

  const HEADER := Ascii("<?xml version=\"1.0\" encoding=\"UTF-8\"?>\n")
  const DOCTYPE := Ascii("<!DOCTYPE plist PUBLIC ") + Ascii("\"-//Apple//DTD PLIST 1.0//EN\" ")
                   + Ascii("\"http://www.apple.com/DTDs/") + Ascii("PropertyList-1.0.dtd\">\n")
  const OPEN := Ascii("<plist version=\"1.0\">\n<dict>\n")
  const CLOSE := Ascii("</dict>\n</plist>\n")
  const KEY := Ascii("\t<key>")
  const KEY_TO_STRING := Ascii("</key>\n\t<string>")
  const STRING_END := Ascii("</string>\n")

  // ---------------------------------------------------------------------------------------------
  // Escaping
  // ---------------------------------------------------------------------------------------------

  /** No angle bracket and no quote. */
  predicate NoMarkup(s: Bytes) {
    '<' as int !in s && '>' as int !in s && '\"' as int !in s && '\'' as int !in s
  }

  /** The predefined entities of section 4.6 of XML 1.0; any other byte stands for itself. */
  function Escaped(b: Byte): (r: Bytes)
    ensures r != [] && LT !in r && NoMarkup(r)
  {
    if b == AMP then [AMP, 0x61, 0x6D, 0x70, 0x3B]
    else if b == LT then [AMP, 0x6C, 0x74, 0x3B]
    else if b == GT then [AMP, 0x67, 0x74, 0x3B]
    else if b == QUOT then [AMP, 0x71, 0x75, 0x6F, 0x74, 0x3B]
    else if b == APOS then [AMP, 0x61, 0x70, 0x6F, 0x73, 0x3B]
    else [b]
  }

  function Escape(text: Bytes): (r: Bytes)
    ensures LT !in r && NoMarkup(r)
  {
    if text == [] then [] else Escaped(text[0]) + Escape(text[1..])
  }

  /** The character at the front and the bytes it takes; none when an ampersand starts no known entity. */
  function Character(s: Bytes): (r: Option<(Byte, nat)>)
    requires s != []
    ensures r.Some? ==> 0 < r.value.1 <= |s|
  {
    if s[0] != AMP then Some((s[0], 1))
    else if [AMP, 0x61, 0x6D, 0x70, 0x3B] <= s then Some((AMP, 5))
    else if [AMP, 0x6C, 0x74, 0x3B] <= s then Some((LT, 4))
    else if [AMP, 0x67, 0x74, 0x3B] <= s then Some((GT, 4))
    else if [AMP, 0x71, 0x75, 0x6F, 0x74, 0x3B] <= s then Some((QUOT, 6))
    else if [AMP, 0x61, 0x70, 0x6F, 0x73, 0x3B] <= s then Some((APOS, 6))
    else None
  }

  function Unescape(s: Bytes): Option<Bytes> {
    if s == [] then Some([])
    else
      var c := Character(s);
      if c.None? then None
      else
        var rest := Unescape(s[c.value.1..]);
        if rest.None? then None else Some([c.value.0] + rest.value)
  }

  lemma CharacterOfEscaped(b: Byte, rest: Bytes)
    ensures Character(Escaped(b) + rest) == Some((b, |Escaped(b)|))
  {
    var s := Escaped(b) + rest;
    assert s[0] == Escaped(b)[0] && (|Escaped(b)| > 1 ==> s[1] == Escaped(b)[1] && s[2] == Escaped(b)[2]);
  }

  /** Un-escaping gives back any text at all. */
  lemma {:induction false} UnescapeEscape(text: Bytes)
    ensures Unescape(Escape(text)) == Some(text)
  {
    if text != [] {
      var rest := Escape(text[1..]);
      UnescapeEscape(text[1..]);
      CharacterOfEscaped(text[0], rest);
      hide Character, Escaped;
      assert (Escaped(text[0]) + rest)[|Escaped(text[0])|..] == rest;
      assert text == [text[0]] + text[1..];
    }
  }

  // ---------------------------------------------------------------------------------------------
  // The format and its reader
  // ---------------------------------------------------------------------------------------------

  /** Pairs without a value are left out. */
  function PairBytes(p: Pair, rest: Bytes): Bytes {
    if p.value == [] then rest else KEY + (Escape(p.key) + (KEY_TO_STRING + (Escape(p.value) + (STRING_END + rest))))
  }

  function PairsBytes(pairs: seq<Pair>): Bytes {
    if pairs == [] then CLOSE else PairBytes(pairs[0], PairsBytes(pairs[1..]))
  }

  function PlistBytes(pairs: seq<Pair>): Bytes {
    HEADER + (DOCTYPE + (OPEN + PairsBytes(pairs)))
  }

  function NonEmpty(pairs: seq<Pair>): seq<Pair> {
    if pairs == [] then [] else (if pairs[0].value == [] then [] else [pairs[0]]) + NonEmpty(pairs[1..])
  }

  /** How far the text before the next tag reaches. */
  function TextLength(s: Bytes): (n: nat)
    ensures n <= |s|
  {
    if s == [] || s[0] == LT then 0 else 1 + TextLength(s[1..])
  }

  /** The text before a tag, un-escaped, and what follows the tag. */
  function ReadText(s: Bytes, tag: Bytes): Option<(Bytes, Bytes)> {
    var n := TextLength(s);
    var text := Unescape(s[..n]);
    if text.None? || !(tag <= s[n..]) then None else Some((text.value, s[n..][|tag|..]))
  }

  function ReadPairs(s: Bytes): Option<seq<Pair>>
    decreases |s|
  {
    if s == CLOSE then Some([])
    else if !(KEY <= s) then None
    else
      var key := ReadText(s[|KEY|..], KEY_TO_STRING);
      if key.None? then None
      else
        var value := ReadText(key.value.1, STRING_END);
        if value.None? || |value.value.1| >= |s| then None
        else
          var others := ReadPairs(value.value.1);
          if others.None? then None else Some([Pair(key.value.0, value.value.0)] + others.value)
  }

  function ReadPlist(s: Bytes): Option<seq<Pair>> {
    if HEADER + (DOCTYPE + OPEN) <= s then ReadPairs(s[|HEADER + (DOCTYPE + OPEN)|..]) else None
  }

  lemma {:induction false} TextBeforeTag(text: Bytes, tag: Bytes, rest: Bytes)
    requires LT !in text && tag != [] && tag[0] == LT
    ensures TextLength(text + (tag + rest)) == |text|
  {
    var s := text + (tag + rest);
    if text != [] {
      assert text[0] in text && s[1..] == text[1..] + (tag + rest);
      TextBeforeTag(text[1..], tag, rest);
    }
  }

  lemma ReadsText(text: Bytes, tag: Bytes, rest: Bytes)
    requires tag != [] && tag[0] == LT
    ensures ReadText(Escape(text) + (tag + rest), tag) == Some((text, rest))
  {
    var e := Escape(text);
    var s := e + (tag + rest);
    hide Escape, Unescape, TextLength;
    TextBeforeTag(e, tag, rest);
    UnescapeEscape(text);
    assert s[..|e|] == e && s[|e|..] == tag + rest && (tag + rest)[|tag|..] == rest;
  }

  lemma TagStarts()
    ensures KEY != [] && KEY[0] != LT && CLOSE != [] && CLOSE[0] == LT
    ensures KEY_TO_STRING != [] && KEY_TO_STRING[0] == LT && STRING_END != [] && STRING_END[0] == LT
  {}

  /** Reading the pairs back gives the non-empty ones, in order, whatever their text. */
  lemma {:induction false} ReadsPairs(pairs: seq<Pair>)
    ensures ReadPairs(PairsBytes(pairs)) == Some(NonEmpty(pairs))
  {
    hide ReadText, Escape, Ascii;
    if pairs != [] {
      var p, rest := pairs[0], PairsBytes(pairs[1..]);
      ReadsPairs(pairs[1..]);
      if p.value != [] {
        TagStarts();
        var value := Escape(p.value) + (STRING_END + rest);
        var key := Escape(p.key) + (KEY_TO_STRING + value);
        var s := KEY + key;
        ReadsText(p.key, KEY_TO_STRING, value);
        ReadsText(p.value, STRING_END, rest);
        assert s[|KEY|..] == key && s[0] == KEY[0];
      } else {
        assert [] + NonEmpty(pairs[1..]) == NonEmpty(pairs[1..]);
      }
    }
  }

  lemma ReadsPlist(pairs: seq<Pair>)
    ensures ReadPlist(PlistBytes(pairs)) == Some(NonEmpty(pairs))
  {
    hide ReadPairs, PairsBytes, Ascii;
    ReadsPairs(pairs);
    var front, rest := HEADER + (DOCTYPE + OPEN), PairsBytes(pairs);
    assert PlistBytes(pairs) == front + rest;
    assert PlistBytes(pairs)[|front|..] == rest;
  }

  // ---------------------------------------------------------------------------------------------
  // The writer
  // ---------------------------------------------------------------------------------------------

  lemma {:induction false} EscapeOfLast(text: Bytes, b: Byte)
    ensures Escape(text + [b]) == Escape(text) + Escaped(b)
  {
    hide Escaped;
    if text == [] {
      assert text + [b] == [b] && [b][1..] == [] && Escaped(b) + [] == [] + Escaped(b);
    } else {
      EscapeOfLast(text[1..], b);
      assert (text + [b])[1..] == text[1..] + [b] && (text + [b])[0] == text[0];
      assert Escaped(text[0]) + (Escape(text[1..]) + Escaped(b)) == Escaped(text[0]) + Escape(text[1..]) + Escaped(b);
    }
  }

  method XmlEscapeInto(out: Bytes, text: Bytes) returns (r: Bytes)
    ensures r == out + Escape(text)
  {
    hide Escape;
    r := out;
    NothingToEscape();
    assert text[..0] == [];
    for i := 0 to |text|
      invariant r == out + Escape(text[..i])
    {
      EscapeOfLast(text[..i], text[i]);
      assert text[..i + 1] == text[..i] + [text[i]];
      assert out + Escape(text[..i]) + Escaped(text[i]) == out + (Escape(text[..i]) + Escaped(text[i]));
      r := r + Escaped(text[i]);
    }
    assert text[..|text|] == text;
  }

  lemma NothingToEscape()
    ensures Escape([]) == []
  {}

  /** The fixed tags and pairs that follow `out`, in order. */
  method PushPlistEntry(out: Bytes, key: Bytes, value: Bytes, ghost done: seq<Pair>) returns (r: Bytes)
    requires out == Front(done)
    ensures r == Front(done + [Pair(key, value)])
  {
    hide Front, Escape;
    FrontOfLast(done, Pair(key, value));
    r := out;
    if value != [] {
      r := r + KEY;
      r := XmlEscapeInto(r, key);
      r := r + KEY_TO_STRING;
      r := XmlEscapeInto(r, value);
      r := r + STRING_END;
      InOrder(out, KEY, Escape(key), KEY_TO_STRING, Escape(value), STRING_END);
    }
  }

  lemma InOrder(out: Bytes, a: Bytes, b: Bytes, c: Bytes, d: Bytes, e: Bytes)
    ensures out + a + b + c + d + e == out + (a + (b + (c + (d + (e + [])))))
  {}

  /** Everything before the closing tags. */
  function Front(pairs: seq<Pair>): Bytes {
    if pairs == [] then HEADER + (DOCTYPE + OPEN) else Front(pairs[..|pairs| - 1]) + PairBytes(pairs[|pairs| - 1], [])
  }

  lemma FrontOfLast(pairs: seq<Pair>, p: Pair)
    ensures Front(pairs + [p]) == Front(pairs) + PairBytes(p, [])
    ensures p.value == [] ==> Front(pairs + [p]) == Front(pairs)
  {
    hide PairBytes;
    assert (pairs + [p])[..|pairs|] == pairs;
    NoPair(p);
    assert Front(pairs) + [] == Front(pairs);
  }

  lemma NoPair(p: Pair)
    ensures p.value == [] ==> PairBytes(p, []) == []
  {}

  lemma PairThenMore(p: Pair, rest: Bytes)
    ensures PairBytes(p, rest) == PairBytes(p, []) + rest
  {
    hide Escape, Ascii;
    if p.value != [] {
      var a, b, c, d := KEY, Escape(p.key), KEY_TO_STRING, Escape(p.value);
      assert (a + (b + (c + (d + (STRING_END + []))))) + rest == a + (b + (c + (d + (STRING_END + rest))));
    } else {
      assert [] + rest == rest;
    }
  }

  lemma {:induction false} FrontThenPairs(done: seq<Pair>, rest: seq<Pair>)
    ensures Front(done) + PairsBytes(rest) == PlistBytes(done + rest)
    decreases |done|
  {
    hide PairBytes, Ascii;
    if done == [] {
      assert done + rest == rest;
      assert HEADER + (DOCTYPE + OPEN) + PairsBytes(rest) == HEADER + (DOCTYPE + (OPEN + PairsBytes(rest)));
    } else {
      var p, before := done[|done| - 1], done[..|done| - 1];
      FrontThenPairs(before, [p] + rest);
      assert before + ([p] + rest) == done + rest && ([p] + rest)[1..] == rest;
      PairThenMore(p, PairsBytes(rest));
      assert Front(before) + (PairBytes(p, []) + PairsBytes(rest)) ==
        Front(before) + PairBytes(p, []) + PairsBytes(rest);
    }
  }

  const EXECUTABLE := Ascii("CFBundleExecutable")
  const ICON_FILE := Ascii("CFBundleIconFile")
  const IDENTIFIER := Ascii("CFBundleIdentifier")
  const NAME := Ascii("CFBundleName")
  const PACKAGE_TYPE := Ascii("CFBundlePackageType")
  const SHORT_VERSION := Ascii("CFBundleShortVersionString")
  const VERSION := Ascii("CFBundleVersion")
  const MINIMUM_SYSTEM := Ascii("LSMinimumSystemVersion")
  const COPYRIGHT := Ascii("NSHumanReadableCopyright")
  const APPL := Ascii("APPL")
  const ICNS := Ascii(".icns")

  function Pairs(info: AppInfoData, executableName: Bytes, minimumSystemVersion: Bytes, bundleIcon: bool): seq<Pair> {
    [Pair(EXECUTABLE, executableName)] + (if bundleIcon then [Pair(ICON_FILE, executableName + ICNS)] else [])
    + [Pair(IDENTIFIER, info.identifier), Pair(NAME, info.name), Pair(PACKAGE_TYPE, APPL),
      Pair(SHORT_VERSION, info.ProductText()),
       Pair(VERSION, info.version.file), Pair(MINIMUM_SYSTEM, minimumSystemVersion), Pair(COPYRIGHT, info.copyright)]
  }

  method BuildInfoPlist(info: AppInfoData, executableName: Bytes, minimumSystemVersion: Bytes, bundleIcon: bool)
    returns (out: Bytes)
    ensures out == PlistBytes(Pairs(info, executableName, minimumSystemVersion, bundleIcon))
    ensures ReadPlist(out) == Some(NonEmpty(Pairs(info, executableName, minimumSystemVersion, bundleIcon)))
  {
    hide Ascii, PlistBytes, ReadPlist, Front, NonEmpty, PairBytes;
    out := HEADER;
    out := out + DOCTYPE;
    out := out + OPEN;
    NothingYet(out);
    ghost var done: seq<Pair> := [];
    out := PushPlistEntry(out, EXECUTABLE, executableName, done);
    done := done + [Pair(EXECUTABLE, executableName)];
    if bundleIcon {
      out := PushPlistEntry(out, ICON_FILE, executableName + ICNS, done);
      done := done + [Pair(ICON_FILE, executableName + ICNS)];
    }
    out := PushPlistEntry(out, IDENTIFIER, info.identifier, done);
    done := done + [Pair(IDENTIFIER, info.identifier)];
    out := PushPlistEntry(out, NAME, info.name, done);
    done := done + [Pair(NAME, info.name)];
    out := PushPlistEntry(out, PACKAGE_TYPE, APPL, done);
    done := done + [Pair(PACKAGE_TYPE, APPL)];
    out := PushPlistEntry(out, SHORT_VERSION, info.ProductText(), done);
    done := done + [Pair(SHORT_VERSION, info.ProductText())];
    out := PushPlistEntry(out, VERSION, info.version.file, done);
    done := done + [Pair(VERSION, info.version.file)];
    out := PushPlistEntry(out, MINIMUM_SYSTEM, minimumSystemVersion, done);
    done := done + [Pair(MINIMUM_SYSTEM, minimumSystemVersion)];
    out := PushPlistEntry(out, COPYRIGHT, info.copyright, done);
    done := done + [Pair(COPYRIGHT, info.copyright)];
    assert done == Pairs(info, executableName, minimumSystemVersion, bundleIcon);
    out := out + CLOSE;
    FrontThenPairs(done, []);
    assert done + [] == done;
    ReadsPlist(done);
  }

  lemma NothingYet(out: Bytes)
    requires out == HEADER + DOCTYPE + OPEN
    ensures out == Front([])
  {
    hide Ascii;
    Associate(HEADER, DOCTYPE, OPEN);
  }
}
