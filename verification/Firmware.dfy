/**
 Firmware transfers: the wire variants, the image, and the metadata that opens a transfer,
 with its parser and its builder. Names and serials are byte strings.
 */
module Firmware {
  import opened Bytes
  import opened Crc
  import opened Frames

  /** A wire variant; its envelope family is determined by `start`. */
  datatype Variant = Variant(
    start: seq<byte>,
    end: seq<byte>,
    func: byte,
    magic: seq<byte>,
    crcBigEndian: bool,
    finalSuffix: seq<byte>)
  {
    predicate Valid() {
      && |magic| == 5 && |finalSuffix| <= 1
      && ((start == START_7E && end == END_7E) || (start == START_7F && end == END_7F))
    }

    /** The order in which this variant writes a CRC. */
    function CrcField(crc: seq<byte>): (field: seq<byte>)
      requires |crc| == 2
      ensures |field| == 2
    {
      if crcBigEndian then [crc[1], crc[0]] else crc
    }
  }

  const MAGIC: seq<byte> := [0xFA, 0x6B, 0x7C, 0x7A, 0x4D]
  const SIGNATURE: seq<byte> := [0x7C, 0x7A, 0x4D]
  const ENVELOPE_A2: byte := 0xA2
  const TIMEOUT: nat := 300

  const VARIANT_7E_A2: Variant := Variant(START_7E, END_7E, ENVELOPE_A2, MAGIC, false, [])
  const VARIANT_7F_A2: Variant := Variant(START_7F, END_7F, ENVELOPE_A2, MAGIC, true, [0])

  /** The 7f variant whose function byte and transfer id each transfer chooses anew. */
  function Dynamic(func: byte, magic: seq<byte>): Variant {
    Variant(START_7F, END_7F, func, magic, true, [0])
  }

  predicate Signed(payload: seq<byte>) {
    |payload| >= 5 && payload[2..5] == SIGNATURE
  }

  /** `firmware_variant_for_frame`. */
  function VariantOf(f: Frame): (v: Option<Variant>)
    ensures v.Some? ==> v.value.Valid() && v.value.magic <= f.payload
  {
    if f.start == START_7E && f.func == ENVELOPE_A2 && StartsWith(f.payload, MAGIC) then
      Some(VARIANT_7E_A2)
    else if f.start == START_7F && f.func == ENVELOPE_A2 && StartsWith(f.payload, MAGIC) then
      Some(VARIANT_7F_A2)
    else if f.start == START_7F && StartsFirmware(f.device) && Signed(f.payload) then
      Some(Dynamic(f.func, f.payload[..5]))
    else
      None
  }

  predicate StartsFirmware(device: seq<byte>) {
    device != [] && (device[0] == 0x21 || device[0] == 0x22)
  }

  /**
   Which frames are firmware, by their bytes, and what their variant is: the family of the frame with
   its function, the first five bytes of the payload as transfer id, and for the 7f family the CRC in
   reverse order and a zero behind the final acknowledgement.
   */
  lemma FirmwareShape(f: Frame)
    ensures var magic := [0xFA, 0x6B, 0x7C, 0x7A, 0x4D];
      VariantOf(f).Some? <==>
        || (f.start == [0x7E, 0x7E] && f.func == 0xA2 && magic <= f.payload)
        || (f.start == [0x7F, 0x7F] && f.func == 0xA2 && magic <= f.payload)
        || (f.start == [0x7F, 0x7F] && f.device != [] && f.device[0] in {0x21, 0x22}
            && |f.payload| >= 5 && f.payload[2..5] == [0x7C, 0x7A, 0x4D])
    ensures VariantOf(f).Some? ==>
      var v := VariantOf(f).value;
      && v.start == f.start && v.func == f.func && v.magic == f.payload[..5]
      && v.end == (if f.start == START_7F then END_7F else END_7E)
      && v.crcBigEndian == (f.start == START_7F) && v.finalSuffix == (if f.start == START_7F then [0] else [])
  {
  }

  /** The order of the CRC bytes: low byte first, or high byte first where the variant is big-endian. */
  lemma {:induction false} CrcFieldOrder(v: Variant, data: seq<byte>)
    ensures var field, crc := v.CrcField(Crc16(data)), CrcFrom(0xFFFF, data);
      if v.crcBigEndian then 256 * field[0] as nat + field[1] as nat == crc
      else 256 * field[1] as nat + field[0] as nat == crc
  {
    CrcBound(INITIAL, data);
  }

  // ---- names ----

  const SLASH: byte := 0x2F
  const DOT: byte := 0x2E

  /** The characters after the last slash. */
  function AfterSlash(s: seq<byte>): (t: seq<byte>)
    ensures |t| <= |s|
  {
    if s == [] || s[|s| - 1] == SLASH then [] else AfterSlash(s[..|s| - 1]) + [s[|s| - 1]]
  }

  /** `Path(s).name`: the last component that is neither empty nor a single dot. */
  function BaseName(s: seq<byte>): seq<byte> {
    var t := AfterSlash(s);
    if t != [] && t != [DOT] then t else if |t| == |s| then [] else BaseName(s[..|s| - |t| - 1])
  }

  predicate IsSpace(c: byte) {
    9 <= c <= 13 || 28 <= c <= 32
  }

  /** `str.strip` on ASCII text. */
  function Strip(s: seq<byte>): seq<byte> {
    if s == [] then
      s
    else if IsSpace(s[0]) then
      Strip(s[1..])
    else if IsSpace(s[|s| - 1]) then
      Strip(s[..|s| - 1])
    else
      s
  }

  predicate IsName(name: seq<byte>) {
    name != [] && name != [DOT] && name != [DOT, DOT]
  }

  /** The names that `safe_firmware_filename` cleans instead of refusing. */
  predicate NameAccepted(s: seq<byte>) {
    IsName(Strip(BaseName(s)))
  }

  // ---- which names these are ----

  /** Slashes, and components that are a single dot, behind the last real component. */
  predicate Trailing(s: seq<byte>) {
    || s == []
    || (s[|s| - 1] == SLASH && Trailing(s[..|s| - 1]))
    || (|s| >= 2 && s[|s| - 2..] == [SLASH, DOT] && Trailing(s[..|s| - 2]))
  }

  /** A component: not empty, without a slash, not a single dot. */
  predicate IsComponent(name: seq<byte>) {
    name != [] && name != [DOT] && forall i :: 0 <= i < |name| ==> name[i] != SLASH
  }

  lemma {:induction false} AfterSlashIs(front: seq<byte>, name: seq<byte>)
    requires front == [] || front[|front| - 1] == SLASH
    requires forall i :: 0 <= i < |name| ==> name[i] != SLASH
    ensures AfterSlash(front + name) == name
    decreases |name|
  {
    if name == [] {
      assert front + name == front;
    } else {
      var init := name[..|name| - 1];
      assert (front + name)[..|front + name| - 1] == front + init;
      AfterSlashIs(front, init);
    }
  }

  lemma SlashBehind(s: seq<byte>)
    ensures BaseName(s + [SLASH]) == BaseName(s)
  {
    AfterSlashIs(s + [SLASH], []);
    assert (s + [SLASH]) + [] == s + [SLASH] && (s + [SLASH])[..|s|] == s;
  }

  lemma DotBehind(s: seq<byte>)
    ensures BaseName(s + [SLASH, DOT]) == BaseName(s)
  {
    AfterSlashIs(s + [SLASH], [DOT]);
    assert (s + [SLASH]) + [DOT] == s + [SLASH, DOT] && (s + [SLASH, DOT])[..|s|] == s;
  }

  lemma {:induction false} TrailingBehind(s: seq<byte>, tail: seq<byte>)
    requires Trailing(tail)
    ensures BaseName(s + tail) == BaseName(s)
    decreases |tail|
  {
    if tail == [] {
      assert s + tail == s;
    } else if tail[|tail| - 1] == SLASH {
      var init := tail[..|tail| - 1];
      TrailingBehind(s, init);
      SlashBehind(s + init);
      assert (s + init) + [SLASH] == s + tail;
    } else {
      var init := tail[..|tail| - 2];
      TrailingBehind(s, init);
      DotBehind(s + init);
      assert (s + init) + [SLASH, DOT] == s + tail;
    }
  }

  lemma BaseNameIs(front: seq<byte>, name: seq<byte>, tail: seq<byte>)
    requires (front == [] || front[|front| - 1] == SLASH) && IsComponent(name) && Trailing(tail)
    ensures BaseName(front + name + tail) == name
  {
    TrailingBehind(front + name, tail);
    AfterSlashIs(front, name);
  }

  /** Without a real component there is no name. */
  lemma NoBaseName(s: seq<byte>)
    requires Trailing(s)
    ensures BaseName(s) == [] && BaseName([DOT] + s) == []
  {
    TrailingBehind([], s);
    assert [] + s == s;
    TrailingBehind([DOT], s);
    AfterSlashIs([], [DOT]);
    assert [] + [DOT] == [DOT];
  }

  /** Stripping removes the white space at both ends, and no more. */
  lemma {:induction false} StripIs(front: seq<byte>, name: seq<byte>, tail: seq<byte>)
    requires forall i :: 0 <= i < |front| ==> IsSpace(front[i])
    requires forall i :: 0 <= i < |tail| ==> IsSpace(tail[i])
    requires name == [] || (!IsSpace(name[0]) && !IsSpace(name[|name| - 1]))
    ensures Strip(front + name + tail) == name
    decreases |front| + |tail|
  {
    var s := front + name + tail;
    if front != [] {
      assert s[1..] == front[1..] + name + tail;
      StripIs(front[1..], name, tail);
    } else if name == [] && tail != [] {
      assert s[1..] == [] + [] + tail[1..];
      StripIs([], [], tail[1..]);
    } else if tail != [] {
      assert s[..|s| - 1] == front + name + tail[..|tail| - 1];
      StripIs(front, name, tail[..|tail| - 1]);
    } else {
      assert s == name;
    }
  }

  /** Tab, line feed, vertical tab, form feed, carriage return, the four separators, and space. */
  predicate White(c: byte) {
    c in {0x09, 0x0A, 0x0B, 0x0C, 0x0D, 0x1C, 0x1D, 0x1E, 0x1F, 0x20}
  }

  /** A name is accepted if its last real component, without white space around it, is neither empty nor dots. */
  lemma AcceptedName(front: seq<byte>, left: seq<byte>, name: seq<byte>, right: seq<byte>, tail: seq<byte>)
    requires (front == [] || front[|front| - 1] == SLASH) && Trailing(tail) && IsComponent(left + name + right)
    requires forall i :: 0 <= i < |left| ==> White(left[i])
    requires forall i :: 0 <= i < |right| ==> White(right[i])
    requires name == [] || (!White(name[0]) && !White(name[|name| - 1]))
    ensures NameAccepted(front + (left + name + right) + tail) <==> name != [] && name != [0x2E] && name != [0x2E, 0x2E]
  {
    assert forall c :: White(c) <==> IsSpace(c);
    BaseNameIs(front, left + name + right, tail);
    StripIs(left, name, right);
  }

  lemma NoNameRefused(s: seq<byte>)
    requires Trailing(s)
    ensures !NameAccepted(s) && !NameAccepted([DOT] + s)
  {
    NoBaseName(s);
  }

  predicate SafeChar(c: byte) {
    0x30 <= c <= 0x39 || 0x41 <= c <= 0x5A || 0x61 <= c <= 0x7A || c in {0x20, 0x28, 0x29, 0x2D, 0x2E, 0x5F}
  }

  /** A safe character, no space at an end, and no name of one or two dots. */
  predicate SafeAt(s: seq<byte>, i: nat)
    requires i < |s|
  {
    && SafeChar(s[i])
    && (i == 0 || i == |s| - 1 ==> !IsSpace(s[i]))
    && (|s| <= 2 && s[i] == DOT ==> s[|s| - 1 - i] != DOT)
  }

  /** The names it returns. */
  predicate SafeName(s: seq<byte>) {
    1 <= |s| <= 255 && forall i :: 0 <= i < |s| ==> SafeAt(s, i)
  }

  lemma {:induction false} NoSlash(s: seq<byte>)
    requires forall i :: 0 <= i < |s| ==> s[i] != SLASH
    ensures AfterSlash(s) == s
    decreases |s|
  {
    if s != [] { NoSlash(s[..|s| - 1]); }
  }

  /** A cleaned name is accepted when it comes back. */
  lemma SafeIsAccepted(s: seq<byte>)
    requires SafeName(s)
    ensures NameAccepted(s) && Ascii(s)
  {
    assert SafeAt(s, 0) && SafeAt(s, |s| - 1);
    forall i | 0 <= i < |s|
      ensures s[i] < 128 && s[i] != SLASH
    {
      assert SafeAt(s, i);
    }
    NoSlash(s);
  }

  // ---- metadata ----

  datatype Metadata = Metadata(
    size: nat, crc: seq<byte>, filename: seq<byte>, serial: seq<byte>, timeout: nat, variant: Variant)

  /** An image as `from_bytes` accepts it; its size and CRC are those of its data. */
  datatype Image = Image(data: seq<byte>, filename: seq<byte>) {
    predicate Valid() {
      1 <= |data| < 0x1_0000 && SafeName(filename)
    }
  }

  /** `parse_firmware_metadata` under a given variant; `None` is its error. */
  function ParseMetadata(p: seq<byte>, v: Variant): Option<Metadata>
    requires v.Valid()
  {
    if |p| < 15 || !StartsWith(p, v.magic + [0, 0]) then
      None
    else
      var nameEnd := 12 + p[11] as nat;
      if nameEnd + 4 > |p| || !Ascii(p[12..nameEnd]) || !NameAccepted(p[12..nameEnd]) || p[nameEnd] != 0 then
        None
      else
        var start := nameEnd + 2;
        var end := start + p[nameEnd + 1] as nat;
        if end + 2 != |p| || !Ascii(p[start..end]) then
          None
        else
          Some(Metadata(U16(p[7], p[8]), p[9..11], p[12..nameEnd], p[start..end], U16(p[end], p[end + 1]), v))
  }

  lemma ParsedVariant(p: seq<byte>, v: Variant)
    requires v.Valid() && ParseMetadata(p, v).Some?
    ensures ParseMetadata(p, v).value.variant == v
  {
  }

  /** The metadata a payload can carry. */
  predicate Encodable(m: Metadata) {
    && m.variant.Valid() && m.size < 0x1_0000 && |m.crc| == 2 && m.timeout < 0x1_0000
    && |m.filename| <= 255 && Ascii(m.filename) && NameAccepted(m.filename)
    && |m.serial| <= 255 && Ascii(m.serial)
  }

  function Head(m: Metadata): (h: seq<byte>)
    requires Encodable(m)
    ensures |h| == 12
  {
    m.variant.magic + [0, 0] + U16Bytes(m.size) + m.crc + [|m.filename| as byte]
  }

  /** A payload with these fields. */
  function EncodeMetadata(m: Metadata): (p: seq<byte>)
    requires Encodable(m)
    ensures |p| == 16 + |m.filename| + |m.serial|
  {
    Head(m) + m.filename + [0, |m.serial| as byte] + m.serial + U16Bytes(m.timeout)
  }

  /** The fields a sender gives an image. */
  function Describe(image: Image, serial: seq<byte>, v: Variant): Metadata {
    Metadata(|image.data|, v.CrcField(Crc16(image.data)), image.filename, serial, TIMEOUT, v)
  }

  /** `build_firmware_metadata`; `None` is its error. */
  function BuildMetadata(image: Image, serial: seq<byte>, v: Variant): Option<seq<byte>>
    requires image.Valid() && v.Valid()
  {
    if !Ascii(serial) || serial == [] || |serial| > 255 then
      None
    else
      Some(v.magic + [0, 0] + U16Bytes(|image.data|) + v.CrcField(Crc16(image.data))
        + ([|image.filename| as byte] + image.filename + [0]) + [|serial| as byte] + serial + U16Bytes(TIMEOUT))
  }

  /** Where the fields of metadata lie, and how they are read. */
  lemma MetadataFields(p: seq<byte>, v: Variant)
    requires v.Valid() && ParseMetadata(p, v).Some?
    ensures var m := ParseMetadata(p, v).value;
      var n := |m.filename|;
      var k := |m.serial|;
      && |p| == 16 + n + k && p[..5] == v.magic && p[5] == 0 && p[6] == 0
      && 256 * p[7] as nat + p[8] as nat == m.size && p[9..11] == m.crc
      && p[11] as nat == n && p[12..12 + n] == m.filename && p[12 + n] == 0
      && p[13 + n] as nat == k && p[14 + n..14 + n + k] == m.serial
      && 256 * p[14 + n + k] as nat + p[15 + n + k] as nat == m.timeout
  {
    assert p[..7] == v.magic + [0, 0] && p[..7][5] == p[5] && p[..7][6] == p[6];
    assert p[..5] == p[..7][..5];
  }

  // ---- the codec is exact ----

  lemma HeadFields(m: Metadata)
    requires Encodable(m)
    ensures var h := Head(m);
      && h[..7] == m.variant.magic + [0, 0] && U16(h[7], h[8]) == m.size && h[9..11] == m.crc
      && h[11] == |m.filename| as byte
  {
  }

  lemma Slices(a: seq<byte>, b: seq<byte>, c: seq<byte>, d: seq<byte>, e: seq<byte>)
    ensures var p, i, j, k := a + b + c + d + e, |a| + |b|, |a| + |b| + |c|, |a| + |b| + |c| + |d|;
      p[..|a|] == a && p[|a|..i] == b && p[i..j] == c && p[j..k] == d && p[k..] == e
  {
  }

  lemma Elements(p: seq<byte>, part: seq<byte>, i: nat, k: nat)
    requires i + |part| <= |p| && p[i..i + |part|] == part && k < |part|
    ensures p[i + k] == part[k]
  {
  }

  /** Where the fields of an encoding lie. */
  lemma EncodedFields(m: Metadata)
    requires Encodable(m)
    ensures var p, nameEnd := EncodeMetadata(m), 12 + |m.filename|;
      && p[..12] == Head(m) && p[12..nameEnd] == m.filename
      && p[nameEnd] == 0 && p[nameEnd + 1] == |m.serial| as byte
      && p[nameEnd + 2..nameEnd + 2 + |m.serial|] == m.serial
      && p[nameEnd + 2 + |m.serial|..] == U16Bytes(m.timeout)
  {
    var p, nameEnd := EncodeMetadata(m), 12 + |m.filename|;
    Slices(Head(m), m.filename, [0, |m.serial| as byte], m.serial, U16Bytes(m.timeout));
    Elements(p, [0, |m.serial| as byte], nameEnd, 0);
    Elements(p, [0, |m.serial| as byte], nameEnd, 1);
  }

  lemma EncodeThenParse(m: Metadata)
    requires Encodable(m)
    ensures ParseMetadata(EncodeMetadata(m), m.variant) == Some(m)
  {
    var p, nameEnd := EncodeMetadata(m), 12 + |m.filename|;
    EncodedFields(m);
    HeadFields(m);
    HeadInPayload(p, Head(m));
    var end := nameEnd + 2 + |m.serial|;
    assert p[end] == p[end..][0] && p[end + 1] == p[end..][1];
  }

  lemma HeadInPayload(p: seq<byte>, h: seq<byte>)
    requires |h| == 12 <= |p| && p[..12] == h
    ensures h[..7] <= p && p[7] == h[7] && p[8] == h[8] && p[9..11] == h[9..11] && p[11] == h[11]
  {
  }

  /** Whatever parses is reproduced byte for byte by re-encoding its fields. */
  lemma ParseThenEncode(p: seq<byte>, v: Variant)
    requires v.Valid() && ParseMetadata(p, v).Some?
    ensures var m := ParseMetadata(p, v).value;
      Encodable(m) && m.variant == v && EncodeMetadata(m) == p
  {
    var m := ParseMetadata(p, v).value;
    HeadRebuilt(p, m);
    TailRebuilt(p, m);
  }

  lemma HeadRebuilt(p: seq<byte>, m: Metadata)
    requires m.variant.Valid() && ParseMetadata(p, m.variant) == Some(m)
    ensures Encodable(m) && 12 <= |p| && p[..12] == Head(m)
  {
    U16Injective(p[7..9], m.size);
    SplitHead(p);
  }

  lemma SplitHead(p: seq<byte>)
    requires 12 <= |p|
    ensures p[..12] == p[..7] + p[7..9] + p[9..11] + [p[11]]
  {
  }

  lemma TailRebuilt(p: seq<byte>, m: Metadata)
    requires m.variant.Valid() && ParseMetadata(p, m.variant) == Some(m)
    requires Encodable(m) && 12 <= |p| && p[..12] == Head(m)
    ensures EncodeMetadata(m) == p
  {
    var nameEnd := 12 + |m.filename|;
    var end := nameEnd + 2 + |m.serial|;
    U16Injective(p[end..], m.timeout);
    SplitTail(p, nameEnd, end);
  }

  lemma SplitTail(p: seq<byte>, i: nat, j: nat)
    requires 12 <= i && i + 2 <= j <= |p|
    ensures p == p[..12] + p[12..i] + [p[i], p[i + 1]] + p[i + 2..j] + p[j..]
  {
  }

  /** The parser accepts exactly the encodings, and reads back exactly their fields. */
  lemma CodecExact(p: seq<byte>, v: Variant, m: Metadata)
    requires v.Valid()
    ensures ParseMetadata(p, v) == Some(m) <==> Encodable(m) && m.variant == v && EncodeMetadata(m) == p
  {
    if ParseMetadata(p, v) == Some(m) {
      ParseThenEncode(p, v);
    } else if Encodable(m) && m.variant == v {
      EncodeThenParse(m);
    }
  }

  /** No metadata is longer than 526 bytes, so a full chunk is never taken for metadata. */
  lemma MetadataLength(p: seq<byte>, v: Variant)
    requires v.Valid() && ParseMetadata(p, v).Some?
    ensures 17 <= |p| <= 526
  {
    ParseThenEncode(p, v);
    EmptyRefused(ParseMetadata(p, v).value.filename);
  }

  lemma EmptyRefused(name: seq<byte>)
    requires NameAccepted(name)
    ensures name != []
  {
  }

  lemma BuildIsEncode(image: Image, serial: seq<byte>, v: Variant)
    requires image.Valid() && v.Valid() && BuildMetadata(image, serial, v).Some?
    ensures Encodable(Describe(image, serial, v))
    ensures BuildMetadata(image, serial, v).value == EncodeMetadata(Describe(image, serial, v))
  {
    SafeIsAccepted(image.filename);
    var m := Describe(image, serial, v);
    Regroup(v.magic + [0, 0] + U16Bytes(m.size) + m.crc,
      [|m.filename| as byte], m.filename, [|serial| as byte], serial + U16Bytes(TIMEOUT));
  }

  lemma Regroup(a: seq<byte>, n: seq<byte>, name: seq<byte>, l: seq<byte>, rest: seq<byte>)
    ensures a + (n + name + [0]) + l + rest == (a + n) + name + ([0] + l) + rest
  {
  }

  /** A built payload parses to the image's size, its CRC in variant order, name, serial and 300. */
  lemma BuildThenParse(image: Image, serial: seq<byte>, v: Variant)
    requires image.Valid() && v.Valid()
    ensures BuildMetadata(image, serial, v).None? <==> !Ascii(serial) || serial == [] || |serial| > 255
    ensures BuildMetadata(image, serial, v).Some? ==>
      ParseMetadata(BuildMetadata(image, serial, v).value, v)
        == Some(Metadata(|image.data|, v.CrcField(Crc16(image.data)), image.filename, serial, 300, v))
  {
    if BuildMetadata(image, serial, v).Some? {
      BuildIsEncode(image, serial, v);
      EncodeThenParse(Describe(image, serial, v));
    }
  }
}
