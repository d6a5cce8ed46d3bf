/** The ONIE TLV EEPROM reader (src/drivers/sdi_onie_eeprom.c), following the "Board EEPROM
    Information Format" (TlvInfo) of the ONIE hardware design requirements.

    The image is a header, a list of tag-length-value fields and a closing CRC field.  The walk over
    the fields subtracts the length of the field it moves to, not of the field it leaves, so it runs on
    past the last field into the CRC field and the zero padding.  The module says exactly how far. */
module OnieEeprom {
  import opened Bits
  import opened Wrappers

  // ----- The format

  const PRODUCT_NAME: byte := 0x21
  const PART_NO: byte := 0x22
  const SERIAL_NO: byte := 0x23
  const MAC_ADDR: byte := 0x24
  const LABEL_VERSION: byte := 0x27
  const PLATFORM_NAME: byte := 0x28
  const NO_MACS: byte := 0x2a
  const VENDOR: byte := 0x2d
  const SVC_TAG: byte := 0x2f
  const VENDOR_EXTN: byte := 0xfd
  const CRC32: byte := 0xfe

  const HEADER_SIZE := 11
  const CRC_FIELD_SIZE := 6
  const ID_STRING: seq<byte> := [0x54, 0x6c, 0x76, 0x49, 0x6e, 0x66, 0x6f, 0]  // "TlvInfo"
  const NAME_MAX := 255

  /** One field; a value is at most 255 bytes, and a MAC count is at least two. */
  datatype RawField = RawField(tag: byte, value: seq<byte>)

  type Field = f: RawField | |f.value| < 256 && (f.tag == NO_MACS ==> |f.value| >= 2) witness RawField(0, [])

  datatype Parser = System | Psu | Fan

  /** The part of the entity information that a vendor extension fills in. */
  datatype Extension = Extension(maxSpeed: nat, numFans: nat, airFlow: nat, acPower: bool, dcPower: bool)

  datatype Info = Info(
    prodName: seq<byte>, ppid: seq<byte>, serviceTag: seq<byte>, hwRevision: seq<byte>,
    platformName: seq<byte>, vendorName: seq<byte>, partNumber: seq<byte>,
    baseMac: seq<byte>, macSize: nat, extension: Extension)

  /** What the driver calls but this model does not define: zlib's crc32, and the vendor-extension
      parser, which sees only the parser type, the field value and the extension so far. */
  datatype Env = Env(crc: seq<byte> -> nat, vendor: (Parser, seq<byte>, Extension) -> Extension)

  const NO_INFO := Info([], [], [], [], [], [], [], [0, 0, 0, 0, 0, 0], 0, Extension(0, 0, 0, false, false))

  function Be16(x: nat): seq<byte>
    requires x < 0x1_0000
  {
    [x / 256, x % 256]
  }

  function Be32(x: nat): seq<byte>
    requires x < 0x1_0000_0000
  {
    Be16(x / 0x1_0000) + Be16(x % 0x1_0000)
  }

  function Word(hi: nat, lo: nat): nat { 256 * hi + lo }

  function Body(fields: seq<Field>): seq<byte> {
    if fields == [] then [] else [fields[0].tag, |fields[0].value|] + fields[0].value + Body(fields[1..])
  }

  /** The length of `Body`. */
  function BodyLen(fields: seq<Field>): nat {
    if fields == [] then 0 else 2 + |fields[0].value| + BodyLen(fields[1..])
  }

  lemma {:induction false} BodyLenIsLength(fields: seq<Field>)
    ensures BodyLen(fields) == |Body(fields)|
  {
    if fields != [] { BodyLenIsLength(fields[1..]); }
  }

  function TotalLen(fields: seq<Field>): nat { |Body(fields)| + CRC_FIELD_SIZE }

  function Header(total: nat): (h: seq<byte>)
    requires total < 0x1_0000
    ensures |h| == HEADER_SIZE
  {
    ID_STRING + [1] + Be16(total)
  }

  /** Everything the checksum covers. */
  function Covered(fields: seq<Field>): seq<byte>
    requires TotalLen(fields) < 0x1_0000
  {
    Header(TotalLen(fields)) + Body(fields) + [CRC32, 4]
  }

  /** Reference encoder. */
  function Encode(fields: seq<Field>, env: Env): (image: seq<byte>)
    requires TotalLen(fields) < 0x1_0000
    ensures |image| == HEADER_SIZE + TotalLen(fields)
  {
    Covered(fields) + Be32(env.crc(Covered(fields)) % 0x1_0000_0000)
  }

  // ----- What one field does

  predicate IsPrint(c: byte) { 0x20 <= c <= 0x7e }

  /** Number of characters before the first NUL, looking at no more than `limit`. */
  function Stop(src: seq<byte>, limit: nat): (k: nat)
    requires limit <= |src|
    ensures k <= limit && (k < limit ==> src[k] == 0) && forall i :: 0 <= i < k ==> src[i] != 0
  {
    if limit == 0 || src[0] == 0 then 0 else 1 + Stop(src[1..], limit - 1)
  }

  /** A field value as a string of a destination of `size` bytes: up to the first NUL or the room there
      is, and empty if an unprintable character comes before that. */
  function Text(src: seq<byte>, size: nat): seq<byte>
    requires size > 0
  {
    var k := Stop(src, if |src| < size - 1 then |src| else size - 1);
    if forall i :: 0 <= i < k ==> IsPrint(src[i]) then src[..k] else []
  }

  predicate Known(tag: byte) {
    tag in {PRODUCT_NAME, PART_NO, SERIAL_NO, MAC_ADDR, LABEL_VERSION, PLATFORM_NAME, NO_MACS, VENDOR, SVC_TAG, VENDOR_EXTN}
  }

  /** The entity information after a field with a known tag. */
  function ApplyField(info: Info, tag: byte, value: seq<byte>, parser: Parser, env: Env): Info {
    if tag == PRODUCT_NAME then info.(prodName := Text(value, NAME_MAX))
    else if tag == SERIAL_NO then info.(ppid := Text(value, 120))
    else if tag == SVC_TAG then info.(serviceTag := Text(value, NAME_MAX))
    else if tag == LABEL_VERSION then info.(hwRevision := Text(value, 8))
    else if tag == PLATFORM_NAME then info.(platformName := Text(value, NAME_MAX))
    else if tag == VENDOR then info.(vendorName := Text(value, NAME_MAX))
    else if tag == MAC_ADDR then (if |value| == 6 then info.(baseMac := value) else info)
    else if tag == NO_MACS then (if |value| < 2 then info else info.(macSize := Word(value[0], value[1])))
    else if tag == VENDOR_EXTN then
      (if parser.System? then info else info.(extension := env.vendor(parser, value, info.extension)))
    else if tag == PART_NO then info.(partNumber := Text(value, 10))
    else info
  }

  /** The handler for known tags; the walk is proved for any handler. */
  type Handler = (Info, byte, seq<byte>) -> Info

  function FieldHandler(parser: Parser, env: Env): Handler {
    (info: Info, tag: byte, value: seq<byte>) => ApplyField(info, tag, value, parser, env)
  }

  /** Unknown tags are skipped. */
  function Apply(h: Handler, info: Info, tag: byte, value: seq<byte>): Info {
    if Known(tag) then h(info, tag, value) else info
  }

  /** The meaning of a field list: each field applied in order. */
  function Meaning(fields: seq<Field>, info: Info, h: Handler): Info {
    if fields == [] then info else Meaning(fields[1..], Apply(h, info, fields[0].tag, fields[0].value), h)
  }

  /** The value of the last field with a tag; a base MAC counts only if it has six bytes. */
  function Last(fields: seq<Field>, tag: byte): Option<seq<byte>> {
    if fields == [] then None
    else
      var f, later := fields[0], Last(fields[1..], tag);
      if later.Some? then later
      else if f.tag == tag && (tag == 0x24 ==> |f.value| == 6) then Some(f.value) else None
  }

  function LastText(fields: seq<Field>, tag: byte, size: nat, otherwise: seq<byte>): seq<byte>
    requires size > 0
  {
    if Last(fields, tag).Some? then Text(Last(fields, tag).value, size) else otherwise
  }

  /** What the information says after a field list, member by member: each comes from the last field of
      its own tag and from no other, and from what was there before if there is none. */
  ghost predicate NamesComeFrom(after: Info, fields: seq<Field>, before: Info) {
    && after.prodName == LastText(fields, 0x21, 255, before.prodName)
    && after.platformName == LastText(fields, 0x28, 255, before.platformName)
    && after.vendorName == LastText(fields, 0x2d, 255, before.vendorName)
  }

  ghost predicate NumbersComeFrom(after: Info, fields: seq<Field>, before: Info) {
    && after.ppid == LastText(fields, 0x23, 120, before.ppid)
    && after.serviceTag == LastText(fields, 0x2f, 255, before.serviceTag)
    && after.partNumber == LastText(fields, 0x22, 10, before.partNumber)
  }

  ghost predicate RestComesFrom(after: Info, fields: seq<Field>, before: Info) {
    && after.hwRevision == LastText(fields, 0x27, 8, before.hwRevision)
    && after.baseMac == Last(fields, 0x24).UnwrapOr(before.baseMac)
    && (var count := Last(fields, 0x2a);
        if count.Some? then |count.value| >= 2 && after.macSize == 256 * (count.value[0] as nat) + count.value[1]
        else after.macSize == before.macSize)
  }

  /** The vendor extensions, applied one after the other to what the fans and power supplies say of
      themselves; the system's own are ignored. */
  function Extended(fields: seq<Field>, x: Extension, parser: Parser, env: Env): Extension {
    if fields == [] || parser.System? then x
    else Extended(fields[1..], if fields[0].tag == 0xfd then env.vendor(parser, fields[0].value, x) else x, parser, env)
  }

  lemma {:induction false} ExtensionComesFromVendorFields(fields: seq<Field>, info: Info, parser: Parser, env: Env)
    ensures Meaning(fields, info, FieldHandler(parser, env)).extension == Extended(fields, info.extension, parser, env)
    decreases |fields|
  {
    if fields != [] {
      ExtensionComesFromVendorFields(fields[1..], ApplyKnown(info, fields[0], parser, env), parser, env);
    }
  }

  lemma {:induction false} EachMemberIsItsLastField(fields: seq<Field>, info: Info, parser: Parser, env: Env)
    ensures var after := Meaning(fields, info, FieldHandler(parser, env));
      NamesComeFrom(after, fields, info) && NumbersComeFrom(after, fields, info) && RestComesFrom(after, fields, info)
    decreases |fields|
  {
    if fields != [] {
      var f := fields[0];
      var info' := ApplyKnown(info, f, parser, env);
      EachMemberIsItsLastField(fields[1..], info', parser, env);
      var after := Meaning(fields[1..], info', FieldHandler(parser, env));
      assert after == Meaning(fields, info, FieldHandler(parser, env));
      NamesStep(fields, info, after, parser, env);
      NumbersStep(fields, info, after, parser, env);
      RestStep(fields, info, after, parser, env);
    }
  }

  function ApplyKnown(info: Info, f: Field, parser: Parser, env: Env): Info {
    Apply(FieldHandler(parser, env), info, f.tag, f.value)
  }

  lemma NamesStep(fields: seq<Field>, info: Info, after: Info, parser: Parser, env: Env)
    requires fields != [] && NamesComeFrom(after, fields[1..], ApplyKnown(info, fields[0], parser, env))
    ensures NamesComeFrom(after, fields, info)
  {}

  lemma NumbersStep(fields: seq<Field>, info: Info, after: Info, parser: Parser, env: Env)
    requires fields != [] && NumbersComeFrom(after, fields[1..], ApplyKnown(info, fields[0], parser, env))
    ensures NumbersComeFrom(after, fields, info)
  {}

  lemma RestStep(fields: seq<Field>, info: Info, after: Info, parser: Parser, env: Env)
    requires fields != [] && RestComesFrom(after, fields[1..], ApplyKnown(info, fields[0], parser, env))
    ensures RestComesFrom(after, fields, info)
  {}

  // ----- The walk over a buffer

  datatype Outcome = Done(info: Info) | Overrun

  /** Number of value bytes used at `p`: the declared length, but two for a MAC count. */
  function ValueLen(buf: seq<byte>, p: nat): nat
    requires p + 1 < |buf|
  {
    if buf[p] == NO_MACS && buf[p + 1] < 2 then 2 else if Known(buf[p]) then buf[p + 1] else 0
  }

  /** The field at `p`, with the value bytes it uses, lies inside the buffer. */
  predicate Readable(buf: seq<byte>, p: nat) {
    p + 1 < |buf| && p + 2 + ValueLen(buf, p) <= |buf|
  }

  function ApplyAt(buf: seq<byte>, p: nat, info: Info, h: Handler): Info
    requires Readable(buf, p)
  {
    Apply(h, info, buf[p], buf[p + 2..p + 2 + ValueLen(buf, p)])
  }

  /** The driver's walk from position `p` with `left` bytes still to go by its own count. */
  function Walk(buf: seq<byte>, p: nat, left: int, info: Info, h: Handler): Outcome
    decreases left
  {
    if left <= 0 then Done(info)
    else if !Readable(buf, p) then Overrun
    else
      var info := ApplyAt(buf, p, info, h);
      var q := p + buf[p + 1] + 2;
      if q + 1 >= |buf| then Overrun
      else Walk(buf, q, left - buf[q + 1] - 1, info, h)
  }

  /** Zero padding: each step moves two bytes and counts one. */
  lemma {:induction false} WalkPadding(buf: seq<byte>, p: nat, left: int, info: Info, h: Handler)
    requires p + 1 < |buf| && forall i :: p <= i < |buf| ==> buf[i] == 0
    ensures Walk(buf, p, left, info, h) ==
      if left <= 0 || p + 2 * left + 1 < |buf| then Done(info) else Overrun
    decreases left
  {
    if left > 0 && p + 3 < |buf| {
      WalkPadding(buf, p + 2, left - 1, info, h);
    }
  }

  /** The CRC field and the padding behind it. */
  lemma WalkTail(buf: seq<byte>, p: nat, left: int, info: Info, h: Handler)
    requires p + CRC_FIELD_SIZE <= |buf| && buf[p] == CRC32 && buf[p + 1] == 4
    requires forall i :: p + CRC_FIELD_SIZE <= i < |buf| ==> buf[i] == 0
    ensures Walk(buf, p, left, info, h) ==
      if left <= 0 || p + CRC_FIELD_SIZE + 2 * left <= |buf| then Done(info) else Overrun
  {
    if left > 0 && p + CRC_FIELD_SIZE + 1 < |buf| {
      WalkPadding(buf, p + CRC_FIELD_SIZE, left - 1, info, h);
    }
  }

  /** Position `p` starts the encoding of a field list, its CRC field and zero padding. */
  ghost predicate FieldsAt(buf: seq<byte>, p: nat, fields: seq<Field>)
    decreases |fields|
  {
    if fields == [] then
      && p + CRC_FIELD_SIZE <= |buf| && buf[p] == CRC32 && buf[p + 1] == 4
      && forall i :: p + CRC_FIELD_SIZE <= i < |buf| ==> buf[i] == 0
    else
      var f := fields[0];
      && p + 2 + |f.value| <= |buf| && buf[p] == f.tag && buf[p + 1] == |f.value|
      && buf[p + 2..p + 2 + |f.value|] == f.value
      && FieldsAt(buf, p + 2 + |f.value|, fields[1..])
  }

  lemma {:induction false} BodyGivesFields(buf: seq<byte>, p: nat, fields: seq<Field>)
    requires p + |Body(fields)| <= |buf| && buf[p..p + |Body(fields)|] == Body(fields)
    requires FieldsAt(buf, p + |Body(fields)|, [])
    ensures FieldsAt(buf, p, fields)
    decreases |fields|
  {
    if fields != [] {
      var f, body := fields[0], Body(fields);
      var head := [f.tag, |f.value|] + f.value;
      assert body == head + Body(fields[1..]);
      var q := p + |head|;
      assert buf[p..q] == body[..|head|] == head;
      assert buf[p] == buf[p..q][0] && buf[p + 1] == buf[p..q][1];
      assert buf[p + 2..q] == buf[p..q][2..] == f.value;
      assert buf[q..p + |body|] == body[|head|..] == Body(fields[1..]);
      BodyGivesFields(buf, q, fields[1..]);
    }
  }

  /** One step of the walk over a field that lies in the buffer. */
  lemma WalkOneField(buf: seq<byte>, p: nat, f: Field, left: int, info: Info, h: Handler)
    requires p + 3 + |f.value| < |buf| && buf[p] == f.tag && buf[p + 1] == |f.value|
    requires buf[p + 2..p + 2 + |f.value|] == f.value && left > 0
    ensures var q := p + |f.value| + 2;
      Walk(buf, p, left, info, h) ==
      Walk(buf, q, left - buf[q + 1] - 1, Apply(h, info, f.tag, f.value), h)
  {
    assert Readable(buf, p) && ApplyAt(buf, p, info, h) == Apply(h, info, f.tag, f.value);
  }

  /** How the walk from a field ends: with `ahead` bytes more on its counter than there are bytes left
      in the list, less the length of the field it stands on, it applies every field of the list in
      order and then goes `ahead + |fields| - 4` steps into the tail. */
  function WalkEnd(buf: seq<byte>, p: nat, fields: seq<Field>, ahead: nat, info: Info, h: Handler): Outcome {
    var beyond := ahead + |fields| - 4;
    if beyond <= 0 || p + BodyLen(fields) + CRC_FIELD_SIZE + 2 * beyond <= |buf|
    then Done(Meaning(fields, info, h)) else Overrun
  }

  lemma WalkLastField(buf: seq<byte>, p: nat, fields: seq<Field>, ahead: nat, info: Info, h: Handler)
    requires |fields| == 1 && FieldsAt(buf, p, fields)
    ensures Walk(buf, p, BodyLen(fields) - |fields[0].value| + ahead, info, h) ==
      WalkEnd(buf, p, fields, ahead, info, h)
  {
    var f, rest := fields[0], fields[1..];
    var left := BodyLen(fields) - |f.value| + ahead;
    var q := p + |f.value| + 2;
    assert FieldsAt(buf, q, rest) && q + 1 < |buf|;
    var info' := Apply(h, info, f.tag, f.value);
    assert rest == [] && BodyLen(fields) == 2 + |f.value|;
    assert Meaning(fields, info, h) == Meaning(rest, info', h) == info';
    WalkOneField(buf, p, f, left, info, h);
    WalkTail(buf, q, left - 5, info', h);
  }

  lemma WalkToNextField(buf: seq<byte>, p: nat, fields: seq<Field>, ahead: nat, info: Info, h: Handler)
    requires |fields| > 1 && FieldsAt(buf, p, fields)
    ensures var f := fields[0];
      Walk(buf, p, BodyLen(fields) - |f.value| + ahead, info, h) ==
      Walk(buf, p + |f.value| + 2, BodyLen(fields[1..]) - |fields[1].value| + ahead + 1,
        Apply(h, info, f.tag, f.value), h)
  {
    var f, rest := fields[0], fields[1..];
    var left := BodyLen(fields) - |f.value| + ahead;
    var q := p + |f.value| + 2;
    assert FieldsAt(buf, q, rest) && q + 1 < |buf|;
    WalkOneField(buf, p, f, left, info, h);
  }

  lemma {:induction false} WalkFields(buf: seq<byte>, p: nat, fields: seq<Field>, ahead: nat, info: Info, h: Handler)
    requires fields != [] && FieldsAt(buf, p, fields)
    ensures Walk(buf, p, BodyLen(fields) - |fields[0].value| + ahead, info, h) ==
      WalkEnd(buf, p, fields, ahead, info, h)
    decreases |fields|
  {
    if |fields| == 1 {
      WalkLastField(buf, p, fields, ahead, info, h);
    } else {
      var f := fields[0];
      WalkToNextField(buf, p, fields, ahead, info, h);
      WalkFields(buf, p + |f.value| + 2, fields[1..], ahead + 1, Apply(h, info, f.tag, f.value), h);
    }
  }

  // ----- Validation

  /** sdi_onie_validate_header. */
  predicate HeaderValid(data: seq<byte>, size: nat)
    requires |data| >= HEADER_SIZE && size >= HEADER_SIZE
  {
    data[..8] == ID_STRING && data[8] == 1 && StoredTotal(data) <= size - HEADER_SIZE
  }

  function StoredTotal(data: seq<byte>): nat
    requires |data| >= HEADER_SIZE
  {
    Word(data[9], data[10])
  }

  /** sdi_onie_validate_checksum. */
  predicate ChecksumValid(data: seq<byte>, env: Env)
    requires |data| >= HEADER_SIZE && HEADER_SIZE + StoredTotal(data) <= |data|
  {
    var end := HEADER_SIZE + StoredTotal(data);
    var at := end - CRC_FIELD_SIZE;
    && data[at] == CRC32 && data[at + 1] == 4
    && env.crc(data[..end - 4]) % 0x1_0000_0000 ==
         0x1_0000 * Word(data[at + 2], data[at + 3]) + Word(data[at + 4], data[at + 5])
  }

  ghost predicate IsImage(data: seq<byte>, fields: seq<Field>, env: Env) {
    && TotalLen(fields) < 0x1_0000 && HEADER_SIZE + TotalLen(fields) <= |data|
    && data[..HEADER_SIZE + TotalLen(fields)] == Encode(fields, env)
    && forall i :: HEADER_SIZE + TotalLen(fields) <= i < |data| ==> data[i] == 0
  }

  /** Where the parts of an image lie. */
  lemma ImageParts(data: seq<byte>, fields: seq<Field>, env: Env)
    requires IsImage(data, fields, env)
    ensures data[..HEADER_SIZE] == Header(TotalLen(fields))
    ensures data[HEADER_SIZE..HEADER_SIZE + |Body(fields)|] == Body(fields)
    ensures data[..HEADER_SIZE + TotalLen(fields) - 4] == Covered(fields)
    ensures data[HEADER_SIZE + |Body(fields)|..HEADER_SIZE + TotalLen(fields)] ==
      [CRC32, 4] + Be32(env.crc(Covered(fields)) % 0x1_0000_0000)
  {
    var n := HEADER_SIZE + |Body(fields)|;
    var image := Encode(fields, env);
    assert image[..HEADER_SIZE] == Header(TotalLen(fields)) && image[HEADER_SIZE..n] == Body(fields);
    assert image[..n + 2] == Covered(fields);
    assert image[n..] == [CRC32, 4] + Be32(env.crc(Covered(fields)) % 0x1_0000_0000);
    assert data[..HEADER_SIZE] == image[..HEADER_SIZE] && data[HEADER_SIZE..n] == image[HEADER_SIZE..n];
    assert data[..n + 2] == image[..n + 2] && data[n..n + 6] == image[n..];
  }

  lemma HeaderOfImage(data: seq<byte>, fields: seq<Field>, env: Env)
    requires IsImage(data, fields, env)
    ensures HeaderValid(data, |data|) && StoredTotal(data) == TotalLen(fields)
  {
    ImageParts(data, fields, env);
    var h := Header(TotalLen(fields));
    assert h[..8] == ID_STRING && h[8] == 1 && Word(h[9], h[10]) == TotalLen(fields);
    assert data[..8] == data[..HEADER_SIZE][..8];
    assert forall i :: 0 <= i < HEADER_SIZE ==> data[i] == data[..HEADER_SIZE][i];
  }

  lemma Be32Decodes(x: nat)
    requires x < 0x1_0000_0000
    ensures 0x1_0000 * Word(Be32(x)[0], Be32(x)[1]) + Word(Be32(x)[2], Be32(x)[3]) == x
  {
  }

  /** Both validators accept every image of the reference encoder. */
  lemma ImagesAreValid(data: seq<byte>, fields: seq<Field>, env: Env)
    requires IsImage(data, fields, env)
    ensures HeaderValid(data, |data|) && StoredTotal(data) == TotalLen(fields) && ChecksumValid(data, env)
  {
    HeaderOfImage(data, fields, env);
    ImageParts(data, fields, env);
    var n, crc := HEADER_SIZE + |Body(fields)|, env.crc(Covered(fields)) % 0x1_0000_0000;
    Be32Decodes(crc);
    var tail := data[n..n + 6];
    assert tail == [CRC32, 4] + Be32(crc);
    assert forall i :: 0 <= i < 6 ==> data[n + i] == tail[i];
    assert tail[2] == Be32(crc)[0] && tail[3] == Be32(crc)[1] && tail[4] == Be32(crc)[2] && tail[5] == Be32(crc)[3];
  }

  /** Bytes beyond the image that the walk steps over. */
  function Slack(fields: seq<Field>): nat {
    if fields == [] || |fields[0].value| + |fields| <= 4 then 0 else 2 * (|fields[0].value| + |fields| - 4)
  }

  lemma ImageHasFields(data: seq<byte>, fields: seq<Field>, env: Env)
    requires IsImage(data, fields, env)
    ensures FieldsAt(data, HEADER_SIZE, fields) && |Body(fields)| == BodyLen(fields)
  {
    ImageParts(data, fields, env);
    BodyLenIsLength(fields);
    var n := HEADER_SIZE + |Body(fields)|;
    var tail := data[n..n + 6];
    assert data[n] == tail[0] && data[n + 1] == tail[1];
    BodyGivesFields(data, HEADER_SIZE, fields);
  }

  /** Round trip.  On the image of any field list, followed by zeros, the walk gives exactly the fields
      applied in order, and it stays inside the buffer if and only if the zeros are at least `Slack`. */
  lemma WalkOfImage(data: seq<byte>, fields: seq<Field>, h: Handler, env: Env)
    requires IsImage(data, fields, env)
    ensures Walk(data, HEADER_SIZE, TotalLen(fields) - CRC_FIELD_SIZE, NO_INFO, h) ==
      if HEADER_SIZE + TotalLen(fields) + Slack(fields) <= |data|
      then Done(Meaning(fields, NO_INFO, h)) else Overrun
  {
    ImageHasFields(data, fields, env);
    if fields != [] {
      WalkFields(data, HEADER_SIZE, fields, |fields[0].value|, NO_INFO, h);
    }
  }
}
