/** The driver code of src/drivers/sdi_onie_eeprom.c, proved against `OnieEeprom`. */
module OnieDriver {
  import opened Bits
  import opened OnieEeprom

  datatype Rc = Ok | BusError | Invalid | BadCrcField | NotPermitted

  datatype Format = Parse(parser: Parser) | Other

  /** A C string: the characters before the first NUL. */
  function CString(s: seq<byte>): seq<byte> { s[..Stop(s, |s|)] }

  lemma {:induction false} StopAt(s: seq<byte>, limit: nat, k: nat)
    requires k <= limit <= |s| && (forall i :: 0 <= i < k ==> s[i] != 0) && (k < limit ==> s[k] == 0)
    ensures Stop(s, limit) == k
  {
    if k > 0 { StopAt(s[1..], limit - 1, k - 1); }
  }

  ghost predicate AllPrintable(s: seq<byte>) { forall i :: 0 <= i < |s| ==> 0x20 <= s[i] <= 0x7e }

  /** A printable value that fits comes whole. */
  lemma PrintableTextIsWhole(src: seq<byte>, size: nat)
    requires |src| < size && AllPrintable(src)
    ensures Text(src, size) == src
  {}

  /** A NUL ends the text. */
  lemma TextStopsAtNul(src: seq<byte>, size: nat, k: nat)
    requires k < |src| && k + 1 < size && src[k] == 0 && AllPrintable(src[..k])
    ensures Text(src, size) == src[..k]
  {
    assert forall i :: 0 <= i < k ==> src[i] == src[..k][i];
    StopAt(src, if |src| < size - 1 then |src| else size - 1, k);
  }

  /** An unprintable character, with no NUL before it and room for it, leaves nothing. */
  ghost predicate UnprintableAt(src: seq<byte>, size: nat, k: nat) {
    k < |src| && k + 1 < size && !(0x20 <= src[k] <= 0x7e) && forall i :: 0 <= i <= k ==> src[i] != 0
  }

  lemma UnprintableTextIsEmpty(src: seq<byte>, size: nat, k: nat)
    requires UnprintableAt(src, size, k)
    ensures Text(src, size) == []
  {
    assert k < Stop(src, if |src| < size - 1 then |src| else size - 1);
    assert !IsPrint(src[k]);
  }

  /** copy_bytes_to_string. */
  method CopyBytesToString(dst: array<byte>, src: seq<byte>)
    requires dst.Length > 0
    modifies dst
    ensures CString(dst[..]) == Text(src, dst.Length)
    ensures AllPrintable(src) && |src| < dst.Length ==> CString(dst[..]) == src
    ensures forall k: nat :: UnprintableAt(src, dst.Length, k) ==> CString(dst[..]) == []
  {
    if AllPrintable(src) && |src| < dst.Length { PrintableTextIsWhole(src, dst.Length); }
    forall k: nat | UnprintableAt(src, dst.Length, k) ensures Text(src, dst.Length) == [] {
      UnprintableTextIsEmpty(src, dst.Length, k);
    }
    var limit := if |src| < dst.Length - 1 then |src| else dst.Length - 1;
    var d, n := 0, limit;
    while n > 0
      invariant 0 <= d && 0 <= n && d + n == limit
      invariant forall i :: 0 <= i < d ==> dst[i] == src[i] && src[i] != 0 && IsPrint(src[i])
    {
      var c := src[d];
      if c == 0 {
        break;
      }
      if !IsPrint(c) {
        dst[0] := 0;
        StopAt(dst[..], dst.Length, 0);
        assert d < Stop(src, limit);
        return;
      }
      dst[d] := c;
      n, d := n - 1, d + 1;
    }
    dst[d] := 0;
    StopAt(src, limit, d);
    StopAt(dst[..], dst.Length, d);
  }

  /** sdi_onie_fill_tlv_entity_info: the walk, which stops short if it would leave the buffer. */
  method FillTlvEntityInfo(buf: seq<byte>, h: Handler) returns (outcome: Outcome)
    requires |buf| >= HEADER_SIZE
    ensures outcome == Walk(buf, HEADER_SIZE, StoredTotal(buf) - CRC_FIELD_SIZE, NO_INFO, h)
  {
    var left := StoredTotal(buf) - CRC_FIELD_SIZE;
    var p: nat, info := HEADER_SIZE, NO_INFO;
    while left > 0
      invariant Walk(buf, p, left, info, h) ==
        Walk(buf, HEADER_SIZE, StoredTotal(buf) - CRC_FIELD_SIZE, NO_INFO, h)
      decreases left
    {
      if !Readable(buf, p) {
        return Overrun;
      }
      info := ApplyAt(buf, p, info, h);
      p := p + 2 + (buf[p + 1] as nat);
      if p + 1 >= |buf| {
        return Overrun;
      }
      left := left - buf[p + 1] - 1;
    }
    outcome := Done(info);
  }

  /** Defaults from the configuration for fans and power supplies that do not say. */
  function WithDefaults(info: Info, maxSpeed: nat, numFans: nat): Info {
    var x := info.extension;
    info.(extension := x.(maxSpeed := if x.maxSpeed == 0 then maxSpeed else x.maxSpeed,
                          numFans := if x.numFans == 0 then numFans else x.numFans))
  }

  /** What the defaults amount to, member by member: for fans and power supplies the speed and the number
      of fans come from the EEPROM where it gives them, from the configuration where it does not; all
      else, and everything of the system's own EEPROM, is as it was read. */
  ghost predicate Defaulted(result: Info, read: Info, parser: Parser, maxSpeed: nat, numFans: nat) {
    if parser.System? then result == read
    else
      && result.extension.maxSpeed == (if read.extension.maxSpeed != 0 then read.extension.maxSpeed else maxSpeed)
      && result.extension.numFans == (if read.extension.numFans != 0 then read.extension.numFans else numFans)
      && result.(extension := read.extension) == read
      && result.extension.(maxSpeed := 0, numFans := 0) == read.extension.(maxSpeed := 0, numFans := 0)
  }

  function Finish(outcome: Outcome, format: Format, maxSpeed: nat, numFans: nat): Outcome {
    if outcome.Done? && format.Parse? && !format.parser.System?
    then Done(WithDefaults(outcome.info, maxSpeed, numFans)) else outcome
  }

  /** The first `k` bytes of the ROM arrived in the zeroed buffer, at least the header among them. */
  ghost predicate Arrived(data: seq<byte>, rom: seq<byte>, k: nat) {
    && HEADER_SIZE <= k <= |rom| && k <= |data| && data[..k] == rom[..k]
    && forall i :: k <= i < |data| ==> data[i] == 0
  }

  /** All that the header announces is in the buffer as it is in the ROM. */
  ghost predicate Loaded(data: seq<byte>, rom: seq<byte>) {
    && |data| >= HEADER_SIZE && |rom| >= HEADER_SIZE && data[..HEADER_SIZE] == rom[..HEADER_SIZE]
    && var end := HEADER_SIZE + StoredTotal(rom);
      end <= |rom| && end <= |data| && data[..end] == rom[..end] && forall i :: end <= i < |data| ==> data[i] == 0
  }

  /** Both validators pass. */
  ghost predicate Accepted(data: seq<byte>, env: Env) {
    |data| >= HEADER_SIZE && HeaderValid(data, |data|) && ChecksumValid(data, env)
  }

  /** What the validators ask of a buffer, byte by byte: the identifier "TlvInfo" with its NUL, version 1,
      a length that fits, and at the end of it a CRC field that agrees with the bytes before the CRC. */
  lemma AcceptedIff(data: seq<byte>, env: Env)
    requires |data| >= 11
    ensures var total := 256 * (data[9] as nat) + (data[10] as nat);
      Accepted(data, env) <==>
        && data[..8] == [0x54, 0x6c, 0x76, 0x49, 0x6e, 0x66, 0x6f, 0x00] && data[8] == 1 && total <= |data| - 11
        && data[total + 5] == 0xfe && data[total + 6] == 4
        && env.crc(data[..total + 7]) % 0x1_0000_0000 ==
             0x1000000 * (data[total + 7] as nat) + 0x10000 * (data[total + 8] as nat)
             + 0x100 * (data[total + 9] as nat) + (data[total + 10] as nat)
  {}

  function End(data: seq<byte>): nat
    requires |data| >= HEADER_SIZE
  {
    HEADER_SIZE + StoredTotal(data)
  }

  lemma SameHeader(data: seq<byte>, rom: seq<byte>, k: nat)
    requires Arrived(data, rom, k)
    ensures data[..HEADER_SIZE] == rom[..HEADER_SIZE] && StoredTotal(data) == StoredTotal(rom)
  {
    assert data[..HEADER_SIZE] == data[..k][..HEADER_SIZE] == rom[..HEADER_SIZE];
    assert data[9] == data[..HEADER_SIZE][9] && data[10] == data[..HEADER_SIZE][10];
    assert rom[9] == rom[..HEADER_SIZE][9] && rom[10] == rom[..HEADER_SIZE][10];
  }

  /** What acceptance guarantees after a read that broke off: at most the four CRC bytes are missing, so
      all that the CRC covers, and with it every field, came from the ROM. */
  lemma CoveredArrived(data: seq<byte>, rom: seq<byte>, k: nat, env: Env)
    requires Arrived(data, rom, k) && Accepted(data, env)
    ensures k >= End(data) - 4 && End(data) - 4 <= |rom| && data[..End(data) - 4] == rom[..End(data) - 4]
  {
    var n := End(data) - 4;
    assert n - 1 >= HEADER_SIZE ==> data[n - 1] == 4;
    assert data[..n] == data[..k][..n];
    assert rom[..n] == rom[..k][..n];
  }

  /** If nothing arrived after the header, the image is never accepted. */
  lemma HeaderAloneFails(data: seq<byte>, rom: seq<byte>, env: Env)
    requires Arrived(data, rom, HEADER_SIZE) && HeaderValid(data, |data|)
    ensures !ChecksumValid(data, env)
  {
    var at := End(data) - CRC_FIELD_SIZE;
    if at < HEADER_SIZE {
      assert data[5] == data[..8][5] && data[6] == data[..8][6] && data[7] == data[..8][7];
    }
  }

  /** The whole image is in the buffer if and only if the CRC bytes that did not arrive are zero in the
      ROM. */
  lemma LoadedIff(data: seq<byte>, rom: seq<byte>, k: nat, env: Env)
    requires Arrived(data, rom, k) && Accepted(data, env) && k <= End(data)
    ensures Loaded(data, rom) <==> End(data) <= |rom| && forall i :: k <= i < End(data) ==> rom[i] == 0
  {
    SameHeader(data, rom, k);
    var end := End(data);
    if Loaded(data, rom) {
      assert forall i :: 0 <= i < end ==> data[..end][i] == rom[..end][i];
    }
    if end <= |rom| && forall i :: k <= i < end ==> rom[i] == 0 {
      assert forall i :: 0 <= i < k ==> data[..k][i] == rom[..k][i];
      assert data[..end] == rom[..end];
    }
  }

  /** Success does not mean that both reads were complete.  The last CRC byte fails to arrive, the CRC
      of the bytes covered is 0, and both validators pass. */
  lemma PartialReadIsAccepted() returns (data: seq<byte>, rom: seq<byte>, env: Env)
    ensures Arrived(data, rom, 16) && Accepted(data, env) && End(data) == 17 && |rom| == 17 && !Loaded(data, rom)
  {
    env := Env((s: seq<byte>) => 0, (p: Parser, s: seq<byte>, x: Extension) => x);
    var covered: seq<byte> := ID_STRING + [1, 0, 6, CRC32, 4];
    data, rom := covered + [0, 0, 0, 0], covered + [0, 0, 0, 1];
    assert data[..16] == rom[..16];
    assert data[..8] == ID_STRING;
    assert End(data) == 17 && rom[16] == 1;
    LoadedIff(data, rom, 16, env);
  }

  /** For a ROM that does hold an image, success means that the image is loaded, whatever broke off: the
      CRC bytes are determined by the bytes covered. */
  lemma AcceptedImageIsLoaded(data: seq<byte>, rom: seq<byte>, k: nat, fields: seq<Field>, env: Env)
    requires TotalLen(fields) < 0x1_0000 && Encode(fields, env) <= rom
    requires Arrived(data, rom, k) && Accepted(data, env) && k <= End(data)
    ensures Loaded(data, rom)
  {
    var e := Encode(fields, env);
    SameHeader(data, rom, k);
    EncodedTotal(rom, fields, env);
    CoveredArrived(data, rom, k, env);
    var n := |e| - 4;
    assert data[..n] == rom[..n] == e[..n] == Covered(fields);
    CrcBytesAreDetermined(data, fields, env);
    assert data[..|e|] == data[..n] + data[n..n + 4] == e;
    assert e == rom[..|e|];
  }

  lemma CrcBytesAreDetermined(data: seq<byte>, fields: seq<Field>, env: Env)
    requires TotalLen(fields) < 0x1_0000 && Accepted(data, env) && End(data) == HEADER_SIZE + TotalLen(fields)
    requires data[..End(data) - 4] == Covered(fields)
    ensures data[End(data) - 4..End(data)] == Be32(env.crc(Covered(fields)) % 0x1_0000_0000)
  {
    var n := End(data) - 4;
    Be32IsUnique(env.crc(Covered(fields)) % 0x1_0000_0000, data[n], data[n + 1], data[n + 2], data[n + 3]);
  }

  lemma EncodedTotal(rom: seq<byte>, fields: seq<Field>, env: Env)
    requires TotalLen(fields) < 0x1_0000 && Encode(fields, env) <= rom
    ensures |rom| >= HEADER_SIZE && StoredTotal(rom) == TotalLen(fields)
  {
    var e, h := Encode(fields, env), Header(TotalLen(fields));
    assert rom[..HEADER_SIZE] == e[..HEADER_SIZE] == h;
    assert rom[9] == rom[..HEADER_SIZE][9] == h[9] && rom[10] == rom[..HEADER_SIZE][10] == h[10];
  }

  lemma Be32IsUnique(x: nat, a: byte, b: byte, c: byte, d: byte)
    requires x < 0x1_0000_0000 && 0x1_0000 * Word(a, b) + Word(c, d) == x
    ensures Be32(x) == [a, b, c, d]
  {}

  /** Reading byte `i` of the device works. */
  predicate Reads(rom: seq<byte>, arrives: nat -> bool, i: nat) { i < |rom| && arrives(i) }

  /** sdi_device_read into `data` at the same offset, byte by byte; `rom` is what the device answers at
      each offset, and `arrives` which bytes get through.  A read that fails leaves the bytes that arrived
      before the failure. */
  method DeviceRead(rom: seq<byte>, arrives: nat -> bool, data: array<byte>, offset: nat, len: nat)
    returns (ok: bool, ghost got: nat)
    requires offset + len <= data.Length
    modifies data
    ensures got <= len && (ok <==> got == len) && (got > 0 ==> offset + got <= |rom|)
    ensures (forall i :: offset <= i < offset + got ==> Reads(rom, arrives, i)) && (got < len ==> !Reads(rom, arrives, offset + got))
    ensures data[..offset] == old(data[..offset]) && data[offset + got..] == old(data[offset + got..])
    ensures got > 0 ==> data[offset..offset + got] == rom[offset..offset + got]
  {
    got := 0;
    for i := 0 to len
      invariant got == i && (i > 0 ==> offset + i <= |rom|)
      invariant forall j :: offset <= j < offset + i ==> Reads(rom, arrives, j)
      invariant data[..offset] == old(data[..offset]) && data[offset + i..] == old(data[offset + i..])
      invariant i > 0 ==> data[offset..offset + i] == rom[offset..offset + i]
    {
      if !Reads(rom, arrives, offset + i) {
        return false, got;
      }
      data[offset + i] := rom[offset + i];
      got := got + 1;
    }
    ok := true;
  }

  /** The two reads of sdi_onie_eeprom_data_get, with the header check between them; the code of the
      second is dropped, `k` says how far it got. */
  method ReadImage(rom: seq<byte>, arrives: nat -> bool, size: nat) returns (rc: Rc, data: array<byte>, ghost k: nat)
    requires size >= HEADER_SIZE
    ensures fresh(data) && data.Length == size
    ensures rc in {Ok, BusError, Invalid}
    ensures rc.BusError? <==> exists i: nat :: i < HEADER_SIZE && !Reads(rom, arrives, i)
    ensures !rc.BusError? ==> (rc.Ok? <==> HeaderValid(data[..], size))
    ensures rc.Ok? ==> Arrived(data[..], rom, k) && k <= End(data[..])
    ensures rc.Ok? ==> (forall i: nat :: i < k ==> Reads(rom, arrives, i)) && (k < End(data[..]) ==> !Reads(rom, arrives, k))
  {
    k := 0;
    data := new byte[size](_ => 0);
    var ok, got := DeviceRead(rom, arrives, data, 0, HEADER_SIZE);
    if !ok {
      rc := BusError;
      return;
    }
    ghost var header := data[..];
    assert header[..HEADER_SIZE] == data[0..HEADER_SIZE] == rom[..HEADER_SIZE];
    assert forall i :: HEADER_SIZE <= i < size ==> header[i] == data[HEADER_SIZE..][i - HEADER_SIZE] == 0;
    if !HeaderValid(data[..], size) {
      rc := Invalid;
      return;
    }
    ok, got := DeviceRead(rom, arrives, data, HEADER_SIZE, StoredTotal(data[..]));
    k := HEADER_SIZE + got;
    rc := Ok;
    StillArrived(header, data[..], rom, k);
  }

  /** The second read adds to the first. */
  lemma StillArrived(header: seq<byte>, data: seq<byte>, rom: seq<byte>, k: nat)
    requires Arrived(header, rom, HEADER_SIZE) && |data| == |header| && HEADER_SIZE <= k <= |data|
    requires HeaderValid(header, |header|) && k <= End(header)
    requires data[..HEADER_SIZE] == header[..HEADER_SIZE] && data[k..] == header[k..]
    requires k > HEADER_SIZE ==> k <= |rom| && data[HEADER_SIZE..k] == rom[HEADER_SIZE..k]
    ensures Arrived(data, rom, k) && HeaderValid(data, |data|) && End(data) == End(header)
  {
    assert data[..k] == data[..HEADER_SIZE] + data[HEADER_SIZE..k];
    assert rom[..k] == rom[..HEADER_SIZE] + rom[HEADER_SIZE..k];
    assert forall i :: k <= i < |data| ==> data[i] == data[k..][i - k] == header[k..][i - k] == header[i];
    assert forall i :: 0 <= i < HEADER_SIZE ==> data[i] == data[..HEADER_SIZE][i] == header[..HEADER_SIZE][i] == header[i];
    assert data[..8] == data[..HEADER_SIZE][..8] == header[..8];
  }

  /** sdi_onie_eeprom_data_get.  The code of the second read is replaced by the checksum's; what success
      still means is `CoveredArrived`. */
  method DataGet(rom: seq<byte>, arrives: nat -> bool, size: nat, format: Format, maxSpeed: nat, numFans: nat, env: Env)
    returns (rc: Rc, outcome: Outcome, ghost image: seq<byte>, ghost k: nat)
    requires size >= HEADER_SIZE
    ensures |image| == size
    ensures rc.BusError? <==> exists i: nat :: i < HEADER_SIZE && !Reads(rom, arrives, i)
    ensures rc.Invalid? || rc.BadCrcField? ==> !Accepted(image, env)
    ensures !rc.BusError? && HeaderValid(image, size) ==>
      && Arrived(image, rom, k) && k <= End(image)
      && (forall i: nat :: i < k ==> Reads(rom, arrives, i)) && (k < End(image) ==> !Reads(rom, arrives, k))
    ensures rc.Ok? || rc.NotPermitted? ==> Arrived(image, rom, k) && Accepted(image, env) && k <= End(image)
    ensures rc.Ok? || rc.NotPermitted? ==>
      End(image) - 4 <= k <= |rom| && image[..End(image) - 4] == rom[..End(image) - 4]
    ensures rc.Ok? ==> format.Parse?
    ensures rc.Ok? ==> outcome == Finish(
      Walk(image, HEADER_SIZE, StoredTotal(image) - CRC_FIELD_SIZE, NO_INFO, FieldHandler(format.parser, env)),
      format, maxSpeed, numFans)
    ensures rc.Ok? ==>
      match Walk(image, HEADER_SIZE, StoredTotal(image) - CRC_FIELD_SIZE, NO_INFO, FieldHandler(format.parser, env))
      case Overrun => outcome == Overrun
      case Done(info) => outcome.Done? && Defaulted(outcome.info, info, format.parser, maxSpeed, numFans)
    ensures rc.Ok? || rc.NotPermitted? ==>
      && image[..8] == [0x54, 0x6c, 0x76, 0x49, 0x6e, 0x66, 0x6f, 0x00] && image[8] == 1
      && End(image) == 11 + 256 * (image[9] as nat) + (image[10] as nat)
      && image[End(image) - 6] == 0xfe && image[End(image) - 5] == 4
    ensures rc.NotPermitted? ==> format.Other?
    ensures !rc.Ok? ==> outcome == Done(NO_INFO)
  {
    outcome := Done(NO_INFO);
    var data;
    rc, data, k := ReadImage(rom, arrives, size);
    image := data[..];
    if !rc.Ok? {
      return;
    }
    var buf := data[..];
    var at := HEADER_SIZE + StoredTotal(buf) - CRC_FIELD_SIZE;
    if buf[at] != CRC32 || buf[at + 1] != 4 {
      rc := BadCrcField;
      return;
    }
    if !ChecksumValid(buf, env) {
      rc := Invalid;
      return;
    }
    CoveredArrived(image, rom, k, env);
    match format {
      case Parse(parser) =>
        outcome := FillTlvEntityInfo(buf, FieldHandler(parser, env));
        if outcome.Done? && !parser.System? {
          outcome := Done(WithDefaults(outcome.info, maxSpeed, numFans));
        }
      case Other =>
        rc := NotPermitted;
    }
  }

  /** End to end, whatever broke off: if the image of a field list is in the ROM, and what arrived of it
      is accepted, the result is the meaning of the list, given room for the slack; with less room the
      walk leaves the buffer.  A complete read is always accepted. */
  lemma DataGetOfImage(rom: seq<byte>, image: seq<byte>, k: nat, fields: seq<Field>, parser: Parser, env: Env)
    requires TotalLen(fields) < 0x1_0000 && Encode(fields, env) <= rom
    requires Arrived(image, rom, k) && HEADER_SIZE + TotalLen(fields) <= |image|
    requires k == HEADER_SIZE + TotalLen(fields) || (k < HEADER_SIZE + TotalLen(fields) && Accepted(image, env))
    ensures Accepted(image, env)
    ensures Walk(image, HEADER_SIZE, StoredTotal(image) - CRC_FIELD_SIZE, NO_INFO, FieldHandler(parser, env)) ==
      if HEADER_SIZE + TotalLen(fields) + Slack(fields) <= |image|
      then Done(Meaning(fields, NO_INFO, FieldHandler(parser, env))) else Overrun
  {
    var e := Encode(fields, env);
    SameHeader(image, rom, k);
    EncodedTotal(rom, fields, env);
    if k < |e| {
      AcceptedImageIsLoaded(image, rom, k, fields, env);
    }
    assert image[..|e|] == rom[..|e|] == e;
    ImagesAreValid(image, fields, env);
    WalkOfImage(image, fields, FieldHandler(parser, env), env);
  }
}
