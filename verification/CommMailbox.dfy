/** The message mailbox of the communication device (src/drivers/sdi_comm_dev_driver.c).

    A message is stored as a four-byte header, checksum and size, followed by its payload.  Registers
    are addressed with 16 bits; transfers go in blocks of at most 16 bytes and are read back byte by
    byte from an auto-incrementing pointer. */
module CommMailbox {
  import opened Bits

  const SPACE := 0x1_0000
  const BLOCK := 16
  const HEADER_SIZE := 4
  const BUFFER_MAX := 4100
  const NORTHBOUND := 0x8500
  const SOUTHBOUND := 0x9504
  const STATUS_REGISTER := 0x7C90
  const MAILBOX_CONTROL := 0x7C92

  type Memory = m: seq<byte> | |m| == SPACE witness seq(SPACE, _ => 0)

  // ----- Register memory

  function Store(m: Memory, base: nat, data: seq<byte>): Memory
    decreases |data|
  {
    if data == [] then m else Store(m[base % SPACE := data[0]], base + 1, data[1..])
  }

  function Load(m: Memory, base: nat, len: nat): (data: seq<byte>)
    ensures |data| == len
    decreases len, m
  {
    if len == 0 then [] else [m[base % SPACE]] + Load(m, base + 1, len - 1)
  }

  lemma {:induction false} LoadAt(m: Memory, base: nat, len: nat, i: nat)
    requires i < len
    ensures Load(m, base, len)[i] == m[(base + i) % SPACE]
    decreases len
  {
    if i > 0 { LoadAt(m, base + 1, len - 1, i - 1); }
  }

  /** Where a store goes: the `i`-th byte to `base + i`, and nowhere else. */
  lemma {:induction false} StoreAt(m: Memory, base: nat, data: seq<byte>, a: nat)
    requires a < SPACE && |data| <= SPACE
    ensures Store(m, base, data)[a] ==
      if (a - base) % SPACE < |data| then data[(a - base) % SPACE] else m[a]
    decreases |data|
  {
    if data != [] {
      var m' := m[base % SPACE := data[0]];
      StoreAt(m', base + 1, data[1..], a);
      AddressIs(base, 0, a);
      NextAddress(base, a);
    }
  }

  lemma NextAddress(base: nat, a: nat)
    ensures (a - (base + 1)) % SPACE == if (a - base) % SPACE == 0 then SPACE - 1 else (a - base) % SPACE - 1
  {}

  lemma {:induction false} StoreConcat(m: Memory, base: nat, data: seq<byte>, more: seq<byte>)
    ensures Store(m, base, data + more) == Store(Store(m, base, data), base + |data|, more)
    decreases |data|
  {
    if data == [] {
      assert data + more == more;
    } else {
      StoreConcat(m[base % SPACE := data[0]], base + 1, data[1..], more);
      assert (data + more)[1..] == data[1..] + more;
    }
  }

  lemma {:induction false} LoadConcat(m: Memory, base: nat, len: nat, more: nat)
    ensures Load(m, base, len + more) == Load(m, base, len) + Load(m, base + len, more)
    decreases len
  {
    if len > 0 { LoadConcat(m, base + 1, len - 1, more); }
  }

  lemma LoadStored(m: Memory, base: nat, data: seq<byte>, len: nat)
    requires len <= |data| <= SPACE
    ensures Load(Store(m, base, data), base, len) == data[..len]
  {
    forall i | 0 <= i < len ensures Load(Store(m, base, data), base, len)[i] == data[i] {
      LoadAt(Store(m, base, data), base, len, i);
      ByteStored(m, base, data, i);
    }
  }

  lemma ByteStored(m: Memory, base: nat, data: seq<byte>, i: nat)
    requires i < |data| <= SPACE
    ensures Store(m, base, data)[(base + i) % SPACE] == data[i]
  {
    AddressIs(base, i, (base + i) % SPACE);
    StoreAt(m, base, data, (base + i) % SPACE);
  }

  /** Two stores one after the other are both there when they fit the register space together. */
  lemma StoreTwo(m: Memory, base: nat, first: seq<byte>, second: seq<byte>)
    requires |first| + |second| <= SPACE
    ensures var m' := Store(Store(m, base, first), base + |first|, second);
      && Load(m', base, |first|) == first && Load(m', base + |first|, |second|) == second
      && forall a :: 0 <= a < SPACE && (a - base) % SPACE >= |first| + |second| ==> m'[a] == m[a]
  {
    var all := first + second;
    var m' := Store(m, base, all);
    StoreConcat(m, base, first, second);
    LoadStored(m, base, all, |all|);
    LoadConcat(m', base, |first|, |second|);
    assert Load(m', base, |all|) == all;
    assert all[..|first|] == first && all[|first|..] == second;
    forall a | 0 <= a < SPACE && (a - base) % SPACE >= |all| ensures m'[a] == m[a] {
      StoreAt(m, base, all, a);
    }
  }

  lemma AddressIs(base: nat, k: nat, a: nat)
    requires k < SPACE && a < SPACE
    ensures (base + k) % SPACE == a <==> k == (a - base) % SPACE
  {
  }

  lemma LoadUpdated(m: Memory, base: nat, len: nat, a: nat, b: byte)
    requires a < SPACE && len <= SPACE
    ensures var i := (a - base) % SPACE;
      Load(m[a := b], base, len) == if i < len then Load(m, base, len)[i := b] else Load(m, base, len)
  {
    var i := (a - base) % SPACE;
    var m': Memory := m[a := b];
    var p, q := Load(m, base, len), Load(m', base, len);
    forall k | 0 <= k < len ensures q[k] == if k == i then b else p[k] {
      LoadAt(m, base, len, k);
      LoadAt(m', base, len, k);
      AddressIs(base, k, a);
    }
  }

  lemma LoadUpdatedAt(m: Memory, base: nat, len: nat, i: nat, b: byte)
    requires i < len <= SPACE
    ensures Load(m[(base + i) % SPACE := b], base, len) == Load(m, base, len)[i := b]
  {
    AddressIs(base, i, (base + i) % SPACE);
    LoadUpdated(m, base, len, (base + i) % SPACE, b);
  }

  // ----- The message format

  /** strlen, on a buffer that holds a NUL. */
  function StrLen(s: seq<byte>): (n: nat)
    requires 0 in s
    ensures n < |s| && s[n] == 0 && 0 !in s[..n]
  {
    if s[0] == 0 then 0 else 1 + StrLen(s[1..])
  }

  function Sum(s: seq<byte>): nat {
    if s == [] then 0 else s[0] + Sum(s[1..])
  }

  /** 16-bit two's complement of the sum of the payload and the two bytes of its size. */
  function Checksum(payload: seq<byte>): (c: nat)
    requires |payload| < SPACE
    ensures c < SPACE && (Sum(payload) + |payload| % 256 + |payload| / 256 + c) % SPACE == 0
  {
    Complement(Sum(payload) + |payload| % 256 + |payload| / 256)
  }

  function Complement(x: nat): (c: nat)
    ensures c < SPACE && (x + c) % SPACE == 0
  {
    (SPACE - x % SPACE) % SPACE
  }

  function Le16(x: nat): (b: seq<byte>)
    requires x < SPACE
    ensures |b| == 2 && Word(b[0], b[1]) == x
  {
    [x % 256, x / 256]
  }

  /** A 16-bit word, low byte first. */
  function Word(lo: nat, hi: nat): nat { lo + 256 * hi }

  function Header(payload: seq<byte>): (h: seq<byte>)
    requires |payload| < SPACE
    ensures |h| == HEADER_SIZE
  {
    Le16(Checksum(payload)) + Le16(|payload|)
  }

  /** The payload of a message: the string with its NUL. */
  function Payload(message: seq<byte>): (p: seq<byte>)
    requires 0 in message
  {
    message[..StrLen(message) + 1]
  }

  // ----- Writing and reading

  /** Clearing the status register and flushing the mailbox, done before every write. */
  function Prepared(m: Memory): Memory {
    PreparedByte(m[MAILBOX_CONTROL]);
    m[STATUS_REGISTER := 0][STATUS_REGISTER + 1 := 0][MAILBOX_CONTROL := SetBit(m[MAILBOX_CONTROL], 0)]
  }

  lemma PreparedByte(b: byte)
    ensures SetBit(b, 0) < 256
  {
    assert Pow2(8) == 256 by { assert Pow2(4) == 16; }
    if SetBit(b, 0) >= 256 {
      var i := HighBit(SetBit(b, 0), 8);
      SetBitBit(b, 0, i);
      NoHighBit(b, 8, i);
    }
  }

  /** sdi_write_mailbox without bus failures: the header describes the string, the payload written is
      the first `len` bytes of the buffer. */
  function WriteMailbox(m: Memory, message: seq<byte>, len: nat): Memory
    requires 0 in message && StrLen(message) + 1 < SPACE && len <= |message|
  {
    Store(Store(Prepared(m), NORTHBOUND, Header(Payload(message))), NORTHBOUND + HEADER_SIZE, message[..len])
  }

  /** The size a header announces. */
  function StoredSize(h: seq<byte>): nat
    requires |h| == HEADER_SIZE
  {
    Word(h[2], h[3])
  }

  /** The reading algorithm on a header and the payload loaded for it. */
  predicate AcceptsHeader(h: seq<byte>, payload: seq<byte>)
    requires |h| == HEADER_SIZE
  {
    StoredSize(h) <= BUFFER_MAX && |payload| == StoredSize(h) && Word(h[0], h[1]) == Checksum(payload)
  }

  function Received(m: Memory, base: nat): seq<byte> {
    Load(m, base + HEADER_SIZE, StoredSize(Load(m, base, HEADER_SIZE)))
  }

  /** What the reading algorithm accepts at a base address. */
  predicate Accepts(m: Memory, base: nat) {
    AcceptsHeader(Load(m, base, HEADER_SIZE), Received(m, base))
  }

  lemma HeaderAnnounces(payload: seq<byte>)
    requires |payload| < SPACE
    ensures StoredSize(Header(payload)) == |payload|
    ensures AcceptsHeader(Header(payload), payload) <==> |payload| <= BUFFER_MAX
  {
    var size, sum := Le16(|payload|), Le16(Checksum(payload));
    assert Header(payload)[0] == sum[0] && Header(payload)[1] == sum[1];
    assert Header(payload)[2] == size[0] && Header(payload)[3] == size[1];
  }

  /** The header survives the payload write when the two together fit the register space. */
  lemma MessageStored(m: Memory, message: seq<byte>, len: nat)
    requires 0 in message && StrLen(message) + 1 < SPACE && len <= |message| && len + HEADER_SIZE <= SPACE
    ensures var m' := WriteMailbox(m, message, len);
      && Load(m', NORTHBOUND, HEADER_SIZE) == Header(Payload(message))
      && Load(m', NORTHBOUND + HEADER_SIZE, len) == message[..len]
      && forall a :: 0 <= a < SPACE && (a - NORTHBOUND) % SPACE >= HEADER_SIZE + len ==> m'[a] == Prepared(m)[a]
  {
    StoreTwo(Prepared(m), NORTHBOUND, Header(Payload(message)), message[..len]);
  }

  /** Nothing but the mailbox area, the status register and the control register is changed. */
  lemma WriteIsFramed(m: Memory, message: seq<byte>, len: nat, a: nat)
    requires 0 in message && StrLen(message) + 1 < SPACE && len <= |message| && len + HEADER_SIZE <= SPACE
    requires a < SPACE && a != STATUS_REGISTER && a != STATUS_REGISTER + 1 && a != MAILBOX_CONTROL
    requires (a - NORTHBOUND) % SPACE >= HEADER_SIZE + len
    ensures WriteMailbox(m, message, len)[a] == m[a]
  {
    MessageStored(m, message, len);
  }

  lemma PayloadReceived(m: Memory, message: seq<byte>, len: nat)
    requires 0 in message && StrLen(message) + 1 < SPACE
    requires StrLen(message) < len <= |message| && len + HEADER_SIZE <= SPACE
    ensures Received(WriteMailbox(m, message, len), NORTHBOUND) == Payload(message)
  {
    var m', payload := WriteMailbox(m, message, len), Payload(message);
    HeaderStored(m, message, len);
    PayloadStored(m, message, len);
    ReceivedIsAnnounced(m', NORTHBOUND, payload);
    LoadPrefix(m', NORTHBOUND + HEADER_SIZE, |payload|, len);
    assert message[..len][..|payload|] == payload;
  }

  lemma ReaderRecovers(m: Memory, message: seq<byte>, len: nat)
    requires 0 in message && StrLen(message) + 1 <= BUFFER_MAX
    requires StrLen(message) < len <= |message| && len + HEADER_SIZE <= SPACE
    ensures Accepts(WriteMailbox(m, message, len), NORTHBOUND)
    ensures Received(WriteMailbox(m, message, len), NORTHBOUND) == Payload(message)
  {
    PayloadReceived(m, message, len);
    HeaderStored(m, message, len);
    HeaderAnnounces(Payload(message));
  }

  lemma LoadPrefix(m: Memory, base: nat, n: nat, len: nat)
    requires n <= len
    ensures Load(m, base, n) == Load(m, base, len)[..n]
  {
    LoadConcat(m, base, n, len - n);
  }

  lemma ReceivedIsAnnounced(m: Memory, base: nat, payload: seq<byte>)
    requires |payload| < SPACE && Load(m, base, HEADER_SIZE) == Header(payload)
    ensures Received(m, base) == Load(m, base + HEADER_SIZE, |payload|)
  {
    HeaderAnnounces(payload);
  }

  /** A reader that finds the header of a string but another last byte does not receive the string. */
  lemma WrongLastByte(m: Memory, base: nat, message: seq<byte>)
    requires 0 in message && StrLen(message) + 1 < SPACE
    requires Load(m, base, HEADER_SIZE) == Header(Payload(message))
    requires m[(base + HEADER_SIZE + StrLen(message)) % SPACE] != 0
    ensures Received(m, base) != Payload(message)
  {
    ReceivedIsAnnounced(m, base, Payload(message));
    LoadAt(m, base + HEADER_SIZE, |Payload(message)|, StrLen(message));
  }

  lemma HeaderStored(m: Memory, message: seq<byte>, len: nat)
    requires 0 in message && StrLen(message) + 1 < SPACE && len <= |message| && len + HEADER_SIZE <= SPACE
    ensures Load(WriteMailbox(m, message, len), NORTHBOUND, HEADER_SIZE) == Header(Payload(message))
  {
    MessageStored(m, message, len);
  }

  lemma PayloadStored(m: Memory, message: seq<byte>, len: nat)
    requires 0 in message && StrLen(message) + 1 < SPACE && len <= |message| && len + HEADER_SIZE <= SPACE
    ensures Load(WriteMailbox(m, message, len), NORTHBOUND + HEADER_SIZE, len) == message[..len]
  {
    MessageStored(m, message, len);
  }

  /** The mailbox does not reach the end of the register space. */
  lemma AddressInMailbox(k: nat)
    requires k < 2 * BUFFER_MAX
    ensures NORTHBOUND + k < SPACE && (NORTHBOUND + k) % SPACE == NORTHBOUND + k
  {}

  lemma LastByteUntouched(m: Memory, message: seq<byte>, len: nat)
    requires 0 in message && StrLen(message) + 1 <= BUFFER_MAX && len <= StrLen(message)
    ensures WriteMailbox(m, message, len)[NORTHBOUND + HEADER_SIZE + StrLen(message)] ==
              m[NORTHBOUND + HEADER_SIZE + StrLen(message)]
  {
    WriteIsFramed(m, message, len, NORTHBOUND + HEADER_SIZE + StrLen(message));
  }

  lemma ShortWriteMisleads(m: Memory, message: seq<byte>, len: nat)
    requires 0 in message && StrLen(message) + 1 <= BUFFER_MAX && len <= StrLen(message)
    requires m[NORTHBOUND + HEADER_SIZE + StrLen(message)] != 0
    ensures Received(WriteMailbox(m, message, len), NORTHBOUND) != Payload(message)
  {
    HeaderStored(m, message, len);
    LastByteUntouched(m, message, len);
    AddressInMailbox(HEADER_SIZE + StrLen(message));
    WrongLastByte(WriteMailbox(m, message, len), NORTHBOUND, message);
  }

  /** Round trip.  The reading algorithm run on what was written accepts it and recovers the string
      with its NUL, whatever the memory held before, if and only if the length passed covers them. */
  lemma ReaderRecoversIff(message: seq<byte>, len: nat)
    requires 0 in message && StrLen(message) + 1 <= BUFFER_MAX
    requires len <= |message| && len + HEADER_SIZE <= SPACE
    ensures (forall m: Memory :: Accepts(WriteMailbox(m, message, len), NORTHBOUND) &&
               Received(WriteMailbox(m, message, len), NORTHBOUND) == Payload(message))
            <==> len > StrLen(message)
  {
    if len > StrLen(message) {
      forall m: Memory ensures Accepts(WriteMailbox(m, message, len), NORTHBOUND) &&
        Received(WriteMailbox(m, message, len), NORTHBOUND) == Payload(message)
      {
        ReaderRecovers(m, message, len);
      }
    } else {
      var m: Memory := seq(SPACE, _ => 1);
      ShortWriteMisleads(m, message, len);
    }
  }

  /** The northbound mailbox lies just below the southbound one.  A write stays inside it, whatever the
      memory held, if and only if header and payload fit; the longest message a caller may pass does
      not, and its last bytes land on the southbound header. */
  lemma StaysInMailboxIff(message: seq<byte>, len: nat)
    requires 0 in message && StrLen(message) + 1 < SPACE && len <= |message| && len <= BUFFER_MAX
    ensures StaysInMailbox(message, len) <==> len <= SOUTHBOUND - NORTHBOUND - HEADER_SIZE
  {
    if len <= SOUTHBOUND - NORTHBOUND - HEADER_SIZE {
      forall m: Memory, a: nat | a < SPACE && Outside(a) ensures WriteMailbox(m, message, len)[a] == m[a] {
        OutsideIsFramed(m, message, len, a);
      }
    } else {
      var m := SouthboundIsOverwritten(message, len);
      assert Outside(SOUTHBOUND);
    }
  }

  ghost predicate StaysInMailbox(message: seq<byte>, len: nat)
    requires 0 in message && StrLen(message) + 1 < SPACE && len <= |message|
  {
    forall m: Memory, a: nat :: a < SPACE && Outside(a) ==> WriteMailbox(m, message, len)[a] == m[a]
  }

  lemma OutsideIsFramed(m: Memory, message: seq<byte>, len: nat, a: nat)
    requires 0 in message && StrLen(message) + 1 < SPACE && len <= |message|
    requires len <= SOUTHBOUND - NORTHBOUND - HEADER_SIZE && a < SPACE && Outside(a)
    ensures WriteMailbox(m, message, len)[a] == m[a]
  {
    OffsetOutside(a);
    WriteIsFramed(m, message, len, a);
  }

  /** Neither in the northbound mailbox nor one of the registers cleared before a write. */
  predicate Outside(a: nat) {
    !(NORTHBOUND <= a < SOUTHBOUND) && a != STATUS_REGISTER && a != STATUS_REGISTER + 1 && a != MAILBOX_CONTROL
  }

  lemma OffsetOutside(a: nat)
    requires a < SPACE && Outside(a)
    ensures (a - NORTHBOUND) % SPACE >= SOUTHBOUND - NORTHBOUND
  {}

  lemma SouthboundIsOverwritten(message: seq<byte>, len: nat) returns (m: Memory)
    requires 0 in message && StrLen(message) + 1 < SPACE
    requires SOUTHBOUND - NORTHBOUND - HEADER_SIZE < len <= |message| && len <= BUFFER_MAX
    ensures WriteMailbox(m, message, len)[SOUTHBOUND] != m[SOUTHBOUND]
  {
    var k := SOUTHBOUND - NORTHBOUND - HEADER_SIZE;
    var other: byte := if message[k] == 0 then 1 else 0;
    m := seq<byte>(SPACE, _ => other);
    PayloadStored(m, message, len);
    LoadAt(WriteMailbox(m, message, len), NORTHBOUND + HEADER_SIZE, len, k);
    assert (NORTHBOUND + HEADER_SIZE + k) % SPACE == SOUTHBOUND;
    assert WriteMailbox(m, message, len)[SOUTHBOUND] == message[..len][k];
  }

  // ----- The bytes themselves

  /** What is prepared before a write: the status register is zero, bit 0 of the mailbox control is set,
      and nothing else is different. */
  lemma PreparedRegisters(m: Memory, a: nat, i: nat)
    requires a < 0x1_0000
    ensures Prepared(m)[0x7C90] == 0 && Prepared(m)[0x7C91] == 0
    ensures Bit(Prepared(m)[0x7C92], i) <==> i == 0 || Bit(m[0x7C92], i)
    ensures a != 0x7C90 && a != 0x7C91 && a != 0x7C92 ==> Prepared(m)[a] == m[a]
  {
    PreparedByte(m[0x7C92]);
    SetBitBit(m[0x7C92], 0, i);
  }

  /** Where a write puts things: the checksum in bytes 0 and 1 of the mailbox and the size in bytes 2 and
      3, each low byte first, then the bytes of the buffer; checksum, size bytes and payload add up to
      zero in 16 bits. */
  lemma MailboxBytes(m: Memory, message: seq<byte>, len: nat, i: nat)
    requires 0 in message && StrLen(message) + 1 < SPACE && len <= |message| && len <= BUFFER_MAX
    ensures var m' := WriteMailbox(m, message, len);
      Word(m'[0x8502], m'[0x8503]) == StrLen(message) + 1 && SumsToZero(Payload(message), Word(m'[0x8500], m'[0x8501]))
    ensures i < len ==> WriteMailbox(m, message, len)[0x8504 + i] == message[i]
  {
    MailboxHeader(m, message, len);
    if i < len { MailboxPayload(m, message, len, i); }
  }

  /** The checksum, the two bytes of the size and the payload add up to zero in 16 bits. */
  predicate SumsToZero(payload: seq<byte>, checksum: nat) {
    (Sum(payload) + |payload| % 256 + |payload| / 256 + checksum) % 0x1_0000 == 0
  }

  lemma MailboxHeader(m: Memory, message: seq<byte>, len: nat)
    requires 0 in message && StrLen(message) + 1 < SPACE && len <= |message| && len <= BUFFER_MAX
    ensures var m' := WriteMailbox(m, message, len);
      Word(m'[0x8502], m'[0x8503]) == StrLen(message) + 1 && SumsToZero(Payload(message), Word(m'[0x8500], m'[0x8501]))
  {
    HeaderStored(m, message, len);
    HeaderMeans(WriteMailbox(m, message, len), Payload(message));
  }

  lemma HeaderMeans(m: Memory, payload: seq<byte>)
    requires |payload| < SPACE && Load(m, NORTHBOUND, HEADER_SIZE) == Header(payload)
    ensures Word(m[0x8502], m[0x8503]) == |payload| && SumsToZero(payload, Word(m[0x8500], m[0x8501]))
  {
    HeaderAt(m, NORTHBOUND);
    HeaderBytes(payload);
    ChecksumSumsToZero(payload);
  }

  lemma ChecksumSumsToZero(payload: seq<byte>)
    requires |payload| < SPACE
    ensures SumsToZero(payload, Checksum(payload))
  {}

  lemma MailboxPayload(m: Memory, message: seq<byte>, len: nat, i: nat)
    requires 0 in message && StrLen(message) + 1 < SPACE && len <= |message| && len <= BUFFER_MAX && i < len
    ensures WriteMailbox(m, message, len)[0x8504 + i] == message[i]
  {
    PayloadStored(m, message, len);
    LoadedAt(WriteMailbox(m, message, len), message, len, i);
  }

  lemma LoadedAt(m: Memory, message: seq<byte>, len: nat, i: nat)
    requires i < len <= |message| && len <= BUFFER_MAX
    requires Load(m, NORTHBOUND + HEADER_SIZE, len) == message[..len]
    ensures m[0x8504 + i] == message[i]
  {
    LoadAt(m, NORTHBOUND + HEADER_SIZE, len, i);
    AddressInMailbox(HEADER_SIZE + i);
    assert Load(m, NORTHBOUND + HEADER_SIZE, len)[i] == message[i];
  }

  lemma HeaderAt(m: Memory, base: nat)
    requires base + HEADER_SIZE <= SPACE
    ensures forall i :: 0 <= i < HEADER_SIZE ==> Load(m, base, HEADER_SIZE)[i] == m[base + i]
  {
    forall i | 0 <= i < HEADER_SIZE ensures Load(m, base, HEADER_SIZE)[i] == m[base + i] {
      LoadAt(m, base, HEADER_SIZE, i);
    }
  }

  lemma HeaderBytes(payload: seq<byte>)
    requires |payload| < SPACE
    ensures var h := Header(payload);
      && Word(h[0], h[1]) == Checksum(payload) && Word(h[2], h[3]) == |payload|
  {
    var sum, size := Le16(Checksum(payload)), Le16(|payload|);
    assert Header(payload)[0] == sum[0] && Header(payload)[1] == sum[1];
    assert Header(payload)[2] == size[0] && Header(payload)[3] == size[1];
  }

  /** What a reader accepts at a base address: at most 4100 bytes, which add up to zero in 16 bits with the
      size and the checksum in front of them. */
  lemma AcceptsBytes(m: Memory, base: nat)
    requires base + 4 <= SPACE
    ensures var checksum, size := Word(m[base], m[base + 1]), Word(m[base + 2], m[base + 3]);
      && |Received(m, base)| == size
      && (Accepts(m, base) <==>
            size <= 4100 && SumsToZero(Received(m, base), checksum))
  {
    HeaderAt(m, base);
    OnlyChecksum(Received(m, base), Word(m[base], m[base + 1]));
  }

  lemma OnlyChecksum(payload: seq<byte>, c: nat)
    requires c < SPACE
    ensures |payload| < SPACE ==> (SumsToZero(payload, c) <==> c == Checksum(payload))
  {
    if |payload| < SPACE {
      OneComplement(Sum(payload) + |payload| % 256 + |payload| / 256, c);
    }
  }

  lemma OneComplement(x: nat, c: nat)
    requires c < SPACE
    ensures (x + c) % SPACE == 0 <==> c == Complement(x)
  {}

  // ----- The checksum

  lemma {:induction false} SumUpdate(s: seq<byte>, i: nat, b: byte)
    requires i < |s|
    ensures Sum(s[i := b]) == Sum(s) - s[i] + b
  {
    if i == 0 {
      assert s[i := b][1..] == s[1..];
    } else {
      SumUpdate(s[1..], i - 1, b);
      assert s[i := b][1..] == s[1..][i - 1 := b];
    }
  }

  /** Two payloads of one size have the same checksum exactly when their sums agree modulo 2^16. */
  lemma SameChecksumIff(p: seq<byte>, q: seq<byte>)
    requires |p| == |q| < SPACE
    ensures Checksum(p) == Checksum(q) <==> (Sum(p) - Sum(q)) % SPACE == 0
  {
    var c := |p| % 256 + |p| / 256;
    ComplementIff(Sum(p) + c, Sum(q) + c);
    ModDifference(Sum(p) + c, Sum(q) + c);
  }

  lemma ComplementIff(x: nat, y: nat)
    ensures Complement(x) == Complement(y) <==> x % SPACE == y % SPACE
  {}

  lemma ModDifference(x: nat, y: nat)
    ensures x % SPACE == y % SPACE <==> (x - y) % SPACE == 0
  {}

  lemma SmallDifference(x: byte, y: byte)
    ensures (x - y) % SPACE == 0 <==> x == y
  {}

  lemma HeaderUntouched(m: Memory, base: nat, i: nat, b: byte)
    requires i < BUFFER_MAX
    ensures Load(m[(base + HEADER_SIZE + i) % SPACE := b], base, HEADER_SIZE) == Load(m, base, HEADER_SIZE)
  {
    var a := (base + HEADER_SIZE + i) % SPACE;
    AddressIs(base, HEADER_SIZE + i, a);
    LoadUpdated(m, base, HEADER_SIZE, a, b);
  }

  lemma PayloadUpdated(m: Memory, base: nat, i: nat, b: byte)
    requires i < |Received(m, base)| <= BUFFER_MAX
    ensures Received(m[(base + HEADER_SIZE + i) % SPACE := b], base) == Received(m, base)[i := b]
  {
    HeaderUntouched(m, base, i, b);
    LoadUpdatedAt(m, base + HEADER_SIZE, |Received(m, base)|, i, b);
  }

  lemma HeaderRejects(h: seq<byte>, p: seq<byte>, i: nat, b: byte)
    requires |h| == HEADER_SIZE && AcceptsHeader(h, p) && i < |p| && b != p[i]
    ensures !AcceptsHeader(h, p[i := b])
  {
    SumUpdate(p, i, b);
    SameChecksumIff(p[i := b], p);
    SmallDifference(b, p[i]);
  }

  /** Changing any single payload byte of an accepted message makes the reader reject it. */
  lemma SingleByteChangeIsDetected(m: Memory, base: nat, i: nat, b: byte)
    requires Accepts(m, base) && i < |Received(m, base)| && b != Received(m, base)[i]
    ensures !Accepts(m[(base + HEADER_SIZE + i) % SPACE := b], base)
  {
    HeaderUntouched(m, base, i, b);
    PayloadUpdated(m, base, i, b);
    HeaderRejects(Load(m, base, HEADER_SIZE), Received(m, base), i, b);
  }
}
