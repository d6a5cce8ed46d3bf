/** The memory of a QSFP module and what each API call of src/drivers/sdi_qsfp_eeprom.c does to it
    when no bus call fails.

    Offsets 0-127 are the lower page.  Offsets 128-255 show the upper page whose number is in the
    page-select byte, offset 127 (SFF-8636 section 6.2, Lower Page 00h).  The whole memory is kept
    flat: `Cell(page, offset)` says where the byte at an offset of a page lives. */
module QsfpMemory {
  import opened Bits

  const STATUS_INDICATOR := 2
  const FLAT_MEM_BIT := 2
  const PAGE_SELECT := 127
  const PAGE_DEFAULT := 0

  /** The lower page followed by 256 upper pages. */
  type Memory = m: seq<byte> | |m| == 128 + 256 * 128 witness seq(128 + 256 * 128, _ => 0)

  function Cell(page: byte, offset: byte): (c: nat)
    ensures c < 128 + 256 * 128
  {
    if offset < 128 then offset else 128 * page + offset
  }

  /** The device: an access goes to the page selected. */
  function Read(m: Memory, offset: byte): byte {
    m[Cell(m[PAGE_SELECT], offset)]
  }

  function Write(m: Memory, offset: byte, value: byte): Memory {
    m[Cell(m[PAGE_SELECT], offset) := value]
  }

  /** The module says it has no upper pages to select. */
  predicate Flat(m: Memory) {
    Bit(m[STATUS_INDICATOR], FLAT_MEM_BIT)
  }

  /** sdi_qsfp_page_select: refused by a flat module; the page number is sent as one byte. */
  function SelectPage(m: Memory, page: nat): Memory {
    if Flat(m) then m else m[PAGE_SELECT := page % 256]
  }

  /** Register numbers are sent as one byte, so a transfer wraps at 256. */
  function ReadMulti(m: Memory, offset: nat, len: nat): (data: seq<byte>)
    ensures |data| == len
  {
    seq<byte>(len, i requires 0 <= i < len => Read(m, (offset + i) % 256))
  }

  function WriteMulti(m: Memory, offset: nat, data: seq<byte>): Memory
    decreases |data|
  {
    if data == [] then m
    else WriteMulti(Write(m, offset % 256, data[0]), offset + 1, data[1..])
  }

  // ----- The flat view

  function FlatRead(m: Memory, page: byte, offset: nat, len: nat): (data: seq<byte>)
    ensures |data| == len
  {
    seq<byte>(len, i requires 0 <= i < len => m[Cell(page, (offset + i) % 256)])
  }

  function FlatWrite(m: Memory, page: byte, offset: nat, data: seq<byte>): Memory
    decreases |data|
  {
    if data == [] then m
    else FlatWrite(m[Cell(page, offset % 256) := data[0]], page, offset + 1, data[1..])
  }

  /** The byte of a transfer that ends up at offset `target`, if any: the last one sent there. */
  function Sent(offset: nat, data: seq<byte>, target: byte): (r: int)
    ensures -1 <= r < 256
    decreases |data|
  {
    if data == [] then -1
    else
      var rest := Sent(offset + 1, data[1..], target);
      if rest == -1 && offset % 256 == target then data[0] else rest
  }

  /** A flat write puts each byte where it was sent and changes nothing else. */
  lemma {:induction false} FlatWriteAt(m: Memory, page: byte, offset: nat, data: seq<byte>, p: byte, o: byte)
    ensures FlatWrite(m, page, offset, data)[Cell(p, o)] ==
      if (o < 128 || p == page) && Sent(offset, data, o) != -1 then Sent(offset, data, o) else m[Cell(p, o)]
    decreases |data|
  {
    if data != [] {
      FlatWriteAt(m[Cell(page, offset % 256) := data[0]], page, offset + 1, data[1..], p, o);
    }
  }

  lemma {:induction false} SentAt(offset: nat, data: seq<byte>, i: nat)
    requires i < |data| <= 256
    ensures Sent(offset, data, (offset + i) % 256) == data[i]
    decreases |data|
  {
    if i == 0 {
      SentNowhere(offset + 1, data[1..], offset % 256);
    } else {
      SentAt(offset + 1, data[1..], i - 1);
    }
  }

  /** A transfer that stops short of `target` sends nothing there. */
  lemma {:induction false} SentNowhere(offset: nat, data: seq<byte>, target: byte)
    requires |data| <= (target - offset) % 256
    ensures Sent(offset, data, target) == -1
    decreases |data|
  {
    if data != [] {
      SentNowhere(offset + 1, data[1..], target);
    }
  }

  /** What was written is read back, and no other page's upper bytes change. */
  lemma FlatWriteThenRead(m: Memory, page: byte, offset: nat, data: seq<byte>, p: byte, o: byte)
    requires |data| <= 256
    ensures FlatRead(FlatWrite(m, page, offset, data), page, offset, |data|) == data
    ensures o >= 128 && p != page ==> FlatWrite(m, page, offset, data)[Cell(p, o)] == m[Cell(p, o)]
  {
    FlatWriteAt(m, page, offset, data, p, o);
    forall i | 0 <= i < |data| ensures FlatWrite(m, page, offset, data)[Cell(page, (offset + i) % 256)] == data[i] {
      SentAt(offset, data, i);
      FlatWriteAt(m, page, offset, data, page, (offset + i) % 256);
    }
  }

  /** A device write that stays off the page-select byte is a flat write to the page selected. */
  lemma {:induction false} WriteMultiIsFlat(m: Memory, offset: nat, data: seq<byte>)
    requires Sent(offset, data, PAGE_SELECT) == -1
    ensures WriteMulti(m, offset, data) == FlatWrite(m, m[PAGE_SELECT], offset, data)
    decreases |data|
  {
    if data != [] {
      WriteMultiIsFlat(Write(m, offset % 256, data[0]), offset + 1, data[1..]);
    }
  }

  /** Lower-page bytes after any device write, whatever pages it passed through. */
  lemma {:induction false} WriteMultiLower(m: Memory, offset: nat, data: seq<byte>, o: byte)
    requires o < 128
    ensures WriteMulti(m, offset, data)[o] == if Sent(offset, data, o) == -1 then m[o] else Sent(offset, data, o)
    decreases |data|
  {
    if data != [] {
      WriteMultiLower(Write(m, offset % 256, data[0]), offset + 1, data[1..], o);
    }
  }
}
