/** CPLD pin groups and pins (src/drivers/sdi_cpld_pin_group.c, src/drivers/sdi_cpld_pin.c).

    A pin group is a bit field over consecutive byte registers, least significant register at
    `startAddr`, walking up or down to `endAddr`, read and written register by register.  A field
    with inverted polarity stores the complement of its level. */
module CpldPins {
  import opened Bits

  /** The level is a 32-bit unsigned in the driver, and shifting a byte further is undefined. */
  const MAX_REGISTERS := 4

  datatype Group = Group(startAddr: nat, endAddr: nat, startOffset: nat, endOffset: nat, inverted: bool) {
    /** Number of registers (src/drivers/sdi_cpld_pin_group.c:523-536). */
    function Length(): (n: nat)
      ensures n >= 1
    {
      if startAddr > endAddr then startAddr - endAddr + 1 else endAddr - startAddr + 1
    }

    /** Address of the `k`-th register visited. */
    function Addr(k: nat): nat
      requires k < Length()
    {
      if startAddr >= endAddr then startAddr - k else startAddr + k
    }

    /** The registers between the two ends, and which of them address `a` is. */
    predicate Spans(a: nat) { startAddr <= a <= endAddr || endAddr <= a <= startAddr }

    function Index(a: nat): nat
      requires Spans(a)
    {
      if startAddr >= endAddr then startAddr - a else a - startAddr
    }

    /** The registers fit the level, offsets are bit positions in a byte, and a one-register field does
        not end before it starts. */
    predicate Valid() {
      Length() <= MAX_REGISTERS && startOffset <= 7 && endOffset <= 7 && (Length() == 1 ==> startOffset <= endOffset)
    }

    predicate Fits(regs: seq<byte>) {
      startAddr < |regs| && endAddr < |regs|
    }

    /** The bits of register `k` that belong to the field. */
    function First(k: nat): nat { if k == 0 then startOffset else 0 }

    function Last(k: nat): nat { if k == Length() - 1 then endOffset else 7 }

    /** Number of bits in the field. */
    function Width(): nat
      requires Valid()
    {
      8 * (Length() - 1) + endOffset + 1 - startOffset
    }

    /** The write loop shifts the level by whole registers, the read loop by `startOffset` as well;
        the two agree when there is one register or the field starts at bit 0. */
    predicate Aligned() { Length() == 1 || startOffset == 0 }
  }

  // ----- One register

  /** With normal polarity the level is not masked to the field, so surplus bits of the value are
      ored into the bits of the last register above the field. */
  predicate Spills(g: Group, k: nat, value: nat, i: nat) {
    !g.inverted && i > g.Last(k) && i >= g.First(k) && Bit(value, 8 * k + i - g.First(k))
  }

  /** Bit `i` of register `k` is in the field. */
  predicate InField(g: Group, k: nat, i: nat) {
    g.First(k) <= i <= g.Last(k)
  }

  /** Bit `i` of register `k` after writing `value` over `prior`. */
  predicate WrittenBit(g: Group, k: nat, value: nat, prior: nat, i: nat) {
    if InField(g, k, i) then Bit(value, 8 * k + i - g.First(k)) != g.inverted
    else Bit(prior, i) || Spills(g, k, value, i)
  }

  /** Bits `from` to 7 of register `k` after writing `value` over `prior`. */
  function WrittenBits(g: Group, k: nat, value: nat, prior: nat, from: nat): nat
    requires from <= 8
    decreases 8 - from
  {
    if from == 8 then 0
    else FromBit(WrittenBit(g, k, value, prior, from)) + 2 * WrittenBits(g, k, value, prior, from + 1)
  }

  lemma {:induction false} WrittenBitsBit(g: Group, k: nat, value: nat, prior: nat, from: nat, i: nat)
    requires from <= 8
    ensures WrittenBits(g, k, value, prior, from) < Pow2(8 - from)
    ensures Bit(WrittenBits(g, k, value, prior, from), i) <==>
              from + i < 8 && WrittenBit(g, k, value, prior, from + i)
    decreases 8 - from
  {
    ZeroHasNoBits(i);
    if from < 8 { WrittenBitsBit(g, k, value, prior, from + 1, if i == 0 then 0 else i - 1); }
  }

  ghost predicate IsWrittenByte(g: Group, k: nat, value: nat, prior: nat, r: nat) {
    forall i :: 0 <= i < 8 ==> (Bit(r, i) <==> WrittenBit(g, k, value, prior, i))
  }

  lemma WrittenByteExists(g: Group, k: nat, value: nat, prior: nat)
    ensures exists r: byte :: IsWrittenByte(g, k, value, prior, r)
  {
    var r := WrittenBits(g, k, value, prior, 0);
    forall i | 0 <= i < 8 ensures Bit(r, i) <==> WrittenBit(g, k, value, prior, i) {
      WrittenBitsBit(g, k, value, prior, 0, i);
    }
    WrittenBitsBit(g, k, value, prior, 0, 0);
    assert Pow2(8) == 256 by { assert Pow2(4) == 16; }
    assert IsWrittenByte(g, k, value, prior, r);
  }

  /** The byte left in register `k` when `value` is written and it held `prior`: the one whose bits
      are those of `WrittenBit`. */
  ghost function WriteByte(g: Group, k: nat, value: nat, prior: nat): (r: byte) {
    WrittenByteExists(g, k, value, prior);
    var r: byte :| IsWrittenByte(g, k, value, prior, r);
    r
  }

  /** The level accumulated so far, after reading `data` from register `k`. */
  function ReadStep(g: Group, k: nat, level: nat, buffer: byte): nat
    requires g.Valid() && k < g.Length()
  {
    if g.Length() == 1 then
      var data := Low(Shr(buffer, g.startOffset), g.endOffset - g.startOffset + 1);
      if g.inverted then Flip(data, g.endOffset - g.startOffset + 1) else data
    else if k == g.Length() - 1 then
      var data := Low(buffer, g.endOffset + 1);
      var data := if g.inverted then Flip(data, g.endOffset - 0 + 1) else data;
      Shr(Or(level, Shl(data, 8 * k)), g.startOffset)
    else if k == 0 then
      if g.inverted then Flip(buffer, 7 - g.startOffset + 1) else buffer
    else
      var data := if g.inverted then Flip(buffer, 8) else buffer;
      Or(level, Shl(data, 8 * k))
  }

  /** The registers after the first `k` registers of the group have been written. */
  ghost function Written(regs: seq<byte>, g: Group, value: nat, k: nat): (r: seq<byte>)
    requires g.Valid() && g.Fits(regs) && k <= g.Length()
    ensures |r| == |regs|
  {
    if k == 0 then regs else
    var before := Written(regs, g, value, k - 1);
    var a := g.Addr(k - 1);
    before[a := WriteByte(g, k - 1, value, before[a])]
  }

  function LevelAfter(regs: seq<byte>, g: Group, k: nat): nat
    requires g.Valid() && g.Fits(regs) && k <= g.Length()
  {
    if k == 0 then 0 else ReadStep(g, k - 1, LevelAfter(regs, g, k - 1), regs[g.Addr(k - 1)])
  }

  function ReadLevel(regs: seq<byte>, g: Group): nat
    requires g.Valid() && g.Fits(regs)
  {
    LevelAfter(regs, g, g.Length())
  }

  ghost function WriteLevel(regs: seq<byte>, g: Group, value: nat): (r: seq<byte>)
    requires g.Valid() && g.Fits(regs)
    ensures |r| == |regs|
  {
    Written(regs, g, value, g.Length())
  }

  /** Bit `q` counted across the whole registers of the group, seen through its polarity. */
  predicate Stored(regs: seq<byte>, g: Group, q: nat)
    requires g.Fits(regs) && q < 8 * g.Length()
  {
    Bit(regs[g.Addr(q / 8)], q % 8) != g.inverted
  }

  lemma {:induction false} LevelAfterBit(regs: seq<byte>, g: Group, k: nat, q: nat)
    requires g.Valid() && g.Fits(regs) && 1 <= k < g.Length()
    requires g.inverted && g.startOffset != 0 ==> q >= 8
    ensures Bit(LevelAfter(regs, g, k), q) <==> q < 8 * k && Stored(regs, g, q)
  {
    var b := regs[g.Addr(k - 1)];
    var width := if k == 1 then 7 - g.startOffset + 1 else 8;
    var data := if g.inverted then Flip(b, width) else b;
    var j := q - 8 * (k - 1);
    if j >= 8 {
      ByteHasNoHighBit(b, j);
    }
    if j >= 0 {
      FlipBit(b, width, j);
    }
    if k > 1 {
      LevelAfterBit(regs, g, k - 1, q);
      OrBit(LevelAfter(regs, g, k - 1), Shl(data, 8 * (k - 1)), q);
      ShlBit(data, 8 * (k - 1), q);
    } else {
      assert LevelAfter(regs, g, 1) == ReadStep(g, 0, LevelAfter(regs, g, 0), b) == data;
    }
  }

  lemma OneRegisterBit(regs: seq<byte>, g: Group, p: nat)
    requires g.Valid() && g.Fits(regs) && g.Length() == 1
    ensures Bit(ReadLevel(regs, g), p) <==> p < g.Width() && Stored(regs, g, p + g.startOffset)
  {
    var b, width := regs[g.Addr(0)], g.endOffset - g.startOffset + 1;
    assert LevelAfter(regs, g, 1) == ReadStep(g, 0, LevelAfter(regs, g, 0), b);
    LowBit(Shr(b, g.startOffset), width, p);
    ShrBit(b, g.startOffset, p);
    FlipBit(Low(Shr(b, g.startOffset), width), width, p);
  }

  lemma LastRegisterBit(b: byte, g: Group, j: nat)
    requires g.Valid()
    ensures var low := Low(b, g.endOffset + 1);
      var data := if g.inverted then Flip(low, g.endOffset + 1) else low;
      Bit(data, j) <==> j <= g.endOffset && Bit(b, j) != g.inverted
  {
    LowBit(b, g.endOffset + 1, j);
    FlipBit(Low(b, g.endOffset + 1), g.endOffset + 1, j);
  }

  lemma ManyRegistersBit(regs: seq<byte>, g: Group, p: nat)
    requires g.Valid() && g.Fits(regs) && g.Length() > 1
    requires g.inverted && g.startOffset != 0 ==> p + g.startOffset >= 8
    ensures Bit(ReadLevel(regs, g), p) <==> p < g.Width() && Stored(regs, g, p + g.startOffset)
  {
    var top, q := 8 * (g.Length() - 1), p + g.startOffset;
    var level := LevelAfter(regs, g, g.Length() - 1);
    var low := Low(regs[g.Addr(g.Length() - 1)], g.endOffset + 1);
    var data := if g.inverted then Flip(low, g.endOffset + 1) else low;
    ShrBit(Or(level, Shl(data, top)), g.startOffset, p);
    OrBit(level, Shl(data, top), q);
    ShlBit(data, top, q);
    LevelAfterBit(regs, g, g.Length() - 1, q);
    if q >= top {
      LastRegisterBit(regs[g.Addr(g.Length() - 1)], g, q - top);
    }
  }

  /** What the read loop returns, bit by bit: the field's bits, least significant register first.  For
      normal polarity this holds of any offsets; for inverted polarity, of an aligned field or of the
      bits beyond the first register. */
  lemma ReadLevelBit(regs: seq<byte>, g: Group, p: nat)
    requires g.Valid() && g.Fits(regs) && (g.inverted && !g.Aligned() ==> p + g.startOffset >= 8)
    ensures Bit(ReadLevel(regs, g), p) <==> p < g.Width() && Stored(regs, g, p + g.startOffset)
  {
    if g.Length() == 1 {
      OneRegisterBit(regs, g, p);
    } else {
      ManyRegistersBit(regs, g, p);
    }
  }

  /** The level never leaves the driver's 32 bits, during the loop or at its end. */
  lemma LevelFits(regs: seq<byte>, g: Group, k: nat)
    requires g.Valid() && g.Fits(regs) && k <= g.Length()
    ensures LevelAfter(regs, g, k) < Pow2(32)
  {
    if LevelAfter(regs, g, k) >= Pow2(32) {
      var p := HighBit(LevelAfter(regs, g, k), 32);
      if k == g.Length() {
        ReadLevelBit(regs, g, p);
      } else if k > 0 {
        LevelAfterBit(regs, g, k, p);
      } else {
        ZeroHasNoBits(p);
      }
      assert false;
    }
  }

  // ----- Whole registers

  /** The loop visits each register of the range exactly once: `Index` inverts `Addr`. */
  lemma VisitsEachOnce(g: Group, a: nat, k: nat)
    requires k < g.Length()
    ensures g.Spans(g.Addr(k)) && g.Index(g.Addr(k)) == k
    ensures g.Spans(a) ==> g.Index(a) < g.Length() && g.Addr(g.Index(a)) == a
  {
  }

  lemma {:induction false} WrittenAt(regs: seq<byte>, g: Group, value: nat, k: nat, a: nat)
    requires g.Valid() && g.Fits(regs) && k <= g.Length() && a < |regs|
    ensures Written(regs, g, value, k)[a] ==
      if g.Spans(a) && g.Index(a) < k then WriteByte(g, g.Index(a), value, regs[a]) else regs[a]
  {
    if k > 0 {
      WrittenAt(regs, g, value, k - 1, a);
    }
  }

  /** Bit `i` of register `a` belongs to the group's field. */
  predicate Owns(g: Group, a: nat, i: nat) {
    g.Spans(a) && InField(g, g.Index(a), i)
  }

  /** The value bits that would land above the field in the last register. */
  function Surplus(g: Group, value: nat): nat
    requires g.Valid()
  {
    var k := g.Length() - 1;
    Low(Shr(value, 8 * k + g.endOffset + 1 - g.First(k)), 7 - g.endOffset)
  }

  lemma SpillsIffSurplus(g: Group, value: nat)
    requires g.Valid()
    ensures Surplus(g, value) == 0 || g.inverted ==>
      forall k: nat, i: nat :: k < g.Length() && i < 8 ==> !Spills(g, k, value, i)
    ensures Surplus(g, value) != 0 && !g.inverted ==>
      exists k: nat, i: nat :: k == g.Length() - 1 && i < 8 && Spills(g, k, value, i)
  {
    var k := g.Length() - 1;
    var from := 8 * k + g.endOffset + 1 - g.First(k);
    forall i: nat | i < 7 - g.endOffset
      ensures Bit(Surplus(g, value), i) <==> Bit(value, i + from)
    {
      LowBit(Shr(value, from), 7 - g.endOffset, i);
      ShrBit(value, from, i);
    }
    if Surplus(g, value) == 0 {
      forall i: nat | i < 8 ensures !Spills(g, k, value, i) {
        if i > g.endOffset {
          ZeroHasNoBits(i - g.endOffset - 1);
        }
      }
    } else {
      var j := SomeBit(Surplus(g, value));
      LowBit(Shr(value, from), 7 - g.endOffset, j);
      assert g.inverted || Spills(g, k, value, j + g.endOffset + 1);
    }
  }

  /** Framing.  A write changes no bit outside the field, whatever the registers held, if and only
      if the polarity is inverted or the value has no surplus bits. */
  lemma WriteIsFramedIff(g: Group, value: nat, size: nat)
    requires g.Valid() && g.startAddr < size && g.endAddr < size
    ensures (forall regs: seq<byte>, a: nat, i: nat :: |regs| == size && a < size && i < 8 && !Owns(g, a, i) ==>
               Bit(WriteLevel(regs, g, value)[a], i) == Bit(regs[a], i))
            <==> g.inverted || Surplus(g, value) == 0
  {
    SpillsIffSurplus(g, value);
    if g.inverted || Surplus(g, value) == 0 {
      forall regs: seq<byte>, a: nat, i: nat | |regs| == size && a < size && i < 8 && !Owns(g, a, i)
        ensures Bit(WriteLevel(regs, g, value)[a], i) == Bit(regs[a], i)
      {
        WriteFrame(regs, g, value, a, i);
      }
    } else {
      var k := g.Length() - 1;
      var i: nat :| i < 8 && Spills(g, k, value, i);
      var a := g.Addr(k);
      var regs: seq<byte> := seq(size, _ => 0);
      VisitsEachOnce(g, a, k);
      WrittenAt(regs, g, value, g.Length(), a);
      ZeroHasNoBits(i);
      assert !Owns(g, a, i);
      assert Bit(WriteLevel(regs, g, value)[a], i) != Bit(regs[a], i);
    }
  }

  lemma WriteFrame(regs: seq<byte>, g: Group, value: nat, a: nat, i: nat)
    requires g.Valid() && g.Fits(regs) && a < |regs| && i < 8 && !Owns(g, a, i)
    requires g.inverted || Surplus(g, value) == 0
    ensures Bit(WriteLevel(regs, g, value)[a], i) == Bit(regs[a], i)
  {
    SpillsIffSurplus(g, value);
    WrittenAt(regs, g, value, g.Length(), a);
  }

  // ----- Round trip

  /** A value that fits the field has no surplus bits. */
  lemma FittingHasNoSurplus(g: Group, value: nat)
    requires g.Valid() && value < Pow2(g.Width())
    ensures Surplus(g, value) == 0
  {
    var k := g.Length() - 1;
    var from := 8 * k + g.endOffset + 1 - g.First(k);
    if Surplus(g, value) != 0 {
      var j := SomeBit(Surplus(g, value));
      LowBit(Shr(value, from), 7 - g.endOffset, j);
      ShrBit(value, from, j);
      NoHighBit(value, g.Width(), j + from);
      assert false;
    }
  }

  /** What reading and writing mean for the registers themselves: register `k` of the walk is at the start
      address plus or minus `k`, the field takes the bits from the start offset in the first register to
      the end offset in the last, and inverted polarity turns each bit over. */
  lemma ReadLevelIsField(regs: seq<byte>, g: Group, p: nat)
    requires g.Valid() && g.Fits(regs) && (g.inverted && !g.Aligned() ==> p + g.startOffset >= 8)
    ensures var n := (if g.startAddr > g.endAddr then g.startAddr - g.endAddr else g.endAddr - g.startAddr) + 1;
      var q := p + g.startOffset;
      Bit(ReadLevel(regs, g), p) <==>
        q <= 8 * (n - 1) + g.endOffset
        && Bit(regs[if g.startAddr >= g.endAddr then g.startAddr - q / 8 else g.startAddr + q / 8], q % 8) != g.inverted
  {
    ReadLevelBit(regs, g, p);
  }

  lemma WriteLevelIsField(regs: seq<byte>, g: Group, value: nat, k: nat, i: nat)
    requires g.Valid() && g.Fits(regs) && i < 8
    requires k <= if g.startAddr > g.endAddr then g.startAddr - g.endAddr else g.endAddr - g.startAddr
    requires k == 0 ==> i >= g.startOffset
    requires k == (if g.startAddr > g.endAddr then g.startAddr - g.endAddr else g.endAddr - g.startAddr) ==> i <= g.endOffset
    ensures Bit(WriteLevel(regs, g, value)[if g.startAddr >= g.endAddr then g.startAddr - k else g.startAddr + k], i) ==
              (Bit(value, 8 * k + i - if k == 0 then g.startOffset else 0) != g.inverted)
  {
    WrittenAt(regs, g, value, g.Length(), g.Addr(k));
    VisitsEachOnce(g, g.Addr(k), k);
  }

  /** Bit `q` of the whole registers, after a write: bit `q - First` of the value. */
  lemma StoredAfterWrite(regs: seq<byte>, g: Group, value: nat, p: nat)
    requires g.Valid() && g.Fits(regs) && p < g.Width()
    ensures var q := p + g.startOffset; var k := q / 8;
      Stored(WriteLevel(regs, g, value), g, q) == Bit(value, q - g.First(k))
  {
    var q := p + g.startOffset;
    var k := q / 8;
    WrittenAt(regs, g, value, g.Length(), g.Addr(k));
  }

  /** Reading back a written value that fits the field gives that value, for one register with any
      offsets or several with the field starting at bit 0, in either direction and polarity. */
  lemma WriteThenRead(regs: seq<byte>, g: Group, value: nat)
    requires g.Valid() && g.Fits(regs) && g.Aligned() && value < Pow2(g.Width())
    ensures ReadLevel(WriteLevel(regs, g, value), g) == value
  {
    var regs' := WriteLevel(regs, g, value);
    forall p: nat ensures Bit(ReadLevel(regs', g), p) <==> Bit(value, p) {
      ReadLevelBit(regs', g, p);
      if p < g.Width() {
        StoredAfterWrite(regs, g, value, p);
      } else {
        NoHighBit(value, g.Width(), p);
      }
    }
    SameBits(ReadLevel(regs', g), value);
  }

  /** The round trip holds of every register content and every fitting value exactly for aligned
      groups: with several registers and a start offset, value bit 8 - startOffset is lost. */
  lemma RoundTripIffAligned(g: Group, size: nat)
    requires g.Valid() && g.startAddr < size && g.endAddr < size
    ensures (forall regs: seq<byte>, value: nat :: |regs| == size && value < Pow2(g.Width()) ==>
               ReadLevel(WriteLevel(regs, g, value), g) == value)
            <==> g.Aligned()
  {
    if g.Aligned() {
      forall regs: seq<byte>, value: nat | |regs| == size && value < Pow2(g.Width())
        ensures ReadLevel(WriteLevel(regs, g, value), g) == value
      {
        WriteThenRead(regs, g, value);
      }
    } else {
      var regs: seq<byte> := seq(size, _ => 0);
      var p := 8 - g.startOffset;
      var value := Shl(1, p);
      if value >= Pow2(g.Width()) {
        var i := HighBit(value, g.Width());
        OneBit(p, i);
      }
      StoredAfterWrite(regs, g, value, p);
      ReadLevelBit(WriteLevel(regs, g, value), g, p);
      OneBit(p, p);
      OneBit(p, 8);
      assert ReadLevel(WriteLevel(regs, g, value), g) != value;
    }
  }

  // ----- Sequences of writes to disjoint fields

  datatype Write = Write(group: Group, value: nat)

  ghost predicate Disjoint(g: Group, h: Group) {
    forall a: nat, i: nat :: !(Owns(g, a, i) && Owns(h, a, i))
  }

  ghost predicate Sound(ws: seq<Write>, size: nat) {
    forall w :: w in ws ==>
      w.group.Valid() && w.group.startAddr < size && w.group.endAddr < size &&
      w.group.Aligned() && w.value < Pow2(w.group.Width())
  }

  ghost function RunWrites(regs: seq<byte>, ws: seq<Write>): (r: seq<byte>)
    requires Sound(ws, |regs|)
    ensures |r| == |regs|
  {
    if ws == [] then regs else
    var w := ws[|ws| - 1];
    WriteLevel(RunWrites(regs, ws[..|ws| - 1]), w.group, w.value)
  }

  /** The value last written to `g`, or `initial` if it was never written. */
  function LastWritten(ws: seq<Write>, g: Group, initial: nat): nat {
    if ws == [] then initial
    else if ws[|ws| - 1].group == g then ws[|ws| - 1].value
    else LastWritten(ws[..|ws| - 1], g, initial)
  }

  lemma DisjointWriteKeepsLevel(regs: seq<byte>, w: Write, g: Group)
    requires Sound([w], |regs|) && g.Valid() && g.Fits(regs) && g.Aligned() && Disjoint(w.group, g)
    ensures ReadLevel(WriteLevel(regs, w.group, w.value), g) == ReadLevel(regs, g)
  {
    var regs' := WriteLevel(regs, w.group, w.value);
    assert w in [w];
    FittingHasNoSurplus(w.group, w.value);
    forall p: nat ensures Bit(ReadLevel(regs', g), p) <==> Bit(ReadLevel(regs, g), p) {
      ReadLevelBit(regs, g, p);
      ReadLevelBit(regs', g, p);
      if p < g.Width() {
        var q := p + g.startOffset;
        VisitsEachOnce(g, g.Addr(q / 8), q / 8);
        assert Owns(g, g.Addr(q / 8), q % 8);
        WriteFrame(regs, w.group, w.value, g.Addr(q / 8), q % 8);
      }
    }
    SameBits(ReadLevel(regs', g), ReadLevel(regs, g));
  }

  /** Over any sequence of writes to groups (and, by `PinIsGroup`, pins) whose fields do not overlap
      `g` unless they are `g`, reading `g` gives the value last written to it. */
  lemma {:induction false} EachReadsItsOwnLastWrite(regs: seq<byte>, ws: seq<Write>, g: Group)
    requires Sound(ws, |regs|) && g.Valid() && g.Fits(regs) && g.Aligned()
    requires forall w :: w in ws ==> w.group == g || Disjoint(w.group, g)
    ensures ReadLevel(RunWrites(regs, ws), g) == LastWritten(ws, g, ReadLevel(regs, g))
  {
    if ws != [] {
      var w, before := ws[|ws| - 1], ws[..|ws| - 1];
      EachReadsItsOwnLastWrite(regs, before, g);
      if w.group == g {
        WriteThenRead(RunWrites(regs, before), g, w.value);
      } else {
        DisjointWriteKeepsLevel(RunWrites(regs, before), w, g);
      }
    }
  }

  // ----- Single pins

  datatype Pin = Pin(addr: nat, offset: nat, inverted: bool, output: bool) {
    predicate Valid() { offset <= 7 }

    /** A pin is a one-bit field. */
    function AsGroup(): Group { Group(addr, addr, offset, offset, inverted) }
  }

  predicate PinLevel(regs: seq<byte>, pin: Pin)
    requires pin.addr < |regs|
  {
    Bit(regs[pin.addr], pin.offset) != pin.inverted
  }

  function PinByte(pin: Pin, high: bool, prior: byte): nat {
    if high != pin.inverted then SetBit(prior, pin.offset) else ClearBit(prior, pin.offset)
  }

  lemma PinByteBit(pin: Pin, high: bool, prior: byte, i: nat)
    requires pin.Valid()
    ensures Bit(PinByte(pin, high, prior), i) <==> if i == pin.offset then high != pin.inverted else Bit(prior, i)
  {
    SetBitBit(prior, pin.offset, i);
    if i < 32 {
      ClearBitBit(prior, pin.offset, i);
    } else {
      AndBit(prior, Flip(Shl(1, pin.offset), 32), i);
      ByteHasNoHighBit(prior, i);
    }
  }

  /** The one-bit field written into a register. */
  lemma PinBitIsWritten(pin: Pin, high: bool, prior: byte, i: nat)
    requires pin.Valid() && i < 8
    ensures WrittenBit(pin.AsGroup(), 0, FromBit(high), prior, i) <==>
              if i == pin.offset then high != pin.inverted else Bit(prior, i)
  {
    if i > pin.offset { ZeroHasNoBits(i - pin.offset - 1); }
  }

  lemma PinByteIsWritten(pin: Pin, high: bool, prior: byte)
    requires pin.Valid()
    ensures PinByte(pin, high, prior) == WriteByte(pin.AsGroup(), 0, FromBit(high), prior)
  {
    var r, w := PinByte(pin, high, prior), WriteByte(pin.AsGroup(), 0, FromBit(high), prior);
    forall i: nat ensures Bit(r, i) <==> Bit(w, i) {
      PinByteBit(pin, high, prior, i);
      if i >= 8 {
        ByteHasNoHighBit(prior, i);
        ByteHasNoHighBit(w, i);
      } else {
        PinBitIsWritten(pin, high, prior, i);
      }
    }
    SameBits(r, w);
  }

  lemma PinLevelIsRead(regs: seq<byte>, pin: Pin)
    requires pin.Valid() && pin.addr < |regs|
    ensures ReadLevel(regs, pin.AsGroup()) == FromBit(PinLevel(regs, pin))
  {
    forall p: nat ensures Bit(ReadLevel(regs, pin.AsGroup()), p) <==> Bit(FromBit(PinLevel(regs, pin)), p) {
      ReadLevelBit(regs, pin.AsGroup(), p);
      if p > 0 { ZeroHasNoBits(p - 1); }
    }
    SameBits(ReadLevel(regs, pin.AsGroup()), FromBit(PinLevel(regs, pin)));
  }

  /** Writing a pin is writing its one-bit group, and reading it is reading the group. */
  lemma PinIsGroup(regs: seq<byte>, pin: Pin, high: bool)
    requires pin.Valid() && pin.addr < |regs|
    ensures PinByte(pin, high, regs[pin.addr]) < 256
    ensures WriteLevel(regs, pin.AsGroup(), FromBit(high)) == regs[pin.addr := PinByte(pin, high, regs[pin.addr])]
    ensures ReadLevel(regs, pin.AsGroup()) == FromBit(PinLevel(regs, pin))
    ensures FromBit(high) < Pow2(pin.AsGroup().Width()) && pin.AsGroup().Valid() && pin.AsGroup().Aligned()
  {
    PinByteIsWritten(pin, high, regs[pin.addr]);
    PinLevelIsRead(regs, pin);
    assert Written(regs, pin.AsGroup(), FromBit(high), 0) == regs;
    assert Pow2(1) == 2;
  }

  // ----- The driver code

  /** sdi_cpld_bit_set_sub_bitstream: in 64 bits, clear bits start..end-1 of `dst` and or in `src`. */
  function SetSubBitstream(dst: nat, src: nat, start: nat, end: nat): nat {
    var left := Flip(Ones(end), 64);
    var right := Ones(start);
    Or(And(dst, Or(left, right)), Low(Shl(src, start), 64))
  }

  lemma SetSubBitstreamBit(dst: nat, src: nat, start: nat, end: nat, i: nat)
    requires i < 64
    ensures Bit(SetSubBitstream(dst, src, start, end), i) <==>
      (Bit(dst, i) && !(start <= i < end)) || (i >= start && Bit(src, i - start))
  {
    var left, right := Flip(Ones(end), 64), Ones(start);
    ZeroHasNoBits(i);
    FlipBit(0, end, i);
    FlipBit(0, start, i);
    FlipBit(Ones(end), 64, i);
    OrBit(left, right, i);
    AndBit(dst, Or(left, right), i);
    ShlBit(src, start, i);
    LowBit(Shl(src, start), 64, i);
    OrBit(And(dst, Or(left, right)), Low(Shl(src, start), 64), i);
  }

  /** `level` is the byte of `value` for register `k`, complemented within the field if inverted. */
  predicate IsStoredLevel(g: Group, k: nat, value: nat, level: nat) {
    var byteOfValue := Low(Shr(value, 8 * k), 8);
    g.First(k) <= g.Last(k) &&
    level == if g.inverted then Flip(byteOfValue, g.Last(k) - g.First(k) + 1) else byteOfValue
  }

  lemma StoredLevelBit(g: Group, k: nat, value: nat, level: nat, j: nat)
    requires IsStoredLevel(g, k, value, level) && j < 8
    ensures Bit(level, j) <==>
      if g.inverted then j <= g.Last(k) - g.First(k) && !Bit(value, 8 * k + j) else Bit(value, 8 * k + j)
  {
    FlipBit(Low(Shr(value, 8 * k), 8), g.Last(k) - g.First(k) + 1, j);
    LowBit(Shr(value, 8 * k), 8, j);
    ShrBit(value, 8 * k, j);
  }

  lemma MergedBits(g: Group, k: nat, level: nat, prior: byte, merged: nat, i: nat)
    requires merged == SetSubBitstream(prior, level, g.First(k), g.Last(k) + 1) && i < 8
    ensures Bit(merged, i) <==> (Bit(prior, i) && !(g.First(k) <= i < g.Last(k) + 1))
                                || (i >= g.First(k) && Bit(level, i - g.First(k)))
  {
    SetSubBitstreamBit(prior, level, g.First(k), g.Last(k) + 1, i);
  }

  lemma MergedBit(g: Group, k: nat, value: nat, level: nat, prior: byte, merged: nat, i: nat)
    requires IsStoredLevel(g, k, value, level) && g.Last(k) <= 7 && i < 8
    requires Bit(merged, i) <==> (Bit(prior, i) && !(g.First(k) <= i < g.Last(k) + 1))
                                 || (i >= g.First(k) && Bit(level, i - g.First(k)))
    ensures Bit(merged, i) <==> WrittenBit(g, k, value, prior, i)
  {
    if i >= g.First(k) {
      StoredLevelBit(g, k, value, level, i - g.First(k));
    }
  }

  /** Merging the stored level into the register gives the byte specified. */
  lemma MergedByteIsWritten(g: Group, k: nat, value: nat, level: nat, prior: byte, merged: nat)
    requires IsStoredLevel(g, k, value, level) && g.Last(k) <= 7
    requires merged == SetSubBitstream(prior, level, g.First(k), g.Last(k) + 1)
    ensures Low(merged, 8) == WriteByte(g, k, value, prior)
  {
    var low, w := Low(merged, 8), WriteByte(g, k, value, prior);
    LowByte(merged);
    forall i: nat ensures Bit(low, i) <==> Bit(w, i) {
      if i >= 8 {
        ByteHasNoHighBit(low, i);
        ByteHasNoHighBit(w, i);
      } else {
        MergedBits(g, k, level, prior, merged, i);
        MergedBit(g, k, value, level, prior, merged, i);
        LowBit(merged, 8, i);
      }
    }
    SameBits(low, w);
  }
}
