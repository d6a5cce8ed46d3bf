/** The MAX6620 fan controller of src/drivers/sdi_max6620.c: how a speed becomes a tach count and back,
    how the count is packed into its two registers, and the fault latch the four fans share. */
module Max6620 {
  import opened Bits
  import opened Wrappers

  const MAX_FANS := 4
  const MAX_TACH_COUNT := 2047
  const UINT_MODULUS := 0x1_0000_0000
  const CLOCKS_PER_MINUTE := 60 * 8192

  // ----- Speeds and counts

  datatype Fan = Fan(pulses: nat, period: nat, maxSpeed: nat)
  {
    /** The product of two C unsigned ints. */
    function Times(x: nat): nat { pulses * x % UINT_MODULUS }

    function Clocks(): nat { period * CLOCKS_PER_MINUTE }

    /** The division in the driver is defined. */
    predicate Divides(x: nat) { x != 0 ==> Times(x) != 0 }

    /** The count is one the registers can hold and that means a speed. */
    predicate InRange(speed: nat) {
      0 < pulses * speed <= Clocks() < MAX_TACH_COUNT * (pulses * speed)
    }

    /** None of the products the driver forms for this speed leaves 32 bits. */
    predicate NoWrap(speed: nat) {
      pulses > 0 && pulses * speed < UINT_MODULUS && pulses * MAX_TACH_COUNT < UINT_MODULUS
    }
  }

  /** The tach count the driver asks for: sdi_max6620_fan_speed_set. */
  function Count(fan: Fan, speed: nat): nat
    requires fan.Divides(speed)
  {
    if speed == 0 then MAX_TACH_COUNT else fan.Clocks() / fan.Times(speed)
  }

  /** The speed a tach count stands for: sdi_max6620_fan_speed_get.  None: the caller's variable is
      left alone, and the call succeeds. */
  function Speed(fan: Fan, count: nat): Option<nat>
    requires fan.Divides(count)
  {
    if count == 0 then None
    else if count == MAX_TACH_COUNT then Some(0)
    else Some(fan.Clocks() / fan.Times(count))
  }

  /** The speed period and the code for it in the fan's dynamics register. */
  function PeriodCode(maxSpeed: nat): nat {
    if 0 < maxSpeed <= 500 then 0
    else if 500 < maxSpeed <= 1000 then 1
    else if 1000 < maxSpeed <= 2000 then 2
    else if 2000 < maxSpeed <= 4000 then 3
    else if 4000 < maxSpeed <= 8000 then 4
    else 5
  }

  /** `s'` is `s` read back through a count: never slower, and off by less than one `count`-th of `s`. */
  predicate Close(s: nat, s': Option<nat>, count: nat) {
    s'.Some? && s <= s'.value && (s'.value - s) * count < s
  }

  lemma Scale(c: nat, x: nat, y: nat)
    requires x <= y
    ensures c * x <= c * y
  {}

  lemma ScaleStrictly(c: nat, x: nat, y: nat)
    requires x < y
    ensures c * x + c <= c * y
  {
    Scale(c, x + 1, y);
  }

  lemma QuotientBounds(a: nat, b: nat)
    requires b > 0
    ensures b * (a / b) <= a < b * (a / b) + b
  {
    assert a == b * (a / b) + a % b;
  }

  lemma Quotient(a: nat, b: nat, q: nat)
    requires b > 0 && b * q <= a < b * q + b
    ensures q == a / b
  {
    QuotientBounds(a, b);
    if q < a / b {
      ScaleStrictly(b, q, a / b);
      assert false;
    } else if q > a / b {
      ScaleStrictly(b, a / b, q);
      assert false;
    }
  }

  /** Dividing by a product is dividing twice; a bound on a multiple is a bound on the quotient. */
  lemma Unscale(k: nat, p: nat, x: nat)
    requires p > 0
    ensures p * x <= k <==> x <= k / p
  {
    QuotientBounds(k, p);
    if x <= k / p { Scale(p, x, k / p); } else { ScaleStrictly(p, k / p, x); }
  }

  lemma DivideTwice(k: nat, p: nat, s: nat)
    requires p > 0 && s > 0
    ensures p * s > 0 && k / (p * s) == k / p / s
  {
    var m := k / p;
    var t := m / s;
    QuotientBounds(m, s);
    Unscale(k, p, s * t);
    Unscale(k, p, s * t + s);
    assert p * (s * t) == p * s * t;
    assert p * (s * t + s) == p * (s * t) + p * s;
    Quotient(k, p * s, t);
  }

  /** The fan's range in terms of the clocks per pulse. */
  lemma InRangeIff(fan: Fan, speed: nat)
    requires fan.pulses > 0 && speed > 0
    ensures fan.InRange(speed) <==> speed <= fan.Clocks() / fan.pulses < MAX_TACH_COUNT * speed
  {
    Unscale(fan.Clocks(), fan.pulses, speed);
    Unscale(fan.Clocks(), fan.pulses, MAX_TACH_COUNT * speed);
    assert MAX_TACH_COUNT * (fan.pulses * speed) == fan.pulses * (MAX_TACH_COUNT * speed);
  }

  lemma CountOfSpeed(fan: Fan, speed: nat)
    requires speed > 0 && fan.pulses > 0 && fan.pulses * speed < UINT_MODULUS
    ensures fan.Divides(speed) && Count(fan, speed) == fan.Clocks() / fan.pulses / speed
  {
    DivideTwice(fan.Clocks(), fan.pulses, speed);
  }

  lemma SpeedOfCount(fan: Fan, count: nat)
    requires 0 < count < MAX_TACH_COUNT && fan.pulses > 0 && fan.pulses * count < UINT_MODULUS
    ensures fan.Divides(count) && Speed(fan, count) == Some(fan.Clocks() / fan.pulses / count)
  {
    DivideTwice(fan.Clocks(), fan.pulses, count);
  }

  lemma NeverSlower(m: nat, s: nat, t: nat, s': nat)
    requires s * t <= m < t * s' + t
    ensures s <= s'
  {
    if s' < s {
      ScaleStrictly(t, s', s);
      assert false;
    }
  }

  /** The error bound: t is the count for s out of m clocks, s' the speed for t. */
  lemma ErrorBound(m: nat, s: nat, t: nat, s': nat)
    requires 0 < s && 0 < t && s * t <= m < s * t + s && t * s' <= m < t * s' + t
    ensures s <= s' <= m && (s' - s) * t < s && m / s' == t
  {
    NeverSlower(m, s, t, s');
    Difference(s', s, t);
    Scale(s', 1, t);
    Scale(t, s, s');
    Quotient(m, s', t);
  }

  lemma Difference(x: nat, y: nat, c: nat)
    requires y <= x
    ensures (x - y) * c == c * x - c * y
  {}

  lemma CountIsSmall(m: nat, s: nat)
    requires 0 < s <= m < MAX_TACH_COUNT * s
    ensures 1 <= m / s < MAX_TACH_COUNT
  {
    QuotientBounds(m, s);
    Scale(s, MAX_TACH_COUNT, if m / s >= MAX_TACH_COUNT then m / s else MAX_TACH_COUNT);
  }

  /** Every speed in range reads back close to what was set, and what reads back asks for the same
      count again, so that reading and setting once more changes nothing. */
  lemma SpeedReadsBackClose(fan: Fan, speed: nat)
    requires fan.InRange(speed) && fan.Clocks() < UINT_MODULUS
    ensures fan.Divides(speed) && 0 < Count(fan, speed) < MAX_TACH_COUNT && fan.Divides(Count(fan, speed))
    ensures Close(speed, Speed(fan, Count(fan, speed)), Count(fan, speed))
    ensures var s' := Speed(fan, Count(fan, speed)).value;
            fan.InRange(s') && fan.Divides(s') && Count(fan, s') == Count(fan, speed)
  {
    var m := fan.Clocks() / fan.pulses;
    InRangeIff(fan, speed);
    CountOfSpeed(fan, speed);
    var t := Count(fan, speed);
    CountIsSmall(m, speed);
    QuotientBounds(m, speed);
    Scale(t, 1, speed);
    Unscale(fan.Clocks(), fan.pulses, t);
    SpeedOfCount(fan, t);
    var s' := m / t;
    QuotientBounds(m, t);
    ErrorBound(m, speed, t, s');
    InRangeIff(fan, s');
    Unscale(fan.Clocks(), fan.pulses, s');
    CountOfSpeed(fan, s');
  }

  lemma InRangeReadsBack(fan: Fan, speed: nat)
    requires fan.InRange(speed) && fan.Clocks() < UINT_MODULUS
    ensures fan.Divides(speed) && fan.Divides(Count(fan, speed) % 2048)
    ensures Close(speed, Speed(fan, Count(fan, speed) % 2048), Count(fan, speed) % 2048)
  {
    SpeedReadsBackClose(fan, speed);
  }

  /** Out of range, the eleven bits that reach the chip stand for something else: where no product
      wraps, a speed reads back close exactly when it is in range. */
  lemma ReadsBackCloseIff(fan: Fan, speed: nat)
    requires speed > 0 && fan.NoWrap(speed) && fan.Clocks() < UINT_MODULUS
    ensures fan.Divides(speed) && fan.Divides(Count(fan, speed) % 2048)
    ensures var c := Count(fan, speed) % 2048;
            Close(speed, Speed(fan, c), c) <==> fan.InRange(speed)
  {
    var m := fan.Clocks() / fan.pulses;
    CountOfSpeed(fan, speed);
    var c := Count(fan, speed) % 2048;
    Scale(fan.pulses, c, MAX_TACH_COUNT);
    if c > 0 { Scale(fan.pulses, 1, c); }
    InRangeIff(fan, speed);
    if fan.InRange(speed) {
      SpeedReadsBackClose(fan, speed);
    } else if 0 < c < MAX_TACH_COUNT {
      SpeedOfCount(fan, c);
      CountOutside(m, speed);
      MaskedCountIsFar(m, speed, c);
    }
  }

  lemma CountOutside(m: nat, s: nat)
    requires s > 0 && !(s <= m < MAX_TACH_COUNT * s)
    ensures m / s == 0 || m / s >= MAX_TACH_COUNT
  {
    QuotientBounds(m, s);
    if 0 < m / s < MAX_TACH_COUNT {
      ScaleStrictly(s, m / s, MAX_TACH_COUNT);
      Scale(s, 1, m / s);
      assert false;
    }
  }

  lemma MaskedCountIsFar(m: nat, s: nat, c: nat)
    requires s > 0 && m / s >= 2048 + c && 0 < c < MAX_TACH_COUNT
    ensures !Close(s, Some(m / c), c)
  {
    QuotientBounds(m, s);
    Scale(s, 2048 + c, m / s);
    ScaledSum(s, c);
    QuotientBounds(m, c);
    FarApart(m, s, c, m / c);
  }

  lemma FarApart(m: nat, s: nat, c: nat, s': nat)
    requires s > 0 && c < MAX_TACH_COUNT
    requires 2048 * s + c * s <= m < c * s' + c
    ensures s <= s' ==> (s' - s) * c >= s
  {
    if s <= s' { Difference(s', s, c); }
  }

  lemma ScaledSum(s: nat, c: nat)
    ensures s * (2048 + c) == 2048 * s + c * s
  {}

  /** A faster speed never asks for a larger count. */
  lemma CountIsAntitone(fan: Fan, slow: nat, fast: nat)
    requires 0 < slow <= fast && fan.pulses > 0 && fan.pulses * fast < UINT_MODULUS
    ensures fan.Divides(slow) && fan.Divides(fast) && Count(fan, fast) <= Count(fan, slow)
  {
    Scale(fan.pulses, slow, fast);
    CountOfSpeed(fan, slow);
    CountOfSpeed(fan, fast);
    var m := fan.Clocks() / fan.pulses;
    var t, u := m / slow, m / fast;
    QuotientBounds(m, slow);
    QuotientBounds(m, fast);
    if u > t {
      ScaleStrictly(slow, t, u);
      Scale(u, slow, fast);
      assert false;
    }
  }

  /** Zero is kept apart from the speeds in range: it alone is programmed as the maximal count and read
      back as a standstill. */
  lemma OnlyZeroStops(fan: Fan, speed: nat)
    requires fan.Clocks() < UINT_MODULUS && fan.Divides(MAX_TACH_COUNT)
    requires speed == 0 || fan.InRange(speed)
    ensures fan.Divides(speed) && fan.Divides(Count(fan, speed))
    ensures Speed(fan, Count(fan, speed)) == Some(0) <==> speed == 0
  {
    if speed != 0 {
      SpeedReadsBackClose(fan, speed);
    }
  }

  /** With the usual two pulses per revolution, the period chosen for the maximal speed puts a speed in
      range exactly when 4094 times it exceeds the clocks counted; half the maximal speed always does. */
  lemma PeriodSuitsSpeed(fan: Fan, speed: nat)
    requires fan.pulses == 2 && fan.period == Pow2(PeriodCode(fan.maxSpeed))
    requires 0 < speed <= fan.maxSpeed <= 16000
    ensures fan.Clocks() < UINT_MODULUS
    ensures fan.InRange(speed) <==> 4094 * speed > fan.Clocks()
    ensures fan.maxSpeed > 250 && 2 * speed >= fan.maxSpeed ==> fan.InRange(speed)
  {
    PeriodIsPow2(fan.maxSpeed);
  }

  lemma PeriodIsPow2(maxSpeed: nat)
    ensures var c := PeriodCode(maxSpeed);
            Pow2(c) == (if c == 0 then 1 else if c == 1 then 2 else if c == 2 then 4 else if c == 3 then 8
                        else if c == 4 then 16 else 32)
  {
    assert Pow2(2) == 4 && Pow2(4) == 4 * Pow2(2);
  }

  /** Below the range a fan is sent to a far higher speed: at a maximum of 18000 RPM, asking for 3000
      programs the count of 13724.  And what reads back may be above the maximum, where setting it is
      refused. */
  lemma SlowRunsFast()
    ensures var fan := Fan(2, 32, 18000);
            fan.Divides(3000) && fan.Divides(Count(fan, 3000) % 2048)
            && Speed(fan, Count(fan, 3000) % 2048) == Some(13724)
    ensures var fan := Fan(2, 32, 18000);
            fan.InRange(18000) && fan.Divides(18000) && fan.Divides(Count(fan, 18000))
            && Speed(fan, Count(fan, 18000)) == Some(18037)
  {
    var fan := Fan(2, 32, 18000);
    CountOfSpeed(fan, 3000);
    SpeedOfCount(fan, 573);
    CountOfSpeed(fan, 18000);
    SpeedOfCount(fan, 436);
  }

  // ----- The registers

  const TOP_THREE := 0xE0  // bits 5 to 7

  /** The upper three bits from `data`, the lower five kept. */
  function MergeTopThree(buf: nat, data: nat): nat {
    Or(And(buf, Flip(TOP_THREE, 32)), And(data, TOP_THREE))
  }

  /** The two bytes written for a target count, over the second byte read back. */
  function FirstByte(count: nat): nat { Low(Shr(Low(count, 11), 3), 8) }

  function SecondByte(count: nat, second: nat): nat { MergeTopThree(second, Low(Shl(Low(count, 3), 5), 8)) }

  /** TACH_COUNT_VAL, with the arguments as the driver passes them. */
  function TachCount(first: nat, second: nat): nat { Or(Shl(first, 3), Shr(second, 5)) }

  lemma TopThreeBit(i: nat)
    ensures Bit(TOP_THREE, i) <==> 5 <= i < 8
  {
    if i >= 8 {
      ByteHasNoHighBit(TOP_THREE, i);
    } else if i > 0 {
      assert Bit(TOP_THREE, i) == Bit(112, i - 1);
      assert i > 1 ==> Bit(112, i - 1) == Bit(56, i - 2);
      assert i > 2 ==> Bit(56, i - 2) == Bit(28, i - 3);
      assert i > 3 ==> Bit(28, i - 3) == Bit(14, i - 4);
      assert i > 4 ==> Bit(14, i - 4) == Bit(7, i - 5);
    }
  }

  lemma MergeTopThreeBit(buf: byte, data: byte, i: nat)
    ensures Bit(MergeTopThree(buf, data), i) <==> if 5 <= i < 8 then Bit(data, i) else Bit(buf, i)
  {
    OrBit(And(buf, Flip(TOP_THREE, 32)), And(data, TOP_THREE), i);
    AndBit(buf, Flip(TOP_THREE, 32), i);
    AndBit(data, TOP_THREE, i);
    FlipBit(TOP_THREE, 32, i);
    TopThreeBit(i);
    if i >= 8 {
      ByteHasNoHighBit(buf, i);
      ByteHasNoHighBit(data, i);
    }
  }

  /** Merging stays in a byte and leaves the low five bits alone. */
  lemma MergeTopThreeIsByte(buf: byte, data: byte)
    ensures MergeTopThree(buf, data) < 256
    ensures Low(MergeTopThree(buf, data), 5) == Low(buf, 5)
    ensures Shr(MergeTopThree(buf, data), 5) == Shr(data, 5)
  {
    var m := MergeTopThree(buf, data);
    if m >= 256 {
      assert Pow2(8) == 256 by { assert Pow2(4) == 16; }
      var i := HighBit(m, 8);
      MergeTopThreeBit(buf, data, i);
      ByteHasNoHighBit(buf, i);
    }
    forall i: nat ensures Bit(Low(m, 5), i) <==> Bit(Low(buf, 5), i) {
      LowBit(m, 5, i);
      LowBit(buf, 5, i);
      MergeTopThreeBit(buf, data, i);
    }
    SameBits(Low(m, 5), Low(buf, 5));
    forall i: nat ensures Bit(Shr(m, 5), i) <==> Bit(Shr(data, 5), i) {
      ShrBit(m, 5, i);
      ShrBit(data, 5, i);
      MergeTopThreeBit(buf, data, i + 5);
      if i >= 3 { ByteHasNoHighBit(buf, i + 5); ByteHasNoHighBit(data, i + 5); }
    }
    SameBits(Shr(m, 5), Shr(data, 5));
  }

  /** Packing a count and unpacking it gives its low eleven bits, whatever the second register held,
      and the register's own low five bits survive. */
  lemma CountSurvivesTheRegisters(count: nat, second: byte)
    ensures FirstByte(count) < 256 && SecondByte(count, second) < 256
    ensures TachCount(FirstByte(count), SecondByte(count, second)) == count % 2048
    ensures Low(SecondByte(count, second), 5) == Low(second, 5)
  {
    var data := Low(Shl(Low(count, 3), 5), 8);
    LowByte(Shl(Low(count, 3), 5));
    LowByte(Shr(Low(count, 11), 3));
    MergeTopThreeIsByte(second, data);
    var first := FirstByte(count);
    forall i: nat ensures Bit(Or(Shl(first, 3), Shr(data, 5)), i) <==> Bit(Low(count, 11), i) {
      UnpackedBit(count, i);
    }
    SameBits(Or(Shl(first, 3), Shr(data, 5)), Low(count, 11));
    LowIsMod(count);
  }

  lemma UnpackedBit(count: nat, i: nat)
    ensures Bit(Or(Shl(FirstByte(count), 3), Shr(Low(Shl(Low(count, 3), 5), 8), 5)), i) <==> Bit(Low(count, 11), i)
  {
    var first, data := FirstByte(count), Low(Shl(Low(count, 3), 5), 8);
    OrBit(Shl(first, 3), Shr(data, 5), i);
    LowBit(count, 11, i);
    // the upper eight bits
    ShlBit(first, 3, i);
    if i >= 3 {
      LowBit(Shr(Low(count, 11), 3), 8, i - 3);
      ShrBit(Low(count, 11), 3, i - 3);
    }
    // the lower three
    ShrBit(data, 5, i);
    LowBit(Shl(Low(count, 3), 5), 8, i + 5);
    ShlBit(Low(count, 3), 5, i + 5);
    LowBit(count, 3, i);
  }

  lemma LowIsMod(x: nat)
    ensures Low(x, 11) == x % 2048
  {
    LowModPow2(x, 11);
    assert Pow2(11) == 2048 by { assert Pow2(5) == 32 && Pow2(8) == 8 * Pow2(5); }
  }

  lemma {:induction false} LowModPow2(x: nat, k: nat)
    ensures Low(x, k) == x % Pow2(k)
  {
    if k > 0 {
      LowModPow2(x / 2, k - 1);
      HalfMod(x, Pow2(k - 1));
    }
  }

  lemma HalfMod(x: nat, m: nat)
    requires m > 0
    ensures x % (2 * m) == 2 * (x / 2 % m) + x % 2
  {
    var q := x / 2 / m;
    assert x / 2 == m * q + x / 2 % m;
    assert 2 * m * q == 2 * (m * q);
    Quotient(x, 2 * m, q);
    assert x == 2 * m * (x / (2 * m)) + x % (2 * m);
  }

  lemma ShiftedCode(code: nat)
    requires code < 8
    ensures Low(Shl(code, 5), 8) == 32 * code
  {
    assert Shl(code, 1) == 2 * code;
    assert Shl(code, 2) == 2 * Shl(code, 1);
    assert Shl(code, 3) == 2 * Shl(code, 2);
    assert Shl(code, 4) == 2 * Shl(code, 3);
    assert Shl(code, 5) == 2 * Shl(code, 4);
    assert Pow2(8) == 256 by { assert Pow2(4) == 16; }
    LowFits(32 * code, 8);
  }

  /** The merged register holds the code in its top three bits over its own low five. */
  lemma MergedCode(buf: byte, code: nat)
    requires code < 8
    ensures MergeTopThree(buf, 32 * code) < 256
    ensures MergeTopThree(buf, 32 * code) / 32 == code
    ensures MergeTopThree(buf, 32 * code) % 32 == buf % 32
  {
    var m := MergeTopThree(buf, 32 * code);
    MergeTopThreeIsByte(buf, 32 * code);
    assert Pow2(5) == 32 by { assert Pow2(2) == 4; }
    LowModPow2(m, 5);
    LowModPow2(buf, 5);
    ShrByFive(m);
    ShrByFive(32 * code);
  }

  lemma ShrByFive(x: nat)
    ensures Shr(x, 5) == x / 32
  {
    assert Shr(x, 5) == Shr(x / 2 / 2, 3);
    assert x / 2 / 2 == x / 4;
    assert Shr(x / 4, 3) == Shr(x / 4 / 2 / 2, 1);
  }

  /** The two bytes as numbers: the upper eight of the eleven bits, and the lower three above the five
      bits kept. */
  lemma BytesOfCount(count: nat, second: byte)
    ensures FirstByte(count) == count / 8 % 256
    ensures SecondByte(count, second) < 256 && SecondByte(count, second) / 32 == count % 8
    ensures SecondByte(count, second) % 32 == second % 32
  {
    assert Pow2(3) == 8 && Pow2(8) == 256 by { assert Pow2(4) == 16; }
    LowIsMod(count);
    LowModPow2(count, 3);
    ShrByThree(count % 2048);
    LowModPow2(count % 2048 / 8, 8);
    EighthOfEleven(count);
    ShiftedCode(count % 8);
    MergedCode(second, count % 8);
  }

  lemma EighthOfEleven(count: nat)
    ensures count % 2048 / 8 % 256 == count / 8 % 256
  {}

  /** The eleven bits in a pair of registers, as a number. */
  function Eleven(first: nat, second: nat): nat { 8 * first + second / 32 }

  lemma TachCountIs(first: byte, second: byte)
    ensures TachCount(first, second) == Eleven(first, second)
  {
    var count := Eleven(first, second);
    ElevenParts(first, second);
    BytesOfCount(count, second);
    SameParts(SecondByte(count, second), second);
    CountSurvivesTheRegisters(count, second);
  }

  lemma ElevenParts(first: nat, second: nat)
    requires first < 256 && second < 256
    ensures Eleven(first, second) / 8 % 256 == first && Eleven(first, second) % 8 == second / 32
    ensures Eleven(first, second) % 2048 == Eleven(first, second)
  {}

  lemma SameParts(x: nat, y: nat)
    requires x / 32 == y / 32 && x % 32 == y % 32
    ensures x == y
  {}

  // ----- Four fans

  /** The registers after a target count has been set for fan `f`. */
  function Targeted(regs: seq<byte>, f: nat, count: nat): (r: seq<byte>)
    requires |regs| == 256 && f < MAX_FANS
    ensures |r| == 256
  {
    BytesOfCount(count, regs[0x21 + 2 * f]);
    regs[0x20 + 2 * f := FirstByte(count)][0x21 + 2 * f := SecondByte(count, regs[0x21 + 2 * f])]
  }

  /** What setting a target does to the registers, in numbers: the pair of its own fan holds the count
      over the five bits kept, and every other register, the other fans' among them, is as before. */
  lemma TargetedRegisters(regs: seq<byte>, f: nat, count: nat)
    requires |regs| == 256 && f < MAX_FANS
    ensures var r := Targeted(regs, f, count);
      && Eleven(r[0x20 + 2 * f], r[0x21 + 2 * f]) == count % 2048
      && r[0x21 + 2 * f] % 32 == regs[0x21 + 2 * f] % 32
      && forall a :: 0 <= a < 256 && a != 0x20 + 2 * f && a != 0x21 + 2 * f ==> r[a] == regs[a]
  {
    BytesOfCount(count, regs[0x21 + 2 * f]);
    CountInTwo(count);
  }

  lemma CountInTwo(count: nat)
    ensures 8 * (count / 8 % 256) + count % 8 == count % 2048
  {}

  datatype Target = Target(fan: nat, count: nat)

  ghost predicate ForFans(ts: seq<Target>) { forall t :: t in ts ==> t.fan < MAX_FANS }

  function RunTargets(regs: seq<byte>, ts: seq<Target>): (r: seq<byte>)
    requires |regs| == 256 && forall t :: t in ts ==> t.fan < MAX_FANS
    ensures |r| == 256
  {
    if ts == [] then regs
    else Targeted(RunTargets(regs, ts[..|ts| - 1]), ts[|ts| - 1].fan, ts[|ts| - 1].count)
  }

  function LastTarget(ts: seq<Target>, f: nat, initial: nat): nat {
    if ts == [] then initial
    else if ts[|ts| - 1].fan == f then ts[|ts| - 1].count % 2048
    else LastTarget(ts[..|ts| - 1], f, initial)
  }

  /** Over any sequence of targets set, each fan's registers hold the one last set for it. */
  lemma {:induction false} EachFanKeepsItsTarget(regs: seq<byte>, ts: seq<Target>, f: nat)
    requires |regs| == 256 && f < MAX_FANS && ForFans(ts)
    ensures var r := RunTargets(regs, ts);
      Eleven(r[0x20 + 2 * f], r[0x21 + 2 * f]) ==
        LastTarget(ts, f, Eleven(regs[0x20 + 2 * f], regs[0x21 + 2 * f]))
    decreases |ts|
  {
    if ts != [] {
      var init, t := ts[..|ts| - 1], ts[|ts| - 1];
      EachFanKeepsItsTarget(regs, init, f);
      TargetedRegisters(RunTargets(regs, init), t.fan, t.count);
    }
  }

  /** The count for a speed and the speed for a count, in the clock of 8192 Hz over a minute. */
  lemma CountIs(fan: Fan, speed: nat)
    requires fan.pulses > 0 && fan.pulses * speed < 0x1_0000_0000
    ensures fan.Divides(speed)
    ensures speed == 0 ==> Count(fan, speed) == 2047
    ensures speed > 0 ==> Count(fan, speed) == fan.period * 491520 / (fan.pulses * speed)
  {
    if speed > 0 { CountOfSpeed(fan, speed); DivideTwice(fan.Clocks(), fan.pulses, speed); }
  }

  lemma SpeedIs(fan: Fan, count: nat)
    requires fan.pulses > 0 && fan.pulses * count < 0x1_0000_0000 && count < 2048
    ensures fan.Divides(count)
    ensures Speed(fan, count) == if count == 0 then None else if count == 2047 then Some(0)
                                 else Some(fan.period * 491520 / (fan.pulses * count))
  {
    if count > 0 {
      Scale(fan.pulses, 1, count);
      if count < 2047 { SpeedOfCount(fan, count); DivideTwice(fan.Clocks(), fan.pulses, count); }
    }
  }

  /** The period code is the smallest whose period reaches the maximal speed, at 500 RPM a step, and the
      largest for a maximum beyond that or not given. */
  lemma PeriodReachesMaximum(maxSpeed: nat)
    ensures PeriodCode(maxSpeed) <= 5
    ensures 0 < maxSpeed <= 16000 ==>
      maxSpeed <= 500 * Pow2(PeriodCode(maxSpeed))
      && (PeriodCode(maxSpeed) > 0 ==> maxSpeed > 500 * Pow2(PeriodCode(maxSpeed) - 1))
    ensures maxSpeed == 0 || maxSpeed > 16000 ==> PeriodCode(maxSpeed) == 5
  {
    assert Pow2(2) == 4 && Pow2(4) == 16 && Pow2(5) == 32;
  }

  // ----- The fault latch

  /** One call of sdi_max6620_fan_status_get: whether the fault register could be read and what it held,
      and whether the target count could be read and rewritten, if it came to that. */
  datatype Report = Report(fan: nat, reading: Option<byte>, rearmed: bool)
  {
    predicate Valid() { fan < MAX_FANS }

    /** The register showed fan `f` at fault. */
    predicate Shows(f: nat) { reading.Some? && Bit(reading.value, f + 4) }
  }

  function Latched(latch: nat, r: Report): nat {
    if r.reading.Some? then Or(latch, r.reading.value) else latch
  }

  /** The status handed to the caller. */
  predicate Faulty(latch: nat, r: Report) {
    r.reading.Some? && Bit(Latched(latch, r), r.fan + 4)
  }

  /** The call returned OK. */
  predicate Succeeds(latch: nat, r: Report) {
    r.reading.Some? && (Faulty(latch, r) ==> r.rearmed)
  }

  function Next(latch: nat, r: Report): nat {
    if Faulty(latch, r) && r.rearmed then ClearBit(Latched(latch, r), r.fan + 4) else Latched(latch, r)
  }

  function After(rs: seq<Report>): nat {
    if rs == [] then 0 else Next(After(rs[..|rs| - 1]), rs[|rs| - 1])
  }

  /** Call `j` told its caller, successfully, that fan `f` is at fault. */
  predicate Told(rs: seq<Report>, j: nat, f: nat)
    requires j < |rs|
  {
    rs[j].fan == f && Faulty(After(rs[..j]), rs[j]) && Succeeds(After(rs[..j]), rs[j])
  }

  /** Call `i` saw the fault of fan `f`, and no call from then on has told of it. */
  predicate Untold(rs: seq<Report>, i: nat, f: nat)
    requires i < |rs|
  {
    rs[i].Shows(f) && forall j :: i <= j < |rs| ==> !Told(rs, j, f)
  }

  lemma AfterOneMore(rs: seq<Report>, r: Report)
    ensures After(rs + [r]) == Next(After(rs), r)
  {
    assert (rs + [r])[..|rs|] == rs;
  }

  lemma NextBit(latch: nat, r: Report, f: nat)
    requires f < MAX_FANS && r.Valid()
    ensures Bit(Next(latch, r), f + 4) <==>
              (Bit(latch, f + 4) || r.Shows(f)) && !(r.fan == f && Faulty(latch, r) && Succeeds(latch, r))
  {
    if r.reading.Some? { OrBit(latch, r.reading.value, f + 4); }
    ClearBitBit(Latched(latch, r), r.fan + 4, f + 4);
  }

  /** Over any run a fault bit is latched exactly while some call has seen it and none has since told
      of it: no fault is lost, whichever fan's call saw it and whatever bus calls failed, and none
      lingers. */
  lemma {:induction false} LatchedIffUntold(rs: seq<Report>, f: nat)
    requires f < MAX_FANS && forall k :: 0 <= k < |rs| ==> rs[k].Valid()
    ensures Bit(After(rs), f + 4) <==> exists i :: 0 <= i < |rs| && Untold(rs, i, f)
    decreases |rs|
  {
    if rs == [] {
      ZeroHasNoBits(f + 4);
      return;
    }
    var n := |rs| - 1;
    var init := rs[..n];
    LatchedIffUntold(init, f);
    NextBit(After(init), rs[n], f);
    forall j: nat | j < n ensures Told(rs, j, f) == Told(init, j, f) {
      assert rs[..j] == init[..j];
    }
    forall i: nat | i < n ensures Untold(rs, i, f) <==> Untold(init, i, f) && !Told(rs, n, f) {
      if Untold(rs, i, f) {
        forall j: nat | i <= j < n ensures !Told(init, j, f) { assert !Told(rs, j, f); }
      }
    }
    assert Untold(rs, n, f) <==> rs[n].Shows(f) && !Told(rs, n, f);
    if i :| 0 <= i < |rs| && Untold(rs, i, f) {
      assert i < n ==> Untold(init, i, f);
    } else if i :| 0 <= i < n && Untold(init, i, f) {
      assert !Untold(rs, i, f);
    }
  }

  /** So a status call that can read the register says "fault" exactly when the fan's bit was seen, by
      any fan's call including this one, since the fan's last successful report of a fault. */
  lemma FaultyIffSeenSinceTold(rs: seq<Report>, r: Report)
    requires r.Valid() && r.reading.Some? && forall k :: 0 <= k < |rs| ==> rs[k].Valid()
    ensures Faulty(After(rs), r) <==> r.Shows(r.fan) || exists i :: 0 <= i < |rs| && Untold(rs, i, r.fan)
  {
    LatchedIffUntold(rs, r.fan);
    OrBit(After(rs), r.reading.value, r.fan + 4);
  }

  /** A call for one fan, and a call that fails, leaves the latched bits of the other fans, or of all
      fans, in place. */
  lemma NothingIsDropped(latch: nat, r: Report, f: nat)
    requires f < MAX_FANS && r.Valid() && Bit(latch, f + 4)
    requires r.fan != f || !Succeeds(latch, r)
    ensures Bit(Next(latch, r), f + 4)
  {
    NextBit(latch, r, f);
  }
}
