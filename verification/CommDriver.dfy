/** The driver code of src/drivers/sdi_comm_dev_driver.c, proved against `CommMailbox`.  Every bus call
    may fail; `faults` counts those that did. */
module CommDriver {
  import opened Bits
  import opened CommMailbox

  datatype Rc = Ok | BusFault | NotPermitted

  class CommDevice {
    var mem: Memory
    var pointer: nat  // register the next received byte comes from
    ghost var faults: nat

    constructor (mem: Memory)
      ensures this.mem == mem && faults == 0
    {
      this.mem, pointer, faults := mem, 0, 0;
    }

    method Succeeds() returns (ok: bool)
      modifies this`faults
      ensures faults == old(faults) + if ok then 0 else 1
    {
      ok := *;
      if !ok { faults := faults + 1; }
    }

    /** sdi_comm_dev_recv_byte: set the pointer, then receive byte by byte.  A byte that fails is
        skipped, and the code returned is that of the last one. */
    method RecvBytes(reg: nat, buf: array<byte>, at: nat, len: nat) returns (rc: Rc)
      requires at + len <= buf.Length
      modifies this`faults, this`pointer, buf
      ensures faults >= old(faults)
      ensures buf[..at] == old(buf[..at]) && buf[at + len..] == old(buf[at + len..])
      ensures faults == old(faults) ==> rc.Ok? && buf[at..at + len] == Load(mem, reg, len)
    {
      var ok := Succeeds();
      rc := if ok then Ok else BusFault;
      if !ok {
        return;
      }
      pointer := reg;
      for count := 0 to len
        invariant faults >= old(faults)
        invariant buf[..at] == old(buf[..at]) && buf[at + count..] == old(buf[at + count..])
        invariant faults == old(faults) ==>
          rc.Ok? && pointer == reg + count && buf[at..at + count] == Load(mem, reg, count)
      {
        ok := Succeeds();
        rc := if ok then Ok else BusFault;
        if ok {
          LoadConcat(mem, reg, count, 1);
          assert Load(mem, reg + count, 1) == [mem[(reg + count) % SPACE]];
          buf[at + count] := mem[pointer % SPACE];
          pointer := pointer + 1;
        }
      }
    }

    /** sdi_comm_dev_write_block: the bus layer takes no more than 16 bytes. */
    method WriteBlock(reg: nat, data: seq<byte>) returns (rc: Rc)
      modifies this`faults, this`mem
      ensures rc == (if faults == old(faults) then Ok else BusFault) && faults >= old(faults)
      ensures mem == if rc.Ok? then Store(old(mem), reg, if |data| > BLOCK then data[..BLOCK] else data) else old(mem)
    {
      var ok := Succeeds();
      rc := if ok then Ok else BusFault;
      if ok {
        mem := Store(mem, reg, if |data| > BLOCK then data[..BLOCK] else data);
      }
    }

    /** The first `done` bytes of `data` have been stored, and nothing else has changed. */
    ghost predicate StoredPrefix(m: Memory, reg: nat, data: seq<byte>, done: nat)
      reads this
    {
      done <= |data| && mem == Store(m, reg, data[..done])
    }

    /** The block loop shared by sdi_comm_dev_write and sdi_write_mailbox: exactly the first `len` bytes
        are stored, or, after a failure, a shorter prefix of them. */
    method WriteBlocks(reg: nat, len: nat, data: seq<byte>) returns (rc: Rc)
      requires len <= |data|
      modifies this`faults, this`mem
      ensures rc == (if faults == old(faults) then Ok else BusFault) && faults >= old(faults)
      ensures exists done: nat :: done <= len && StoredPrefix(old(mem), reg, data, done)
      ensures rc.Ok? ==> mem == Store(old(mem), reg, data[..len])
    {
      var count := 0;
      rc := Ok;
      assert data[..0] == [];
      while count < len
        invariant 0 <= count && rc.Ok? && faults == old(faults)
        invariant StoredPrefix(old(mem), reg, data, if count < len then count else len)
      {
        var size := if len - count > BLOCK then BLOCK else len - count;
        rc := WriteBlock(reg + count, data[count..count + size]);
        if !rc.Ok? {
          assert StoredPrefix(old(mem), reg, data, count);
          return;
        }
        StoreConcat(old(mem), reg, data[..count], data[count..count + size]);
        assert data[..count] + data[count..count + size] == data[..count + size];
        count := count + BLOCK;
      }
    }

    /** sdi_comm_dev_status_check_and_clear, with the flush of the mailbox. */
    method StatusCheckAndClear() returns (rc: Rc)
      modifies this`faults, this`mem, this`pointer
      ensures faults >= old(faults)
      ensures faults == old(faults) ==> mem == Prepared(old(mem))
    {
      var status := new byte[2](_ => 0);
      rc := RecvBytes(STATUS_REGISTER, status, 0, 2);
      if !rc.Ok? {
        return;
      }
      rc := WriteBlocks(STATUS_REGISTER, 2, [0, 0]);
      assert [0 as byte, 0][..2] == [0, 0];
      label cleared:
      var control := new byte[2](_ => 0);
      rc := RecvBytes(MAILBOX_CONTROL, control, 0, 2);
      if rc.Ok? {
        PreparedByte(control[0]);
        control[0] := SetBit(control[0], 0);
        assert control[..2] == control[..];
        rc := WriteBlocks(MAILBOX_CONTROL, 2, control[..]);
      }
      if faults == old(faults) {
        PreparedStores(old(mem));
      }
    }

    /** sdi_write_mailbox.  The code of the status check is ignored. */
    method SendMessage(message: seq<byte>, len: nat) returns (rc: Rc)
      requires 0 in message && StrLen(message) + 1 < SPACE && len <= |message|
      modifies this`faults, this`mem, this`pointer
      ensures faults == old(faults) ==> rc.Ok? && mem == WriteMailbox(old(mem), message, len)
      ensures rc.Ok? || rc.BusFault? || rc.NotPermitted?
    {
      rc := StatusCheckAndClear();
      rc := WriteBlock(NORTHBOUND, Header(Payload(message)));
      if !rc.Ok? {
        rc := NotPermitted;
        return;
      }
      rc := WriteBlocks(NORTHBOUND + HEADER_SIZE, len, message);
    }

    /** sdi_read_mailbox at a given base address (the driver itself reads the southbound mailbox). */
    method ReceiveMessage(base: nat, buf: array<byte>) returns (rc: Rc, size: nat)
      requires buf.Length >= BUFFER_MAX
      modifies this`faults, this`pointer, buf
      ensures faults == old(faults) ==> (rc.Ok? <==> Accepts(mem, base))
      ensures faults == old(faults) && rc.Ok? ==> size <= buf.Length && buf[..size] == Received(mem, base)
    {
      var header := new byte[HEADER_SIZE];
      rc := RecvBytes(base, header, 0, HEADER_SIZE);
      var h := header[..];
      assert header[0..HEADER_SIZE] == h;
      size := StoredSize(h);
      if size > BUFFER_MAX {
        rc := NotPermitted;
        return;
      }
      if rc.Ok? {
        rc := RecvBytes(base + HEADER_SIZE, buf, 0, size);
      }
      if rc.Ok? {
        var accepted := CheckHeader(buf, h);
        assert buf[0..size] == buf[..size];
        if !accepted {
          rc := NotPermitted;
        }
      }
    }

    /** check_mailbox_header: 16-bit accumulation, compared in two's complement. */
    method CheckHeader(buf: array<byte>, h: seq<byte>) returns (accepted: bool)
      requires |h| == HEADER_SIZE && StoredSize(h) <= BUFFER_MAX <= buf.Length
      ensures accepted <==> AcceptsHeader(h, buf[..StoredSize(h)])
    {
      var size, sum := StoredSize(h), 0;
      var p := buf[..size];
      for counter := 0 to size
        invariant sum == Sum(p[..counter]) % SPACE
      {
        SumAppend(p[..counter], p[counter]);
        assert p[..counter + 1] == p[..counter] + [p[counter]];
        sum := (sum + p[counter]) % SPACE;
      }
      assert p[..size] == p;
      sum := (sum + size % 256) % SPACE;
      sum := (sum + size / 256) % SPACE;
      var complement := (SPACE - 1 - sum + 1) % SPACE;
      ComplementIsChecksum(p);
      accepted := complement == Word(h[0], h[1]);
    }
  }

  lemma ComplementIsChecksum(p: seq<byte>)
    requires |p| < SPACE
    ensures var sum := ((Sum(p) % SPACE + |p| % 256) % SPACE + |p| / 256) % SPACE;
      (SPACE - 1 - sum + 1) % SPACE == Checksum(p)
  {
    AddMod(Sum(p), |p| % 256);
    AddMod(Sum(p) + |p| % 256, |p| / 256);
  }

  lemma AddMod(x: nat, y: nat)
    ensures (x % SPACE + y) % SPACE == (x + y) % SPACE
  {
  }

  lemma {:induction false} SumAppend(s: seq<byte>, b: byte)
    ensures Sum(s + [b]) == Sum(s) + b
  {
    if s != [] {
      SumAppend(s[1..], b);
      assert (s + [b])[1..] == s[1..] + [b];
    } else {
      assert s + [b] == [b];
    }
  }

  /** Clearing the two status bytes and rewriting the two control bytes with bit 0 set. */
  lemma PreparedStores(m: Memory)
    ensures SetBit(m[MAILBOX_CONTROL], 0) < 256
    ensures var cleared := Store(m, STATUS_REGISTER, [0, 0]);
      && Load(cleared, MAILBOX_CONTROL, 2) == [m[MAILBOX_CONTROL], m[MAILBOX_CONTROL + 1]]
      && Store(cleared, MAILBOX_CONTROL, [SetBit(m[MAILBOX_CONTROL], 0), m[MAILBOX_CONTROL + 1]]) == Prepared(m)
  {
    PreparedByte(m[MAILBOX_CONTROL]);
    var cleared := Store(m, STATUS_REGISTER, [0, 0]);
    assert cleared == m[STATUS_REGISTER := 0][STATUS_REGISTER + 1 := 0] by {
      assert Store(m[STATUS_REGISTER := 0], STATUS_REGISTER + 1, [0]) == m[STATUS_REGISTER := 0][STATUS_REGISTER + 1 := 0];
    }
    var b: byte, c := SetBit(m[MAILBOX_CONTROL], 0), m[MAILBOX_CONTROL + 1];
    assert Store(cleared[MAILBOX_CONTROL := b], MAILBOX_CONTROL + 1, [c]) == cleared[MAILBOX_CONTROL := b][MAILBOX_CONTROL + 1 := c];
    assert Load(cleared, MAILBOX_CONTROL + 1, 1) == [c];
  }
}
