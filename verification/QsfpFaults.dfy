/** The calls of src/drivers/sdi_qsfp_eeprom.c that select a page, when bus calls fail.

    A bus is an oracle: the n-th call made on it succeeds or not.  What a call leaves behind and the
    code it returns are then functions of the oracle, and the theorems here hold of every oracle. */
module QsfpFaults {
  import opened Bits
  import opened QsfpMemory
  import opened QsfpCalls
  import opened Wrappers

  type Bus = nat -> bool

  /** No call from the n-th on fails. */
  ghost predicate Clean(bus: Bus, n: nat) {
    forall k :: k >= n ==> bus(k)
  }

  /** sdi_qsfp_page_select: a read of the status byte, then a write of the select byte. */
  function SelectRc(bus: Bus, n: nat, flat: bool): Rc {
    if !bus(n) then BusFault else if flat then NotSupported else if bus(n + 1) then Ok else BusFault
  }

  function SelectCalls(bus: Bus, n: nat, flat: bool): nat {
    if bus(n) && !flat then 2 else 1
  }

  /** The bytes of a transfer that get through before its first failure. */
  function Moved(bus: Bus, n: nat, len: nat): (k: nat)
    ensures k <= len && (k < len ==> !bus(n + k))
    decreases len, n
  {
    if len == 0 || !bus(n) then 0 else 1 + Moved(bus, n + 1, len - 1)
  }

  /** It is the number of calls up to the first failure. */
  lemma {:induction false} MovedIs(bus: Bus, n: nat, len: nat, k: nat)
    requires k <= len && (k < len ==> !bus(n + k)) && forall i :: n <= i < n + k ==> bus(i)
    ensures Moved(bus, n, len) == k
    decreases len
  {
    if k > 0 { MovedIs(bus, n + 1, len - 1, k - 1); }
  }

  function TransferCalls(bus: Bus, n: nat, len: nat): nat {
    var k := Moved(bus, n, len);
    if k == len then len else k + 1
  }

  /** What a transfer asks of the module: bytes to write, or nothing if it reads or goes elsewhere. */
  datatype Transfer = Transfer(offset: nat, len: nat, write: Option<seq<byte>>)
  {
    predicate Valid() { write.Some? ==> |write.value| == len }

    function Stored(m: Memory, k: nat): Memory
      requires Valid() && k <= len
    {
      if write.Some? then WriteMulti(m, offset, write.value[..k]) else m
    }
  }

  datatype Outcome = Outcome(rc: Rc, mem: Memory, moved: nat)

  /** Where the call that restores page 0 begins. */
  function RestoreAt(bus: Bus, n: nat, m: Memory, len: nat): nat {
    var next := n + SelectCalls(bus, n, Flat(m));
    if SelectRc(bus, n, Flat(m)).Ok? then next + TransferCalls(bus, next, len) else next
  }

  /** The bytes moved by a call that selects a page first. */
  function PagedMoved(bus: Bus, n: nat, m: Memory, len: nat): (k: nat)
    ensures k <= len
  {
    if SelectRc(bus, n, Flat(m)).Ok? then Moved(bus, n + SelectCalls(bus, n, Flat(m)), len) else 0
  }

  /** The module before page 0 is restored. */
  function Before(bus: Bus, n: nat, m: Memory, page: nat, t: Transfer): Memory
    requires t.Valid()
  {
    if SelectRc(bus, n, Flat(m)).Ok? then t.Stored(SelectPage(m, page), PagedMoved(bus, n, m, t.len)) else m
  }

  /** Select a page, move the bytes, restore page 0, keeping the code of the last step; a flat module
      is left alone. */
  function Paged(bus: Bus, n: nat, m: Memory, page: nat, t: Transfer): Outcome
    requires t.Valid()
  {
    if SelectRc(bus, n, Flat(m)).NotSupported? then Outcome(NotSupported, m, 0)
    else
      var before := Before(bus, n, m, page, t);
      var rc := SelectRc(bus, RestoreAt(bus, n, m, t.len), Flat(before));
      Outcome(rc, if rc.Ok? then SelectPage(before, PAGE_DEFAULT) else before, PagedMoved(bus, n, m, t.len))
  }

  /** The code says OK exactly when page 0 could be selected again, whatever became of the transfer. */
  lemma PagedOkIff(bus: Bus, n: nat, m: Memory, page: nat, t: Transfer)
    requires t.Valid()
    ensures var at := RestoreAt(bus, n, m, t.len);
      Paged(bus, n, m, page, t).rc.Ok? <==>
        bus(at) && bus(at + 1) && !Flat(Before(bus, n, m, page, t)) && !(bus(n) && Flat(m))
  {}

  /** So OK means that page 0 is selected, whatever failed. */
  lemma OkMeansPageZero(bus: Bus, n: nat, m: Memory, page: nat, t: Transfer)
    requires t.Valid() && Paged(bus, n, m, page, t).rc.Ok?
    ensures PageZero(Paged(bus, n, m, page, t).mem)
  {}

  /** A call that reads leaves everything but the selection alone, and on a paged module it says OK
      exactly when the selection was restored, without regard to the bytes. */
  lemma PagedReadOkIff(bus: Bus, n: nat, m: Memory, page: nat, t: Transfer)
    requires t.write.None? && !Flat(m)
    ensures var at := RestoreAt(bus, n, m, t.len);
      Paged(bus, n, m, page, t).rc.Ok? <==> bus(at) && bus(at + 1)
    ensures forall c :: 0 <= c < |m| && c != PAGE_SELECT ==> Paged(bus, n, m, page, t).mem[c] == m[c]
  {}

  /** OK does not mean that the bytes were moved: on every paged module there is a failure of a single
      call after which a transfer of any length has moved nothing and the code is OK. */
  lemma OkWithoutTransfer(n: nat, m: Memory, page: nat, t: Transfer) returns (bus: Bus)
    requires t.Valid() && !Flat(m) && t.len > 0
    ensures forall k: nat :: bus(k) <==> k != n + 2
    ensures Paged(bus, n, m, page, t).rc.Ok? && Paged(bus, n, m, page, t).moved == 0
    ensures Paged(bus, n, m, page, t).mem == m[PAGE_SELECT := PAGE_DEFAULT]
  {
    bus := k => k != n + 2;
    var m1 := SelectPage(m, page);
    assert RestoreAt(bus, n, m, t.len) == n + 3;
    if t.write.Some? {
      assert t.write.value[..0] == [];
      assert WriteMulti(m1, t.offset, []) == m1;
    }
    assert m[PAGE_SELECT := page % 256][PAGE_SELECT := PAGE_DEFAULT] == m[PAGE_SELECT := PAGE_DEFAULT];
  }

  /** Nor does a failed restore say that they were not: all were moved, and the code is a failure. */
  lemma FaultAfterTransfer(n: nat, m: Memory, page: nat, t: Transfer) returns (bus: Bus)
    requires t.Valid() && !Flat(m)
    ensures forall k: nat :: bus(k) <==> k != n + 2 + t.len
    ensures Paged(bus, n, m, page, t).rc.BusFault? && Paged(bus, n, m, page, t).moved == t.len
  {
    bus := k => k != n + 2 + t.len;
  }

  lemma CleanTransfer(bus: Bus, n: nat, len: nat)
    requires Clean(bus, n)
    ensures Moved(bus, n, len) == len && TransferCalls(bus, n, len) == len
  {}

  /** Without failures these are the effect and the code of `QsfpCalls`. */
  lemma CleanWriteIsEffect(bus: Bus, n: nat, m: Memory, c: Call)
    requires Clean(bus, n) && c.WriteGeneric? && Paging(c.page, c.probe)
    ensures var o := Paged(bus, n, m, c.page, WriteOf(c));
      o.mem == Effect(m, c) && o.rc == WriteGenericRc(m, c)
  {
    assert bus(n) && bus(n + 1);
    CleanTransfer(bus, n + 2, |c.data|);
    assert c.data[..|c.data|] == c.data;
    var at := RestoreAt(bus, n, m, |c.data|);
    assert at >= n && bus(at) && bus(at + 1);
  }

  function WriteOf(c: Call): (t: Transfer)
    requires c.WriteGeneric?
    ensures t.Valid()
  {
    Transfer(c.offset, |c.data|, if c.own then Some(c.data) else None)
  }

  lemma CleanReadIsEffect(bus: Bus, n: nat, m: Memory, page: nat, t: Transfer)
    requires Clean(bus, n) && t.write.None?
    ensures var o := Paged(bus, n, m, page, t);
      if Flat(m) then o.rc == NotSupported && o.mem == m
      else o.rc == Ok && o.moved == t.len && o.mem == SelectPage(SelectPage(m, page), PAGE_DEFAULT)
  {
    assert bus(n) && bus(n + 1);
    CleanTransfer(bus, n + 2, t.len);
    var at := RestoreAt(bus, n, m, t.len);
    assert at >= n && bus(at) && bus(at + 1);
  }
}
