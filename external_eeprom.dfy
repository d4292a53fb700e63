/**
 * The driver of the external M24C16 EEPROM (CONTROL_ECU/external_eeprom.c)
 * over a modelled TWI bus.
 *
 * The TWI peripheral is reduced to what the driver sees of it: the operations
 * it issues (kept in `log`) and the status register it reads after each one,
 * an oracle `status` whose n-th reading is `status(n)`. The EEPROM device is
 * its 2 KiB memory array `cells`: it programs a byte when a write frame is
 * ended by STOP and answers a read frame with the byte the frame addressed.
 */
module ExternalEeprom {
  import opened SystemModes

  const EEPROM_SLAVE_ADDRESS: byte := 0xA0

  /** TWI status codes the driver expects, in the order of a frame. */
  const TWI_MT_START: byte := 0x08
  const TWI_MT_REP_START: byte := 0x10
  const TWI_MT_SLA_W_ACK: byte := 0x18
  const TWI_MT_SLA_R_ACK: byte := 0x40
  const TWI_MT_DATA_ACK: byte := 0x28
  const TWI_MR_DATA_NACK: byte := 0x58

  /** Bytes in the M24C16: 16 Kbit, addressed by 11 bits. */
  const CELL_COUNT: nat := 0x800

  /** What the driver does on the bus. */
  datatype BusOp = Start | Transmit(b: byte) | ReceiveNack | Stop

  /** What the modelled bus and device hold: memory, status readings so far, operations so far. */
  datatype Bus = Bus(cells: seq<byte>, polls: nat, log: seq<BusOp>)

  ghost predicate WellFormed(b: Bus) {
    |b.cells| == CELL_COUNT
  }

  // ---------------------------------------------------------------------------
  // Addressing
  // ---------------------------------------------------------------------------

  /**
   * The device-select byte of a write frame: the slave address 0xA0 with
   * address bits 8-10 in bits 1-3 and the R/W bit 0 clear. The masking of
   * bits 8-10 is `addr / 0x100 % 8 * 0x100`, the shift right by 7 a division
   * by 0x80, and the bitwise OR an addition, since the shifted bits (1-3)
   * and 0xA0 (bits 5 and 7) do not overlap.
   */
  function DeviceSelect(addr: nat): (sel: byte)
    requires addr < 0x10000
    ensures sel % 2 == 0
    ensures sel / 0x10 == 0xA
    ensures (sel / 2) % 8 == (addr / 0x100) % 8
  {
    EEPROM_SLAVE_ADDRESS + (addr / 0x100 % 8 * 0x100) / 0x80
  }

  /** The memory address the device decodes from a device-select byte and a word-address byte. */
  function DeviceCell(sel: byte, word: byte): (cell: nat)
    ensures cell < CELL_COUNT
  {
    ((sel / 2) % 8) * 0x100 + word
  }

  /** The select byte and the low address byte together name cell `addr mod 2048`. */
  lemma DeviceCellDecodes(addr: nat)
    requires addr < 0x10000
    ensures DeviceCell(DeviceSelect(addr), addr % 0x100) == addr % CELL_COUNT
  {
    var hi := addr / 0x100;
    assert addr == hi * 0x100 + addr % 0x100;
    assert hi == (hi / 8) * 8 + hi % 8;
    assert addr == (hi / 8) * CELL_COUNT + (hi % 8) * 0x100 + addr % 0x100;
  }

  /** For 0x0320, where the control node keeps the password: select 0xA6, low byte 0x20. */
  lemma PasswordAddressBytes()
    ensures DeviceSelect(0x0320) == 0xA6 && 0x0320 % 0x100 == 0x20
    ensures DeviceSelect(0x0320) + 1 == 0xA7
  {
  }

  // ---------------------------------------------------------------------------
  // Specifications of the driver functions
  // ---------------------------------------------------------------------------

  /** Statuses EEPROM_writeByte checks, in order. */
  const WRITE_STATUSES: seq<byte> := [TWI_MT_START, TWI_MT_SLA_W_ACK, TWI_MT_DATA_ACK, TWI_MT_DATA_ACK]
  /** Statuses EEPROM_readByte checks, in order. */
  const READ_STATUSES: seq<byte> :=
    [TWI_MT_START, TWI_MT_SLA_W_ACK, TWI_MT_DATA_ACK, TWI_MT_REP_START, TWI_MT_SLA_R_ACK, TWI_MR_DATA_NACK]

  /** The operations of a write frame; each is followed by one status check. */
  function WriteFrame(addr: nat, data: byte): seq<BusOp>
    requires addr < 0x10000
  {
    [Start, Transmit(DeviceSelect(addr)), Transmit(addr % 0x100), Transmit(data)]
  }

  /** The operations of a read frame; each is followed by one status check. */
  function ReadFrame(addr: nat): seq<BusOp>
    requires addr < 0x10000
  {
    [Start, Transmit(DeviceSelect(addr)), Transmit(addr % 0x100), Start, Transmit(DeviceSelect(addr) + 1), ReceiveNack]
  }

  /** One bus operation followed by one reading of the status register. */
  function Issue(b: Bus, op: BusOp): Bus {
    b.(polls := b.polls + 1, log := b.log + [op])
  }

  /** EEPROM_writeByte, as (bus, result). */
  function WriteByteSpec(status: nat -> byte, b: Bus, addr: nat, data: byte): (r: (Bus, byte))
    requires WellFormed(b) && addr < 0x10000
    ensures WellFormed(r.0)
  {
    var b1 := Issue(b, Start);
    if status(b.polls) != TWI_MT_START then (b1, ERROR) else
    var b2 := Issue(b1, Transmit(DeviceSelect(addr)));
    if status(b1.polls) != TWI_MT_SLA_W_ACK then (b2, ERROR) else
    var b3 := Issue(b2, Transmit(addr % 0x100));
    if status(b2.polls) != TWI_MT_DATA_ACK then (b3, ERROR) else
    var b4 := Issue(b3, Transmit(data));
    if status(b3.polls) != TWI_MT_DATA_ACK then (b4, ERROR) else
    (b4.(log := b4.log + [Stop], cells := b.cells[DeviceCell(DeviceSelect(addr), addr % 0x100) := data]), SUCCESS)
  }

  /** EEPROM_readByte, as (bus, result, value of *a_data when it returns). */
  function ReadByteSpec(status: nat -> byte, b: Bus, addr: nat, prior: byte): (r: (Bus, byte, byte))
    requires WellFormed(b) && addr < 0x10000
    ensures r.0.cells == b.cells
  {
    var sel := DeviceSelect(addr);
    var b1 := Issue(b, Start);
    if status(b.polls) != TWI_MT_START then (b1, ERROR, prior) else
    var b2 := Issue(b1, Transmit(sel));
    if status(b1.polls) != TWI_MT_SLA_W_ACK then (b2, ERROR, prior) else
    var b3 := Issue(b2, Transmit(addr % 0x100));
    if status(b2.polls) != TWI_MT_DATA_ACK then (b3, ERROR, prior) else
    var b4 := Issue(b3, Start);
    if status(b3.polls) != TWI_MT_REP_START then (b4, ERROR, prior) else
    var b5 := Issue(b4, Transmit(sel + 1));
    if status(b4.polls) != TWI_MT_SLA_R_ACK then (b5, ERROR, prior) else
    var data := b.cells[DeviceCell(sel, addr % 0x100)];
    var b6 := Issue(b5, ReceiveNack);
    if status(b5.polls) != TWI_MR_DATA_NACK then (b6, ERROR, data) else
    (b6.(log := b6.log + [Stop]), SUCCESS, data)
  }

  /**
   * EEPROM_writeByte stops at the first status that is not the expected one:
   * n statuses are read, all but the last as expected, and the result is
   * SUCCESS exactly when the last is expected too, which only the fourth can
   * be. The operations issued are the first n of the frame; only a complete
   * frame is closed with STOP and programs the addressed cell.
   */
  lemma WriteByteAborts(status: nat -> byte, b: Bus, addr: nat, data: byte)
    requires WellFormed(b) && addr < 0x10000
    ensures var r := WriteByteSpec(status, b, addr, data);
      var n := r.0.polls - b.polls;
      && 1 <= n <= |WRITE_STATUSES|
      && (forall j :: 0 <= j < n - 1 ==> status(b.polls + j) == WRITE_STATUSES[j])
      && (r.1 == SUCCESS <==> status(b.polls + n - 1) == WRITE_STATUSES[n - 1])
      && (r.1 == ERROR ==> r.0.log == b.log + WriteFrame(addr, data)[..n] && r.0.cells == b.cells)
      && (r.1 == SUCCESS ==> n == |WRITE_STATUSES| && r.0.log == b.log + WriteFrame(addr, data) + [Stop])
      && (r.1 == SUCCESS ==> r.0.cells == b.cells[addr % CELL_COUNT := data])
  {
    DeviceCellDecodes(addr);
  }

  /**
   * EEPROM_readByte stops at the first status that is not the expected one,
   * never closes a failed frame with STOP and never changes the memory; the
   * out-parameter gets the addressed byte only once the NACK read is issued
   * (all six operations), and keeps its old value otherwise.
   */
  lemma ReadByteAborts(status: nat -> byte, b: Bus, addr: nat, prior: byte)
    requires WellFormed(b) && addr < 0x10000
    ensures var r := ReadByteSpec(status, b, addr, prior);
      var n := r.0.polls - b.polls;
      && 1 <= n <= |READ_STATUSES|
      && (forall j :: 0 <= j < n - 1 ==> status(b.polls + j) == READ_STATUSES[j])
      && (r.1 == SUCCESS <==> status(b.polls + n - 1) == READ_STATUSES[n - 1])
      && (r.1 == ERROR ==> r.0.log == b.log + ReadFrame(addr)[..n])
      && (r.1 == SUCCESS ==> n == |READ_STATUSES| && r.0.log == b.log + ReadFrame(addr) + [Stop])
      && r.2 == (if n == |READ_STATUSES| then b.cells[addr % CELL_COUNT] else prior)
  {
    DeviceCellDecodes(addr);
  }

  /** The 16-bit address of the i-th byte of a string stored at `addr`. */
  function AddrOf(addr: nat, i: nat): nat {
    (addr + i) % 0x10000
  }

  /** EEPROM_writeString from index i on: byte by byte, stopping at the first failed write. */
  function WriteStringFrom(status: nat -> byte, b: Bus, addr: nat, data: seq<byte>, i: nat): (r: (Bus, byte))
    requires WellFormed(b) && i <= |data|
    ensures WellFormed(r.0)
    decreases |data| - i
  {
    if i == |data| then (b, SUCCESS)
    else
      var (b1, res) := WriteByteSpec(status, b, AddrOf(addr, i), data[i]);
      if res == ERROR then (b1, ERROR) else WriteStringFrom(status, b1, addr, data, i + 1)
  }

  /** EEPROM_readString from index i on: fills buf[i..size] byte by byte, stopping at the first failed read. */
  function ReadStringFrom(status: nat -> byte, b: Bus, addr: nat, buf: seq<byte>, size: nat, i: nat): (r: (Bus, byte, seq<byte>))
    requires WellFormed(b) && i <= size <= |buf|
    ensures r.0.cells == b.cells && |r.2| == |buf|
    decreases size - i
  {
    if i == size then (b, SUCCESS, buf)
    else
      var (b1, res, d) := ReadByteSpec(status, b, AddrOf(addr, i), buf[i]);
      if res == ERROR then (b1, ERROR, buf[i := d])
      else ReadStringFrom(status, b1, addr, buf[i := d], size, i + 1)
  }

  // ---------------------------------------------------------------------------
  // Properties of the string functions
  // ---------------------------------------------------------------------------

  /** The memory after bytes `data` were programmed, in order, at consecutive addresses from `addr`. */
  function Committed(cells: seq<byte>, addr: nat, data: seq<byte>): (r: seq<byte>)
    requires |cells| == CELL_COUNT
    ensures |r| == CELL_COUNT
  {
    if data == [] then cells
    else Committed(cells, addr, data[..|data| - 1])[AddrOf(addr, |data| - 1) % CELL_COUNT := data[|data| - 1]]
  }

  /** Two bytes of one string (at most 255 bytes long) never land on the same cell. */
  lemma CellsDistinct(addr: nat, i: nat, j: nat)
    requires i < j < 0x100
    ensures AddrOf(addr, i) % CELL_COUNT != AddrOf(addr, j) % CELL_COUNT
  {
    WrapKeepsCell(addr + i);
    WrapKeepsCell(addr + j);
    var qi, qj := (addr + i) / CELL_COUNT, (addr + j) / CELL_COUNT;
    var ri, rj := (addr + i) % CELL_COUNT, (addr + j) % CELL_COUNT;
    assert addr + i == qi * CELL_COUNT + ri;
    assert addr + j == qj * CELL_COUNT + rj;
    if qi == qj {
      assert rj - ri == j - i;
    } else {
      assert qi < qj;
      assert qj * CELL_COUNT >= qi * CELL_COUNT + CELL_COUNT;
      assert rj < ri;
    }
  }

  /** Truncating an address to 16 bits does not change its cell, as 0x10000 is a multiple of 0x800. */
  lemma WrapKeepsCell(x: nat)
    ensures x % 0x10000 % CELL_COUNT == x % CELL_COUNT
  {
    var q, r := x / 0x10000, x % 0x10000;
    assert x == q * 0x10000 + r;
    var s, t := r / CELL_COUNT, r % CELL_COUNT;
    assert r == s * CELL_COUNT + t;
    assert x == (q * 0x20 + s) * CELL_COUNT + t;
  }

  /** Each byte of a committed string sits at its own cell. */
  lemma {:induction false} CommittedAt(cells: seq<byte>, addr: nat, data: seq<byte>, i: nat)
    requires |cells| == CELL_COUNT && i < |data| < 0x100
    ensures Committed(cells, addr, data)[AddrOf(addr, i) % CELL_COUNT] == data[i]
    decreases |data|
  {
    var last := |data| - 1;
    if i < last {
      CellsDistinct(addr, i, last);
      CommittedAt(cells, addr, data[..last], i);
    }
  }

  /**
   * EEPROM_writeString aborts at the first failing byte: for some n, the
   * first n bytes are programmed, the later ones are not, and the result is
   * SUCCESS exactly when n is the whole string. A string of size 0 touches nothing.
   */
  lemma {:induction false} WriteStringPrefix(status: nat -> byte, b: Bus, addr: nat, data: seq<byte>, i: nat, c0: seq<byte>)
    requires WellFormed(b) && |c0| == CELL_COUNT && i <= |data|
    requires b.cells == Committed(c0, addr, data[..i])
    ensures var r := WriteStringFrom(status, b, addr, data, i);
      exists n :: i <= n <= |data| && r.0.cells == Committed(c0, addr, data[..n]) && (r.1 == SUCCESS <==> n == |data|)
    ensures data == [] ==> WriteStringFrom(status, b, addr, data, i) == (b, SUCCESS)
    decreases |data| - i
  {
    if i < |data| {
      var (b1, res) := WriteByteSpec(status, b, AddrOf(addr, i), data[i]);
      WriteByteAborts(status, b, AddrOf(addr, i), data[i]);
      if res == ERROR {
        assert b1.cells == Committed(c0, addr, data[..i]);
      } else {
        assert data[..i + 1][..i] == data[..i];
        assert b1.cells == Committed(c0, addr, data[..i + 1]);
        WriteStringPrefix(status, b1, addr, data, i + 1, c0);
      }
    }
  }

  /** The first n bytes of the string stored at `addr`. */
  function Stored(cells: seq<byte>, addr: nat, n: nat): seq<byte>
    requires |cells| == CELL_COUNT
  {
    seq(n, j requires 0 <= j < n => cells[AddrOf(addr, j) % CELL_COUNT])
  }

  /** Reading back a committed string gives the string. */
  lemma StoredCommitted(cells: seq<byte>, addr: nat, data: seq<byte>)
    requires |cells| == CELL_COUNT && |data| < 0x100
    ensures Stored(Committed(cells, addr, data), addr, |data|) == data
  {
    forall j | 0 <= j < |data|
      ensures Stored(Committed(cells, addr, data), addr, |data|)[j] == data[j]
    {
      CommittedAt(cells, addr, data, j);
    }
  }

  /**
   * EEPROM_readString aborts at the first failing byte: for some n, the
   * buffer starts with the first n bytes stored at `addr`, every slot after
   * n keeps its old value, and the result is SUCCESS exactly when n is the
   * whole size. The memory is never changed.
   */
  lemma {:induction false} ReadStringPrefix(status: nat -> byte, b: Bus, addr: nat, buf: seq<byte>, size: nat, i: nat, buf0: seq<byte>)
    requires WellFormed(b) && i <= size <= |buf| == |buf0|
    requires buf[..i] == Stored(b.cells, addr, i)
    requires buf[i..] == buf0[i..]
    ensures var r := ReadStringFrom(status, b, addr, buf, size, i);
      exists n :: i <= n <= size && r.2[..n] == Stored(b.cells, addr, n) && (r.1 == SUCCESS <==> n == size)
        && forall j :: n < j < |buf| ==> r.2[j] == buf0[j]
    decreases size - i, 1
  {
    var r := ReadStringFrom(status, b, addr, buf, size, i);
    if i == size {
      assert forall j :: i < j < |buf| ==> buf[j] == buf[i..][j - i];
    } else {
      var (b1, res, d) := ReadByteSpec(status, b, AddrOf(addr, i), buf[i]);
      if res == ERROR {
        ReadByteAborts(status, b, AddrOf(addr, i), buf[i]);
        var buf1 := buf[i := d];
        assert r == (b1, ERROR, buf1);
        assert buf1[..i] == buf[..i];
        assert forall j :: i < j < |buf| ==> buf1[j] == buf[i..][j - i];
      } else {
        ReadStringAdvances(status, b, addr, buf, size, i, buf0);
      }
    }
  }

  /** The case of ReadStringPrefix where the i-th byte is read. */
  lemma {:induction false} ReadStringAdvances(status: nat -> byte, b: Bus, addr: nat, buf: seq<byte>, size: nat, i: nat, buf0: seq<byte>)
    requires WellFormed(b) && i < size <= |buf| == |buf0|
    requires buf[..i] == Stored(b.cells, addr, i)
    requires buf[i..] == buf0[i..]
    requires ReadByteSpec(status, b, AddrOf(addr, i), buf[i]).1 != ERROR
    ensures var r := ReadStringFrom(status, b, addr, buf, size, i);
      exists n :: i <= n <= size && r.2[..n] == Stored(b.cells, addr, n) && (r.1 == SUCCESS <==> n == size)
        && forall j :: n < j < |buf| ==> r.2[j] == buf0[j]
    decreases size - i, 0
  {
    var (b1, res, d) := ReadByteSpec(status, b, AddrOf(addr, i), buf[i]);
    ReadByteAborts(status, b, AddrOf(addr, i), buf[i]);
    var buf1 := buf[i := d];
    assert ReadStringFrom(status, b, addr, buf, size, i) == ReadStringFrom(status, b1, addr, buf1, size, i + 1);
    WrapKeepsCell(addr + i);
    assert buf1[..i + 1] == buf[..i] + [d];
    assert buf1[..i + 1] == Stored(b.cells, addr, i + 1);
    assert buf1[i + 1..] == buf0[i + 1..] by {
      assert buf[i + 1..] == buf[i..][1..];
    }
    ReadStringPrefix(status, b1, addr, buf1, size, i + 1, buf0);
  }


  /** A writeString that reports SUCCESS has programmed the whole string. */
  lemma WriteStringSuccess(status: nat -> byte, b: Bus, addr: nat, data: seq<byte>)
    requires WellFormed(b)
    requires WriteStringFrom(status, b, addr, data, 0).1 == SUCCESS
    ensures WriteStringFrom(status, b, addr, data, 0).0.cells == Committed(b.cells, addr, data)
  {
    assert data[..0] == [];
    WriteStringPrefix(status, b, addr, data, 0, b.cells);
    assert data[..|data|] == data;
  }

  /** A readString that reports SUCCESS has filled the first `size` slots with the stored string. */
  lemma ReadStringSuccess(status: nat -> byte, b: Bus, addr: nat, buf: seq<byte>, size: nat)
    requires WellFormed(b) && size <= |buf|
    requires ReadStringFrom(status, b, addr, buf, size, 0).1 == SUCCESS
    ensures ReadStringFrom(status, b, addr, buf, size, 0).2[..size] == Stored(b.cells, addr, size)
  {
    assert buf[..0] == Stored(b.cells, addr, 0);
    ReadStringPrefix(status, b, addr, buf, size, 0, buf);
  }

  /**
   * Round trip: when writeString and then readString of the same address and
   * size both report SUCCESS, the buffer read starts with the bytes written.
   */
  lemma WriteThenReadRoundTrip(status: nat -> byte, b: Bus, addr: nat, data: seq<byte>, buf: seq<byte>)
    requires WellFormed(b) && |data| < 0x100 && |data| <= |buf|
    requires WriteStringFrom(status, b, addr, data, 0).1 == SUCCESS
    requires ReadStringFrom(status, WriteStringFrom(status, b, addr, data, 0).0, addr, buf, |data|, 0).1 == SUCCESS
    ensures ReadStringFrom(status, WriteStringFrom(status, b, addr, data, 0).0, addr, buf, |data|, 0).2[..|data|] == data
  {
    var w := WriteStringFrom(status, b, addr, data, 0).0;
    WriteStringSuccess(status, b, addr, data);
    StoredCommitted(b.cells, addr, data);
    ReadStringSuccess(status, w, addr, buf, |data|);
  }

  // ---------------------------------------------------------------------------
  // The driver over the modelled bus
  // ---------------------------------------------------------------------------

  class EepromBus {
    var cells: seq<byte>
    var polls: nat
    var log: seq<BusOp>
    /** What TWI_getStatus reports on its n-th reading. */
    const status: nat -> byte

    ghost predicate Valid()
      reads this
    {
      |cells| == CELL_COUNT
    }

    function Snapshot(): Bus
      reads this
    {
      Bus(cells, polls, log)
    }

    constructor (contents: seq<byte>, statuses: nat -> byte)
      requires |contents| == CELL_COUNT
      ensures Valid() && Snapshot() == Bus(contents, 0, []) && status == statuses
    {
      cells, polls, log := contents, 0, [];
      status := statuses;
    }

    method WriteByte(addr: nat, data: byte) returns (result: byte)
      requires Valid() && addr < 0x10000
      modifies this
      ensures Valid()
      ensures (Snapshot(), result) == WriteByteSpec(status, old(Snapshot()), addr, data)
    {
      log := log + [Start];  // TWI_start
      var s := status(polls);  // TWI_getStatus
      polls := polls + 1;
      if s != TWI_MT_START {
        return ERROR;
      }
      var sel := DeviceSelect(addr);
      log := log + [Transmit(sel)];  // TWI_writeByte
      s := status(polls);
      polls := polls + 1;
      if s != TWI_MT_SLA_W_ACK {
        return ERROR;
      }
      log := log + [Transmit(addr % 0x100)];  // TWI_writeByte
      s := status(polls);
      polls := polls + 1;
      if s != TWI_MT_DATA_ACK {
        return ERROR;
      }
      log := log + [Transmit(data)];  // TWI_writeByte
      s := status(polls);
      polls := polls + 1;
      if s != TWI_MT_DATA_ACK {
        return ERROR;
      }
      log := log + [Stop];  // TWI_stop
      // The device programs the addressed byte once the frame is ended.
      cells := cells[DeviceCell(sel, addr % 0x100) := data];
      return SUCCESS;
    }

    method ReadByte(addr: nat, prior: byte) returns (result: byte, data: byte)
      requires Valid() && addr < 0x10000
      modifies this
      ensures Valid()
      ensures (Snapshot(), result, data) == ReadByteSpec(status, old(Snapshot()), addr, prior)
    {
      data := prior;
      log := log + [Start];  // TWI_start
      var s := status(polls);  // TWI_getStatus
      polls := polls + 1;
      if s != TWI_MT_START {
        return ERROR, data;
      }
      var sel := DeviceSelect(addr);
      log := log + [Transmit(sel)];  // TWI_writeByte
      s := status(polls);
      polls := polls + 1;
      if s != TWI_MT_SLA_W_ACK {
        return ERROR, data;
      }
      log := log + [Transmit(addr % 0x100)];  // TWI_writeByte
      s := status(polls);
      polls := polls + 1;
      if s != TWI_MT_DATA_ACK {
        return ERROR, data;
      }
      log := log + [Start];  // TWI_start
      s := status(polls);
      polls := polls + 1;
      if s != TWI_MT_REP_START {
        return ERROR, data;
      }
      log := log + [Transmit(sel + 1)];  // TWI_writeByte
      s := status(polls);
      polls := polls + 1;
      if s != TWI_MT_SLA_R_ACK {
        return ERROR, data;
      }
      // TWI_readByteWithNack: the device answers with the byte the frame addressed.
      log := log + [ReceiveNack];
      data := cells[DeviceCell(sel, addr % 0x100)];
      s := status(polls);
      polls := polls + 1;
      if s != TWI_MR_DATA_NACK {
        return ERROR, data;
      }
      log := log + [Stop];  // TWI_stop
      return SUCCESS, data;
    }

    method WriteString(addr: nat, str: array<byte>, size: nat) returns (result: byte)
      requires Valid() && addr < 0x10000 && size <= str.Length && size < 0x100
      modifies this
      ensures Valid()
      ensures (Snapshot(), result) == WriteStringFrom(status, old(Snapshot()), addr, str[..size], 0)
    {
      var i := 0;
      while i < size
        invariant 0 <= i <= size && Valid()
        invariant WriteStringFrom(status, Snapshot(), addr, str[..size], i)
               == WriteStringFrom(status, old(Snapshot()), addr, str[..size], 0)
      {
        var ok := WriteByte(AddrOf(addr, i), str[i]);
        if ok == ERROR {
          return ERROR;
        }
        i := i + 1;
      }
      return SUCCESS;
    }

    method ReadString(addr: nat, str: array<byte>, size: nat) returns (result: byte)
      requires Valid() && addr < 0x10000 && size <= str.Length && size < 0x100
      modifies this, str
      ensures Valid()
      ensures (Snapshot(), result, str[..]) == ReadStringFrom(status, old(Snapshot()), addr, old(str[..]), size, 0)
    {
      var i := 0;
      while i < size
        invariant 0 <= i <= size && Valid()
        invariant ReadStringFrom(status, Snapshot(), addr, str[..], size, i)
               == ReadStringFrom(status, old(Snapshot()), addr, old(str[..]), size, 0)
      {
        var ok, d := ReadByte(AddrOf(addr, i), str[i]);
        str[i] := d;
        if ok == ERROR {
          return ERROR;
        }
        i := i + 1;
      }
      return SUCCESS;
    }
  }
}
