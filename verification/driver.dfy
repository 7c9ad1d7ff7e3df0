/**
 * The `EEPROM_SPI_WE` driver object: its settings, the address counter of a continuous write,
 * and the frames each public operation sends over the bus. Every frame-level effect is stated
 * against the value-level functions of `Commands`, `Paging` and `Readback`; what those frames
 * do to the chip follows from the lemmas proved there.
 *
 * The `while (isBusy()) {}` waits after each command are not modelled: the chip model finishes
 * its write cycle when chip-select rises, so every wait would return at once after one status
 * read, and a status read changes nothing.
 */
module Driver {
  import opened Commands
  import opened Chip25xx
  import opened Paging
  import opened Readback
  import opened SeqFacts
  import opened Spi

  class EepromSpi {
    const bus: SpiBus
    const csPin: int
    const wpPin: int
    /** The page size writes are split by; set by `Init` and `SetPageSize`. */
    var pageSize: nat
    /** The address the next byte of a continuous write goes to. */
    var contAddr: nat
    /** Whether `Init` has driven the write-protect pin high (only when a pin is configured). */
    var wpHeldHigh: bool

    ghost predicate Valid()
      reads this, bus
    {
      bus.Valid()
    }

    /** `EEPROM_SPI_WE(cs, wp)`: the write-protect pin defaults to 999, meaning none. */
    constructor (spi: SpiBus, cs: int, wp: int := NO_WP_PIN)
      requires spi.Valid()
      ensures Valid() && bus == spi && csPin == cs && wpPin == wp && !wpHeldHigh
    {
      bus, csPin, wpPin := spi, cs, wp;
      wpHeldHigh := false;
    }

    /** `eepromWriteStatusReg(cmd)`: a one-byte command frame. */
    method WriteStatusReg(cmd: byte)
      requires Valid() && !bus.selected
      modifies bus
      ensures Valid() && !bus.selected && bus.initial == old(bus.initial)
      ensures bus.trace == old(bus.trace) + [[cmd]]
      ensures bus.chip == Commit(old(bus.chip), [cmd])
    {
      bus.Select();
      var _ := bus.Transfer(cmd);
      assert bus.frame == [cmd];
      bus.Deselect();
    }

    /** `eepromWriteEnable()`: the WREN frame, which sets the write-enable latch. */
    method WriteEnable()
      requires Valid() && !bus.selected
      modifies bus
      ensures Valid() && !bus.selected && bus.initial == old(bus.initial)
      ensures bus.trace == old(bus.trace) + [WREN_FRAME]
      ensures bus.chip == old(bus.chip).(wel := true)
    {
      WriteStatusReg(EEP_WREN);
    }

    /** `eepromReadStatusReg()`: RDSR and one clocked byte, which is the status register. */
    method ReadStatusReg() returns (s: byte)
      requires Valid() && !bus.selected
      modifies bus
      ensures Valid() && !bus.selected && bus.initial == old(bus.initial)
      ensures bus.trace == old(bus.trace) + [[EEP_RDSR, 0]]
      ensures bus.chip == old(bus.chip) && s == StatusByte(old(bus.chip))
    {
      bus.Select();
      var _ := bus.Transfer(EEP_RDSR);
      s := bus.Transfer(0);
      assert bus.frame == [EEP_RDSR, 0];
      CommitReadOnly(bus.chip, 0, 0);
      bus.Deselect();
    }

    /** `isBusy()`: bit 0 of the status register; the model's chip is never mid-cycle. */
    method IsBusy() returns (busy: bool)
      requires Valid() && !bus.selected
      modifies bus
      ensures Valid() && !bus.selected && bus.initial == old(bus.initial)
      ensures bus.trace == old(bus.trace) + [[EEP_RDSR, 0]] && bus.chip == old(bus.chip)
      ensures busy == BusyBit(StatusByte(old(bus.chip))) && !busy
    {
      var s := ReadStatusReg();
      busy := BusyBit(s);
    }

    /** `setPageSize(eps)`: the page size is `16 << eps`. */
    method SetPageSize(eps: PageSizeSel)
      modifies this
      ensures pageSize == PageSizeOf(eps) && IsPageSize(pageSize)
      ensures contAddr == old(contAddr) && wpHeldHigh == old(wpHeldHigh)
    {
      pageSize := PageSizeOf(eps);
    }

    /** `writeProtect(sectors)`: WREN, then WRSR with `(sectors << 2) | 0x80`. */
    method WriteProtect(sectors: WriteProtectSel)
      requires Valid() && !bus.selected
      modifies bus
      ensures Valid() && !bus.selected && bus.initial == old(bus.initial)
      ensures bus.trace == old(bus.trace) + [WREN_FRAME, [EEP_WRSR, StatusWriteByte(sectors)]]
      ensures bus.chip == old(bus.chip).(bp := sectors.Ordinal(), wpen := true, wel := false)
    {
      WriteEnable();
      bus.Select();
      var _ := bus.Transfer(EEP_WRSR);
      var _ := bus.Transfer(StatusWriteByte(sectors));
      assert bus.frame == [EEP_WRSR, StatusWriteByte(sectors)];
      WriteProtectSetsLevel(old(bus.chip), sectors);
      ReplayCons(old(bus.chip), WREN_FRAME, [[EEP_WRSR, StatusWriteByte(sectors)]]);
      ReplayCons(Commit(old(bus.chip), WREN_FRAME), [EEP_WRSR, StatusWriteByte(sectors)], []);
      bus.Deselect();
    }

    /**
     * `init()`: reset the address counter, hold the write-protect pin high when there is one,
     * set the page size to 16, clear block protection, and probe the part with WREN and a
     * status read. It succeeds exactly when the latch bit (bit 1) reads back set, and then
     * clears the latch again with WRDI.
     */
    method Init() returns (ok: bool)
      requires Valid() && !bus.selected
      modifies this, bus
      ensures Valid() && !bus.selected && bus.initial == old(bus.initial)
      ensures contAddr == 0 && pageSize == 16
      ensures wpHeldHigh == (wpPin != NO_WP_PIN || old(wpHeldHigh))
      ensures ok == WelBit(StatusByte(Replay(old(bus.chip), InitFrames(true)[..3])))
      ensures bus.trace == old(bus.trace) + InitFrames(ok)
      ensures bus.chip == Replay(old(bus.chip), InitFrames(ok))
      ensures ok
    {
      contAddr := 0;
      if wpPin != NO_WP_PIN {
        wpHeldHigh := true;
      }
      pageSize := 16;
      ghost var c0, t0 := bus.chip, bus.trace;
      WriteProtect(ProtectNone);
      ghost var t2 := bus.trace;
      WriteEnable();
      ghost var c3, t3 := bus.chip, bus.trace;
      var s := ReadStatusReg();
      ghost var t4 := bus.trace;
      if WelBit(s) {
        WriteStatusReg(EEP_WRDI);
        ok := true;
      } else {
        ok := false;
      }
      InitTrace(t0, t2, t3, t4, bus.trace, ok);
      InitProbeSucceeds(c0);
      ReplayAppend(bus.initial, t0, InitFrames(ok));
    }

    /** The byte loop shared by the write paths: `buf[from..to]` goes into the open frame. */
    method SendBytes(buf: seq<byte>, from: nat, to: nat)
      requires bus.Valid() && bus.selected && from <= to <= |buf|
      modifies bus
      ensures bus.Valid() && bus.selected && bus.initial == old(bus.initial)
      ensures bus.trace == old(bus.trace) && bus.chip == old(bus.chip)
      ensures bus.frame == old(bus.frame) + buf[from..to]
    {
      for i := from to to
        invariant bus.Valid() && bus.selected && bus.initial == old(bus.initial)
        invariant bus.trace == old(bus.trace) && bus.chip == old(bus.chip)
        invariant bus.frame == old(bus.frame) + buf[from..i]
      {
        var _ := bus.Transfer(buf[i]);
        assert buf[from..i + 1] == buf[from..i] + [buf[i]];
      }
    }

    /** One `writeEEPROM` chunk: WREN, then the page write with header `a` and `buf[from..to]`. */
    method WritePage(a: nat, buf: seq<byte>, from: nat, to: nat)
      requires Valid() && !bus.selected && from <= to <= |buf|
      modifies bus
      ensures Valid() && !bus.selected && bus.initial == old(bus.initial)
      ensures bus.trace == old(bus.trace) + [WREN_FRAME, WriteHeader(a) + buf[from..to]]
    {
      WriteEnable();
      bus.Select();
      var _ := bus.Transfer(EEP_WRITE);
      var _ := bus.Transfer(AddrHi(a));
      var _ := bus.Transfer(AddrLo(a));
      assert bus.frame == WriteHeader(a);
      SendBytes(buf, from, to);
      bus.Deselect();
      SnocSnoc(old(bus.trace), WREN_FRAME, WriteHeader(a) + buf[from..to]);
    }

    /**
     * `writeEEPROM(addr, buf, n)`: per chunk, WREN and one page write that stops at the page
     * end; the address, the buffer index and the remaining count all advance by the chunk.
     */
    method WriteEEPROM(addr: nat, buf: seq<byte>, n: nat)
      requires Valid() && !bus.selected && IsPageSize(pageSize)
      requires n <= |buf| && n <= MAX_U16
      modifies bus
      ensures Valid() && !bus.selected && bus.initial == old(bus.initial)
      ensures bus.trace == old(bus.trace) + WriteFrames(addr, buf[..n], pageSize)
      ensures bus.chip == Replay(old(bus.chip), WriteFrames(addr, buf[..n], pageSize))
    {
      var p := pageSize;
      var noOfBytesStillToWrite: nat := n;
      var arrayIndex: nat := 0;
      var a: nat := addr;
      ghost var goal := old(bus.trace) + WriteFrames(addr, buf[..n], p);
      assert buf[..n] == buf[0..n];
      while noOfBytesStillToWrite != 0
        invariant Valid() && !bus.selected && bus.initial == old(bus.initial) && p == pageSize
        invariant arrayIndex + noOfBytesStillToWrite == n && a == addr + arrayIndex
        invariant FramesRemain(goal, bus.trace, a, buf[arrayIndex..n], p)
        decreases noOfBytesStillToWrite
      {
        var chunk := noOfBytesStillToWrite;
        var positionInPage := a % p;
        var spaceLeftInPage := p - positionInPage;
        if spaceLeftInPage < noOfBytesStillToWrite {
          chunk := spaceLeftInPage;
        }
        ghost var t, a0, i0 := bus.trace, a, arrayIndex;
        WritePage(a, buf, arrayIndex, arrayIndex + chunk);
        a := a + chunk;
        arrayIndex := arrayIndex + chunk;
        noOfBytesStillToWrite := noOfBytesStillToWrite - chunk;
        FramesRemainChunk(goal, t, a0, buf, i0, n, p, chunk, bus.trace, a, arrayIndex);
      }
      FramesRemainDone(goal, bus.trace, a, buf[arrayIndex..n], p);
      ReplayAppend(bus.initial, old(bus.trace), WriteFrames(addr, buf[..n], p));
    }

    /**
     * `readEEPROM(addr, buf, n)`: one READ frame; each byte clocked in after the header is the
     * next array byte, with the chip's address counter wrapping at the end of the array.
     */
    method ReadEEPROM(addr: nat, buf: array<byte>, n: nat)
      requires Valid() && !bus.selected && n <= buf.Length && n <= MAX_U16
      modifies bus, buf
      ensures Valid() && !bus.selected && bus.initial == old(bus.initial)
      ensures bus.trace == old(bus.trace) + [ReadFrame(addr, n)] && bus.chip == old(bus.chip)
      ensures buf[..n] == ReadBytes(old(bus.chip), addr, n) && buf[n..] == old(buf[n..])
    {
      bus.Select();
      var _ := bus.Transfer(EEP_READ);
      var _ := bus.Transfer(AddrHi(addr));
      var _ := bus.Transfer(AddrLo(addr));
      ghost var c := bus.chip;
      assert bus.frame == ReadFrame(addr, 0);
      for i := 0 to n
        invariant bus.Valid() && bus.selected && bus.initial == old(bus.initial)
        invariant bus.trace == old(bus.trace) && bus.chip == c
        invariant bus.frame == ReadFrame(addr, i)
        invariant buf[..i] == ReadBytes(c, addr, i) && buf[n..] == old(buf[n..])
      {
        HeaderAddrOf(EEP_READ, addr, seq(i, _ => 0 as byte));
        buf[i] := bus.Transfer(0);
        assert ReadFrame(addr, i) + [0] == ReadFrame(addr, i + 1);
        assert buf[..i + 1] == buf[..i] + [buf[i]];
      }
      CommitReadOnly(c, addr, n);
      bus.Deselect();
    }

    /** `read(addr)`: a one-byte `readEEPROM`; the byte at the 16-bit address. */
    method Read(addr: nat) returns (v: byte)
      requires Valid() && !bus.selected
      modifies bus
      ensures Valid() && !bus.selected && bus.initial == old(bus.initial)
      ensures bus.trace == old(bus.trace) + [ReadFrame(addr, 1)] && bus.chip == old(bus.chip)
      ensures v == old(bus.chip).mem[addr % MemSize]
    {
      ghost var c := bus.chip;
      var b := new byte[1];
      ReadEEPROM(addr, b, 1);
      v := b[0];
      ReadBytesFirst(c, addr, 1);
      assert v == b[..1][0];
    }

    /** `write(addr, val)`: read the byte and write it only when it differs. */
    method Write(addr: nat, val: byte)
      requires Valid() && !bus.selected && IsPageSize(pageSize)
      modifies bus
      ensures Valid() && !bus.selected && bus.initial == old(bus.initial)
      ensures bus.trace == old(bus.trace) + WriteByteFrames(old(bus.chip), addr, val, pageSize)
      ensures bus.chip == Replay(old(bus.chip), WriteByteFrames(old(bus.chip), addr, val, pageSize))
    {
      ghost var c0, t0 := bus.chip, bus.trace;
      var v := Read(addr);
      ghost var t1 := bus.trace;
      ghost var tail: seq<Frame> := if v != val then WriteFrames(addr, [val], pageSize) else [];
      if v != val {
        WriteEEPROM(addr, [val], 1);
        assert [val][..1] == [val];
      }
      assert bus.trace == t1 + tail;
      AppendAssoc(t0, [ReadFrame(addr, 1)], tail);
      assert WriteByteFrames(c0, addr, val, pageSize) == [ReadFrame(addr, 1)] + tail;
      ReplayAppend(bus.initial, t0, WriteByteFrames(c0, addr, val, pageSize));
    }

    /**
     * `put(addr, t)`: `writeEEPROM` over the object's bytes; `sizeof(T)` reaches the
     * `uint16_t` size parameter modulo 2^16.
     */
    method Put(addr: nat, t: seq<byte>) returns (r: seq<byte>)
      requires Valid() && !bus.selected && IsPageSize(pageSize)
      modifies bus
      ensures Valid() && !bus.selected && bus.initial == old(bus.initial)
      ensures bus.trace == old(bus.trace) + WriteFrames(addr, t[..|t| % 0x1_0000], pageSize)
      ensures bus.chip == Replay(old(bus.chip), WriteFrames(addr, t[..|t| % 0x1_0000], pageSize))
      ensures r == t
    {
      WriteEEPROM(addr, t, |t| % 0x1_0000);
      r := t;
    }

    /** `get(addr, t)`: `readEEPROM` into the object's bytes, the size taken modulo 2^16. */
    method Get(addr: nat, t: array<byte>) returns (r: array<byte>)
      requires Valid() && !bus.selected
      modifies bus, t
      ensures Valid() && !bus.selected && bus.initial == old(bus.initial)
      ensures bus.trace == old(bus.trace) + [ReadFrame(addr, t.Length % 0x1_0000)]
      ensures bus.chip == old(bus.chip) && r == t
      ensures t[..t.Length % 0x1_0000] == ReadBytes(old(bus.chip), addr, t.Length % 0x1_0000)
      ensures t[t.Length % 0x1_0000..] == old(t[t.Length % 0x1_0000..])
    {
      ReadEEPROM(addr, t, t.Length % 0x1_0000);
      r := t;
    }

    /** `continuousPutEnable(addr)`: WREN, then open a write frame with header `addr` and keep it open. */
    method ContinuousPutEnable(addr: nat)
      requires Valid() && !bus.selected
      modifies this, bus
      ensures Valid() && bus.selected && bus.initial == old(bus.initial)
      ensures bus.trace == old(bus.trace) + [WREN_FRAME] && bus.frame == WriteHeader(addr)
      ensures contAddr == addr && pageSize == old(pageSize) && wpHeldHigh == old(wpHeldHigh)
    {
      contAddr := addr;
      WriteEnable();
      bus.Select();
      var _ := bus.Transfer(EEP_WRITE);
      var _ := bus.Transfer(AddrHi(addr));
      var _ := bus.Transfer(AddrLo(addr));
    }

    /** `continuousPutDisable()`: chip-select high, and the open write frame takes effect. */
    method ContinuousPutDisable()
      requires Valid() && bus.selected
      modifies bus
      ensures Valid() && !bus.selected && bus.initial == old(bus.initial)
      ensures bus.trace == old(bus.trace) + [old(bus.frame)]
      ensures bus.chip == Commit(old(bus.chip), old(bus.frame))
    {
      bus.Deselect();
    }

    /**
     * `continuousWriteEEPROM(buf, n)`: stream `buf[..n]` into the open frame from `contAddr`;
     * a chunk cut at a page end closes the frame and reopens it with `continuousPutEnable`.
     * The page-end test is the strict `spaceLeftInPage < noOfBytesStillToWrite`, so a call
     * whose bytes end exactly at a page end leaves the full page's frame open.
     */
    method ContinuousWriteEEPROM(buf: seq<byte>, n: nat)
      requires Valid() && bus.selected && IsPageSize(pageSize)
      requires n <= |buf| && n <= MAX_U16
      modifies this, bus
      ensures Valid() && bus.selected && bus.initial == old(bus.initial)
      ensures var s := StreamFrames(old(contAddr), old(bus.frame), buf[..n], old(pageSize), false);
        bus.trace == old(bus.trace) + s.closed && bus.frame == s.open
      ensures contAddr == old(contAddr) + n && pageSize == old(pageSize) && wpHeldHigh == old(wpHeldHigh)
    {
      StreamWrite(buf, n, false);
    }

    /**
     * `continuousWriteEEPROM` with the page-end test `spaceLeftInPage <= noOfBytesStillToWrite`:
     * a chunk that exactly fills the page also closes the frame and reopens it at the next page.
     */
    method ContinuousWriteEEPROMReopening(buf: seq<byte>, n: nat)
      requires Valid() && bus.selected && IsPageSize(pageSize)
      requires n <= |buf| && n <= MAX_U16
      modifies this, bus
      ensures Valid() && bus.selected && bus.initial == old(bus.initial)
      ensures var s := StreamFrames(old(contAddr), old(bus.frame), buf[..n], old(pageSize), true);
        bus.trace == old(bus.trace) + s.closed && bus.frame == s.open
      ensures contAddr == old(contAddr) + n && pageSize == old(pageSize) && wpHeldHigh == old(wpHeldHigh)
    {
      StreamWrite(buf, n, true);
    }

    /** The page end inside `continuousWriteEEPROM`: chip-select high, then `continuousPutEnable(contAddr)`. */
    method PageTurn()
      requires Valid() && bus.selected
      modifies this, bus
      ensures Valid() && bus.selected && bus.initial == old(bus.initial)
      ensures bus.trace == old(bus.trace) + [old(bus.frame), WREN_FRAME] && bus.frame == WriteHeader(contAddr)
      ensures contAddr == old(contAddr) && pageSize == old(pageSize) && wpHeldHigh == old(wpHeldHigh)
    {
      ghost var f := bus.frame;
      bus.Deselect();
      ContinuousPutEnable(contAddr);
      SnocSnoc(old(bus.trace), f, WREN_FRAME);
    }

    /**
     * One chunk of `continuousWriteEEPROM`: its bytes go into the open frame, `contAddr`
     * advances by the chunk, and at a page end the frame is closed and reopened.
     */
    method EmitChunk(buf: seq<byte>, from: nat, n: nat, chunk: nat, pageEnd: bool, reopenOnFill: bool,
                     ghost closed: seq<Frame>, ghost open: Frame)
      requires Valid() && bus.selected && IsPageSize(pageSize) && from < n <= |buf|
      requires var sl := pageSize - contAddr % pageSize;
        pageEnd == (if reopenOnFill then sl <= n - from else sl < n - from)
        && chunk == (if pageEnd then sl else n - from)
      requires StreamRemains(closed, open, bus.trace, contAddr, bus.frame, buf[from..n], pageSize, reopenOnFill)
      modifies this, bus
      ensures Valid() && bus.selected && bus.initial == old(bus.initial)
      ensures contAddr == old(contAddr) + chunk && pageSize == old(pageSize) && wpHeldHigh == old(wpHeldHigh)
      ensures 0 < chunk && from + chunk <= n
      ensures StreamRemains(closed, open, bus.trace, contAddr, bus.frame, buf[from + chunk..n], pageSize, reopenOnFill)
    {
      var p := pageSize;
      ghost var t, f, a := bus.trace, bus.frame, contAddr;
      SendBytes(buf, from, from + chunk);
      contAddr := contAddr + chunk;
      if pageEnd {
        ghost var g := bus.frame;
        PageTurn();
        StreamRemainsCut(closed, open, t, a, f, buf, from, n, p, reopenOnFill, chunk, g, bus.trace,
          contAddr, bus.frame, from + chunk);
      } else {
        StreamRemainsWhole(closed, open, t, a, f, buf, from, n, p, reopenOnFill, contAddr, bus.frame, from + chunk);
      }
    }

    /** The loop of `continuousWriteEEPROM`, with the page-end test chosen by `reopenOnFill`. */
    method StreamWrite(buf: seq<byte>, n: nat, reopenOnFill: bool)
      requires Valid() && bus.selected && IsPageSize(pageSize)
      requires n <= |buf| && n <= MAX_U16
      modifies this, bus
      ensures Valid() && bus.selected && bus.initial == old(bus.initial)
      ensures var s := StreamFrames(old(contAddr), old(bus.frame), buf[..n], old(pageSize), reopenOnFill);
        bus.trace == old(bus.trace) + s.closed && bus.frame == s.open
      ensures contAddr == old(contAddr) + n && pageSize == old(pageSize) && wpHeldHigh == old(wpHeldHigh)
    {
      var p := pageSize;
      var noOfBytesStillToWrite: nat := n;
      var arrayIndex: nat := 0;
      ghost var total := StreamFrames(old(contAddr), old(bus.frame), buf[..n], p, reopenOnFill);
      ghost var closed := old(bus.trace) + total.closed;
      assert buf[..n] == buf[0..n];
      while noOfBytesStillToWrite != 0
        invariant Valid() && bus.selected && bus.initial == old(bus.initial)
        invariant p == pageSize && wpHeldHigh == old(wpHeldHigh)
        invariant arrayIndex + noOfBytesStillToWrite == n && contAddr == old(contAddr) + arrayIndex
        invariant StreamRemains(closed, total.open, bus.trace, contAddr, bus.frame, buf[arrayIndex..n], p, reopenOnFill)
        decreases noOfBytesStillToWrite
      {
        var chunk := noOfBytesStillToWrite;
        var positionInPage := contAddr % p;
        var spaceLeftInPage := p - positionInPage;
        var pageEnd := false;
        if (if reopenOnFill then spaceLeftInPage <= noOfBytesStillToWrite else spaceLeftInPage < noOfBytesStillToWrite) {
          chunk := spaceLeftInPage;
          pageEnd := true;
        }
        EmitChunk(buf, arrayIndex, n, chunk, pageEnd, reopenOnFill, closed, total.open);
        arrayIndex := arrayIndex + chunk;
        noOfBytesStillToWrite := noOfBytesStillToWrite - chunk;
      }
      StreamRemainsDone(closed, total.open, bus.trace, contAddr, bus.frame, buf[arrayIndex..n], p, reopenOnFill);
    }
  }
}
