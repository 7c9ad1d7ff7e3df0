# EEPROM_SPI_WE write path, in Dafny

This project models the Arduino driver `EEPROM_SPI_WE` for 25xx-series SPI EEPROMs
(Microchip 25LC/25AA, Atmel 25xxx command set). It covers the way the driver turns its public
operations into chip-select frames on the SPI bus:

- the chunked page write `writeEEPROM`, which never lets a write frame cross a page boundary;
- the continuous-write session (`continuousPutEnable`, `continuousWriteEEPROM`,
  `continuousPutDisable`), which keeps one write frame open and reopens it at page ends;
- the single-frame `readEEPROM`, `read`, the read-before-write `write`, and the `put`/`get`
  templates;
- the small encodings of `setPageSize`, `writeProtect`, `isBusy` and `init`.

The driver object is the class `Driver.EepromSpi`. Its fields `pageSize` and `contAddr` are
updated in place, as in the C++ object. The bus is the class `Spi.SpiBus`:

- chip-select low opens a frame;
- each `transfer` appends one byte to the open frame and returns the byte the chip shifts out;
- chip-select high closes the frame and appends it to a ghost `trace` of every frame sent.

The part on the bus is a pure model of a 64 KiB 25xx chip (`Chip25xx`). It commits each frame
when chip-select rises, and a page write stores byte `i` at `pageBase + (offset + i) mod
pageSize`, as 25xx parts do. A write frame that ends after its address carries no data, so it
aborts and leaves the write-enable latch set. The bus invariant ties the chip's state to the frames sent:
`chip == Replay(initial, trace)`.

Every driver method states its effect on the trace and the chip against value-level functions:

- `Paging.WriteFrames`: the frames of `writeEEPROM`;
- `Paging.StreamFrames`: the frames of `continuousWriteEEPROM`;
- `Readback.WriteByteFrames`: the frames of `write`;
- `Readback.InitFrames`: the frames of `init`.

The properties of those frames are proved as lemmas in `Paging` (layout, chunking) and
`Readback` (effect on the chip, round trips).

Files:

- `commands.dfy`: opcodes, selectors and encodings.
- `mod_arith.dfy`: modular arithmetic facts.
- `seq_facts.dfy`: sequence regrouping facts.
- `chip.dfy`: the chip model.
- `paging.dfy`: the frame layout of both write paths.
- `readback.dfy`: what the frames do to the chip.
- `spi_bus.dfy`: the bus.
- `driver.dfy`: the driver class.

## Model

| member | source | states |
|---|---|---|
| Commands.PageSizeSel.Ordinal | src/EEPROM_SPI_WE.h:39-41 | the page-size enumerators are 0..4 |
| Commands.WriteProtectSel.Ordinal | src/EEPROM_SPI_WE.h:43-45 | the write-protect enumerators are 0..3 |
| Commands.PageSizeOf | src/EEPROM_SPI_WE.cpp:56-58 | `16 << eps` is 16·2^eps. It is one of 16, 32, 64, 128, 256, fits the `uint16_t` field (src/EEPROM_SPI_WE.h:89), and divides 65536 |
| Commands.StatusWriteByte | src/EEPROM_SPI_WE.cpp:137-138 | `(sectors << 2) \| 0x80` equals 0x80 + 4·sectors. Bit 7 is always set, and the selector lands in bits 2-3 only |
| Commands.StatusBits | src/EEPROM_SPI_WE.cpp:170-174 | the busy test `& 0x01` is bit 0, and the latch test `& 0x02` (line 49) is bit 1 |
| Commands.HeaderAddrOf | src/EEPROM_SPI_WE.cpp:215-217 | the header bytes `(uint8_t)(addr>>8)`, `(uint8_t)(addr&0xFF)` decode to `addr mod 65536`: only 16 address bits reach the chip |
| Commands.ReadFrame | src/EEPROM_SPI_WE.cpp:284-289 | the read frame is the READ header followed by `n` clocked bytes, `3 + n` bytes in all |
| Paging.ChunkLen | src/EEPROM_SPI_WE.cpp:203-209 | a chunk never exceeds the bytes left or the space left in the page. It is at least 1 while bytes remain, and either takes all that remain or exactly fills the page |
| Paging.Chunks | src/EEPROM_SPI_WE.cpp:202-228 | the chunk lengths of `writeEEPROM`, one per loop iteration: a definition with no contract. Its properties are stated by `Paging.ChunksTile`, `Paging.ChunkFits` and `Paging.ChunkCount`, including that there is no chunk exactly when `n == 0` |
| Paging.WriteFrames | src/EEPROM_SPI_WE.cpp:202 | a write of zero bytes emits no frames, and only such a write does |
| Paging.ChunksTile | src/EEPROM_SPI_WE.cpp:198-231 | the chunk lengths sum to `n`. Chunk `k` is ≥ 1, fits in the page of its start address (start plus the earlier chunks), and ends within `n` |
| Paging.ChunksSum | src/EEPROM_SPI_WE.cpp:226-228 | the chunk lengths sum to `n` |
| Paging.ChunkFits | src/EEPROM_SPI_WE.cpp:203-209 | chunk `k` is ≥ 1 and ends at or before its page end |
| Paging.ChunkCount | src/EEPROM_SPI_WE.cpp:198-231 | for `n > 0` the number of chunks is `ceil((addr % p + n) / p)`, and zero bytes give no chunk |
| Paging.WriteFramesCount | src/EEPROM_SPI_WE.cpp:211-224 | exactly two frames are sent per chunk |
| Paging.WriteFrameAt | src/EEPROM_SPI_WE.cpp:211-228 | frame `2k` is the WREN frame `[0x06]`. Frame `2k+1` is `[0x02, hi, lo]` for the start address plus the earlier chunks, followed by chunk `k` of the buffer |
| Paging.WriteFramesCarryData | src/EEPROM_SPI_WE.cpp:219-221 | the page-write payloads concatenate back to `buf[..n]` in order |
| Paging.WriteFramesChunk | src/EEPROM_SPI_WE.cpp:203-228 | one loop iteration peels off WREN and the page write of the current chunk, and leaves the frames of the rest at the advanced address |
| Paging.FramesRemainChunk | src/EEPROM_SPI_WE.cpp:211-228 | the `writeEEPROM` loop invariant (frames sent plus frames still due equal the whole call) survives one chunk |
| Paging.FramesRemainDone | src/EEPROM_SPI_WE.cpp:202 | when nothing is left, the frames sent are the whole call's |
| Paging.StreamFrames | src/EEPROM_SPI_WE.cpp:249-279 | the frames one `continuousWriteEEPROM` call closes and the frame it leaves open: a definition with no contract, which the driver loop is proved against. `reopenOnFill` selects the strict `<` as written or the `<=` test. Its properties are the `Stream…`, `Session…` and `Compose…` lemmas |
| Paging.StreamCut | src/EEPROM_SPI_WE.cpp:259-277 | a chunk cut at the page end closes the open frame with the chunk. It then sends WREN and reopens with the header of the advanced `contAddr` |
| Paging.StreamWhole | src/EEPROM_SPI_WE.cpp:259-270 | without a page end, all bytes go into the open frame and nothing is closed |
| Paging.StreamRemainsCut | src/EEPROM_SPI_WE.cpp:264-277 | the `continuousWriteEEPROM` loop invariant survives a page-end iteration |
| Paging.StreamRemainsWhole | src/EEPROM_SPI_WE.cpp:264-270 | the loop invariant survives the last iteration, which joins the open frame |
| Paging.StreamRemainsDone | src/EEPROM_SPI_WE.cpp:253 | at loop exit, the frames closed are the call's and the open frame is its result |
| Paging.SessionMatchesWriteFrames | src/EEPROM_SPI_WE.cpp:233-279 | a fresh session (enable at `a`, one write of `data`, disable) sends exactly the frames of `writeEEPROM(a, data)`. The extra frames are a WREN and a write frame that carries no data. They come only after an empty write, or, with the `<=` test, after a write that ends on a page boundary |
| Paging.SessionCutStep | src/EEPROM_SPI_WE.cpp:259-277 | the session and chunked-write frames agree across one page-end cut |
| Paging.SessionWholeStep | src/EEPROM_SPI_WE.cpp:259-270 | the session and chunked-write frames agree when everything fits in the page |
| Paging.EmptyTailShift | src/EEPROM_SPI_WE.cpp:259-277 | a session's trailing frames (a WREN and a write frame that carries no data, or none) are the same before and after a page-end cut |
| Paging.ExactFillKeepsFrameOpen | src/EEPROM_SPI_WE.cpp:259 | with the strict `<`, a call whose bytes exactly fill the page closes nothing, and `contAddr` ends on a page boundary with the full page's frame still open |
| Paging.OneBoundarySession | src/EEPROM_SPI_WE.cpp:253-278 | `p + 1` bytes from a page start close the first page's frame, send WREN, and leave open a frame for `a + p` holding the last byte |
| Paging.ReopeningStreamComposes | src/EEPROM_SPI_WE.cpp:259 | with the `<=` test, two calls send the frames of one call on the concatenated bytes |
| Paging.ComposeAfterCut | src/EEPROM_SPI_WE.cpp:259-277 | composition of two calls when the first reaches a page end |
| Paging.ComposeWithinPage | src/EEPROM_SPI_WE.cpp:259-270 | composition of two calls when the first stays inside its page |
| Paging.ComposeCutInSecond | src/EEPROM_SPI_WE.cpp:259-277 | a page end reached only by the second call's bytes cuts the concatenation at the same byte |
| Readback.CommitPageWrite | src/EEPROM_SPI_WE.cpp:215-224 | a write frame with at least one data byte, sent after WREN with no block protected, loads its data into the page and clears the latch |
| Readback.CommitReadOnly | src/EEPROM_SPI_WE.cpp:157-168 | a read frame and a status read leave the chip unchanged (also lines 281-292) |
| Readback.WriteFramesStore | src/EEPROM_SPI_WE.cpp:198-231 | on a chip with no block protected (`bp == 0`), and a driver page size `p` that divides the chip's page buffer, the frames of `writeEEPROM(a, d)` leave `d` at `a..a+\|d\|` when `a + \|d\| <= 65536`. Every other byte, the protection bits and the page size are unchanged. The latch is clear when `d` is non-empty; for an empty `d` no frame is sent and it keeps its value |
| Readback.StoresCons | src/EEPROM_SPI_WE.cpp:226-228 | storing a first chunk and then the rest at the advanced address stores the whole buffer |
| Readback.WriteFramesFirstChunk | src/EEPROM_SPI_WE.cpp:211-224 | the first WREN and page write load the first chunk into the page |
| Readback.WriteThenRead | src/EEPROM_SPI_WE.cpp:281-292 | `writeEEPROM(a, S)` with page size `p`, followed by a read of `\|S\|` bytes at `a`, returns `S`. Three conditions: `a + \|S\| <= 65536`, no block protected (`bp == 0`), and `p` divides the chip's page buffer |
| Readback.ConfiguredPageSizeReadBack | src/EEPROM_SPI_WE.cpp:46 | the round trip holds for the driver's own settings: any page size from 16 to 256 (16 after `init`) that is not above the part's own page size. The part's page buffer must itself be 16, 32, 64, 128 or 256 bytes, no block may be protected, and `a + \|d\| <= 65536` |
| Readback.WriteByteFrames | src/EEPROM_SPI_WE.cpp:120-124 | the frames of `write(addr, val)`: a definition. Its contract says the first frame is the one-byte read, and it is the only frame exactly when the chip already holds `val` at `addr mod 65536` |
| Readback.WriteByteOnce | src/EEPROM_SPI_WE.cpp:120-124 | on a chip with no block protected (`bp == 0`), for any page size: after `write(addr, val)` the chip holds `val` at `addr mod 65536` and nothing else changed. The latch is cleared only when a write was sent |
| Readback.OneByteWrite | src/EEPROM_SPI_WE.cpp:120-124 | the one-byte `writeEEPROM` of `write` stores exactly that byte |
| Readback.WriteByteIdempotent | src/EEPROM_SPI_WE.cpp:120-130 | on a chip with no block protected (`bp == 0`), for any page size: after `write(addr, val)`, `read(addr) == val` and the rest of the array is unchanged. A second `write(addr, val)` sends only the read frame and changes nothing |
| Readback.InitFrames | src/EEPROM_SPI_WE.cpp:47-53 | the frames of `init`: a definition. Its contract says there are five frames on success and four otherwise. The WRSR frame clears protection with `0x80`, the fourth frame is the status read, and the last frame is WRDI exactly on success |
| Readback.WriteProtectSetsLevel | src/EEPROM_SPI_WE.cpp:132-142 | WREN plus WRSR sets the block-protect level to the selector, sets bit 7 and clears the latch |
| Readback.InitProbeSucceeds | src/EEPROM_SPI_WE.cpp:46-53 | on the model chip the latch reads back set after WREN, so `init` succeeds. It leaves the array untouched, nothing protected and the latch clear |
| Readback.InitTrace | src/EEPROM_SPI_WE.cpp:47-53 | the frames of `init`, in order, are WREN, WRSR, WREN, RDSR, and WRDI on success |
| Readback.EmptyTailKeepsMemory | src/EEPROM_SPI_WE.cpp:243-247 | closing a write frame that carries no data aborts it. No byte changes, and the latch set by the WREN before it stays set |
| Readback.ReopeningSessionReadBack | src/EEPROM_SPI_WE.cpp:249-279 | with the `<=` test, two calls in one session store and read back `d1 + d2`. Three conditions: `a + \|d1\| + \|d2\| <= 65536`, no block protected, and a page size that divides the chip's page buffer |
| Readback.ExactPageFillCorruptsSession | src/EEPROM_SPI_WE.cpp:259 | as written, 16 bytes then 1 byte from address 0 on a 16-byte page wrap the 17th byte onto address 0, and the read-back differs |
| Spi.SpiBus.Transfer | src/EEPROM_SPI_WE.cpp:219-221 | `transfer` appends the byte to the open frame and returns the chip's output for the frame so far |
| Spi.SpiBus.Deselect | src/EEPROM_SPI_WE.cpp:223-224 | chip-select high appends the frame to the trace, and the chip commits it |
| Driver.EepromSpi.constructor | src/EEPROM_SPI_WE.cpp:20-30 | both C++ constructors merged into one: takes the bus and stores the pins. The write-protect pin defaults to 999, meaning none (src/EEPROM_SPI_WE.h:51-52) |
| Driver.EepromSpi.WriteStatusReg | src/EEPROM_SPI_WE.cpp:188-196 | sends the one-byte frame `[cmd]` and the chip commits it |
| Driver.EepromSpi.WriteEnable | src/EEPROM_SPI_WE.cpp:184-186 | sends `[0x06]`, which sets the latch |
| Driver.EepromSpi.ReadStatusReg | src/EEPROM_SPI_WE.cpp:157-168 | sends `[0x05, 0]` and returns the status byte, and the chip is unchanged |
| Driver.EepromSpi.IsBusy | src/EEPROM_SPI_WE.cpp:170-174 | returns bit 0 of the status read, which the model chip never sets |
| Driver.EepromSpi.SetPageSize | src/EEPROM_SPI_WE.cpp:56-58 | `pageSize` becomes `16 << eps`, a valid page size. The other fields are unchanged |
| Driver.EepromSpi.WriteProtect | src/EEPROM_SPI_WE.cpp:132-142 | sends WREN and `[0x01, (sectors<<2)\|0x80]`. The chip's protect level is then the selector with bit 7 set |
| Driver.EepromSpi.Init | src/EEPROM_SPI_WE.cpp:34-54 | sets `contAddr` to 0 and the page size to 16, and holds WP high only when a pin is set. It sends `InitFrames(ok)` and returns exactly whether bit 1 read back set after WREN, which is true on the model chip |
| Driver.EepromSpi.SendBytes | src/EEPROM_SPI_WE.cpp:219-221 | the byte loop appends `buf[from..to]` to the open frame and closes nothing |
| Driver.EepromSpi.WritePage | src/EEPROM_SPI_WE.cpp:211-224 | one chunk sends WREN, then `[0x02, hi, lo]` followed by the chunk's bytes |
| Driver.EepromSpi.WriteEEPROM | src/EEPROM_SPI_WE.cpp:198-231 | the frames sent are exactly `WriteFrames(addr, buf[..n], pageSize)`, and the chip is the old chip after them |
| Driver.EepromSpi.ReadEEPROM | src/EEPROM_SPI_WE.cpp:281-292 | sends one read frame. `buf[..n]` receives the chip's bytes from `addr`, wrapping at the array end, and `buf[n..]` and the chip are unchanged |
| Driver.EepromSpi.Read | src/EEPROM_SPI_WE.cpp:126-130 | returns the byte at `addr mod 65536` |
| Driver.EepromSpi.Write | src/EEPROM_SPI_WE.cpp:120-124 | sends the read, then the one-byte chunked write only when the byte differs from `val` |
| Driver.EepromSpi.Put | src/EEPROM_SPI_WE.h:73-78 | writes the object's bytes (their count taken as `uint16_t`) with `writeEEPROM` and returns the object unchanged |
| Driver.EepromSpi.Get | src/EEPROM_SPI_WE.h:66-71 | fills the object's first `sizeof(T)` bytes (modulo 2^16) from the chip, leaves the rest, and returns the same object |
| Driver.EepromSpi.ContinuousPutEnable | src/EEPROM_SPI_WE.cpp:233-241 | sets `contAddr`, sends WREN, and leaves a frame open holding the write header for `addr` |
| Driver.EepromSpi.ContinuousPutDisable | src/EEPROM_SPI_WE.cpp:243-247 | closes the open frame, which the chip then commits |
| Driver.EepromSpi.ContinuousWriteEEPROM | src/EEPROM_SPI_WE.cpp:249-279 | as written (strict `<`), the frames closed and the frame left open are those of `StreamFrames(contAddr, frame, buf[..n], pageSize, false)`, and `contAddr` advances by exactly `n` |
| Driver.EepromSpi.ContinuousWriteEEPROMReopening | src/EEPROM_SPI_WE.cpp:259 | with the `<=` test, the frames are those of `StreamFrames(…, true)`, and `contAddr` advances by `n` |
| Driver.EepromSpi.StreamWrite | src/EEPROM_SPI_WE.cpp:250-278 | the loop of `continuousWriteEEPROM` for either page-end test, proved against `StreamFrames` |
| Driver.EepromSpi.EmitChunk | src/EEPROM_SPI_WE.cpp:264-277 | one chunk keeps the loop invariant and advances `contAddr` by the chunk, which is at least 1 |
| Driver.EepromSpi.PageTurn | src/EEPROM_SPI_WE.cpp:271-277 | at a page end the open frame is closed, then WREN is sent and a frame opened at the current `contAddr` |

## Left out

- SPI transport (`begin`, `beginTransaction`, `endTransaction`, `SPISettings`, `setSPIClockSpeed`): these are calls into the Arduino SPI library. A transaction is folded into the frame steps of `Spi.SpiBus`.
- Driver.EepromSpi.constructor: the `SPIClass *` constructor and the `&SPI` default constructor are merged into one that takes the bus. The model does not distinguish the default `SPI` object from another bus.
- GPIO and timing (`pinMode`, `digitalWrite`, `delayMicroseconds`): chip-select is modelled only as opening and closing a frame. The WP pin is recorded as the flag `wpHeldHigh`.
- The `while (isBusy()) {}` waits after each command: the model chip finishes its write cycle when chip-select rises, so each wait would end after one status read. Those status-read frames are not in the trace.
- `deepPowerDown` and `powerUpAndReadID`: one-shot commands whose result comes from the hardware.
- `protectStatusRegister`: WP-pin dispatch with no logic of its own. The chip model has no WP pin, and ignores the lock its status bit 7 would give with that pin.
- `erasePage`, `eraseSector` and `eraseCompleteEEPROM`: their opcodes are defined, but their effect on the array is part-specific.
- Addresses of 65536 and more: the header keeps 16 address bits (`Commands.HeaderAddrOf`), so the read-back lemmas require `a + n <= 65536`.
- Driver.EepromSpi.WriteEEPROM: `addr` and `contAddr` are unbounded naturals, so the `uint32_t` wrap-around at 2^32 is not modelled. It is unobservable here because only `addr mod 65536` and `addr mod pageSize` reach the bus, and the page size divides 65536.
- Driver.EepromSpi.constructor: the pins are unbounded integers, so the `int16_t` width of `csPin` and `wpPin` is not modelled.
- The 8 MHz clock and SPI mode settings: not observable in frames.
- Compact 9/10-bit addressing (address bits folded into the opcode), a memory-size setting and a byte-by-byte erase fallback are not in this code. Every frame carries two address bytes (src/EEPROM_SPI_WE.cpp:215-217, 284-286), and the model follows that.
- Driver.EepromSpi.Init: an absent or unresponsive part is not modelled. The model chip always sets the latch on WREN, so `init` always returns true here; its `return false` branch (src/EEPROM_SPI_WE.cpp:53) is reachable only with such a part.
- The header comments on `EEP_READ` (0x03) and `EEP_WRITE` (0x02) are swapped. The model uses the values, which match the 25xx command set.

## Findings

| source | as written | input that shows it | evidently intended | confidence | as-written member | corrected member |
|---|---|---|---|---|---|---|
| src/EEPROM_SPI_WE.cpp:259 | `if(spaceLeftInPage < noOfBytesStillToWrite)`: a call whose bytes exactly fill the page does not close and reopen the frame | page size 16, `continuousPutEnable(0)`, then `continuousWriteEEPROM` of 16 bytes, then of 1 byte, then `continuousPutDisable()`. The 17th byte goes into the first page's frame and wraps onto address 0 | `<=`: reopen at the next page whenever a chunk reaches the page end, so consecutive calls store their bytes contiguously | not executed | Readback.ExactPageFillCorruptsSession | Readback.ReopeningSessionReadBack |
