# Paged EEPROM driver with a checksum envelope

A model of the I2C EEPROM driver in `EEPROM.cpp`. The driver object holds an
I2C handle, a CRC handle, a page size and the chip's bus address. Its
operations are:

- `write` cuts the caller's buffer into page-sized chunks. It sends each chunk
  to the chip at successive page addresses and settles for 5 ms after each one.
- `read` fetches the chunks back into the caller's buffer in the same way,
  with no settling.
- With the checksum enabled, `write` then stores a 4-byte checksum of the
  buffer's whole 32-bit words on the page `getCountOfPagesFor(size)` pages
  further on. `read` fetches that record and compares it with the checksum of
  what it just read.
- Any transport outcome other than OK ends the operation. `decodeStatus` turns
  it into a driver status.
- The C entry points forward to the driver instance.

Files and modules:

- `hal.dfy` (`Hal`): byte and word types, and the chip as 65536 cells. Also the
  I2C handle as a class whose state is the cells, a plan of failing calls (by
  call number), a call counter and a trace of transfers and delays. The CRC
  handle holds the checksum engine as a function value. `Store` and `Load`
  describe a transfer's effect on the cells, with 16-bit address wrap-around.
- `paging.dfy` (`Paging`): `getCountOfPagesFor`, `getPageMemoryAddress`, and the
  chunk lengths of a buffer.
- `page_transfer.dfy` (`PageTransfer`): the transfer loop as functions of its
  inputs. These give the status, the call count, the bytes moved and the
  events. Lemmas give their closed forms. Predicates relate a partly finished
  loop to those functions.
- `checksum.dfy` (`Checksum`): the 4-byte record layout, the words handed to
  the engine, and `calcCRC`.
- `driver.dfy` (`EepromDriver`): the status enum and `decodeStatus`. Also what
  each operation does to the bus, as functions (`WriteSpec`, `ReadSpec`, …),
  and the `Eeprom` class, whose methods carry out the operations step by step
  and are proved equal to those functions. The C facade is here too.
- `properties.dfy` (`EepromProperties`): round trip, checksum verdict, abort
  on first failure, settle delays, checksum placement.

## Model

| member | source | states |
|---|---|---|
| EepromDriver.DecodeStatus | EEPROM.cpp:114-126 | total. OK ⟺ Success, BUSY ⟺ Busy, TIMEOUT ⟺ Timeout, ERROR ⟺ Error. NotInitialized and InvalidCrc never come out of it |
| Paging.CountOfPagesFor | EEPROM.cpp:55-57 | a non-zero count r satisfies (r-1)·pageSize ≤ size < r·pageSize, so an exact multiple gets one extra page. The count is 0 (16-bit truncation) exactly for page size 1 and size 65535 |
| EepromProperties.ExactMultipleSkipsAPage | EEPROM.cpp:55-57 | 128 bytes at page size 64 give 3 pages while the data occupy 2 chunks |
| Paging.PageAddress | EEPROM.cpp:61-63 | page·pageSize when that fits in 16 bits (wraps mod 65536 otherwise) |
| Paging.PageAddressShift | EEPROM.cpp:61-63 | the address of page p+k is k pages past p's address, both wrapping mod 65536 |
| Paging.ChunksCover | EEPROM.cpp:69-82 | chunk lengths are in 1..pageSize and sum to the buffer size |
| Paging.ChunkCount | EEPROM.cpp:69-82 | the number of chunks is ⌈size / pageSize⌉ |
| Paging.ChunkAt | EEPROM.cpp:70 | chunk j starts at offset j·pageSize < size and has length min(pageSize, size − j·pageSize) |
| Paging.CrcPageAfterData | EEPROM.cpp:55-57 | the checksum page is the number of data chunks pages on (plus one on an exact multiple). So it lies past the last data page, and its first byte lies past the data span |
| Paging.AddrPages | EEPROM.cpp:83 | one step of the address: one page on and then j−1 pages on is j pages on, mod 65536 (the j-fold statement is LoopOpAt's) |
| Paging.Chunks | EEPROM.cpp:69-70 | the chunk lengths the loop cuts a buffer into; ChunksCover, ChunkCount and ChunkAt state their bounds, sum, count and positions |
| PageTransfer.LoopRun | EEPROM.cpp:66-87 | the loop moves no more than the size, and all of it when it ends OK |
| PageTransfer.LoopEvents | EEPROM.cpp:66-87 | the loop's calls and delays in order; LoopOps lists the calls (one per chunk up to the first failure, each at its page's address) and LoopSettles counts and places the delays |
| PageTransfer.LoopStep | EEPROM.cpp:69-84 | a successful round moves one chunk, makes one call and continues a page further on |
| PageTransfer.LoopFails | EEPROM.cpp:76-78 | a failing call ends the loop with that call's status, after one call, having moved nothing |
| PageTransfer.EventsFail | EEPROM.cpp:71-78 | a failing call is the loop's only event, with no delay after it |
| PageTransfer.LoopCalls | EEPROM.cpp:69-86 | at most one call per chunk, and exactly one per chunk when the loop ends OK (a zero size makes none) |
| PageTransfer.LoopAllOk | EEPROM.cpp:69-86 | the loop ends OK ⟺ every chunk's call succeeds |
| PageTransfer.LoopFirstFailure | EEPROM.cpp:71-78 | at the first failing chunk f, the loop returns its status unchanged, after f + 1 calls, having moved f full pages |
| PageTransfer.BusOpsAppend | EEPROM.cpp:69-86 | counting calls and delays distributes over consecutive parts of a trace |
| PageTransfer.EventsStep | EEPROM.cpp:71-81 | a successful round's events are its call, then the delay if the delay argument is non-zero, then the rest of the loop |
| PageTransfer.LoopFirst | EEPROM.cpp:67-75 | the first call is for the first chunk at the first page's address. If it fails it is the only call |
| PageTransfer.LoopOpsCount | EEPROM.cpp:69-86 | the trace holds exactly as many calls as the loop made |
| PageTransfer.LoopOpAt | EEPROM.cpp:70-83 | call j carries chunk j at address base + j·pageSize (mod 65536) and gets bus call j's outcome |
| PageTransfer.LoopOps | EEPROM.cpp:66-86 | all calls in order: one per chunk up to the first failure, each at its page's address with its chunk's length |
| PageTransfer.LoopSettleCount | EEPROM.cpp:79-81 | with a delay argument, one delay per successful call. With 0, none |
| PageTransfer.LoopSettleAt | EEPROM.cpp:79-81 | with a delay argument, each successful call is immediately followed by the 5 ms delay |
| PageTransfer.LoopSettles | EEPROM.cpp:79-81 | the delays, counted and placed |
| PageTransfer.RunStart | EEPROM.cpp:67-69 | before the first round, the loop's predicted run is the whole run |
| PageTransfer.RunAdvance | EEPROM.cpp:82-84 | a successful round keeps the prediction: done so far plus what is left equals the whole run |
| PageTransfer.RunAbort | EEPROM.cpp:76-78 | a failing round ends the run with that call's status |
| PageTransfer.RunFinish | EEPROM.cpp:86 | with nothing left the run ends OK |
| PageTransfer.EventsStart | EEPROM.cpp:67-69 | before the first round the trace is unchanged |
| PageTransfer.EventsAdvance | EEPROM.cpp:71-84 | a successful round appends its call and delay to the trace, as predicted |
| PageTransfer.EventsAbort | EEPROM.cpp:71-78 | a failing round's call completes the predicted trace |
| PageTransfer.EventsFinish | EEPROM.cpp:86 | with nothing left the trace is complete |
| PageTransfer.TransferredStart | EEPROM.cpp:67-68 | before the first round nothing is transferred |
| PageTransfer.TransferredAdvance | EEPROM.cpp:71-84 | after a round, the chip (write) or the buffer (read) holds one more chunk of the transfer |
| PageTransfer.Round | EEPROM.cpp:71-81 | one round: the call's outcome is the planned one, one call is added, and the trace gains the call and, after success with a delay, the delay |
| PageTransfer.OnTrackStart | EEPROM.cpp:67-69 | the loop invariant holds at entry |
| PageTransfer.OnTrackAdvance | EEPROM.cpp:70-84 | a successful round preserves the loop invariant |
| PageTransfer.OnTrackAbort | EEPROM.cpp:76-78 | a failing round leaves the state the loop's specification predicts |
| PageTransfer.OnTrackFinish | EEPROM.cpp:86 | exit with nothing left leaves the predicted state |
| Hal.LoadStore | EEPROM.cpp:102-104 | reading back what was just stored gives the stored bytes |
| Hal.LoadStoreElsewhere | EEPROM.cpp:93-99 | a store past a region leaves that region's contents alone |
| Hal.Store | EEPROM.cpp:95-99 | a transfer to the chip sets exactly the cells at address..address+len (mod 65536) and keeps the rest |
| Hal.BusWrite | EEPROM.cpp:95-99 | one memory write takes one call. On success reading the address back gives the data; on failure the chip is unchanged |
| Hal.BusRead | EEPROM.cpp:107-111 | one memory read takes one call and leaves the chip unchanged. It delivers len bytes on success and none on failure |
| Hal.I2cHandle.MemWrite | EEPROM.cpp:95-99 | the handle's new state is BusWrite of the old one |
| Hal.I2cHandle.MemRead | EEPROM.cpp:107-111 | the handle's new state is BusRead of the old one. The destination range of the buffer receives the bytes read and the rest is unchanged |
| Hal.I2cHandle.Delay | EEPROM.cpp:80 | appends the delay to the trace and changes nothing else |
| Checksum.LeBytes | EEPROM.cpp:98 | the record of a checksum is 4 bytes |
| Checksum.WordBytesRoundTrip | EEPROM.cpp:93-111 | decoding a stored record gives back the checksum |
| Checksum.BytesWordRoundTrip | EEPROM.cpp:128-130 | every 4 bytes are the record of the word they decode to |
| Checksum.CalcCrc | EEPROM.cpp:128-130 | the engine applied to the buffer's first size / 4 words; CrcIgnoresTail and WordsDetermineCovered state that it depends on exactly the covered bytes |
| Checksum.Covered | EEPROM.cpp:128-130 | the checksum covers size rounded down to a multiple of 4 |
| Checksum.CrcIgnoresTail | EEPROM.cpp:128-130 | buffers agreeing on the covered bytes have the same checksum, whatever their 1-3 trailing bytes |
| Checksum.WordsDetermineCovered | EEPROM.cpp:128-130 | buffers handing the engine the same words agree on every covered byte |
| EepromDriver.WriteBufferSpec | EEPROM.cpp:89-91 | the chip stays 65536 cells, the failure plan is kept, calls only grow |
| EepromDriver.ReadBufferSpec | EEPROM.cpp:102-104 | the chip is unchanged and at most size bytes are delivered |
| EepromDriver.CrcPage | EEPROM.cpp:55-57 | page + getCountOfPagesFor(size) mod 65536, never the data's first page unless the count truncated to 0; CrcAddress and CrcPageAfterData place it past the data |
| EepromDriver.WriteCrcSpec | EEPROM.cpp:93-100 | one call. On success the 4 bytes at the page's address are the record of calcCRC of the buffer; on failure the chip is unchanged |
| EepromDriver.ReadCrcSpec | EEPROM.cpp:106-112 | one call and the chip unchanged |
| EepromDriver.WriteSpec | EEPROM.cpp:27-37 | the failure plan is kept and the chip stays 65536 cells |
| EepromDriver.ReadSpec | EEPROM.cpp:39-53 | the chip is unchanged and the buffer keeps its length |
| EepromDriver.Eeprom.constructor | EEPROM.cpp:132-135 | no handles, page size 64, device address 0xA0 |
| EepromDriver.Eeprom.IsInitialized | EEPROM.cpp:23-25 | both handles present; Write and Read state that without it they return NotInitialized and leave the bus alone |
| EepromDriver.Eeprom.Init | EEPROM.cpp:16-21 | the four fields take the given values, none checked |
| EepromDriver.Eeprom.TransferChunk | EEPROM.cpp:70-81 | the round's outcome, handle state and buffer are those of Round |
| EepromDriver.Eeprom.IterateOverPages | EEPROM.cpp:66-87 | status and call count are LoopRun's and the trace gains LoopEvents. A write stores the moved prefix of the buffer at the first page's address and leaves the buffer alone. A read leaves the chip alone and puts the bytes fetched at the front of the buffer |
| EepromDriver.Eeprom.WriteBuffer | EEPROM.cpp:89-91 | the outcome and bus are WriteBufferSpec's and the buffer is unchanged |
| EepromDriver.Eeprom.ReadBuffer | EEPROM.cpp:102-104 | the outcome and bus are ReadBufferSpec's. The buffer starts with the fetched bytes and keeps the rest |
| EepromDriver.Eeprom.WriteCrc | EEPROM.cpp:93-100 | one 4-byte write of the record of calcCRC at the page's address |
| EepromDriver.Eeprom.ReadCrc | EEPROM.cpp:106-112 | one 4-byte read at the page's address, decoded into the checksum. 0 when the read fails |
| EepromDriver.Eeprom.Write | EEPROM.cpp:27-37 | NotInitialized with no transfer unless both handles are present. Otherwise WriteSpec's status and bus, with the buffer unchanged |
| EepromDriver.Eeprom.Read | EEPROM.cpp:39-53 | NotInitialized with no transfer and the buffer untouched unless both handles are present. Otherwise ReadSpec's status, bus and buffer |
| EepromDriver.EepromInit | EEPROM.cpp:140-143 | always Success, with the instance configured as given |
| EepromDriver.EepromRead | EEPROM.cpp:145-147 | read with the checksum on: NotInitialized with the bus and buffer untouched unless both handles are present, otherwise ReadSpec's status, bus and buffer |
| EepromDriver.EepromWrite | EEPROM.cpp:149-151 | write with the checksum on: NotInitialized with the bus untouched unless both handles are present, otherwise WriteSpec's status and bus, with the buffer unchanged |
| EepromDriver.EepromGetBuffersPageCount | EEPROM.cpp:153-155 | the least number of pages longer than the buffer, 0 only for page size 1 and 65535 bytes |
| EepromProperties.WriteBufferHealthy | EEPROM.cpp:89-91 | with no failure planned, writeBuffer succeeds, makes one call per chunk and stores the whole buffer |
| EepromProperties.ReadBufferHealthy | EEPROM.cpp:102-104 | with no failure planned, readBuffer succeeds, makes one call per chunk and delivers the bytes at the page |
| EepromProperties.CrcAddress | EEPROM.cpp:55-63 | the checksum record's address is getCountOfPagesFor(size) pages past the data's address |
| EepromProperties.RoundTrip | EEPROM.cpp:27-53 | with no failure planned, a checked write then a checked read both succeed, and the read fills the buffer with the written bytes and leaves the rest alone. Needs the data pages and record to fit in 64 KiB |
| EepromProperties.ReadChecksCrc | EEPROM.cpp:43-52 | with no failure planned, the buffer is filled either way, and read returns InvalidCrc ⟺ the stored record differs from the checksum of the buffer as filled (Success otherwise) |
| EepromProperties.WriteStopsAtFirstFailure | EEPROM.cpp:27-37 | at the first failing data chunk f, write returns its decoded status (not Success) after f + 1 calls and no checksum write. The chip holds the f pages before it |
| EepromProperties.ReadNeverDelays | EEPROM.cpp:102-112 | read adds no delay to the trace, whatever happens |
| EepromProperties.WriteSettlesPerPage | EEPROM.cpp:79-99 | with no failure planned, a checked write's trace is the data loop's events, then the 4-byte checksum write at the checksum page. The loop has one delay per chunk, right after it, and there is none after the checksum write |
| EepromProperties.LoopEventOk | EEPROM.cpp:71-78 | with no failure planned, every call of the loop succeeds |
| EepromProperties.UncheckedStopsAfterData | EEPROM.cpp:27-46 | without the checksum, write and read return the data transfer's decoded status and do nothing more |

## Left out

- The I2C transport is a model: the chip is an ideal memory, and the outcome
  of each call comes from a failure plan keyed by call number.
- A failed transfer is modelled as moving no bytes at all. A real
  `HAL_I2C_Mem_Write`/`HAL_I2C_Mem_Read` may have moved part of the chunk.
- `HAL_Delay` and the 50 ms timeout take no time. The delay is a trace event
  and the timeout a field of each recorded call. Real time is not modelled.
- `HAL_CRC_Calculate` is an arbitrary function of the word sequence. No CRC
  polynomial is modelled.
- The byte layout `reinterpret_cast` gives to the checksum and to the buffer's
  words is taken to be little-endian, as on the STM32F1. Word alignment of the
  buffer is not modelled.
- The process-wide instance and the `extern "C"` plumbing are not modelled.
  The facade members take the instance as a parameter.
- Every operation requires a page size above 0. With 0, `getCountOfPagesFor`
  divides by zero, and the transfer loop cuts 0-byte chunks: it still returns
  at once for a size of 0 and at the first failing call, but with a non-zero
  size and every call succeeding it never ends. `init` and `EEPROM_Init`
  never check the page size or the handles. The model follows that code and
  does not add the configuration check that rejects them.
- The `int16_t` page parameter of `read` and `iterateOverPages` is modelled as
  a 16-bit unsigned page. The signed conversions in between are the identity
  modulo 65536, which is all the page is used for.
- In `getPageMemoryAddress`, `page * mPageSize` is computed in `int` and can
  overflow it for large pages. The model takes the product modulo 65536, as
  the result's truncation does.
- The buffer cursor stepping past the end after the last chunk is not
  modelled. The model keeps an offset that is never read after the loop ends.
- The caller's buffer length is not known to the C code. The model requires
  the array to hold `size` bytes.
- EepromProperties.RoundTrip: assumes the span from the data's first byte to
  the checksum record's last byte, getCountOfPagesFor(size)·pageSize + 4
  bytes, is at most 65536, and that the page count does not truncate to 0.
  A longer span would let the record come round the 16-bit address space
  onto the data; a count of 0 puts the record on the data's first page.
- The reads and writes of the checksum record are 4 bytes at the start of a
  page. Page boundaries inside the chip (a write crossing one wraps within the
  page on real parts) are not modelled; the chip is one flat address space.
