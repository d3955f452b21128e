# SPI driver for a Cortex-M microcontroller, modelled in Dafny

The driver runs the three SPI peripheral blocks (SPI1, SPI2, SPI3) of an
STM32-class microcontroller through memory-mapped registers. It has five
parts:

- `SPI_vInit` configures a block through bit fields of its control
  registers CR1 and CR2.
- `SPI_vEnable` and `SPI_vDisable` switch the block on and off.
- `SPI_ENABLE_IT` and `SPI_DISABLE_IT` set and clear interrupt-enable bits.
- Three blocking transfers (`SPI_vTransmit`, `SPI_vReceive` and
  `SPI_vTransmitReceive`) poll the status flags TXE and RXNE of the status
  register SR. They move 8-bit or 16-bit words through the data register DR
  and give up when `micros()` shows that the timeout has elapsed.
- A six-slot table `Glo_pfCallBacks` holds a transmit and a receive callback
  per block. Each block's interrupt handler calls at most one of them.

The model has four modules, one file each:

- `SpiInterface` (`spi_interface.dfy`) holds the public constants: instance
  ids, data sizes, modes, prescaler codes and interrupt codes.
- `SpiPrivate` (`spi_private.dfy`) holds the register layout:
  - each of the CR1, CR2 and SR bit-field unions is an enumeration of
    fields with literal masks, and `Get`/`Set` work on a 32-bit word exactly
    as a C bit-field access does;
  - the layout of the nine registers of a block;
  - the three base addresses.
- `SpiTransfer` (`spi_transfer.dfy`) holds the three polling loops as pure
  functions over an environment of oracles:
  - read `i` of SR shows `status(i)`;
  - read `i` of DR shows `rxData(i)`;
  - call `i` of `micros()` shows `ticks(i)`.

  It also holds the lemmas about those loops.
- `SpiModule` (`spi_module.dfy`) holds the driver itself:
  - class `SpiBlock` is a register block. CR1 and CR2 are fields; SR and DR
    reads move cursors over the oracles; DR accesses are logged.
  - class `Clock` is `micros()`.
  - class `Driver` holds the three blocks, the clock and the callback table
    as an `array`. Its methods follow the C functions statement by
    statement. Each transfer loop is a `while` loop whose invariant says the
    pure loop function, applied to the current state, still gives the final
    state.

Points where the driver's behaviour is easy to misread:

- In `SPI_vTransmitReceive` the clock is read after every iteration, not
  only when no flag was set. With both flags always set, the call therefore
  completes in exactly `n` iterations only while the timeout has not elapsed
  after any of the first `n - 1` of them (`DuplexBothReady`). With a timeout
  of 0 it runs exactly one iteration (`DuplexTimeoutZero`).
- In `SPI_vTransmit` and `SPI_vReceive`, a timeout of 0 does not limit the
  transfer while the flag stays set. The clock is only read on a poll that
  sees the flag clear (`TransmitAllReady`, `ReceiveAllReady`).
- The BR field keeps only the low three bits of the prescaler argument
  (`Cr1ConfigPrescaler`).
- The CR1 layout is the one `SPI_private.h` declares: CRCEN is three bits
  wide (bits 13-15), so BIDIOE and BIDIMODE sit at bits 16 and 17.
- In master mode, `SPI_vReceive` calls `SPI_vTransmitReceive` with the
  caller's buffer in both roles and the fixed timeout 1000000, ignoring the
  caller's timeout. The words clocked out are the buffer's current
  contents. A word that has already been overwritten by an earlier
  reception is sent as overwritten. The model keeps this: with one buffer
  in both roles, the transmit side reads the receive buffer as it is at
  that point.

## Model

| member | source | states |
|---|---|---|
| SpiPrivate.Cr1MasksDisjoint | SPI_private.h:12-28 | two different CR1 fields occupy no common bit |
| SpiPrivate.Cr1MasksCover | SPI_private.h:12-28 | the fifteen CR1 fields together cover all 32 bits of the word |
| SpiPrivate.Cr1Get | SPI_private.h:12-28 | reading a CR1 bit-field: the field's bits of the word, shifted down to bit 0 |
| SpiPrivate.Cr1Set | SPI_private.h:12-28 | writing a CR1 bit-field: the value cut to the field's width replaces the field's bits, and no other bit of the word changes |
| SpiPrivate.Cr1GetSetSame | SPI_private.h:12-29 | writing a CR1 field and reading it back gives the value cut to the field's width |
| SpiPrivate.Cr1GetSetOther | SPI_private.h:12-29 | writing one CR1 field leaves the value of every other field unchanged |
| SpiPrivate.Cr1SetFrame | SPI_private.h:12-29 | writing one CR1 field leaves every bit of every other field unchanged |
| SpiPrivate.Cr1GetZero | SPI_private.h:29 | every field of a CR1 word cleared through `RegisterAccess = 0` reads 0 |
| SpiPrivate.Cr2MasksDisjoint | SPI_private.h:34-44 | two different CR2 fields occupy no common bit |
| SpiPrivate.Cr2MasksCover | SPI_private.h:34-44 | the CR2 fields, reserved ones included, cover all 32 bits |
| SpiPrivate.Cr2Get | SPI_private.h:34-43 | reading a CR2 bit-field: the field's bits of the word, shifted down to bit 0 |
| SpiPrivate.Cr2Set | SPI_private.h:34-43 | writing a CR2 bit-field: the value cut to the field's width replaces the field's bits, and no other bit of the word changes |
| SpiPrivate.Cr2GetSetSame | SPI_private.h:34-45 | writing a CR2 field and reading it back gives the value cut to the field's width |
| SpiPrivate.Cr2GetSetOther | SPI_private.h:34-45 | writing one CR2 field leaves the value of every other field unchanged |
| SpiPrivate.Cr2SetFrame | SPI_private.h:34-45 | writing one CR2 field leaves every bit of every other field unchanged |
| SpiPrivate.Cr2GetZero | SPI_private.h:45 | every field of a cleared CR2 word reads 0 |
| SpiPrivate.SrMasksDisjoint | SPI_private.h:50-61 | two different SR fields occupy no common bit |
| SpiPrivate.SrMasksCover | SPI_private.h:50-61 | the SR fields cover all 32 bits |
| SpiPrivate.SrGet | SPI_private.h:50-60 | reading an SR bit-field: the field's bits of the word, shifted down to bit 0 |
| SpiPrivate.Txe | SPI_module.cpp:168 | the test `SR.BitAccess.TXE`, true when bit 1 of the SR value is set |
| SpiPrivate.Rxne | SPI_module.cpp:249 | the test `SR.BitAccess.RXNE`, true when bit 0 of the SR value is set |
| SpiPrivate.FlagBits | SPI_private.h:51-52 | the TXE and RXNE tests the driver makes are exactly the non-zero tests of the SR fields TXE (bit 1) and RXNE (bit 0) |
| SpiPrivate.Offset | SPI_private.h:65-76 | the byte offset of each of the nine registers of `SPI_t`, in declaration order, one 32-bit word each |
| SpiPrivate.BlockLayout | SPI_private.h:65-76 | each of the nine registers is a 32-bit word at a word-aligned offset inside the 0x24-byte block, and no two registers share an offset |
| SpiPrivate.BlocksDisjoint | SPI_private.h:78-80 | the three blocks at 0x40013000, 0x40013800 and 0x40013C00 do not overlap |
| SpiTransfer.TimedOut | SPI_module.cpp:177 | the timeout test of every loop: `now - start >= timeout` on unbounded naturals |
| SpiTransfer.WordAt | SPI_module.cpp:170 | the word the transmit loops load: one byte (`*p`), or two bytes read as a little-endian `*(uint16_t *)p` |
| SpiTransfer.Truncate | SPI_module.cpp:251 | the casts `(uint16_t)DR` and `(uint8_t)DR`: the low 16 or 8 bits of the register value |
| SpiTransfer.StoreWord | SPI_module.cpp:251-276 | storing a received word changes only that word's one or two bytes |
| SpiTransfer.StoreThenLoad | SPI_module.cpp:251-274 | reading a stored word back as a little-endian byte or halfword gives the DR value cut by `(uint8_t)` or `(uint16_t)` |
| SpiTransfer.TransmitLoop | SPI_module.cpp:163-205 | the transmit loop ends with between the starting count and `n` words sent, makes no DR read and never un-reads the clock |
| SpiTransfer.TransmitPollStep | SPI_module.cpp:165-181 | the loop equals one pass (write on TXE, otherwise read the clock and maybe stop) followed by the rest of the loop, and a pass that only read the clock shrinks the time left |
| SpiTransfer.TransmitLog | SPI_module.cpp:168-173 | the DR accesses of the call are writes only, of the buffer's words from the first unsent one onward, in order, with stride 1 or 2 bytes |
| SpiTransfer.TransmitPolls | SPI_module.cpp:165-181 | every SR poll either sends a word or is followed by one clock read, and the words sent are exactly the polls that saw TXE |
| SpiTransfer.TransmitTimeout | SPI_module.cpp:174-180 | the loop stops short of `n` exactly when its last clock read shows `now - start >= timeout`, and every earlier read was within the timeout |
| SpiTransfer.TransmitAllReady | SPI_module.cpp:165-173 | if every poll sees TXE, all `n` words go out in `n` polls, whatever the timeout, without reading the clock |
| SpiTransfer.TransmitNeverReady | SPI_module.cpp:174-181 | if no poll sees TXE, nothing is written and the call ends on the first clock read past the timeout |
| SpiTransfer.ReceiveLoop | SPI_module.cpp:243-287 | the receive loop keeps the buffer length, ends with between the starting count and `n` words, and reads DR exactly once per word received |
| SpiTransfer.ReceivePollStep | SPI_module.cpp:246-263 | the loop equals one pass (read and store on RXNE, otherwise read the clock and maybe stop) followed by the rest, and a pass that only read the clock shrinks the time left |
| SpiTransfer.ReceiveLog | SPI_module.cpp:249-254 | the DR accesses of the call are reads only, of consecutive DR values in order |
| SpiTransfer.ReceiveStores | SPI_module.cpp:249-254 | word `got + k` of the buffer holds the k-th value read from DR, cut to 8 or 16 bits; every byte outside the words received keeps its old value |
| SpiTransfer.ReceiveReads | SPI_module.cpp:246-263 | every SR poll either fetches a word or is followed by one clock read |
| SpiTransfer.ReceivePolls | SPI_module.cpp:249 | the words received are exactly the SR polls that saw RXNE |
| SpiTransfer.ReceiveTimeout | SPI_module.cpp:255-262 | the loop stops short of `n` exactly when its last clock read shows the timeout elapsed, and every earlier clock read was within it |
| SpiTransfer.ReceiveAllReady | SPI_module.cpp:246-254 | if every poll sees RXNE, all `n` words arrive in `n` polls, whatever the timeout, without reading the clock |
| SpiTransfer.ReceiveNeverReady | SPI_module.cpp:255-262 | if no poll sees RXNE, neither DR nor the buffer is touched and the call ends on the first clock read past the timeout |
| SpiTransfer.TxTurn | SPI_module.cpp:331-338 | a word is written exactly when TXE is set, words remain and `txallowed` holds; the write is of the next word of the transmit buffer and clears `txallowed`; otherwise only the SR read happens |
| SpiTransfer.RxTurn | SPI_module.cpp:341-348 | a word is read exactly when RXNE is set and words remain; it is stored as the next word of the receive buffer, both buffers stay equal if they are one array, and `txallowed` is set again; otherwise only the SR read happens |
| SpiTransfer.Step | SPI_module.cpp:328-355 | one iteration reads SR twice and the clock once and keeps both counts within `n` |
| SpiTransfer.DuplexLoop | SPI_module.cpp:328-355 | the transmit-receive loop never lowers either count, keeps the buffer sizes, and makes two SR reads per clock read |
| SpiTransfer.DuplexPollStep | SPI_module.cpp:328-355 | while words remain, the loop equals one iteration followed by the rest unless that iteration's clock read timed out, and an iteration that goes on shrinks the time left |
| SpiTransfer.DuplexLogPrefix | SPI_module.cpp:328-355 | the DR log from before the transmit-receive loop is a prefix of the log after it: the loop only appends accesses |
| SpiTransfer.DuplexTurn | SPI_module.cpp:331-348 | the transmitter is never more than one word ahead of the receiver: `sent <= got + 1`, and `sent <= got` whenever `txallowed` holds |
| SpiTransfer.DuplexAlternates | SPI_module.cpp:336-347 | no two DR writes of the call follow each other without a DR read between them |
| SpiTransfer.DuplexReceived | SPI_module.cpp:341-345 | DR is read once per word received, and the values read are consecutive DR values in order |
| SpiTransfer.DuplexUntouched | SPI_module.cpp:343-344 | no byte of the receive buffer outside the words received changes |
| SpiTransfer.DuplexStores | SPI_module.cpp:343-344 | word `got + k` of the receive buffer holds the k-th value read from DR, cut to 8 or 16 bits |
| SpiTransfer.DuplexSent | SPI_module.cpp:333-334 | with two distinct buffers, the transmit buffer is not changed and the values written are its words in order, from the first unsent one |
| SpiTransfer.DuplexTimeout | SPI_module.cpp:350-354 | every iteration ends with one clock read; all reads but the last were within the timeout; a transfer left incomplete means the last one was past it |
| SpiTransfer.DuplexTimeoutZero | SPI_module.cpp:350-354 | with timeout 0 the loop runs exactly one iteration |
| SpiTransfer.DuplexBothReady | SPI_module.cpp:328-355 | with both flags always set and no early timeout, every iteration sends and receives one word, and the loop ends after exactly `n` iterations with `2n` DR accesses |
| SpiModule.Id | SPI_interface.h:123-125 | the id of an instance is 1, 2 or 3 |
| SpiModule.Select | SPI_module.cpp:25-38 | an id selects a block exactly when it is SPI1, SPI2 or SPI3, and it selects the block with that id |
| SpiModule.SelectId | SPI_module.cpp:29-35 | each instance is selected by its own id |
| SpiModule.BaseAddress | SPI_module.cpp:31-33 | each block address is aligned to 0x400 |
| SpiModule.BlocksApart | SPI_module.cpp:31-33 | two different instances select register blocks that do not overlap |
| SpiModule.Cr1Config | SPI_module.cpp:83-94 | the CR1 word SPI_vInit leaves: 0, then CPHA, CPOL, MSTR, BR, LSBFIRST, SSM, SSI and DFF written from the arguments, then SPE set (its fields are read back by the three lemmas below) |
| SpiModule.Cr2Config | SPI_module.cpp:92-93 | the CR2 word SPI_vInit leaves: 0, then SSOE written from the argument |
| SpiModule.Cr1ConfigFields | SPI_module.cpp:83-94 | after init, CPHA, CPOL, MSTR, LSBFIRST, SSM, SSI and DFF read back as the arguments given for them, and SPE reads 1 |
| SpiModule.Cr1ConfigPrescaler | SPI_module.cpp:87 | BR holds the prescaler argument cut to three bits, so each of the eight prescaler codes reads back unchanged |
| SpiModule.Cr1ConfigRest | SPI_module.cpp:83 | after init, RXONLY, CRCNEXT, CRCEN, BIDIOE, BIDIMODE and the reserved bits of CR1 are 0 |
| SpiModule.Cr2ConfigFields | SPI_module.cpp:92-93 | after init, CR2 holds SSOE as given, and every other field, the interrupt enables included, is 0 |
| SpiModule.ItField | SPI_interface.h:151-153 | the codes 5, 6 and 7 name an interrupt source and no other code does |
| SpiModule.ItMask | SPI_module.cpp:408 | for codes 5, 6 and 7, `1 << code` is exactly the mask of ERRIE, RXNEIE and TXEIE respectively |
| SpiModule.SetBit | SPI_module.cpp:408 | OR-ing in an interrupt-enable mask sets that field to 1 and leaves every other CR2 field |
| SpiModule.ClearBit | SPI_module.cpp:428 | AND-ing with the complement of a field's mask clears that field and leaves every other CR2 field |
| SpiModule.Slot | SPI_module.cpp:449-476 | transmit callbacks sit in slots 0, 2 and 4 and receive callbacks in 1, 3 and 5, slot / 2 being the instance id minus one |
| SpiModule.SlotsTile | SPI_module.cpp:14 | the six (instance, direction) pairs use the six slots, one each |
| SpiModule.Install | SPI_module.cpp:443-480 | a null callback or an unknown id leaves the table as it was; otherwise exactly the instance's slot for that direction changes, to the callback |
| SpiModule.Dispatch | SPI_module.cpp:483-499 | the handler calls the transmit callback when TXE is set and one is registered, even if RXNE is also set; otherwise the receive callback when RXNE is set and one is registered; otherwise nothing; at most one of the instance's two callbacks is called |
| SpiModule.Store | SPI_module.cpp:251 | storing a received word in place makes the buffer what StoreWord describes |
| SpiModule.Clock.Micros | SPI_module.cpp:160 | `micros()`: the call returns the next value of the clock and counts one more clock read |
| SpiModule.SpiBlock.WriteCR1 | SPI_module.cpp:83 | a store to CR1: CR1 takes the new word and nothing else in the block changes |
| SpiModule.SpiBlock.WriteCR2 | SPI_module.cpp:92 | a store to CR2: CR2 takes the new word and nothing else in the block changes |
| SpiModule.SpiBlock.ReadSR | SPI_module.cpp:168 | a volatile read of SR: it returns the next status value and counts one more SR read; nothing else changes |
| SpiModule.SpiBlock.ReadDR | SPI_module.cpp:251 | a volatile read of DR: it returns the next received value, counts one more DR read and logs the read; nothing else changes |
| SpiModule.SpiBlock.WriteDR | SPI_module.cpp:170 | a volatile write of DR: it logs the value written; the registers and the read counters do not change |
| SpiModule.SpiBlock.Configure | SPI_module.cpp:83-94 | the block's CR1 and CR2 become the init words, and SR, DR and their cursors are untouched |
| SpiModule.TransmitCall | SPI_module.cpp:157-206 | a whole SPI_vTransmit past its guard: one clock read for the start time, then the loop from word 0; at most `n` words are sent, DR is never read and the clock is read at least once |
| SpiModule.ReceiveCall | SPI_module.cpp:237-288 | a whole slave-mode SPI_vReceive past its guard: one clock read for the start time, then the loop from word 0; at most `n` words arrive, DR is read once per word, the buffer keeps its length |
| SpiModule.DuplexCall | SPI_module.cpp:314-389 | a whole SPI_vTransmitReceive past its guard: one clock read for the start time, then the loop from zero words with `txallowed` true; both counts stay within `n`, two SR reads per later clock read, and the old DR log is a prefix of the new |
| SpiModule.MasterReceiveTimeout | SPI_module.cpp:235 | the timeout 1000000 that master-mode SPI_vReceive passes to SPI_vTransmitReceive |
| SpiModule.Driver.Block | SPI_module.cpp:29-35 | the register block each instance selects: SPI1, SPI2 and SPI3 map to the driver's first, second and third block |
| SpiModule.Driver.BlockDistinct | SPI_module.cpp:29-35 | two different instances select two different blocks, so an operation on one never touches another's registers |
| SpiModule.Driver.constructor | SPI_module.cpp:14 | the callback table starts with all six slots null |
| SpiModule.Driver.Init | SPI_module.cpp:77-96 | for a known id, CR1 and CR2 of that block become the init words whatever they held before; for an unknown id nothing can change |
| SpiModule.Driver.Enable | SPI_module.cpp:107-115 | SPE becomes 1, every other CR1 field and all of CR2 are unchanged; an unknown id changes nothing |
| SpiModule.Driver.Disable | SPI_module.cpp:126-134 | SPE becomes 0, every other CR1 field and all of CR2 are unchanged; an unknown id changes nothing |
| SpiModule.Driver.EnableIt | SPI_module.cpp:402-410 | CR2 becomes CR2 OR `1 << it`, CR1 is unchanged; an unknown id changes nothing |
| SpiModule.Driver.DisableIt | SPI_module.cpp:422-430 | CR2 becomes CR2 AND NOT `1 << it`, CR1 is unchanged; an unknown id changes nothing |
| SpiModule.Driver.SetTxCallback | SPI_module.cpp:443-455 | the table becomes Install of the old table with the transmit direction |
| SpiModule.Driver.SetRxCallback | SPI_module.cpp:468-480 | the table becomes Install of the old table with the receive direction |
| SpiModule.Driver.IrqHandler | SPI_module.cpp:483-535 | the callback called is Dispatch of the table and the SR reads made; SR is read a second time only when the transmit test fails; nothing else in the block changes |
| SpiModule.Driver.Transmit | SPI_module.cpp:153-207 | without a block, a buffer or a non-zero count nothing changes; otherwise the clock is read once for the start time and the block ends as the transmit loop from word 0 says |
| SpiModule.Driver.TransmitWords | SPI_module.cpp:163-205 | the polling loop leaves the block and clock as TransmitLoop says, and CR1 and CR2 unchanged |
| SpiModule.Driver.TransmitPoll | SPI_module.cpp:165-181 | one pass reads SR, then writes the next word on TXE or reads the clock and reports whether the timeout elapsed |
| SpiModule.Driver.Receive | SPI_module.cpp:226-290 | guards as for transmit; in master mode the call is transmit-receive on the one buffer with timeout 1000000; in slave mode the block, clock and buffer end as the receive loop from word 0 says |
| SpiModule.Driver.ReceiveWords | SPI_module.cpp:243-287 | the polling loop leaves the block, clock and buffer as ReceiveLoop says |
| SpiModule.Driver.ReceivePoll | SPI_module.cpp:246-263 | one pass reads SR, then reads DR and stores the word on RXNE, or reads the clock and reports whether the timeout elapsed |
| SpiModule.Driver.TransmitReceive | SPI_module.cpp:310-390 | without a block, both buffers and a non-zero count nothing changes; otherwise the block, clock and both buffers end as the transmit-receive loop from zero words says, the buffers possibly being one array |
| SpiModule.Driver.DuplexWords | SPI_module.cpp:328-388 | the loop leaves the block, clock and buffers as DuplexLoop says |
| SpiModule.Driver.DuplexPoll | SPI_module.cpp:328-355 | one iteration is the transmit turn, the receive turn and one clock read, as Step says |
| SpiModule.Driver.TxPoll | SPI_module.cpp:331-338 | the transmit turn on the arrays is TxTurn |
| SpiModule.Driver.RxPoll | SPI_module.cpp:341-348 | the receive turn on the arrays is RxTurn |

## Left out

- Volatile access is not modelled as such. Each SR and DR read is a draw
  from an oracle fixed when the block is made. CR1 and CR2 are ordinary
  words: hardware never changes them behind the driver's back.
- `micros()` and the 64-bit start time become a strictly increasing oracle
  on the natural numbers. A wrap of the microsecond counter, and a clock
  that stands still, are not modelled. Both are needed for the loops to
  terminate in the model.
- The register blocks are objects, not addresses. The base addresses are
  constants with a lemma that the blocks do not overlap. Casting an address
  to `SPI_t *` is not modelled.
- Buffers are Dafny arrays of bytes. A 16-bit access is two byte accesses,
  little-endian, the order of the target. Alignment of
  `*(uint16_t *)` accesses, and transmit and receive buffers that overlap
  only in part, are not modelled. The two buffers are either distinct
  arrays or the same array.
- Callbacks are numbers. Calling one is reported as the handler's result.
  The callback bodies, and anything they do to the driver's state, are not
  modelled.
- Interrupts preempting a transfer, or racing with a callback registration,
  are not modelled. Each operation runs to completion on its own.
- The hardware effects of the register writes are not modelled: shifting
  bits out, clocking the bus, and flags changing as a result. DMA, CRC,
  I2S, receive-only and bidirectional modes are not modelled either; the
  driver never enables them.
- The 8-bit and 16-bit copies of each transfer loop are one loop,
  parameterised by the word size (stride 1 or 2, cut to 8 or 16 bits).
- SpiModule.Driver.EnableIt: requires `it < 32`. A shift of 32 or more is
  undefined in C++. The three interrupt codes are 5, 6 and 7.
- SpiModule.Driver.DisableIt: requires `it < 32`, for the same reason.
- SpiModule.SpiBlock.Configure: computes the CR1 word field by field in the
  order of `SPI_vInit` (SPE last) and the CR2 word. It then stores each once,
  rather than storing CR1 after every field write. The intermediate
  register values are not visible in the model.
- SpiModule.Driver.Init: that a second `SPI_vInit` with the same arguments
  leaves the block as the first did is not a separate lemma. It follows
  from the ensures, which gives CR1 and CR2 independently of their old
  values.
- SpiTransfer.DuplexSent: states what is written only for two distinct
  buffers. With one buffer (master-mode receive) the words written are the
  buffer's contents at the time of each write, which the turn functions
  describe word by word.
- Each transfer loop's body is a method of its own (TransmitPoll,
  ReceivePoll, DuplexPoll). The loop statement and the per-pass statements
  are those of the C loop.
- The residual count is not returned. The driver gives the caller no
  indication of how many words were transferred, and the methods here
  return nothing either. The count is part of the loop functions' results.
