/*
 * The SPI driver: instance selection, configuration, enable/disable,
 * interrupt-enable bits, the callback table and the three interrupt
 * handlers, and the three blocking transfers.
 *
 * The memory-mapped register blocks are objects of class SpiBlock. CR1 and
 * CR2 are plain words the driver reads and writes. SR and DR are windows
 * onto the hardware: what the n-th read of SR or DR shows is an oracle
 * fixed when the block is made, and every access moves a cursor (and DR
 * accesses are logged), so the loops of SpiTransfer describe exactly what
 * the methods here do. `micros()` is the same kind of oracle, in class Clock.
 */
module SpiModule {
  import opened SpiInterface
  import opened SpiPrivate
  import opened SpiTransfer

  /*************************************************************************
   * SPI_pxPtrSelect
   *************************************************************************/

  datatype Instance = Spi1 | Spi2 | Spi3

  /** The `SPIx` id of an instance. */
  function Id(inst: Instance): (r: u8)
    ensures 1 <= r <= 3
  {
    match inst
    case Spi1 => SPI1
    case Spi2 => SPI2
    case Spi3 => SPI3
  }

  /** Which register block an id selects: the three known ids and nothing else. */
  function Select(id: u8): (r: Option<Instance>)
    ensures r.Some? <==> id == SPI1 || id == SPI2 || id == SPI3
    ensures r.Some? ==> Id(r.value) == id
  {
    if id == SPI1 then Some(Spi1)
    else if id == SPI2 then Some(Spi2)
    else if id == SPI3 then Some(Spi3)
    else None
  }

  /** Every instance is selected by its own id, so selection is a bijection onto 1..3. */
  lemma SelectId(inst: Instance)
    ensures Select(Id(inst)) == Some(inst)
  {
  }

  /** Address of the block an instance selects. */
  function BaseAddress(inst: Instance): (r: nat)
    ensures r % 0x400 == 0
  {
    match inst
    case Spi1 => Spi1BaseAddress
    case Spi2 => Spi2BaseAddress
    case Spi3 => Spi3BaseAddress
  }

  /** Two different instances select register blocks that do not overlap. */
  lemma BlocksApart(i: Instance, j: Instance)
    requires i != j
    ensures BaseAddress(i) + BlockSize <= BaseAddress(j) || BaseAddress(j) + BlockSize <= BaseAddress(i)
  {
    BlocksDisjoint();
  }

  /*************************************************************************
   * SPI_vInit: the words written to CR1 and CR2
   *************************************************************************/

  /** A `bool` assigned to a one-bit field. */
  function Flag(b: bool): bv32
  {
    if b then 1 else 0
  }

  /**
   * CR1 after SPI_vInit: cleared, then CPHA, CPOL, MSTR, BR, LSBFIRST, SSM,
   * SSI and DFF written in that order, and SPE set last.
   */
  function Cr1Config(mode: bool, dataSize: bool, cpol: bool, cpha: bool, ssm: bool, ssi: bool,
                     prescaler: u8, lsbFirst: bool): bv32
  {
    var w := Cr1Set(0, CPHA, Flag(cpha));
    var w := Cr1Set(w, CPOL, Flag(cpol));
    var w := Cr1Set(w, MSTR, Flag(mode));
    var w := Cr1Set(w, BR, prescaler as bv32);
    var w := Cr1Set(w, LSBFIRST, Flag(lsbFirst));
    var w := Cr1Set(w, SSM, Flag(ssm));
    var w := Cr1Set(w, SSI, Flag(ssi));
    var w := Cr1Set(w, DFF, Flag(dataSize));
    Cr1Set(w, SPE, 1)
  }

  /** CR2 after SPI_vInit: cleared, then SSOE written. */
  function Cr2Config(ssoe: bool): bv32
  {
    Cr2Set(0, SSOE, Flag(ssoe))
  }

  /**
   * Each one-bit CR1 field SPI_vInit names holds the argument given for it,
   * and SPE is 1.
   */
  lemma Cr1ConfigFields(mode: bool, dataSize: bool, cpol: bool, cpha: bool, ssm: bool, ssi: bool,
                        prescaler: u8, lsbFirst: bool)
    ensures var c := Cr1Config(mode, dataSize, cpol, cpha, ssm, ssi, prescaler, lsbFirst);
            && Cr1Get(c, CPHA) == Flag(cpha) && Cr1Get(c, CPOL) == Flag(cpol)
            && Cr1Get(c, MSTR) == Flag(mode) && Cr1Get(c, SPE) == 1
            && Cr1Get(c, LSBFIRST) == Flag(lsbFirst)
            && Cr1Get(c, SSI) == Flag(ssi) && Cr1Get(c, SSM) == Flag(ssm)
            && Cr1Get(c, DFF) == Flag(dataSize)
  {
  }

  /** BR holds the prescaler cut to three bits, so each prescaler code of the interface lands unchanged. */
  lemma Cr1ConfigPrescaler(mode: bool, dataSize: bool, cpol: bool, cpha: bool, ssm: bool, ssi: bool,
                           prescaler: u8, lsbFirst: bool)
    ensures var c := Cr1Config(mode, dataSize, cpol, cpha, ssm, ssi, prescaler, lsbFirst);
            && Cr1Get(c, BR) == (prescaler as bv32) & 7
            && (prescaler <= CLOCK_RATE_FREQ_DIVID_BY_256 ==> Cr1Get(c, BR) == prescaler as bv32)
  {
  }

  /** The fields SPI_vInit does not name (receive-only, CRC, bidirectional mode, reserved) are 0. */
  lemma Cr1ConfigRest(mode: bool, dataSize: bool, cpol: bool, cpha: bool, ssm: bool, ssi: bool,
                      prescaler: u8, lsbFirst: bool)
    ensures var c := Cr1Config(mode, dataSize, cpol, cpha, ssm, ssi, prescaler, lsbFirst);
            && Cr1Get(c, RXONLY) == 0 && Cr1Get(c, CRCNEXT) == 0 && Cr1Get(c, CRCEN) == 0
            && Cr1Get(c, BIDIOE) == 0 && Cr1Get(c, BIDIMODE) == 0 && Cr1Get(c, Cr1Reserved) == 0
  {
  }

  /** CR2 holds SSOE and nothing else: every other field, interrupt enables included, is 0. */
  lemma Cr2ConfigFields(ssoe: bool)
    ensures Cr2Get(Cr2Config(ssoe), SSOE) == Flag(ssoe)
    ensures forall f :: f != SSOE ==> Cr2Get(Cr2Config(ssoe), f) == 0
  {
  }

  /*************************************************************************
   * SPI_ENABLE_IT / SPI_DISABLE_IT: interrupt sources as CR2 bits
   *************************************************************************/

  /** The CR2 field whose bit number is the interrupt code, for the three codes of the interface. */
  function ItField(code: u8): (r: Option<Cr2Field>)
    ensures r.Some? <==> code == IT_ERR || code == IT_RXNE || code == IT_TXE
  {
    if code == IT_ERR then Some(ERRIE)
    else if code == IT_RXNE then Some(RXNEIE)
    else if code == IT_TXE then Some(TXEIE)
    else None
  }

  /** For each interrupt code, `1 << code` is exactly the mask of its enable field. */
  lemma ItMask(code: u8)
    requires ItField(code).Some?
    ensures (1 as bv32) << code == Cr2Mask(ItField(code).value)
  {
  }

  /** The interrupt-enable fields are single bits. */
  predicate EnableBit(f: Cr2Field)
  {
    f == ERRIE || f == RXNEIE || f == TXEIE
  }

  /** Setting or clearing the bits of `m` does not touch the bits of a disjoint `k`. */
  lemma OrOutside(w: bv32, m: bv32, k: bv32)
    requires m & k == 0
    ensures (w | m) & k == w & k
  {
  }

  lemma AndNotOutside(w: bv32, m: bv32, k: bv32)
    requires m & k == 0
    ensures (w & !m) & k == w & k
  {
  }

  /** OR-ing in the mask of field `f` leaves another field `g` as it was. */
  lemma OrFrame(f: Cr2Field, g: Cr2Field, w: bv32)
    requires f != g
    ensures Cr2Get(w | Cr2Mask(f), g) == Cr2Get(w, g)
  {
    Cr2MasksDisjoint(f, g);
    OrOutside(w, Cr2Mask(f), Cr2Mask(g));
  }

  /** Clearing the mask of field `f` leaves another field `g` as it was. */
  lemma AndNotFrame(f: Cr2Field, g: Cr2Field, w: bv32)
    requires f != g
    ensures Cr2Get(w & !Cr2Mask(f), g) == Cr2Get(w, g)
  {
    Cr2MasksDisjoint(f, g);
    AndNotOutside(w, Cr2Mask(f), Cr2Mask(g));
  }

  /** A field whose mask has been cleared reads 0. */
  lemma Cleared(f: Cr2Field, w: bv32)
    ensures Cr2Get(w & !Cr2Mask(f), f) == 0
  {
    assert (w & !Cr2Mask(f)) & Cr2Mask(f) == 0;
    Cr2GetZero(f);
    assert Cr2Get(0, f) == Cr2Down(0 & Cr2Mask(f), f);
  }

  /** OR-ing in the mask of an interrupt-enable field sets that field to 1 and leaves every other field. */
  lemma SetBit(f: Cr2Field, w: bv32)
    requires EnableBit(f)
    ensures Cr2Get(w | Cr2Mask(f), f) == 1
    ensures forall g :: g != f ==> Cr2Get(w | Cr2Mask(f), g) == Cr2Get(w, g)
  {
    if f == ERRIE { } else if f == RXNEIE { } else { }
    forall g | g != f
      ensures Cr2Get(w | Cr2Mask(f), g) == Cr2Get(w, g)
    {
      OrFrame(f, g, w);
    }
  }

  /** AND-ing with the complement of a field's mask clears that field and leaves every other field. */
  lemma ClearBit(f: Cr2Field, w: bv32)
    ensures Cr2Get(w & !Cr2Mask(f), f) == 0
    ensures forall g :: g != f ==> Cr2Get(w & !Cr2Mask(f), g) == Cr2Get(w, g)
  {
    Cleared(f, w);
    forall g | g != f
      ensures Cr2Get(w & !Cr2Mask(f), g) == Cr2Get(w, g)
    {
      AndNotFrame(f, g, w);
    }
  }

  /*************************************************************************
   * The callback table Glo_pfCallBacks[6]
   *************************************************************************/

  /** A non-null `void (*)(void)`, known by a number. */
  datatype Callback = Callback(fn: nat)

  datatype Direction = Tx | Rx

  /** Table slot of an instance's transmit or receive callback. */
  function Slot(inst: Instance, dir: Direction): (r: nat)
    ensures r < 6
    ensures r / 2 == Id(inst) - 1
    ensures r % 2 == 0 <==> dir == Tx
  {
    match (inst, dir)
    case (Spi1, Tx) => 0
    case (Spi1, Rx) => 1
    case (Spi2, Tx) => 2
    case (Spi2, Rx) => 3
    case (Spi3, Tx) => 4
    case (Spi3, Rx) => 5
  }

  /** No two (instance, direction) pairs share a slot, and every slot belongs to one. */
  lemma SlotsTile(k: nat)
    requires k < 6
    ensures exists inst, dir :: Slot(inst, dir) == k
    ensures forall i, d, j, e :: Slot(i, d) == Slot(j, e) ==> i == j && d == e
  {
    var inst := if k < 2 then Spi1 else if k < 4 then Spi2 else Spi3;
    var dir := if k % 2 == 0 then Tx else Rx;
    assert Slot(inst, dir) == k;
  }

  /**
   * The table after SPI_SetTxCallback (dir Tx) or SPI_SetRxCallback (dir Rx):
   * a null callback or an unknown id leaves it as it was; otherwise the
   * instance's slot for that direction holds the callback and no other slot
   * changes.
   */
  function Install(table: seq<Option<Callback>>, id: u8, dir: Direction, cb: Option<Callback>)
    : (r: seq<Option<Callback>>)
    requires |table| == 6
    ensures |r| == 6
    ensures cb.None? || Select(id).None? ==> r == table
    ensures cb.Some? && Select(id).Some? ==>
              && r[Slot(Select(id).value, dir)] == cb
              && forall k :: 0 <= k < 6 && k != Slot(Select(id).value, dir) ==> r[k] == table[k]
  {
    if cb.Some? && Select(id).Some? then table[Slot(Select(id).value, dir) := cb] else table
  }

  /**
   * The callback an instance's interrupt handler calls, given the SR value of
   * its first read and of its second read (made only when the first test
   * fails): the transmit callback when TXE is set and the callback exists,
   * otherwise the receive callback when RXNE is set and it exists, otherwise
   * none.
   */
  function Dispatch(table: seq<Option<Callback>>, inst: Instance, sr1: bv32, sr2: bv32): (r: Option<Callback>)
    requires |table| == 6
    ensures r.Some? ==> r == table[Slot(inst, Tx)] || r == table[Slot(inst, Rx)]
    ensures Txe(sr1) && table[Slot(inst, Tx)].Some? ==> r == table[Slot(inst, Tx)]
    ensures !(Txe(sr1) && table[Slot(inst, Tx)].Some?) ==>
              r == (if Rxne(sr2) then table[Slot(inst, Rx)] else None)
  {
    var tx := table[Slot(inst, Tx)];
    var rx := table[Slot(inst, Rx)];
    if Txe(sr1) && tx.Some? then tx
    else if Rxne(sr2) && rx.Some? then rx
    else None
  }

  /** Whether the handler needs its second SR read. */
  predicate RereadsStatus(table: seq<Option<Callback>>, inst: Instance, sr1: bv32)
    requires |table| == 6
  {
    !(Txe(sr1) && table[Slot(inst, Tx)].Some?)
  }

  /*************************************************************************
   * The hardware: register blocks and the microsecond clock
   *************************************************************************/

  /** `micros()`: read number `i` shows `ticks(i)`. */
  class Clock {
    const ticks: nat -> nat
    var count: nat

    constructor (ticks: nat -> nat)
      ensures this.ticks == ticks && count == 0
    {
      this.ticks := ticks;
      count := 0;
    }

    method Micros() returns (now: nat)
      modifies this
      ensures now == ticks(old(count)) && count == old(count) + 1
    {
      now := ticks(count);
      count := count + 1;
    }
  }

  /**
   * One SPI_t block. CR1 and CR2 are ordinary words. The n-th read of SR
   * shows `status(n)` and the n-th read of DR shows `rxData(n)`; `log` lists
   * the DR accesses in order.
   */
  class SpiBlock {
    var cr1: bv32
    var cr2: bv32
    const status: nat -> bv32
    const rxData: nat -> bv32
    var srReads: nat
    var drReads: nat
    var log: seq<DrAccess>

    /** A block at reset: both control words clear, nothing accessed yet. */
    constructor (status: nat -> bv32, rxData: nat -> bv32)
      ensures cr1 == 0 && cr2 == 0 && this.status == status && this.rxData == rxData
      ensures srReads == 0 && drReads == 0 && log == []
    {
      cr1, cr2 := 0, 0;
      this.status, this.rxData := status, rxData;
      srReads, drReads, log := 0, 0, [];
    }

    /**
     * The register writes of SPI_vInit on this block. The CR1 word is built
     * from 0 field by field (CPHA, CPOL, MSTR, BR, LSBFIRST, SSM, SSI, DFF,
     * then SPE) and the CR2 word from 0 with SSOE; each is then stored once.
     */
    method Configure(mode: bool, dataSize: bool, cpol: bool, cpha: bool, ssm: bool, ssi: bool,
                     ssoe: bool, prescaler: u8, lsbFirst: bool)
      modifies this
      ensures cr1 == Cr1Config(mode, dataSize, cpol, cpha, ssm, ssi, prescaler, lsbFirst)
      ensures cr2 == Cr2Config(ssoe)
      ensures srReads == old(srReads) && drReads == old(drReads) && log == old(log)
    {
      var cr1: bv32 := 0;
      cr1 := Cr1Set(cr1, CPHA, Flag(cpha));
      cr1 := Cr1Set(cr1, CPOL, Flag(cpol));
      cr1 := Cr1Set(cr1, MSTR, Flag(mode));
      cr1 := Cr1Set(cr1, BR, prescaler as bv32);
      cr1 := Cr1Set(cr1, LSBFIRST, Flag(lsbFirst));
      cr1 := Cr1Set(cr1, SSM, Flag(ssm));
      cr1 := Cr1Set(cr1, SSI, Flag(ssi));
      cr1 := Cr1Set(cr1, DFF, Flag(dataSize));
      var cr2 := Cr2Set(0, SSOE, Flag(ssoe));
      cr1 := Cr1Set(cr1, SPE, 1);
      WriteCR1(cr1);
      WriteCR2(cr2);
    }

    /** A store to CR1: the word replaces CR1 and nothing else moves. */
    method WriteCR1(w: bv32)
      modifies this
      ensures cr1 == w && cr2 == old(cr2)
      ensures srReads == old(srReads) && drReads == old(drReads) && log == old(log)
    {
      cr1 := w;
    }

    /** A store to CR2: the word replaces CR2 and nothing else moves. */
    method WriteCR2(w: bv32)
      modifies this
      ensures cr2 == w && cr1 == old(cr1)
      ensures srReads == old(srReads) && drReads == old(drReads) && log == old(log)
    {
      cr2 := w;
    }

    method ReadSR() returns (sr: bv32)
      modifies this
      ensures sr == status(old(srReads)) && srReads == old(srReads) + 1
      ensures cr1 == old(cr1) && cr2 == old(cr2) && drReads == old(drReads) && log == old(log)
    {
      sr := status(srReads);
      srReads := srReads + 1;
    }

    method ReadDR() returns (w: bv32)
      modifies this
      ensures w == rxData(old(drReads)) && drReads == old(drReads) + 1 && log == old(log) + [Read(w)]
      ensures cr1 == old(cr1) && cr2 == old(cr2) && srReads == old(srReads)
    {
      w := rxData(drReads);
      drReads := drReads + 1;
      log := log + [Read(w)];
    }

    method WriteDR(w: bv32)
      modifies this
      ensures log == old(log) + [Wrote(w)]
      ensures cr1 == old(cr1) && cr2 == old(cr2) && srReads == old(srReads) && drReads == old(drReads)
    {
      log := log + [Wrote(w)];
    }
  }

  /** What a block and the clock will show the driver. */
  function EnvOf(b: SpiBlock, c: Clock): Env
  {
    Env(b.status, b.rxData, c.ticks)
  }

  /** How far the driver has got through that: the read cursors and the DR log. */
  function PortOf(b: SpiBlock, c: Clock): Port
    reads b, c
  {
    Port(b.srReads, b.drReads, c.count, b.log)
  }

  /** `*(uint16_t*)p = (uint16_t)DR` or `*p = (uint8_t)DR`: store one received word in place. */
  method Store(buf: array<bv8>, k: nat, sixteen: bool, w: bv32)
    requires Bytes(k + 1, sixteen) <= buf.Length
    modifies buf
    ensures buf[..] == StoreWord(old(buf[..]), k, sixteen, w)
  {
    if sixteen {
      buf[2 * k] := (w & 0xFF) as bv8;
      buf[2 * k + 1] := ((w >> 8) & 0xFF) as bv8;
    } else {
      buf[k] := (w & 0xFF) as bv8;
    }
  }

  /*************************************************************************
   * The three blocking transfers, whole calls: read the clock once for the
   * start time, then run the loop from the first word
   *************************************************************************/

  /** SPI_vTransmit on a selected block with a non-null buffer and a non-zero count. */
  ghost function TransmitCall(env: Env, buf: seq<bv8>, n: nat, sixteen: bool, timeout: nat, p: Port): (r: TxResult)
    requires ClockAdvances(env.ticks) && Bytes(n, sixteen) <= |buf|
    ensures r.sent <= n && r.port.drReads == p.drReads && r.port.clockReads > p.clockReads
  {
    TransmitLoop(env, buf, n, sixteen, env.ticks(p.clockReads), timeout, 0, p.(clockReads := p.clockReads + 1))
  }

  /** SPI_vReceive in slave mode on a selected block with a non-null buffer and a non-zero count. */
  ghost function ReceiveCall(env: Env, buf: seq<bv8>, n: nat, sixteen: bool, timeout: nat, p: Port): (r: RxResult)
    requires ClockAdvances(env.ticks) && Bytes(n, sixteen) <= |buf|
    ensures r.got <= n && |r.buf| == |buf|
    ensures r.port.drReads == p.drReads + r.got && r.port.clockReads > p.clockReads
  {
    ReceiveLoop(env, n, sixteen, env.ticks(p.clockReads), timeout, 0, buf, p.(clockReads := p.clockReads + 1))
  }

  /**
   * SPI_vTransmitReceive on a selected block with non-null buffers and a
   * non-zero count; `same` says the two pointers are equal.
   */
  ghost function DuplexCall(env: Env, n: nat, sixteen: bool, same: bool, timeout: nat,
                            tx: seq<bv8>, rx: seq<bv8>, p: Port): (r: Duplex)
    requires ClockAdvances(env.ticks) && Bytes(n, sixteen) <= |tx| && Bytes(n, sixteen) <= |rx|
    requires same ==> tx == rx
    ensures r.sent <= n && r.got <= n && |r.tx| == |tx| && |r.rx| == |rx|
    ensures r.port.clockReads > p.clockReads && r.port.srReads == p.srReads + 2 * (r.port.clockReads - p.clockReads - 1)
    ensures p.log <= r.port.log
  {
    var s := Duplex(0, 0, true, tx, rx, p.(clockReads := p.clockReads + 1));
    DuplexLogPrefix(env, n, sixteen, same, env.ticks(p.clockReads), timeout, s,
                    DuplexLoop(env, n, sixteen, same, env.ticks(p.clockReads), timeout, s));
    DuplexLoop(env, n, sixteen, same, env.ticks(p.clockReads), timeout, s)
  }

  /** The timeout SPI_vReceive passes to SPI_vTransmitReceive in master mode. */
  const MasterReceiveTimeout: nat := 1000000

  /*************************************************************************
   * The driver
   *************************************************************************/

  /**
   * The driver's world: the three register blocks, the clock and the
   * callback table `Glo_pfCallBacks`.
   */
  class Driver {
    const spi1: SpiBlock
    const spi2: SpiBlock
    const spi3: SpiBlock
    const clock: Clock
    const callbacks: array<Option<Callback>>

    ghost predicate Valid()
    {
      && callbacks.Length == 6
      && spi1 != spi2 && spi1 != spi3 && spi2 != spi3
      && ClockAdvances(clock.ticks)
    }

    /** The table starts with every slot null. */
    constructor (spi1: SpiBlock, spi2: SpiBlock, spi3: SpiBlock, clock: Clock)
      requires spi1 != spi2 && spi1 != spi3 && spi2 != spi3
      requires ClockAdvances(clock.ticks)
      ensures Valid()
      ensures this.spi1 == spi1 && this.spi2 == spi2 && this.spi3 == spi3 && this.clock == clock
      ensures fresh(callbacks) && callbacks[..] == [None, None, None, None, None, None]
    {
      this.spi1, this.spi2, this.spi3, this.clock := spi1, spi2, spi3, clock;
      callbacks := new Option<Callback>[6](_ => None);
    }

    /** The block behind `SPI_pxPtrSelect` for an instance. */
    function Block(inst: Instance): SpiBlock
    {
      match inst
      case Spi1 => spi1
      case Spi2 => spi2
      case Spi3 => spi3
    }

    /** Different instances select different register blocks. */
    lemma BlockDistinct(i: Instance, j: Instance)
      requires Valid() && i != j
      ensures Block(i) != Block(j)
    {
    }

    /** The blocks an operation on `id` may touch: the selected one, or none. */
    function Targets(id: u8): set<object>
    {
      if Select(id).Some? then {Block(Select(id).value)} else {}
    }

    /** SPI_vInit. */
    method Init(id: u8, mode: bool, dataSize: bool, cpol: bool, cpha: bool, ssm: bool, ssi: bool,
                ssoe: bool, prescaler: u8, lsbFirst: bool)
      modifies Targets(id)
      ensures Select(id).Some? ==>
                var b := Block(Select(id).value);
                && b.cr1 == Cr1Config(mode, dataSize, cpol, cpha, ssm, ssi, prescaler, lsbFirst)
                && b.cr2 == Cr2Config(ssoe)
                && b.srReads == old(b.srReads) && b.drReads == old(b.drReads) && b.log == old(b.log)
    {
      var inst := Select(id);
      if inst.Some? {
        var b := Block(inst.value);
        b.Configure(mode, dataSize, cpol, cpha, ssm, ssi, ssoe, prescaler, lsbFirst);
      }
    }

    /** SPI_vEnable: SPE becomes 1 and no other field of CR1 moves. */
    method Enable(id: u8)
      modifies Targets(id)
      ensures Select(id).Some? ==>
                var b := Block(Select(id).value);
                && Cr1Get(b.cr1, SPE) == 1
                && (forall f :: f != SPE ==> Cr1Get(b.cr1, f) == Cr1Get(old(b.cr1), f))
                && b.cr2 == old(b.cr2)
                && b.srReads == old(b.srReads) && b.drReads == old(b.drReads) && b.log == old(b.log)
    {
      var inst := Select(id);
      if inst.Some? {
        var b := Block(inst.value);
        ghost var w := b.cr1;
        b.cr1 := Cr1Set(b.cr1, SPE, 1);
        Cr1GetSetSame(w, SPE, 1);
        forall f | f != SPE ensures Cr1Get(b.cr1, f) == Cr1Get(w, f) {
          Cr1GetSetOther(w, SPE, f, 1);
        }
      }
    }

    /** SPI_vDisable: SPE becomes 0 and no other field of CR1 moves. */
    method Disable(id: u8)
      modifies Targets(id)
      ensures Select(id).Some? ==>
                var b := Block(Select(id).value);
                && Cr1Get(b.cr1, SPE) == 0
                && (forall f :: f != SPE ==> Cr1Get(b.cr1, f) == Cr1Get(old(b.cr1), f))
                && b.cr2 == old(b.cr2)
                && b.srReads == old(b.srReads) && b.drReads == old(b.drReads) && b.log == old(b.log)
    {
      var inst := Select(id);
      if inst.Some? {
        var b := Block(inst.value);
        ghost var w := b.cr1;
        b.cr1 := Cr1Set(b.cr1, SPE, 0);
        Cr1GetSetSame(w, SPE, 0);
        forall f | f != SPE ensures Cr1Get(b.cr1, f) == Cr1Get(w, f) {
          Cr1GetSetOther(w, SPE, f, 0);
        }
      }
    }

    /**
     * SPI_ENABLE_IT: OR `1 << it` into CR2. For the three interrupt codes
     * this sets that source's enable bit and nothing else (ItMask, SetBit).
     */
    method EnableIt(id: u8, it: u8)
      requires it < 32
      modifies Targets(id)
      ensures Select(id).Some? ==>
                var b := Block(Select(id).value);
                && b.cr2 == old(b.cr2) | ((1 as bv32) << it)
                && b.cr1 == old(b.cr1)
                && b.srReads == old(b.srReads) && b.drReads == old(b.drReads) && b.log == old(b.log)
    {
      var inst := Select(id);
      if inst.Some? {
        var b := Block(inst.value);
        b.cr2 := b.cr2 | ((1 as bv32) << it);
      }
    }

    /**
     * SPI_DISABLE_IT: AND `~(1 << it)` into CR2. For the three interrupt
     * codes this clears that source's enable bit and nothing else (ItMask,
     * ClearBit).
     */
    method DisableIt(id: u8, it: u8)
      requires it < 32
      modifies Targets(id)
      ensures Select(id).Some? ==>
                var b := Block(Select(id).value);
                && b.cr2 == old(b.cr2) & !((1 as bv32) << it)
                && b.cr1 == old(b.cr1)
                && b.srReads == old(b.srReads) && b.drReads == old(b.drReads) && b.log == old(b.log)
    {
      var inst := Select(id);
      if inst.Some? {
        var b := Block(inst.value);
        b.cr2 := b.cr2 & !((1 as bv32) << it);
      }
    }

    /** SPI_SetTxCallback: store a non-null callback in slot 0, 2 or 4. */
    method SetTxCallback(id: u8, cb: Option<Callback>)
      requires Valid()
      modifies callbacks
      ensures callbacks[..] == Install(old(callbacks[..]), id, Tx, cb)
    {
      if cb.Some? {
        if id == SPI1 {
          callbacks[0] := cb;
        } else if id == SPI2 {
          callbacks[2] := cb;
        } else if id == SPI3 {
          callbacks[4] := cb;
        }
      }
    }

    /** SPI_SetRxCallback: store a non-null callback in slot 1, 3 or 5. */
    method SetRxCallback(id: u8, cb: Option<Callback>)
      requires Valid()
      modifies callbacks
      ensures callbacks[..] == Install(old(callbacks[..]), id, Rx, cb)
    {
      if cb.Some? {
        if id == SPI1 {
          callbacks[1] := cb;
        } else if id == SPI2 {
          callbacks[3] := cb;
        } else if id == SPI3 {
          callbacks[5] := cb;
        }
      }
    }

    /**
     * SPIx_IRQHandler: returns the callback the handler calls, if any. SR is
     * read once, and a second time only when the transmit test fails.
     */
    method IrqHandler(inst: Instance) returns (called: Option<Callback>)
      requires Valid()
      modifies Block(inst)
      ensures var b := Block(inst);
              var sr1 := b.status(old(b.srReads));
              && called == Dispatch(callbacks[..], inst, sr1, b.status(old(b.srReads) + 1))
              && b.srReads == old(b.srReads) + (if RereadsStatus(callbacks[..], inst, sr1) then 2 else 1)
              && b.cr1 == old(b.cr1) && b.cr2 == old(b.cr2) && b.drReads == old(b.drReads) && b.log == old(b.log)
    {
      var b := Block(inst);
      var sr := b.ReadSR();
      if Txe(sr) && callbacks[Slot(inst, Tx)].Some? {
        called := callbacks[Slot(inst, Tx)];
      } else {
        sr := b.ReadSR();
        if Rxne(sr) && callbacks[Slot(inst, Rx)].Some? {
          called := callbacks[Slot(inst, Rx)];
        } else {
          called := None;
        }
      }
    }

    /**
     * SPI_vTransmit. With a selected block, a non-null buffer and a non-zero
     * count, the block and the clock end as the transmit loop says; otherwise
     * nothing happens.
     */
    method Transmit(id: u8, buf: array?<bv8>, n: u16, sixteen: bool, timeout: u32)
      requires Valid()
      requires Select(id).Some? && buf != null && n != 0 ==> Bytes(n, sixteen) <= buf.Length
      modifies Targets(id), clock
      ensures !(Select(id).Some? && buf != null && n != 0) ==> unchanged(Targets(id)) && unchanged(clock)
      ensures Select(id).Some? && buf != null && n != 0 ==>
                var b := Block(Select(id).value);
                && PortOf(b, clock) == TransmitCall(EnvOf(b, clock), buf[..], n, sixteen, timeout, old(PortOf(b, clock))).port
                && b.cr1 == old(b.cr1) && b.cr2 == old(b.cr2)
    {
      var inst := Select(id);
      if inst.Some? && buf != null && n != 0 {
        var b := Block(inst.value);
        var start := clock.Micros();
        TransmitWords(b, buf, n, sixteen, start, timeout);
      }
    }

    /** The polling loop of SPI_vTransmit, from the first word, once the start time is taken. */
    method TransmitWords(b: SpiBlock, buf: array<bv8>, n: nat, sixteen: bool, start: nat, timeout: nat)
      requires Valid() && Bytes(n, sixteen) <= buf.Length
      modifies b, clock
      ensures PortOf(b, clock) == TransmitLoop(EnvOf(b, clock), buf[..], n, sixteen, start, timeout, 0, old(PortOf(b, clock))).port
      ensures b.cr1 == old(b.cr1) && b.cr2 == old(b.cr2)
    {
      ghost var env := EnvOf(b, clock);
      ghost var goal := TransmitLoop(env, buf[..], n, sixteen, start, timeout, 0, PortOf(b, clock));
      var sent: nat := 0;
      while sent < n
        invariant sent <= n
        invariant b.cr1 == old(b.cr1) && b.cr2 == old(b.cr2)
        invariant TransmitLoop(env, buf[..], n, sixteen, start, timeout, sent, PortOf(b, clock)) == goal
        decreases n - sent, Budget(env.ticks, start, timeout, clock.count)
      {
        ghost var before, p := sent, PortOf(b, clock);
        var stop;
        sent, stop := TransmitPoll(b, buf, n, sixteen, start, timeout, sent);
        TransmitPollStep(env, buf[..], n, sixteen, start, timeout, before, p, sent, stop, PortOf(b, clock));
        if stop {
          return;
        }
      }
    }

    /** One pass of that loop: poll TXE, then write the next word or read the clock. */
    method TransmitPoll(b: SpiBlock, buf: array<bv8>, n: nat, sixteen: bool, start: nat, timeout: nat, sent: nat)
      returns (next: nat, stop: bool)
      requires Bytes(n, sixteen) <= buf.Length && sent < n
      modifies b, clock
      ensures TransmitPolled(EnvOf(b, clock), buf[..], n, sixteen, start, timeout, sent, old(PortOf(b, clock)),
                             next, stop, PortOf(b, clock))
      ensures b.cr1 == old(b.cr1) && b.cr2 == old(b.cr2)
    {
      var sr := b.ReadSR();
      if Txe(sr) {
        b.WriteDR(WordAt(buf[..], sent, sixteen));
        next, stop := sent + 1, false;
      } else {
        var now := clock.Micros();
        next, stop := sent, TimedOut(now, start, timeout);
      }
    }

    /**
     * SPI_vReceive. In master mode (MSTR set) the call is SPI_vTransmitReceive
     * with the one buffer in both roles and the fixed timeout 1000000: the
     * buffer's own contents are clocked out as the dummy words. In slave mode
     * the block, the clock and the buffer end as the receive loop says.
     * Without a selected block, a buffer and a non-zero count nothing happens.
     */
    method Receive(id: u8, buf: array?<bv8>, n: u16, sixteen: bool, timeout: u32)
      requires Valid()
      requires Select(id).Some? && buf != null && n != 0 ==> Bytes(n, sixteen) <= buf.Length
      modifies Targets(id), clock, buf
      ensures !(Select(id).Some? && buf != null && n != 0) ==>
                unchanged(Targets(id)) && unchanged(clock) && (buf != null ==> unchanged(buf))
      ensures Select(id).Some? && buf != null && n != 0 ==>
                var b := Block(Select(id).value);
                && b.cr1 == old(b.cr1) && b.cr2 == old(b.cr2)
                && (Cr1Get(old(b.cr1), MSTR) == MODE_MASTER ==>
                      var r := DuplexCall(EnvOf(b, clock), n, sixteen, true, MasterReceiveTimeout,
                                          old(buf[..]), old(buf[..]), old(PortOf(b, clock)));
                      PortOf(b, clock) == r.port && buf[..] == r.rx)
                && (Cr1Get(old(b.cr1), MSTR) != MODE_MASTER ==>
                      var r := ReceiveCall(EnvOf(b, clock), old(buf[..]), n, sixteen, timeout, old(PortOf(b, clock)));
                      PortOf(b, clock) == r.port && buf[..] == r.buf)
    {
      var inst := Select(id);
      if inst.Some? && buf != null && n != 0 {
        var b := Block(inst.value);
        if Cr1Get(b.cr1, MSTR) == MODE_MASTER {
          TransmitReceive(id, buf, buf, n, sixteen, MasterReceiveTimeout);
        } else {
          var start := clock.Micros();
          ReceiveWords(b, buf, n, sixteen, start, timeout);
        }
      }
    }

    /** The polling loop of SPI_vReceive in slave mode, from the first word, once the start time is taken. */
    method ReceiveWords(b: SpiBlock, buf: array<bv8>, n: nat, sixteen: bool, start: nat, timeout: nat)
      requires Valid() && Bytes(n, sixteen) <= buf.Length
      modifies b, clock, buf
      ensures var r := ReceiveLoop(EnvOf(b, clock), n, sixteen, start, timeout, 0, old(buf[..]), old(PortOf(b, clock)));
              PortOf(b, clock) == r.port && buf[..] == r.buf
      ensures b.cr1 == old(b.cr1) && b.cr2 == old(b.cr2)
    {
      ghost var env := EnvOf(b, clock);
      ghost var goal := ReceiveLoop(env, n, sixteen, start, timeout, 0, buf[..], PortOf(b, clock));
      var got: nat := 0;
      while got < n
        invariant got <= n
        invariant b.cr1 == old(b.cr1) && b.cr2 == old(b.cr2)
        invariant ReceiveLoop(env, n, sixteen, start, timeout, got, buf[..], PortOf(b, clock)) == goal
        decreases n - got, Budget(env.ticks, start, timeout, clock.count)
      {
        ghost var before, data, p := got, buf[..], PortOf(b, clock);
        var stop;
        got, stop := ReceivePoll(b, buf, n, sixteen, start, timeout, got);
        ReceivePollStep(env, n, sixteen, start, timeout, before, data, p, got, stop, buf[..], PortOf(b, clock));
        if stop {
          return;
        }
      }
    }

    /** One pass of that loop: poll RXNE, then store the next word or read the clock. */
    method ReceivePoll(b: SpiBlock, buf: array<bv8>, n: nat, sixteen: bool, start: nat, timeout: nat, got: nat)
      returns (next: nat, stop: bool)
      requires Bytes(n, sixteen) <= buf.Length && got < n
      modifies b, clock, buf
      ensures ReceivePolled(EnvOf(b, clock), n, sixteen, start, timeout, got, old(buf[..]), old(PortOf(b, clock)),
                            next, stop, buf[..], PortOf(b, clock))
      ensures b.cr1 == old(b.cr1) && b.cr2 == old(b.cr2)
    {
      var sr := b.ReadSR();
      if Rxne(sr) {
        var w := b.ReadDR();
        Store(buf, got, sixteen, w);
        next, stop := got + 1, false;
      } else {
        var now := clock.Micros();
        next, stop := got, TimedOut(now, start, timeout);
      }
    }

    /**
     * SPI_vTransmitReceive. With a selected block, both buffers and a non-zero
     * count, the block, the clock and both buffers end as the transmit-receive
     * loop says (the buffers may be one array); otherwise nothing happens.
     */
    method TransmitReceive(id: u8, tx: array?<bv8>, rx: array?<bv8>, n: u16, sixteen: bool, timeout: u32)
      requires Valid()
      requires Select(id).Some? && tx != null && rx != null && n != 0 ==>
                 Bytes(n, sixteen) <= tx.Length && Bytes(n, sixteen) <= rx.Length
      modifies Targets(id), clock, rx
      ensures !(Select(id).Some? && tx != null && rx != null && n != 0) ==>
                unchanged(Targets(id)) && unchanged(clock) && (rx != null ==> unchanged(rx))
      ensures Select(id).Some? && tx != null && rx != null && n != 0 ==>
                var b := Block(Select(id).value);
                var r := DuplexCall(EnvOf(b, clock), n, sixteen, tx == rx, timeout,
                                    old(tx[..]), old(rx[..]), old(PortOf(b, clock)));
                && PortOf(b, clock) == r.port && tx[..] == r.tx && rx[..] == r.rx
                && b.cr1 == old(b.cr1) && b.cr2 == old(b.cr2)
    {
      var inst := Select(id);
      if inst.Some? && tx != null && rx != null && n != 0 {
        var b := Block(inst.value);
        ghost var p := PortOf(b, clock);
        var start := clock.Micros();
        ghost var s := Duplex(0, 0, true, tx[..], rx[..], p.(clockReads := p.clockReads + 1));
        assert Duplex(0, 0, true, tx[..], rx[..], PortOf(b, clock)) == s;
        DuplexWords(b, tx, rx, n, sixteen, start, timeout);
      }
    }

    /** The loop of SPI_vTransmitReceive, from the first word, once the start time is taken. */
    method DuplexWords(b: SpiBlock, tx: array<bv8>, rx: array<bv8>, n: nat, sixteen: bool, start: nat, timeout: nat)
      requires Valid() && Bytes(n, sixteen) <= tx.Length && Bytes(n, sixteen) <= rx.Length
      modifies b, clock, rx
      ensures var r := DuplexLoop(EnvOf(b, clock), n, sixteen, tx == rx, start, timeout,
                                  Duplex(0, 0, true, old(tx[..]), old(rx[..]), old(PortOf(b, clock))));
              PortOf(b, clock) == r.port && tx[..] == r.tx && rx[..] == r.rx
      ensures b.cr1 == old(b.cr1) && b.cr2 == old(b.cr2)
    {
      ghost var env := EnvOf(b, clock);
      ghost var same := tx == rx;
      ghost var goal := DuplexLoop(env, n, sixteen, same, start, timeout, Duplex(0, 0, true, tx[..], rx[..], PortOf(b, clock)));
      var sent: nat, got: nat, txAllowed := 0, 0, true;
      while sent < n || got < n
        invariant sent <= n && got <= n
        invariant b.cr1 == old(b.cr1) && b.cr2 == old(b.cr2)
        invariant DuplexLoop(env, n, sixteen, same, start, timeout, Duplex(sent, got, txAllowed, tx[..], rx[..], PortOf(b, clock))) == goal
        decreases Budget(env.ticks, start, timeout, clock.count)
      {
        ghost var s := Duplex(sent, got, txAllowed, tx[..], rx[..], PortOf(b, clock));
        var stop;
        sent, got, txAllowed, stop := DuplexPoll(b, tx, rx, n, sixteen, start, timeout, sent, got, txAllowed);
        DuplexPollStep(env, n, sixteen, same, start, timeout, s, stop, Duplex(sent, got, txAllowed, tx[..], rx[..], PortOf(b, clock)));
        if stop {
          return;
        }
      }
    }

    /** One pass of that loop: the transmit turn, the receive turn, then a clock read. */
    method DuplexPoll(b: SpiBlock, tx: array<bv8>, rx: array<bv8>, n: nat, sixteen: bool, start: nat, timeout: nat,
                      sent: nat, got: nat, txAllowed: bool)
      returns (sent': nat, got': nat, txAllowed': bool, stop: bool)
      requires Bytes(n, sixteen) <= tx.Length && Bytes(n, sixteen) <= rx.Length && sent <= n && got <= n
      modifies b, clock, rx
      ensures DuplexPolled(EnvOf(b, clock), n, sixteen, tx == rx, start, timeout,
                           Duplex(sent, got, txAllowed, old(tx[..]), old(rx[..]), old(PortOf(b, clock))),
                           stop, Duplex(sent', got', txAllowed', tx[..], rx[..], PortOf(b, clock)))
      ensures b.cr1 == old(b.cr1) && b.cr2 == old(b.cr2)
    {
      sent', txAllowed' := TxPoll(b, tx, rx, n, sixteen, sent, got, txAllowed);
      got', txAllowed' := RxPoll(b, tx, rx, n, sixteen, sent', got, txAllowed');
      var now := clock.Micros();
      stop := TimedOut(now, start, timeout);
    }

    /** The transmit turn: poll TXE; write the next word if it is set, words remain and the turn allows it. */
    method TxPoll(b: SpiBlock, tx: array<bv8>, rx: array<bv8>, n: nat, sixteen: bool, sent: nat, got: nat, txAllowed: bool)
      returns (sent': nat, txAllowed': bool)
      requires Bytes(n, sixteen) <= tx.Length && Bytes(n, sixteen) <= rx.Length && sent <= n && got <= n
      modifies b
      ensures Duplex(sent', got, txAllowed', tx[..], rx[..], PortOf(b, clock))
              == TxTurn(EnvOf(b, clock), n, sixteen, tx == rx, Duplex(sent, got, txAllowed, tx[..], rx[..], old(PortOf(b, clock))))
      ensures b.cr1 == old(b.cr1) && b.cr2 == old(b.cr2)
    {
      var sr := b.ReadSR();
      sent', txAllowed' := sent, txAllowed;
      if Txe(sr) && sent < n && txAllowed {
        b.WriteDR(WordAt(tx[..], sent, sixteen));
        sent', txAllowed' := sent + 1, false;
      }
    }

    /** The receive turn: poll RXNE; store the next word if it is set and words remain, and hand the turn back. */
    method RxPoll(b: SpiBlock, tx: array<bv8>, rx: array<bv8>, n: nat, sixteen: bool, sent: nat, got: nat, txAllowed: bool)
      returns (got': nat, txAllowed': bool)
      requires Bytes(n, sixteen) <= tx.Length && Bytes(n, sixteen) <= rx.Length && sent <= n && got <= n
      modifies b, rx
      ensures Duplex(sent, got', txAllowed', tx[..], rx[..], PortOf(b, clock))
              == RxTurn(EnvOf(b, clock), n, sixteen, tx == rx, Duplex(sent, got, txAllowed, old(tx[..]), old(rx[..]), old(PortOf(b, clock))))
      ensures b.cr1 == old(b.cr1) && b.cr2 == old(b.cr2)
    {
      var sr := b.ReadSR();
      got', txAllowed' := got, txAllowed;
      if Rxne(sr) && got < n {
        var w := b.ReadDR();
        Store(rx, got, sixteen, w);
        got', txAllowed' := got + 1, true;
      }
    }
  }
}
