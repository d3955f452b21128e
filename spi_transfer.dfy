/*
 * The blocking transfer engine as pure functions.
 *
 * The hardware is replaced by oracles: the i-th read of the status register
 * returns `status(i)`, the i-th read of the data register returns `rxData(i)`
 * and the i-th call of `micros()` returns `ticks(i)`. A `Port` records how
 * many reads of each kind have happened and the log of data-register
 * accesses, so every loop below is a deterministic function of the oracles,
 * the buffer and the counters it starts from. The three loops follow the
 * polling loops of `SPI_vTransmit`, `SPI_vReceive` (slave mode) and
 * `SPI_vTransmitReceive`; the 8-bit and 16-bit copies of each loop are one
 * loop here, parameterised by `sixteen`.
 */
module SpiTransfer {
  import opened SpiPrivate

  /** One access to the data register, in program order. */
  datatype DrAccess = Wrote(value: bv32) | Read(value: bv32)

  /** What the peripheral and the clock show the driver, read by read. */
  datatype Env = Env(status: nat -> bv32, rxData: nat -> bv32, ticks: nat -> nat)

  /** The counters of reads done so far and the data-register log. */
  datatype Port = Port(srReads: nat, drReads: nat, clockReads: nat, log: seq<DrAccess>)

  /**
   * Clock read `i` happens before clock read `j`. A named predicate rather
   * than a bare `i < j`, so that the monotonicity quantifier below is only
   * instantiated where a proof mentions `Before` (see ClockStep).
   */
  predicate Before(i: nat, j: nat)
  {
    i < j
  }

  /** `micros()` is strictly increasing. */
  ghost predicate ClockAdvances(ticks: nat -> nat)
  {
    forall i: nat, j: nat {:trigger Before(i, j)} :: Before(i, j) ==> ticks(i) < ticks(j)
  }

  /** Each clock read shows a later time than the one before it. */
  lemma ClockStep(ticks: nat -> nat, c: nat)
    requires ClockAdvances(ticks)
    ensures ticks(c) < ticks(c + 1)
  {
    assert Before(c, c + 1);
  }

  /** The loops' timeout test: elapsed time `now - start` compared with `>=`. */
  predicate TimedOut(now: nat, start: nat, timeout: nat)
  {
    now - start >= timeout
  }

  /** Time left before the clock read number `c` would end the loop. */
  function Budget(ticks: nat -> nat, start: nat, timeout: nat, c: nat): nat
  {
    if ticks(c) < start + timeout then start + timeout - ticks(c) else 0
  }

  /*************************************************************************
   * Buffers: words of one or two bytes
   *************************************************************************/

  /** Number of bytes taken by `k` words. */
  function Bytes(k: nat, sixteen: bool): nat
  {
    if sixteen then 2 * k else k
  }

  /** Word `k` of the buffer: one byte, or a little-endian halfword, zero-extended. */
  function WordAt(buf: seq<bv8>, k: nat, sixteen: bool): bv32
    requires Bytes(k + 1, sixteen) <= |buf|
  {
    if sixteen then (buf[2 * k] as bv32) | ((buf[2 * k + 1] as bv32) << 8)
    else buf[k] as bv32
  }

  /** The casts `(uint8_t)DR` and `(uint16_t)DR`. */
  function Truncate(w: bv32, sixteen: bool): bv32
  {
    if sixteen then w & 0xFFFF else w & 0xFF
  }

  /** Store the low byte or halfword of `w` as word `k`; no other byte changes. */
  function StoreWord(buf: seq<bv8>, k: nat, sixteen: bool, w: bv32): (r: seq<bv8>)
    requires Bytes(k + 1, sixteen) <= |buf|
    ensures |r| == |buf|
    ensures forall i :: 0 <= i < |buf| && !(Bytes(k, sixteen) <= i < Bytes(k + 1, sixteen)) ==> r[i] == buf[i]
  {
    if sixteen then buf[2 * k := (w & 0xFF) as bv8][2 * k + 1 := ((w >> 8) & 0xFF) as bv8]
    else buf[k := (w & 0xFF) as bv8]
  }

  /** Reading back a stored word gives the register value cut to the word size. */
  lemma StoreThenLoad(buf: seq<bv8>, k: nat, sixteen: bool, w: bv32)
    requires Bytes(k + 1, sixteen) <= |buf|
    ensures WordAt(StoreWord(buf, k, sixteen, w), k, sixteen) == Truncate(w, sixteen)
  {
    var r := StoreWord(buf, k, sixteen, w);
    if sixteen {
      assert r[2 * k] == (w & 0xFF) as bv8 && r[2 * k + 1] == ((w >> 8) & 0xFF) as bv8;
      ByteJoin(w);
    } else {
      assert r[k] == (w & 0xFF) as bv8;
      ByteWiden(w);
    }
  }

  lemma ByteJoin(w: bv32)
    ensures (((w & 0xFF) as bv8) as bv32) | ((((w >> 8) & 0xFF) as bv8) as bv32 << 8) == w & 0xFFFF
  {
  }

  lemma ByteWiden(w: bv32)
    ensures ((w & 0xFF) as bv8) as bv32 == w & 0xFF
  {
  }

  /** A word depends only on its own bytes. */
  lemma WordAtFrame(a: seq<bv8>, b: seq<bv8>, k: nat, sixteen: bool)
    requires Bytes(k + 1, sixteen) <= |a| && Bytes(k + 1, sixteen) <= |b|
    requires forall i :: Bytes(k, sixteen) <= i < Bytes(k + 1, sixteen) ==> a[i] == b[i]
    ensures WordAt(a, k, sixteen) == WordAt(b, k, sixteen)
  {
    if sixteen {
      assert a[2 * k] == b[2 * k] && a[2 * k + 1] == b[2 * k + 1];
    } else {
      assert a[k] == b[k];
    }
  }

  /*************************************************************************
   * What the data register sees
   *************************************************************************/

  /** Words `lo` up to `hi` of the buffer, in order. */
  function Words(buf: seq<bv8>, sixteen: bool, lo: nat, hi: nat): (r: seq<bv32>)
    requires lo <= hi && Bytes(hi, sixteen) <= |buf|
    ensures |r| == hi - lo
    decreases hi - lo
  {
    if lo == hi then [] else [WordAt(buf, lo, sixteen)] + Words(buf, sixteen, lo + 1, hi)
  }

  /** Data-register reads number `lo` up to `hi`, in order. */
  function Incoming(rxData: nat -> bv32, lo: nat, hi: nat): (r: seq<bv32>)
    requires lo <= hi
    ensures |r| == hi - lo
    decreases hi - lo
  {
    if lo == hi then [] else [rxData(lo)] + Incoming(rxData, lo + 1, hi)
  }

  /** A log made only of writes of the given values. */
  function WriteLog(ws: seq<bv32>): (r: seq<DrAccess>)
    ensures |r| == |ws|
  {
    if ws == [] then [] else [Wrote(ws[0])] + WriteLog(ws[1..])
  }

  /** A log made only of reads that returned the given values. */
  function ReadLog(ws: seq<bv32>): (r: seq<DrAccess>)
    ensures |r| == |ws|
  {
    if ws == [] then [] else [Read(ws[0])] + ReadLog(ws[1..])
  }

  lemma Associative<T>(a: seq<T>, b: seq<T>, c: seq<T>)
    ensures (a + b) + c == a + (b + c)
  {
  }

  lemma WriteLogCons(w: bv32, ws: seq<bv32>)
    ensures WriteLog([w] + ws) == [Wrote(w)] + WriteLog(ws)
  {
    assert ([w] + ws)[1..] == ws;
  }

  lemma ReadLogCons(w: bv32, ws: seq<bv32>)
    ensures ReadLog([w] + ws) == [Read(w)] + ReadLog(ws)
  {
    assert ([w] + ws)[1..] == ws;
  }

  /** The values written, in order, leaving the reads out. */
  function WrittenValues(log: seq<DrAccess>): seq<bv32>
  {
    if log == [] then []
    else WrittenValues(log[..|log| - 1]) + (if log[|log| - 1].Wrote? then [log[|log| - 1].value] else [])
  }

  /** The values read, in order, leaving the writes out. */
  function ReadValues(log: seq<DrAccess>): seq<bv32>
  {
    if log == [] then []
    else ReadValues(log[..|log| - 1]) + (if log[|log| - 1].Read? then [log[|log| - 1].value] else [])
  }

  /** No two writes follow each other without a read between them. */
  predicate Alternates(log: seq<DrAccess>)
  {
    forall i :: 0 <= i < |log| - 1 ==> !(log[i].Wrote? && log[i + 1].Wrote?)
  }

  /** How many status reads in `[lo, hi)` saw TXE set. */
  function CountTxe(status: nat -> bv32, lo: nat, hi: nat): nat
    decreases hi - lo
  {
    if hi <= lo then 0 else (if Txe(status(lo)) then 1 else 0) + CountTxe(status, lo + 1, hi)
  }

  /** How many status reads in `[lo, hi)` saw RXNE set. */
  function CountRxne(status: nat -> bv32, lo: nat, hi: nat): nat
    decreases hi - lo
  {
    if hi <= lo then 0 else (if Rxne(status(lo)) then 1 else 0) + CountRxne(status, lo + 1, hi)
  }

  /** Counting from `lo` counts read `lo` and then the reads after it. */
  lemma CountRxneStep(status: nat -> bv32, lo: nat, hi: nat)
    requires lo < hi
    ensures CountRxne(status, lo, hi) == (if Rxne(status(lo)) then 1 else 0) + CountRxne(status, lo + 1, hi)
  {
  }

  /*************************************************************************
   * SPI_vTransmit: poll TXE, write one word when it is set, otherwise
   * consult the clock
   *************************************************************************/

  datatype TxResult = TxResult(sent: nat, port: Port)

  /**
   * The transmit loop from the state where `sent` of the `n` words are out.
   * It ends when all are sent, or when a poll sees TXE clear and the clock
   * shows the timeout has elapsed.
   */
  function TransmitLoop(env: Env, buf: seq<bv8>, n: nat, sixteen: bool, start: nat, timeout: nat,
                        sent: nat, p: Port): (r: TxResult)
    requires ClockAdvances(env.ticks)
    requires sent <= n && Bytes(n, sixteen) <= |buf|
    ensures sent <= r.sent <= n
    ensures r.port.drReads == p.drReads && r.port.clockReads >= p.clockReads
    decreases n - sent, Budget(env.ticks, start, timeout, p.clockReads)
  {
    if sent == n then TxResult(sent, p)
    else
      var sr := env.status(p.srReads);
      if Txe(sr) then
        TransmitLoop(env, buf, n, sixteen, start, timeout, sent + 1,
                     p.(srReads := p.srReads + 1, log := p.log + [Wrote(WordAt(buf, sent, sixteen))]))
      else
        var now := env.ticks(p.clockReads);
        var q := p.(srReads := p.srReads + 1, clockReads := p.clockReads + 1);
        if TimedOut(now, start, timeout) then TxResult(sent, q)
        else ClockStep(env.ticks, p.clockReads); TransmitLoop(env, buf, n, sixteen, start, timeout, sent, q)
  }

  /**
   * One pass of the transmit loop from word `sent` with counters `p`, ending
   * with word `next` and counters `p'`: a word is written if the SR read
   * shows TXE, otherwise the clock is read and `stop` says the timeout has
   * elapsed.
   */
  predicate TransmitPolled(env: Env, buf: seq<bv8>, n: nat, sixteen: bool, start: nat, timeout: nat,
                           sent: nat, p: Port, next: nat, stop: bool, p': Port)
    requires sent < n && Bytes(n, sixteen) <= |buf|
  {
    if Txe(env.status(p.srReads)) then
      && next == sent + 1 && !stop
      && p' == p.(srReads := p.srReads + 1, log := p.log + [Wrote(WordAt(buf, sent, sixteen))])
    else
      && next == sent && stop == TimedOut(env.ticks(p.clockReads), start, timeout)
      && p' == p.(srReads := p.srReads + 1, clockReads := p.clockReads + 1)
  }

  /** The transmit loop is its first pass followed by the rest of the loop, unless that pass gave up. */
  lemma TransmitPollStep(env: Env, buf: seq<bv8>, n: nat, sixteen: bool, start: nat, timeout: nat,
                         sent: nat, p: Port, next: nat, stop: bool, p': Port)
    requires ClockAdvances(env.ticks) && sent < n && Bytes(n, sixteen) <= |buf|
    requires TransmitPolled(env, buf, n, sixteen, start, timeout, sent, p, next, stop, p')
    ensures next <= n
    ensures TransmitLoop(env, buf, n, sixteen, start, timeout, sent, p)
            == if stop then TxResult(next, p') else TransmitLoop(env, buf, n, sixteen, start, timeout, next, p')
    ensures !stop && next == sent ==> Budget(env.ticks, start, timeout, p'.clockReads) < Budget(env.ticks, start, timeout, p.clockReads)
  {
    if !Txe(env.status(p.srReads)) {
      ClockStep(env.ticks, p.clockReads);
    }
  }

  /** The k-th data-register access of the call writes word `sent + k` of the buffer; nothing is read. */
  lemma {:induction false} TransmitLog(env: Env, buf: seq<bv8>, n: nat, sixteen: bool, start: nat, timeout: nat,
                                       sent: nat, p: Port)
    requires ClockAdvances(env.ticks)
    requires sent <= n && Bytes(n, sixteen) <= |buf|
    ensures var r := TransmitLoop(env, buf, n, sixteen, start, timeout, sent, p);
            r.port.log == p.log + WriteLog(Words(buf, sixteen, sent, r.sent))
    decreases n - sent, Budget(env.ticks, start, timeout, p.clockReads)
  {
    if sent == n {
      assert Words(buf, sixteen, sent, sent) == [];
    } else {
      if Txe(env.status(p.srReads)) {
        var w := WordAt(buf, sent, sixteen);
        var q := p.(srReads := p.srReads + 1, log := p.log + [Wrote(w)]);
        TransmitPollStep(env, buf, n, sixteen, start, timeout, sent, p, sent + 1, false, q);
        TransmitLog(env, buf, n, sixteen, start, timeout, sent + 1, q);
        var r := TransmitLoop(env, buf, n, sixteen, start, timeout, sent + 1, q);
        var rest := Words(buf, sixteen, sent + 1, r.sent);
        assert Words(buf, sixteen, sent, r.sent) == [w] + rest;
        WriteLogCons(w, rest);
        Associative(p.log, [Wrote(w)], WriteLog(rest));
      } else {
        var stop := TimedOut(env.ticks(p.clockReads), start, timeout);
        var q := p.(srReads := p.srReads + 1, clockReads := p.clockReads + 1);
        TransmitPollStep(env, buf, n, sixteen, start, timeout, sent, p, sent, stop, q);
        if !stop {
          TransmitLog(env, buf, n, sixteen, start, timeout, sent, q);
        }
      }
    }
  }

  /**
   * Each status poll either sees TXE set and sends one word, or sees it
   * clear and reads the clock: the words sent are the polls that saw TXE.
   */
  lemma {:induction false} TransmitPolls(env: Env, buf: seq<bv8>, n: nat, sixteen: bool, start: nat, timeout: nat,
                                         sent: nat, p: Port)
    requires ClockAdvances(env.ticks)
    requires sent <= n && Bytes(n, sixteen) <= |buf|
    ensures var r := TransmitLoop(env, buf, n, sixteen, start, timeout, sent, p);
            && r.port.srReads == p.srReads + (r.sent - sent) + (r.port.clockReads - p.clockReads)
            && r.sent - sent == CountTxe(env.status, p.srReads, r.port.srReads)
    decreases n - sent, Budget(env.ticks, start, timeout, p.clockReads)
  {
    if sent < n {
      if Txe(env.status(p.srReads)) {
        var q := p.(srReads := p.srReads + 1, log := p.log + [Wrote(WordAt(buf, sent, sixteen))]);
        TransmitPollStep(env, buf, n, sixteen, start, timeout, sent, p, sent + 1, false, q);
        TransmitPolls(env, buf, n, sixteen, start, timeout, sent + 1, q);
      } else {
        var stop := TimedOut(env.ticks(p.clockReads), start, timeout);
        var q := p.(srReads := p.srReads + 1, clockReads := p.clockReads + 1);
        TransmitPollStep(env, buf, n, sixteen, start, timeout, sent, p, sent, stop, q);
        if !stop {
          TransmitPolls(env, buf, n, sixteen, start, timeout, sent, q);
        }
      }
    }
  }

  /**
   * The clock is read only to test the timeout, and the loop stops short
   * exactly when its last clock read shows `now - start >= timeout`; every
   * earlier read was within the timeout.
   */
  lemma {:induction false} TransmitTimeout(env: Env, buf: seq<bv8>, n: nat, sixteen: bool, start: nat, timeout: nat,
                                           sent: nat, p: Port)
    requires ClockAdvances(env.ticks)
    requires sent <= n && Bytes(n, sixteen) <= |buf|
    ensures var r := TransmitLoop(env, buf, n, sixteen, start, timeout, sent, p);
            && (r.sent < n ==> r.port.clockReads > p.clockReads)
            && forall c :: p.clockReads <= c < r.port.clockReads ==>
                 (TimedOut(env.ticks(c), start, timeout) <==> r.sent < n && c == r.port.clockReads - 1)
    decreases n - sent, Budget(env.ticks, start, timeout, p.clockReads)
  {
    if sent < n {
      if Txe(env.status(p.srReads)) {
        var q := p.(srReads := p.srReads + 1, log := p.log + [Wrote(WordAt(buf, sent, sixteen))]);
        TransmitPollStep(env, buf, n, sixteen, start, timeout, sent, p, sent + 1, false, q);
        TransmitTimeout(env, buf, n, sixteen, start, timeout, sent + 1, q);
      } else {
        var stop := TimedOut(env.ticks(p.clockReads), start, timeout);
        var q := p.(srReads := p.srReads + 1, clockReads := p.clockReads + 1);
        TransmitPollStep(env, buf, n, sixteen, start, timeout, sent, p, sent, stop, q);
        if !stop {
          TransmitTimeout(env, buf, n, sixteen, start, timeout, sent, q);
        }
      }
    }
  }

  /** If every poll sees TXE, all words go out whatever the timeout, and the clock is never read. */
  lemma {:induction false} TransmitAllReady(env: Env, buf: seq<bv8>, n: nat, sixteen: bool, start: nat, timeout: nat,
                                            sent: nat, p: Port)
    requires ClockAdvances(env.ticks)
    requires sent <= n && Bytes(n, sixteen) <= |buf|
    requires forall i :: p.srReads <= i < p.srReads + (n - sent) ==> Txe(env.status(i))
    ensures var r := TransmitLoop(env, buf, n, sixteen, start, timeout, sent, p);
            r.sent == n && r.port.clockReads == p.clockReads && r.port.srReads == p.srReads + (n - sent)
    decreases n - sent
  {
    if sent < n {
      assert Txe(env.status(p.srReads));
      TransmitAllReady(env, buf, n, sixteen, start, timeout, sent + 1,
                       p.(srReads := p.srReads + 1, log := p.log + [Wrote(WordAt(buf, sent, sixteen))]));
    }
  }

  /** If no poll sees TXE, nothing is written and the loop ends on its first clock read past the timeout. */
  lemma {:induction false} TransmitNeverReady(env: Env, buf: seq<bv8>, n: nat, sixteen: bool, start: nat, timeout: nat,
                                              sent: nat, p: Port)
    requires ClockAdvances(env.ticks)
    requires sent < n && Bytes(n, sixteen) <= |buf|
    requires forall i :: p.srReads <= i ==> !Txe(env.status(i))
    ensures var r := TransmitLoop(env, buf, n, sixteen, start, timeout, sent, p);
            && r.sent == sent && r.port.log == p.log
            && r.port.clockReads > p.clockReads && TimedOut(env.ticks(r.port.clockReads - 1), start, timeout)
    decreases Budget(env.ticks, start, timeout, p.clockReads)
  {
    if !TimedOut(env.ticks(p.clockReads), start, timeout) {
      ClockStep(env.ticks, p.clockReads);
      TransmitNeverReady(env, buf, n, sixteen, start, timeout, sent, p.(srReads := p.srReads + 1, clockReads := p.clockReads + 1));
    }
  }

  /*************************************************************************
   * SPI_vReceive in slave mode: poll RXNE, store one word when it is set,
   * otherwise consult the clock
   *
   * From here on, most lemmas about a loop take its result as a parameter
   * `r` together with `requires r == Loop(...)`, instead of naming the call
   * in their ensures. The loop is then unfolded once per proof rather than
   * once per ensures clause, which keeps the proofs within their budget.
   *************************************************************************/

  datatype RxResult = RxResult(got: nat, buf: seq<bv8>, port: Port)

  function ReceiveLoop(env: Env, n: nat, sixteen: bool, start: nat, timeout: nat,
                       got: nat, buf: seq<bv8>, p: Port): (r: RxResult)
    requires ClockAdvances(env.ticks)
    requires got <= n && Bytes(n, sixteen) <= |buf|
    ensures got <= r.got <= n && |r.buf| == |buf|
    ensures r.port.drReads == p.drReads + (r.got - got) && r.port.clockReads >= p.clockReads
    decreases n - got, Budget(env.ticks, start, timeout, p.clockReads)
  {
    if got == n then RxResult(got, buf, p)
    else
      var sr := env.status(p.srReads);
      if Rxne(sr) then
        var w := env.rxData(p.drReads);
        ReceiveLoop(env, n, sixteen, start, timeout, got + 1, StoreWord(buf, got, sixteen, w),
                    p.(srReads := p.srReads + 1, drReads := p.drReads + 1, log := p.log + [Read(w)]))
      else
        var now := env.ticks(p.clockReads);
        var q := p.(srReads := p.srReads + 1, clockReads := p.clockReads + 1);
        if TimedOut(now, start, timeout) then RxResult(got, buf, q)
        else ClockStep(env.ticks, p.clockReads); ReceiveLoop(env, n, sixteen, start, timeout, got, buf, q)
  }

  /**
   * One pass of the receive loop from word `got` with buffer `buf` and
   * counters `p`, ending with word `next`, buffer `buf'` and counters `p'`:
   * a word is stored if the SR read shows RXNE, otherwise the clock is read
   * and `stop` says the timeout has elapsed.
   */
  predicate ReceivePolled(env: Env, n: nat, sixteen: bool, start: nat, timeout: nat,
                          got: nat, buf: seq<bv8>, p: Port, next: nat, stop: bool, buf': seq<bv8>, p': Port)
    requires got < n && Bytes(n, sixteen) <= |buf|
  {
    if Rxne(env.status(p.srReads)) then
      var w := env.rxData(p.drReads);
      && next == got + 1 && !stop && buf' == StoreWord(buf, got, sixteen, w)
      && p' == p.(srReads := p.srReads + 1, drReads := p.drReads + 1, log := p.log + [Read(w)])
    else
      && next == got && stop == TimedOut(env.ticks(p.clockReads), start, timeout) && buf' == buf
      && p' == p.(srReads := p.srReads + 1, clockReads := p.clockReads + 1)
  }

  /** The receive loop is its first pass followed by the rest of the loop, unless that pass gave up. */
  lemma ReceivePollStep(env: Env, n: nat, sixteen: bool, start: nat, timeout: nat,
                        got: nat, buf: seq<bv8>, p: Port, next: nat, stop: bool, buf': seq<bv8>, p': Port)
    requires ClockAdvances(env.ticks) && got < n && Bytes(n, sixteen) <= |buf|
    requires ReceivePolled(env, n, sixteen, start, timeout, got, buf, p, next, stop, buf', p')
    ensures next <= n && |buf'| == |buf|
    ensures ReceiveLoop(env, n, sixteen, start, timeout, got, buf, p)
            == if stop then RxResult(next, buf', p') else ReceiveLoop(env, n, sixteen, start, timeout, next, buf', p')
    ensures !stop && next == got ==> Budget(env.ticks, start, timeout, p'.clockReads) < Budget(env.ticks, start, timeout, p.clockReads)
  {
    if !Rxne(env.status(p.srReads)) {
      ClockStep(env.ticks, p.clockReads);
    }
  }

  /**
   * One receive step seen from the end of the loop: `stored` is the buffer
   * after word `got` was stored from read `base`; if the later words hold
   * the later reads and every other byte of `stored` survives, then the
   * words from `got` on hold the reads from `base` on.
   */
  lemma StoreStep(rxData: nat -> bv32, base: nat, buf: seq<bv8>, got: nat, stored: seq<bv8>, hi: nat, sixteen: bool,
                  final: seq<bv8>)
    requires got < hi && Bytes(hi, sixteen) <= |buf| && |final| == |buf|
    requires stored == StoreWord(buf, got, sixteen, rxData(base))
    requires forall k :: got < k < hi ==> WordAt(final, k, sixteen) == Truncate(rxData(base + (k - got)), sixteen)
    requires forall i :: 0 <= i < |stored| && !(Bytes(got + 1, sixteen) <= i < Bytes(hi, sixteen)) ==> final[i] == stored[i]
    ensures forall k :: got <= k < hi ==> WordAt(final, k, sixteen) == Truncate(rxData(base + (k - got)), sixteen)
    ensures forall i :: 0 <= i < |buf| && !(Bytes(got, sixteen) <= i < Bytes(hi, sixteen)) ==> final[i] == buf[i]
  {
    WordAtFrame(final, stored, got, sixteen);
    StoreThenLoad(buf, got, sixteen, rxData(base));
  }

  /** `StoreStep` with its premises phrased as the next receive iteration concludes them. */
  lemma ReceiveStep(rxData: nat -> bv32, base: nat, buf: seq<bv8>, got: nat, hi: nat, sixteen: bool, final: seq<bv8>)
    requires got < hi && Bytes(hi, sixteen) <= |buf| && |final| == |buf|
    requires forall k :: got + 1 <= k < hi ==>
               WordAt(final, k, sixteen) == Truncate(rxData(base + 1 + (k - (got + 1))), sixteen)
    requires forall i :: 0 <= i < |buf| && !(Bytes(got + 1, sixteen) <= i < Bytes(hi, sixteen)) ==>
               final[i] == StoreWord(buf, got, sixteen, rxData(base))[i]
    ensures forall k :: got <= k < hi ==> WordAt(final, k, sixteen) == Truncate(rxData(base + (k - got)), sixteen)
    ensures forall i :: 0 <= i < |buf| && !(Bytes(got, sixteen) <= i < Bytes(hi, sixteen)) ==> final[i] == buf[i]
  {
    forall k | got < k < hi
      ensures WordAt(final, k, sixteen) == Truncate(rxData(base + (k - got)), sixteen)
    {
      assert base + 1 + (k - (got + 1)) == base + (k - got);
    }
    StoreStep(rxData, base, buf, got, StoreWord(buf, got, sixteen, rxData(base)), hi, sixteen, final);
  }

  /** Logging one read and then the reads after it logs all the reads. */
  lemma ReadLogStep(rxData: nat -> bv32, base: nat, hi: nat, log: seq<DrAccess>, final: seq<DrAccess>)
    requires base < hi
    requires final == (log + [Read(rxData(base))]) + ReadLog(Incoming(rxData, base + 1, hi))
    ensures final == log + ReadLog(Incoming(rxData, base, hi))
  {
    var rest := Incoming(rxData, base + 1, hi);
    assert Incoming(rxData, base, hi) == [rxData(base)] + rest;
    ReadLogCons(rxData(base), rest);
    Associative(log, [Read(rxData(base))], ReadLog(rest));
  }

  /** The k-th data-register access of the call is a read; nothing is written. */
  lemma {:induction false} ReceiveLog(env: Env, n: nat, sixteen: bool, start: nat, timeout: nat,
                                      got: nat, buf: seq<bv8>, p: Port, r: RxResult)
    requires ClockAdvances(env.ticks)
    requires got <= n && Bytes(n, sixteen) <= |buf|
    requires r == ReceiveLoop(env, n, sixteen, start, timeout, got, buf, p)
    ensures r.port.log == p.log + ReadLog(Incoming(env.rxData, p.drReads, r.port.drReads))
    decreases n - got, Budget(env.ticks, start, timeout, p.clockReads)
  {
    if got == n {
      assert Incoming(env.rxData, p.drReads, p.drReads) == [];
    } else if Rxne(env.status(p.srReads)) {
      var w := env.rxData(p.drReads);
      var buf' := StoreWord(buf, got, sixteen, w);
      var q := p.(srReads := p.srReads + 1, drReads := p.drReads + 1, log := p.log + [Read(w)]);
      ReceivePollStep(env, n, sixteen, start, timeout, got, buf, p, got + 1, false, buf', q);
      ReceiveLog(env, n, sixteen, start, timeout, got + 1, buf', q, r);
      ReadLogStep(env.rxData, p.drReads, r.port.drReads, p.log, r.port.log);
    } else {
      var stop := TimedOut(env.ticks(p.clockReads), start, timeout);
      var q := p.(srReads := p.srReads + 1, clockReads := p.clockReads + 1);
      ReceivePollStep(env, n, sixteen, start, timeout, got, buf, p, got, stop, buf, q);
      if !stop {
        ReceiveLog(env, n, sixteen, start, timeout, got, buf, q, r);
      }
    }
  }

  /**
   * Word `got + k` of the buffer holds the k-th value read from the data
   * register, cut to the word size; every byte outside the words received is
   * left as it was.
   */
  lemma {:induction false} ReceiveStores(env: Env, n: nat, sixteen: bool, start: nat, timeout: nat,
                                         got: nat, buf: seq<bv8>, p: Port, r: RxResult)
    requires ClockAdvances(env.ticks)
    requires got <= n && Bytes(n, sixteen) <= |buf|
    requires r == ReceiveLoop(env, n, sixteen, start, timeout, got, buf, p)
    ensures forall k :: got <= k < r.got ==>
              WordAt(r.buf, k, sixteen) == Truncate(env.rxData(p.drReads + (k - got)), sixteen)
    ensures forall i :: 0 <= i < |buf| && !(Bytes(got, sixteen) <= i < Bytes(r.got, sixteen)) ==> r.buf[i] == buf[i]
    decreases n - got, Budget(env.ticks, start, timeout, p.clockReads)
  {
    if got == n {
    } else if Rxne(env.status(p.srReads)) {
      var w := env.rxData(p.drReads);
      var buf' := StoreWord(buf, got, sixteen, w);
      var q := p.(srReads := p.srReads + 1, drReads := p.drReads + 1, log := p.log + [Read(w)]);
      ReceivePollStep(env, n, sixteen, start, timeout, got, buf, p, got + 1, false, buf', q);
      ReceiveStores(env, n, sixteen, start, timeout, got + 1, buf', q, r);
      ReceiveStep(env.rxData, p.drReads, buf, got, r.got, sixteen, r.buf);
    } else {
      var stop := TimedOut(env.ticks(p.clockReads), start, timeout);
      var q := p.(srReads := p.srReads + 1, clockReads := p.clockReads + 1);
      ReceivePollStep(env, n, sixteen, start, timeout, got, buf, p, got, stop, buf, q);
      if !stop {
        ReceiveStores(env, n, sixteen, start, timeout, got, buf, q, r);
      }
    }
  }

  /** Every status read either saw RXNE and fetched a word, or was followed by a clock read. */
  lemma {:induction false} ReceiveReads(env: Env, n: nat, sixteen: bool, start: nat, timeout: nat,
                                        got: nat, buf: seq<bv8>, p: Port, r: RxResult)
    requires ClockAdvances(env.ticks)
    requires got <= n && Bytes(n, sixteen) <= |buf|
    requires r == ReceiveLoop(env, n, sixteen, start, timeout, got, buf, p)
    ensures r.port.srReads == p.srReads + (r.got - got) + (r.port.clockReads - p.clockReads)
    decreases n - got, Budget(env.ticks, start, timeout, p.clockReads)
  {
    if got == n {
    } else if Rxne(env.status(p.srReads)) {
      var w := env.rxData(p.drReads);
      var buf' := StoreWord(buf, got, sixteen, w);
      var q := p.(srReads := p.srReads + 1, drReads := p.drReads + 1, log := p.log + [Read(w)]);
      ReceivePollStep(env, n, sixteen, start, timeout, got, buf, p, got + 1, false, buf', q);
      ReceiveReads(env, n, sixteen, start, timeout, got + 1, buf', q, r);
    } else {
      var stop := TimedOut(env.ticks(p.clockReads), start, timeout);
      var q := p.(srReads := p.srReads + 1, clockReads := p.clockReads + 1);
      ReceivePollStep(env, n, sixteen, start, timeout, got, buf, p, got, stop, buf, q);
      if !stop {
        ReceiveReads(env, n, sixteen, start, timeout, got, buf, q, r);
      }
    }
  }

  /** The words received are exactly the status reads that saw RXNE. */
  lemma {:induction false} ReceivePolls(env: Env, n: nat, sixteen: bool, start: nat, timeout: nat,
                                        got: nat, buf: seq<bv8>, p: Port, r: RxResult)
    requires ClockAdvances(env.ticks)
    requires got <= n && Bytes(n, sixteen) <= |buf|
    requires r == ReceiveLoop(env, n, sixteen, start, timeout, got, buf, p)
    ensures r.got - got == CountRxne(env.status, p.srReads, r.port.srReads)
    decreases n - got, Budget(env.ticks, start, timeout, p.clockReads)
  {
    if got == n {
    } else if Rxne(env.status(p.srReads)) {
      var w := env.rxData(p.drReads);
      var buf' := StoreWord(buf, got, sixteen, w);
      var q := p.(srReads := p.srReads + 1, drReads := p.drReads + 1, log := p.log + [Read(w)]);
      ReceivePollStep(env, n, sixteen, start, timeout, got, buf, p, got + 1, false, buf', q);
      ReceivePolls(env, n, sixteen, start, timeout, got + 1, buf', q, r);
      ReceiveReads(env, n, sixteen, start, timeout, got + 1, buf', q, r);
      CountRxneStep(env.status, p.srReads, r.port.srReads);
    } else {
      var stop := TimedOut(env.ticks(p.clockReads), start, timeout);
      var q := p.(srReads := p.srReads + 1, clockReads := p.clockReads + 1);
      ReceivePollStep(env, n, sixteen, start, timeout, got, buf, p, got, stop, buf, q);
      ReceiveReads(env, n, sixteen, start, timeout, got, buf, p, r);
      CountRxneStep(env.status, p.srReads, r.port.srReads);
      if !stop {
        ReceivePolls(env, n, sixteen, start, timeout, got, buf, q, r);
      }
    }
  }

  /** The loop stops short exactly when its last clock read shows the timeout elapsed. */
  lemma {:induction false} ReceiveTimeout(env: Env, n: nat, sixteen: bool, start: nat, timeout: nat,
                                          got: nat, buf: seq<bv8>, p: Port)
    requires ClockAdvances(env.ticks)
    requires got <= n && Bytes(n, sixteen) <= |buf|
    ensures var r := ReceiveLoop(env, n, sixteen, start, timeout, got, buf, p);
            && (r.got < n ==> r.port.clockReads > p.clockReads)
            && forall c :: p.clockReads <= c < r.port.clockReads ==>
                 (TimedOut(env.ticks(c), start, timeout) <==> r.got < n && c == r.port.clockReads - 1)
    decreases n - got, Budget(env.ticks, start, timeout, p.clockReads)
  {
    if got == n {
    } else if Rxne(env.status(p.srReads)) {
      var w := env.rxData(p.drReads);
      var buf' := StoreWord(buf, got, sixteen, w);
      var q := p.(srReads := p.srReads + 1, drReads := p.drReads + 1, log := p.log + [Read(w)]);
      ReceivePollStep(env, n, sixteen, start, timeout, got, buf, p, got + 1, false, buf', q);
      ReceiveTimeout(env, n, sixteen, start, timeout, got + 1, buf', q);
    } else {
      var stop := TimedOut(env.ticks(p.clockReads), start, timeout);
      var q := p.(srReads := p.srReads + 1, clockReads := p.clockReads + 1);
      ReceivePollStep(env, n, sixteen, start, timeout, got, buf, p, got, stop, buf, q);
      if !stop {
        ReceiveTimeout(env, n, sixteen, start, timeout, got, buf, q);
      }
    }
  }

  /** If every poll sees RXNE, all words arrive whatever the timeout, and the clock is never read. */
  lemma {:induction false} ReceiveAllReady(env: Env, n: nat, sixteen: bool, start: nat, timeout: nat,
                                           got: nat, buf: seq<bv8>, p: Port)
    requires ClockAdvances(env.ticks)
    requires got <= n && Bytes(n, sixteen) <= |buf|
    requires forall i :: p.srReads <= i < p.srReads + (n - got) ==> Rxne(env.status(i))
    ensures var r := ReceiveLoop(env, n, sixteen, start, timeout, got, buf, p);
            r.got == n && r.port.clockReads == p.clockReads && r.port.srReads == p.srReads + (n - got)
    decreases n - got
  {
    if got < n {
      assert Rxne(env.status(p.srReads));
      var w := env.rxData(p.drReads);
      ReceiveAllReady(env, n, sixteen, start, timeout, got + 1, StoreWord(buf, got, sixteen, w),
                      p.(srReads := p.srReads + 1, drReads := p.drReads + 1, log := p.log + [Read(w)]));
    }
  }

  /** If no poll sees RXNE, nothing is read or stored and the loop ends on its first clock read past the timeout. */
  lemma {:induction false} ReceiveNeverReady(env: Env, n: nat, sixteen: bool, start: nat, timeout: nat,
                                             got: nat, buf: seq<bv8>, p: Port)
    requires ClockAdvances(env.ticks)
    requires got < n && Bytes(n, sixteen) <= |buf|
    requires forall i :: p.srReads <= i ==> !Rxne(env.status(i))
    ensures var r := ReceiveLoop(env, n, sixteen, start, timeout, got, buf, p);
            && r.got == got && r.buf == buf && r.port.log == p.log
            && r.port.clockReads > p.clockReads && TimedOut(env.ticks(r.port.clockReads - 1), start, timeout)
    decreases Budget(env.ticks, start, timeout, p.clockReads)
  {
    if !TimedOut(env.ticks(p.clockReads), start, timeout) {
      ClockStep(env.ticks, p.clockReads);
      ReceiveNeverReady(env, n, sixteen, start, timeout, got, buf, p.(srReads := p.srReads + 1, clockReads := p.clockReads + 1));
    }
  }

  /*************************************************************************
   * SPI_vTransmitReceive: per iteration, a transmit turn, a receive turn
   * and one timeout check
   *************************************************************************/

  /**
   * The loop state: words sent and received, the `txallowed` flag, both
   * buffers and the port. When the caller passes one buffer for both roles
   * (`same`), `tx` and `rx` are kept equal.
   */
  datatype Duplex = Duplex(sent: nat, got: nat, txAllowed: bool, tx: seq<bv8>, rx: seq<bv8>, port: Port)

  predicate Fits(s: Duplex, n: nat, sixteen: bool, same: bool)
  {
    s.sent <= n && s.got <= n && Bytes(n, sixteen) <= |s.tx| && Bytes(n, sixteen) <= |s.rx|
    && (same ==> s.tx == s.rx)
  }

  /** Transmit turn: poll TXE; write the next word if it is set, words remain and it is our turn. */
  function TxTurn(env: Env, n: nat, sixteen: bool, same: bool, s: Duplex): (r: Duplex)
    requires Fits(s, n, sixteen, same)
    ensures Fits(r, n, sixteen, same)
    ensures r.got == s.got && r.rx == s.rx && r.tx == s.tx
    ensures r.port.srReads == s.port.srReads + 1
    ensures r.port.drReads == s.port.drReads && r.port.clockReads == s.port.clockReads
    ensures r.sent == s.sent + 1 <==> Txe(env.status(s.port.srReads)) && s.sent < n && s.txAllowed
    ensures r.sent == s.sent + 1 ==> !r.txAllowed && r.port.log == s.port.log + [Wrote(WordAt(s.tx, s.sent, sixteen))]
    ensures r.sent != s.sent + 1 ==> r.sent == s.sent && r.txAllowed == s.txAllowed && r.port.log == s.port.log
  {
    var p := s.port.(srReads := s.port.srReads + 1);
    if Txe(env.status(s.port.srReads)) && s.sent < n && s.txAllowed then
      s.(sent := s.sent + 1, txAllowed := false, port := p.(log := p.log + [Wrote(WordAt(s.tx, s.sent, sixteen))]))
    else
      s.(port := p)
  }

  /** Receive turn: poll RXNE; store the next word if it is set and words remain, and hand the turn back. */
  function RxTurn(env: Env, n: nat, sixteen: bool, same: bool, s: Duplex): (r: Duplex)
    requires Fits(s, n, sixteen, same)
    ensures Fits(r, n, sixteen, same)
    ensures r.sent == s.sent && |r.rx| == |s.rx| && |r.tx| == |s.tx|
    ensures r.port.srReads == s.port.srReads + 1 && r.port.clockReads == s.port.clockReads
    ensures r.got == s.got + 1 <==> Rxne(env.status(s.port.srReads)) && s.got < n
    ensures r.got == s.got + 1 ==>
              && r.txAllowed
              && r.port.drReads == s.port.drReads + 1
              && r.port.log == s.port.log + [Read(env.rxData(s.port.drReads))]
              && r.rx == StoreWord(s.rx, s.got, sixteen, env.rxData(s.port.drReads))
              && r.tx == (if same then r.rx else s.tx)
    ensures r.got != s.got + 1 ==>
              && r.got == s.got && r.txAllowed == s.txAllowed && r.port.drReads == s.port.drReads
              && r.port.log == s.port.log && r.rx == s.rx && r.tx == s.tx
  {
    var p := s.port.(srReads := s.port.srReads + 1);
    if Rxne(env.status(s.port.srReads)) && s.got < n then
      var w := env.rxData(p.drReads);
      var rx := StoreWord(s.rx, s.got, sixteen, w);
      s.(got := s.got + 1, txAllowed := true, rx := rx, tx := if same then rx else s.tx,
         port := p.(drReads := p.drReads + 1, log := p.log + [Read(w)]))
    else
      s.(port := p)
  }

  /** One iteration of the transmit-receive loop, ending with its clock read. */
  function Step(env: Env, n: nat, sixteen: bool, same: bool, s: Duplex): (r: Duplex)
    requires Fits(s, n, sixteen, same)
    ensures Fits(r, n, sixteen, same) && |r.rx| == |s.rx| && |r.tx| == |s.tx|
    ensures r.port.clockReads == s.port.clockReads + 1 && r.port.srReads == s.port.srReads + 2
    ensures s.port.log <= r.port.log
  {
    var t := RxTurn(env, n, sixteen, same, TxTurn(env, n, sixteen, same, s));
    t.(port := t.port.(clockReads := t.port.clockReads + 1))
  }

  /** The transmit-receive loop: iterate until both counts are done or a clock read shows the timeout. */
  function DuplexLoop(env: Env, n: nat, sixteen: bool, same: bool, start: nat, timeout: nat, s: Duplex): (r: Duplex)
    requires ClockAdvances(env.ticks)
    requires Fits(s, n, sixteen, same)
    ensures Fits(r, n, sixteen, same) && |r.rx| == |s.rx| && |r.tx| == |s.tx|
    ensures s.sent <= r.sent && s.got <= r.got
    ensures r.port.clockReads >= s.port.clockReads
    ensures r.port.srReads == s.port.srReads + 2 * (r.port.clockReads - s.port.clockReads)
    decreases Budget(env.ticks, start, timeout, s.port.clockReads)
  {
    if s.sent == n && s.got == n then s
    else
      var t := Step(env, n, sixteen, same, s);
      if TimedOut(env.ticks(s.port.clockReads), start, timeout) then t
      else ClockStep(env.ticks, s.port.clockReads); DuplexLoop(env, n, sixteen, same, start, timeout, t)
  }

  /**
   * One pass of the transmit-receive loop from `s` to `s'`: the transmit
   * turn, the receive turn and a clock read; `stop` says the timeout has
   * elapsed.
   */
  predicate DuplexPolled(env: Env, n: nat, sixteen: bool, same: bool, start: nat, timeout: nat,
                         s: Duplex, stop: bool, s': Duplex)
    requires Fits(s, n, sixteen, same)
  {
    s' == Step(env, n, sixteen, same, s) && stop == TimedOut(env.ticks(s.port.clockReads), start, timeout)
  }

  /** The transmit-receive loop, while words remain, is its first pass followed by the rest, unless that pass gave up. */
  lemma DuplexPollStep(env: Env, n: nat, sixteen: bool, same: bool, start: nat, timeout: nat,
                       s: Duplex, stop: bool, s': Duplex)
    requires ClockAdvances(env.ticks) && Fits(s, n, sixteen, same) && !(s.sent == n && s.got == n)
    requires DuplexPolled(env, n, sixteen, same, start, timeout, s, stop, s')
    ensures Fits(s', n, sixteen, same)
    ensures DuplexLoop(env, n, sixteen, same, start, timeout, s)
            == if stop then s' else DuplexLoop(env, n, sixteen, same, start, timeout, s')
    ensures !stop ==> Budget(env.ticks, start, timeout, s'.port.clockReads) < Budget(env.ticks, start, timeout, s.port.clockReads)
  {
    ClockStep(env.ticks, s.port.clockReads);
  }

  /*************************************************************************
   * Properties of the transmit-receive loop
   *************************************************************************/

  /** The data-register log from before the loop survives as a prefix of the log after it. */
  lemma {:induction false} DuplexLogPrefix(env: Env, n: nat, sixteen: bool, same: bool, start: nat, timeout: nat,
                                           s: Duplex, r: Duplex)
    requires ClockAdvances(env.ticks)
    requires Fits(s, n, sixteen, same)
    requires r == DuplexLoop(env, n, sixteen, same, start, timeout, s)
    ensures s.port.log <= r.port.log
    decreases Budget(env.ticks, start, timeout, s.port.clockReads)
  {
    if !(s.sent == n && s.got == n) {
      var t := Step(env, n, sixteen, same, s);
      var stop := TimedOut(env.ticks(s.port.clockReads), start, timeout);
      DuplexPollStep(env, n, sixteen, same, start, timeout, s, stop, t);
      if !stop {
        DuplexLogPrefix(env, n, sixteen, same, start, timeout, t, r);
      }
    }
  }

  lemma WrittenValuesAppend(log: seq<DrAccess>, a: DrAccess)
    ensures WrittenValues(log + [a]) == WrittenValues(log) + (if a.Wrote? then [a.value] else [])
  {
    assert (log + [a])[..|log|] == log;
  }

  lemma ReadValuesAppend(log: seq<DrAccess>, a: DrAccess)
    ensures ReadValues(log + [a]) == ReadValues(log) + (if a.Read? then [a.value] else [])
  {
    assert (log + [a])[..|log|] == log;
  }

  /** `txallowed` is false only while one word is out that has not been answered by a receive. */
  predicate TurnBound(s: Duplex)
  {
    s.sent <= s.got + (if s.txAllowed then 0 else 1)
  }

  /**
   * The log from position `mark` on alternates, and while it is our turn to
   * transmit the last access since `mark` (if any) was a read.
   */
  predicate Alternating(s: Duplex, mark: nat)
  {
    && mark <= |s.port.log|
    && Alternates(s.port.log[mark..])
    && (s.txAllowed ==> |s.port.log| == mark || s.port.log[|s.port.log| - 1].Read?)
  }

  lemma StepTurn(env: Env, n: nat, sixteen: bool, same: bool, s: Duplex)
    requires Fits(s, n, sixteen, same) && TurnBound(s)
    ensures TurnBound(Step(env, n, sixteen, same, s))
  {
  }

  lemma StepAlternating(env: Env, n: nat, sixteen: bool, same: bool, s: Duplex, mark: nat)
    requires Fits(s, n, sixteen, same) && Alternating(s, mark)
    ensures Alternating(Step(env, n, sixteen, same, s), mark)
  {
    var t1 := TxTurn(env, n, sixteen, same, s);
    var t2 := RxTurn(env, n, sixteen, same, t1);
    if t1.sent == s.sent + 1 {
      AlternatesAppend(s.port.log, mark, t1.port.log[|t1.port.log| - 1]);
    }
    if t2.got == t1.got + 1 {
      AlternatesAppend(t1.port.log, mark, t2.port.log[|t2.port.log| - 1]);
    }
  }

  lemma AlternatesAppend(log: seq<DrAccess>, mark: nat, a: DrAccess)
    requires mark <= |log| && Alternates(log[mark..])
    requires a.Wrote? ==> |log| == mark || log[|log| - 1].Read?
    ensures Alternates((log + [a])[mark..])
  {
    assert (log + [a])[mark..] == log[mark..] + [a];
  }

  /** The transmitter is never more than one word ahead of the receiver. */
  lemma {:induction false} DuplexTurn(env: Env, n: nat, sixteen: bool, same: bool, start: nat, timeout: nat,
                                      s: Duplex, r: Duplex)
    requires ClockAdvances(env.ticks)
    requires Fits(s, n, sixteen, same) && TurnBound(s)
    requires r == DuplexLoop(env, n, sixteen, same, start, timeout, s)
    ensures TurnBound(r) && r.sent <= r.got + 1
    decreases Budget(env.ticks, start, timeout, s.port.clockReads)
  {
    if !(s.sent == n && s.got == n) {
      StepTurn(env, n, sixteen, same, s);
      var t := Step(env, n, sixteen, same, s);
      var stop := TimedOut(env.ticks(s.port.clockReads), start, timeout);
      DuplexPollStep(env, n, sixteen, same, start, timeout, s, stop, t);
      if !stop {
        DuplexTurn(env, n, sixteen, same, start, timeout, t, r);
      }
    }
  }

  /** Two data-register writes of the call always have a read between them. */
  lemma {:induction false} DuplexAlternates(env: Env, n: nat, sixteen: bool, same: bool, start: nat, timeout: nat,
                                            s: Duplex, mark: nat, r: Duplex)
    requires ClockAdvances(env.ticks)
    requires Fits(s, n, sixteen, same) && Alternating(s, mark)
    requires r == DuplexLoop(env, n, sixteen, same, start, timeout, s)
    ensures Alternating(r, mark)
    decreases Budget(env.ticks, start, timeout, s.port.clockReads)
  {
    if !(s.sent == n && s.got == n) {
      StepAlternating(env, n, sixteen, same, s, mark);
      var t := Step(env, n, sixteen, same, s);
      var stop := TimedOut(env.ticks(s.port.clockReads), start, timeout);
      DuplexPollStep(env, n, sixteen, same, start, timeout, s, stop, t);
      if !stop {
        DuplexAlternates(env, n, sixteen, same, start, timeout, t, mark, r);
      }
    }
  }

  lemma {:induction false} WordsSplit(buf: seq<bv8>, sixteen: bool, lo: nat, mid: nat, hi: nat)
    requires lo <= mid <= hi && Bytes(hi, sixteen) <= |buf|
    ensures Words(buf, sixteen, lo, mid) + Words(buf, sixteen, mid, hi) == Words(buf, sixteen, lo, hi)
    decreases mid - lo
  {
    if lo < mid {
      WordsSplit(buf, sixteen, lo + 1, mid, hi);
      Associative([WordAt(buf, lo, sixteen)], Words(buf, sixteen, lo + 1, mid), Words(buf, sixteen, mid, hi));
    }
  }

  lemma {:induction false} IncomingSplit(rxData: nat -> bv32, lo: nat, mid: nat, hi: nat)
    requires lo <= mid <= hi
    ensures Incoming(rxData, lo, mid) + Incoming(rxData, mid, hi) == Incoming(rxData, lo, hi)
    decreases mid - lo
  {
    if lo < mid {
      IncomingSplit(rxData, lo + 1, mid, hi);
      Associative([rxData(lo)], Incoming(rxData, lo + 1, mid), Incoming(rxData, mid, hi));
    }
  }

  lemma TxTurnReads(env: Env, n: nat, sixteen: bool, same: bool, s: Duplex)
    requires Fits(s, n, sixteen, same)
    ensures ReadValues(TxTurn(env, n, sixteen, same, s).port.log) == ReadValues(s.port.log)
  {
    if TxTurn(env, n, sixteen, same, s).sent == s.sent + 1 {
      ReadValuesAppend(s.port.log, Wrote(WordAt(s.tx, s.sent, sixteen)));
    }
  }

  lemma RxTurnReads(env: Env, n: nat, sixteen: bool, same: bool, s: Duplex)
    requires Fits(s, n, sixteen, same)
    ensures var t := RxTurn(env, n, sixteen, same, s);
            ReadValues(t.port.log) == ReadValues(s.port.log) + Incoming(env.rxData, s.port.drReads, t.port.drReads)
  {
    var t := RxTurn(env, n, sixteen, same, s);
    if t.got == s.got + 1 {
      ReadValuesAppend(s.port.log, Read(env.rxData(s.port.drReads)));
      assert Incoming(env.rxData, s.port.drReads, t.port.drReads) == [env.rxData(s.port.drReads)];
    } else {
      assert Incoming(env.rxData, s.port.drReads, t.port.drReads) == [];
    }
  }

  /** One iteration reads at most one word and logs the read. */
  lemma StepReceive(env: Env, n: nat, sixteen: bool, same: bool, s: Duplex)
    requires Fits(s, n, sixteen, same)
    ensures var t := Step(env, n, sixteen, same, s);
            && (t.got == s.got || t.got == s.got + 1)
            && t.port.drReads == s.port.drReads + (t.got - s.got)
            && ReadValues(t.port.log) == ReadValues(s.port.log) + Incoming(env.rxData, s.port.drReads, t.port.drReads)
  {
    var t1 := TxTurn(env, n, sixteen, same, s);
    TxTurnReads(env, n, sixteen, same, s);
    RxTurnReads(env, n, sixteen, same, t1);
  }

  /** One iteration stores at most one word, as the next word of `rx`, from the next data-register read. */
  lemma StepStore(env: Env, n: nat, sixteen: bool, same: bool, s: Duplex)
    requires Fits(s, n, sixteen, same)
    ensures var t := Step(env, n, sixteen, same, s);
            && (t.got == s.got || t.got == s.got + 1)
            && t.port.drReads == s.port.drReads + (t.got - s.got)
            && (t.got == s.got + 1 ==> t.rx == StoreWord(s.rx, s.got, sixteen, env.rxData(s.port.drReads)))
            && (t.got == s.got ==> t.rx == s.rx)
  {
  }

  /** With two distinct buffers, one iteration writes at most the next word of `tx`, which it leaves alone. */
  lemma StepSend(env: Env, n: nat, sixteen: bool, s: Duplex)
    requires Fits(s, n, sixteen, false)
    ensures var t := Step(env, n, sixteen, false, s);
            && t.tx == s.tx && s.sent <= t.sent
            && WrittenValues(t.port.log) == WrittenValues(s.port.log) + Words(s.tx, sixteen, s.sent, t.sent)
  {
    var t1 := TxTurn(env, n, sixteen, false, s);
    var t2 := RxTurn(env, n, sixteen, false, t1);
    if t1.sent == s.sent + 1 {
      WrittenValuesAppend(s.port.log, Wrote(WordAt(s.tx, s.sent, sixteen)));
      assert Words(s.tx, sixteen, s.sent, t1.sent) == [WordAt(s.tx, s.sent, sixteen)];
    } else {
      assert Words(s.tx, sixteen, s.sent, t1.sent) == [];
    }
    if t2.got == t1.got + 1 {
      WrittenValuesAppend(t1.port.log, Read(env.rxData(t1.port.drReads)));
    }
  }

  /** The values read, in order, are the data-register oracle from where the call started; one read per word received. */
  lemma {:induction false} DuplexReceived(env: Env, n: nat, sixteen: bool, same: bool, start: nat, timeout: nat,
                                          s: Duplex, r: Duplex)
    requires ClockAdvances(env.ticks)
    requires Fits(s, n, sixteen, same)
    requires r == DuplexLoop(env, n, sixteen, same, start, timeout, s)
    ensures r.port.drReads == s.port.drReads + (r.got - s.got)
    ensures ReadValues(r.port.log) == ReadValues(s.port.log) + Incoming(env.rxData, s.port.drReads, r.port.drReads)
    decreases Budget(env.ticks, start, timeout, s.port.clockReads)
  {
    if s.sent == n && s.got == n {
      assert Incoming(env.rxData, s.port.drReads, s.port.drReads) == [];
    } else {
      StepReceive(env, n, sixteen, same, s);
      var t := Step(env, n, sixteen, same, s);
      var stop := TimedOut(env.ticks(s.port.clockReads), start, timeout);
      DuplexPollStep(env, n, sixteen, same, start, timeout, s, stop, t);
      if !stop {
        DuplexReceived(env, n, sixteen, same, start, timeout, t, r);
        IncomingSplit(env.rxData, s.port.drReads, t.port.drReads, r.port.drReads);
        Associative(ReadValues(s.port.log), Incoming(env.rxData, s.port.drReads, t.port.drReads),
                    Incoming(env.rxData, t.port.drReads, r.port.drReads));
      }
    }
  }

  /** No byte of the receive buffer outside the words received changes. */
  lemma {:induction false} DuplexUntouched(env: Env, n: nat, sixteen: bool, same: bool, start: nat, timeout: nat,
                                           s: Duplex, r: Duplex)
    requires ClockAdvances(env.ticks)
    requires Fits(s, n, sixteen, same)
    requires r == DuplexLoop(env, n, sixteen, same, start, timeout, s)
    ensures forall i :: 0 <= i < |s.rx| && !(Bytes(s.got, sixteen) <= i < Bytes(r.got, sixteen)) ==> r.rx[i] == s.rx[i]
    decreases Budget(env.ticks, start, timeout, s.port.clockReads)
  {
    if !(s.sent == n && s.got == n) {
      var t := Step(env, n, sixteen, same, s);
      var stop := TimedOut(env.ticks(s.port.clockReads), start, timeout);
      DuplexPollStep(env, n, sixteen, same, start, timeout, s, stop, t);
      if !stop {
        DuplexUntouched(env, n, sixteen, same, start, timeout, t, r);
        StepUntouched(env, n, sixteen, same, s, t, r.got, r.rx);
      } else {
        StepUntouched(env, n, sixteen, same, s, t, t.got, t.rx);
      }
    }
  }

  /** `UntouchedAcrossStep` for one iteration of the transmit-receive loop. */
  lemma StepUntouched(env: Env, n: nat, sixteen: bool, same: bool, s: Duplex, t: Duplex, hi: nat, final: seq<bv8>)
    requires Fits(s, n, sixteen, same) && t == Step(env, n, sixteen, same, s)
    requires t.got <= hi <= n && |final| == |s.rx|
    requires forall i :: 0 <= i < |t.rx| && !(Bytes(t.got, sixteen) <= i < Bytes(hi, sixteen)) ==> final[i] == t.rx[i]
    ensures forall i :: 0 <= i < |s.rx| && !(Bytes(s.got, sixteen) <= i < Bytes(hi, sixteen)) ==> final[i] == s.rx[i]
  {
    StepStore(env, n, sixteen, same, s);
    UntouchedAcrossStep(sixteen, s.got, s.rx, t.got, t.rx, env.rxData(s.port.drReads), hi, final);
  }

  /**
   * One receive step seen from the end of the loop: if `final` agrees with
   * the buffer after the step outside the words stored later, it agrees
   * with the buffer before the step outside those words and the step's own.
   */
  lemma UntouchedAcrossStep(sixteen: bool, got: nat, rx: seq<bv8>, got': nat, rx': seq<bv8>, w: bv32,
                            hi: nat, final: seq<bv8>)
    requires got' == got || got' == got + 1
    requires got' <= hi && Bytes(hi, sixteen) <= |rx| && |rx'| == |rx| && |final| == |rx|
    requires got' == got + 1 ==> rx' == StoreWord(rx, got, sixteen, w)
    requires got' == got ==> rx' == rx
    requires forall i :: 0 <= i < |rx'| && !(Bytes(got', sixteen) <= i < Bytes(hi, sixteen)) ==> final[i] == rx'[i]
    ensures forall i :: 0 <= i < |rx| && !(Bytes(got, sixteen) <= i < Bytes(hi, sixteen)) ==> final[i] == rx[i]
  {
  }

  /**
   * Stored words across one iteration `s` to `t` followed by the rest of the
   * loop: if the words from `t.got` hold the reads from `t.port.drReads`
   * onwards, the words from `s.got` hold the reads from `s.port.drReads` onwards.
   */
  lemma StoresAcrossStep(rxData: nat -> bv32, sixteen: bool, got: nat, rx: seq<bv8>, base: nat,
                         got': nat, rx': seq<bv8>, base': nat, hi: nat, final: seq<bv8>)
    requires got' == got || got' == got + 1
    requires got' <= hi && Bytes(hi, sixteen) <= |rx| && |final| == |rx| && |rx'| == |rx|
    requires base' == base + (got' - got)
    requires got' == got + 1 ==> rx' == StoreWord(rx, got, sixteen, rxData(base))
    requires got' == got ==> rx' == rx
    requires forall k :: got' <= k < hi ==> WordAt(final, k, sixteen) == Truncate(rxData(base' + (k - got')), sixteen)
    requires forall i :: 0 <= i < |rx'| && !(Bytes(got', sixteen) <= i < Bytes(hi, sixteen)) ==> final[i] == rx'[i]
    ensures forall k :: got <= k < hi ==> WordAt(final, k, sixteen) == Truncate(rxData(base + (k - got)), sixteen)
  {
    forall k | got' <= k < hi
      ensures WordAt(final, k, sixteen) == Truncate(rxData(base + (k - got)), sixteen)
    {
      assert base' + (k - got') == base + (k - got);
    }
    if got' == got + 1 {
      StoreStep(rxData, base, rx, got, rx', hi, sixteen, final);
    }
  }

  /** Word `s.got + k` of the receive buffer holds the k-th value read, cut to the word size. */
  lemma {:induction false} DuplexStores(env: Env, n: nat, sixteen: bool, same: bool, start: nat, timeout: nat,
                                        s: Duplex, r: Duplex)
    requires ClockAdvances(env.ticks)
    requires Fits(s, n, sixteen, same)
    requires r == DuplexLoop(env, n, sixteen, same, start, timeout, s)
    ensures forall k :: s.got <= k < r.got ==>
              WordAt(r.rx, k, sixteen) == Truncate(env.rxData(s.port.drReads + (k - s.got)), sixteen)
    decreases Budget(env.ticks, start, timeout, s.port.clockReads)
  {
    if !(s.sent == n && s.got == n) {
      var t := Step(env, n, sixteen, same, s);
      var stop := TimedOut(env.ticks(s.port.clockReads), start, timeout);
      DuplexPollStep(env, n, sixteen, same, start, timeout, s, stop, t);
      if !stop {
        DuplexStores(env, n, sixteen, same, start, timeout, t, r);
        DuplexUntouched(env, n, sixteen, same, start, timeout, t, r);
        StepStores(env, n, sixteen, same, s, t, r.got, r.rx);
      } else {
        StepStores(env, n, sixteen, same, s, t, t.got, t.rx);
      }
    }
  }

  /** `StoresAcrossStep` for one iteration of the transmit-receive loop. */
  lemma StepStores(env: Env, n: nat, sixteen: bool, same: bool, s: Duplex, t: Duplex, hi: nat, final: seq<bv8>)
    requires Fits(s, n, sixteen, same) && t == Step(env, n, sixteen, same, s)
    requires t.got <= hi <= n && |final| == |s.rx|
    requires forall k :: t.got <= k < hi ==>
               WordAt(final, k, sixteen) == Truncate(env.rxData(t.port.drReads + (k - t.got)), sixteen)
    requires forall i :: 0 <= i < |t.rx| && !(Bytes(t.got, sixteen) <= i < Bytes(hi, sixteen)) ==> final[i] == t.rx[i]
    ensures forall k :: s.got <= k < hi ==>
              WordAt(final, k, sixteen) == Truncate(env.rxData(s.port.drReads + (k - s.got)), sixteen)
  {
    StepStore(env, n, sixteen, same, s);
    StoresAcrossStep(env.rxData, sixteen, s.got, s.rx, s.port.drReads, t.got, t.rx, t.port.drReads, hi, final);
  }

  /** With two distinct buffers, the values written are the words of `tx` in order, and `tx` is not changed. */
  lemma {:induction false} DuplexSent(env: Env, n: nat, sixteen: bool, start: nat, timeout: nat, s: Duplex, r: Duplex)
    requires ClockAdvances(env.ticks)
    requires Fits(s, n, sixteen, false)
    requires r == DuplexLoop(env, n, sixteen, false, start, timeout, s)
    ensures r.tx == s.tx
    ensures WrittenValues(r.port.log) == WrittenValues(s.port.log) + Words(s.tx, sixteen, s.sent, r.sent)
    decreases Budget(env.ticks, start, timeout, s.port.clockReads)
  {
    if s.sent == n && s.got == n {
      assert Words(s.tx, sixteen, s.sent, s.sent) == [];
    } else {
      StepSend(env, n, sixteen, s);
      var t := Step(env, n, sixteen, false, s);
      var stop := TimedOut(env.ticks(s.port.clockReads), start, timeout);
      DuplexPollStep(env, n, sixteen, false, start, timeout, s, stop, t);
      if !stop {
        DuplexSent(env, n, sixteen, start, timeout, t, r);
        WordsSplit(s.tx, sixteen, s.sent, t.sent, r.sent);
        Associative(WrittenValues(s.port.log), Words(s.tx, sixteen, s.sent, t.sent), Words(s.tx, sixteen, t.sent, r.sent));
      }
    }
  }

  /**
   * Every iteration ends with one clock read; all but the last were within
   * the timeout, and a transfer left incomplete means the last one was not.
   */
  lemma {:induction false} DuplexTimeout(env: Env, n: nat, sixteen: bool, same: bool, start: nat, timeout: nat,
                                         s: Duplex, r: Duplex)
    requires ClockAdvances(env.ticks)
    requires Fits(s, n, sixteen, same)
    requires r == DuplexLoop(env, n, sixteen, same, start, timeout, s)
    ensures !(s.sent == n && s.got == n) ==> r.port.clockReads > s.port.clockReads
    ensures forall c :: s.port.clockReads <= c < r.port.clockReads - 1 ==> !TimedOut(env.ticks(c), start, timeout)
    ensures r.sent < n || r.got < n ==>
              r.port.clockReads > s.port.clockReads && TimedOut(env.ticks(r.port.clockReads - 1), start, timeout)
    decreases Budget(env.ticks, start, timeout, s.port.clockReads)
  {
    if !(s.sent == n && s.got == n) {
      var t := Step(env, n, sixteen, same, s);
      var stop := TimedOut(env.ticks(s.port.clockReads), start, timeout);
      DuplexPollStep(env, n, sixteen, same, start, timeout, s, stop, t);
      if !stop {
        DuplexTimeout(env, n, sixteen, same, start, timeout, t, r);
      }
    }
  }

  /** With a zero timeout the loop runs exactly one iteration. */
  lemma DuplexTimeoutZero(env: Env, n: nat, sixteen: bool, same: bool, start: nat, s: Duplex)
    requires ClockAdvances(env.ticks)
    requires Fits(s, n, sixteen, same) && !(s.sent == n && s.got == n)
    requires start <= env.ticks(s.port.clockReads)
    ensures DuplexLoop(env, n, sixteen, same, start, 0, s) == Step(env, n, sixteen, same, s)
    ensures DuplexLoop(env, n, sixteen, same, start, 0, s).port.clockReads == s.port.clockReads + 1
  {
    assert TimedOut(env.ticks(s.port.clockReads), start, 0);
  }

  /**
   * When both flags are always set and the timeout does not expire first,
   * every iteration sends one word and receives one, and the loop ends after
   * exactly as many iterations as words remain.
   */
  lemma {:induction false} DuplexBothReady(env: Env, n: nat, sixteen: bool, same: bool, start: nat, timeout: nat,
                                           s: Duplex, r: Duplex)
    requires ClockAdvances(env.ticks)
    requires Fits(s, n, sixteen, same) && s.sent == s.got && s.txAllowed
    requires forall i :: s.port.srReads <= i < s.port.srReads + 2 * (n - s.got) ==>
               Txe(env.status(i)) && Rxne(env.status(i))
    requires forall c :: s.port.clockReads <= c < s.port.clockReads + (n - s.got) - 1 ==>
               !TimedOut(env.ticks(c), start, timeout)
    requires r == DuplexLoop(env, n, sixteen, same, start, timeout, s)
    ensures r.sent == n && r.got == n
    ensures r.port.clockReads == s.port.clockReads + (n - s.got)
    ensures |r.port.log| == |s.port.log| + 2 * (n - s.got)
    decreases n - s.got
  {
    if s.got < n {
      assert Txe(env.status(s.port.srReads)) && Rxne(env.status(s.port.srReads + 1));
      var t := Step(env, n, sixteen, same, s);
      assert t.sent == t.got == s.got + 1 && t.txAllowed && |t.port.log| == |s.port.log| + 2;
      if t.got < n {
        assert !TimedOut(env.ticks(s.port.clockReads), start, timeout);
        DuplexBothReady(env, n, sixteen, same, start, timeout, t, r);
      }
    }
  }
}
