/** The interrupt-driven JTAG UART driver as a step system. A writer thread, a reader thread and the device take
    steps in any order; the interrupt routine may start between any two thread steps and then runs to its end before
    a thread steps again, while the device goes on. */
module Uart {
  import opened Bytes
  import opened Rings

  // ---------------------------------------------------------------- state

  const INT_MAX := 0x7FFF_FFFF

  /** What a call returns: a number of bytes, -EWOULDBLOCK or -EIO. */
  datatype Answer = Count(n: nat) | WouldBlock | IoError

  /** The arguments of the last call of write(), and what it returned. */
  datatype WriteCall = WriteCall(data: seq<byte>, nonblock: bool, ret: Answer)

  datatype ReadCall = ReadCall(space: nat, nonblock: bool, ret: Answer)

  /** altera_avalon_jtag_uart_write: `rest` are the bytes not yet accepted, `n` the stretch being copied, `k` of it
      done. */
  datatype Writer =
    | WIdle
    | WLoop(rest: seq<byte>, out: nat)
    | WReadOut(rest: seq<byte>, inp: nat)
    | WCopy(rest: seq<byte>, inp: nat, out: nat, n: nat, k: nat)
    | WEnable(rest: seq<byte>, out: nat)
    | WSpin(rest: seq<byte>, out: nat)
    | WAfter(rest: seq<byte>)

  /** altera_avalon_jtag_uart_read: `got` are the bytes handed to the caller, `tmp` those copied but not yet
      released. */
  datatype Reader =
    | RIdle
    | RLoop(space: nat)
    | RReadIn(space: nat, got: seq<byte>)
    | RReadOut(space: nat, got: seq<byte>, inp: nat)
    | RCopy(space: nat, got: seq<byte>, inp: nat, out: nat, n: nat, tmp: seq<byte>)
    | RCheck(got: seq<byte>, space: nat, inp: nat)
    | RSpin(space: nat, inp: nat)
    | RWake(space: nat, inp: nat)
    | REnable(got: seq<byte>)

  /** altera_avalon_jtag_uart_irq: `wi` and `wspace` are what the control register said, `avail` the last RAVAIL
      field. */
  datatype Isr =
    | IIdle
    | ITop
    | IRx(wi: bool, wspace: nat, avail: nat)
    | IRxStore(wi: bool, wspace: nat, avail: nat, c: byte)
    | IRxEnd(wi: bool, wspace: nat, avail: nat)
    | ITxStart(wi: bool, wspace: nat)
    | ITx(space: nat)

  /** The device: its FIFOs, the interrupts it has pending, whether the host has shown activity, and the bytes exchanged
      with the host. */
  datatype Device = Device(
    rxFifo: seq<byte>, txFifo: seq<byte>, depth: nat, ri: bool, wi: bool, ac: bool, hostOut: seq<byte>, hostIn: seq<byte>)

  datatype State = State(
    rx: Ring, tx: Ring, re: bool, we: bool,         // rings and interrupt enables
    w: Writer, wc: WriteCall, accepted: seq<byte>,  // the writer, and all bytes it has taken over
    r: Reader, rc: ReadCall, delivered: seq<byte>,  // the reader, and all bytes it has handed out
    i: Isr, inactive: nat, timeout: nat,            // seconds without a sign of the host
    dev: Device)

  ghost predicate Init(s: State) {
    && RingOk(s.rx) && RingOk(s.tx) && s.rx.inp == s.rx.out == s.tx.inp == s.tx.out == 0
    && s.re && !s.we && s.inactive == 0
    && s.w == WIdle && s.r == RIdle && s.i == IIdle
    && s.dev.rxFifo == [] && s.dev.txFifo == [] && s.accepted == [] && s.dev.hostOut == [] && s.dev.hostIn == [] && s.delivered == []
  }

  // ---------------------------------------------------------------- steps

  /** Space for a contiguous copy as the writer computes it from its snapshot of the indices. */
  function WriteSpace(inp: nat, out: nat): int {
    if inp < out then out - 1 - inp
    else if out > 0 then LEN - inp
    else LEN - 1 - inp
  }

  /** Bytes available in one stretch as the reader computes it. */
  function ReadAvail(inp: nat, out: nat): int {
    if inp >= out then inp - out else LEN - out
  }

  function AnswerOf(n: nat, nonblock: bool): Answer {
    if n > 0 then Count(n) else if nonblock then WouldBlock else IoError
  }

  /** The answer of a call that has moved `n` bytes. */
  ghost predicate Answers(ret: Answer, n: nat, nonblock: bool) {
    (n > 0 ==> ret == Count(n)) && (n == 0 ==> ret == if nonblock then WouldBlock else IoError)
  }

  /** write() returns with `rest` left over. */
  function WriteReturns(s: State, rest: seq<byte>): State {
    s.(w := WIdle, wc := s.wc.(ret := AnswerOf(if |rest| < |s.wc.data| then |s.wc.data| - |rest| else 0, s.wc.nonblock)))
  }

  /** read() returns with `got` in the caller's buffer. */
  function ReadReturns(s: State, got: seq<byte>): State {
    s.(r := RIdle, rc := s.rc.(ret := AnswerOf(|got|, s.rc.nonblock)))
  }

  ghost predicate WriterStep(s: State, t: State) {
    s.i == IIdle &&
    match s.w
    case WIdle =>
      exists data: seq<byte>, nonblock: bool :: t == s.(w := WLoop(data, 0), wc := WriteCall(data, nonblock, Count(0)))
    case WLoop(rest, out) =>
      t == if rest == [] then s.(w := WEnable(rest, out)) else s.(w := WReadOut(rest, s.tx.inp))
    case WReadOut(rest, inp) =>
      var out := s.tx.out;
      var n := WriteSpace(inp, out);
      t == if n <= 0 then s.(w := WEnable(rest, out))
           else s.(w := WCopy(rest, inp, out, if n > |rest| then |rest| else n, 0))
    case WCopy(rest, inp, out, n, k) =>
      inp < LEN && n <= |rest| && |s.tx.buf| == LEN && n <= LEN &&
      if k < n then
        inp + k < LEN && t == s.(tx := s.tx.(buf := s.tx.buf[inp + k := rest[k]]), w := WCopy(rest, inp, out, n, k + 1))
      else
        t == s.(tx := s.tx.(inp := Advance(inp, n)), w := WLoop(rest[n..], out), accepted := s.accepted + rest[..n])
    case WEnable(rest, out) =>
      // interrupts are disabled around the update; with data left the call blocks or, if non-blocking, returns
      t == if rest == [] || s.wc.nonblock then WriteReturns(s.(we := true), rest)
           else s.(we := true, w := WSpin(rest, out))
    case WSpin(rest, out) =>
      // until the ISR has taken a byte or the host is found inactive
      t == if out == s.tx.out && s.inactive < s.timeout then s else s.(w := WAfter(rest))
    case WAfter(rest) =>
      t == if s.inactive != 0 then WriteReturns(s, rest) else s.(w := WLoop(rest, 0))
  }

  ghost predicate ReaderStep(s: State, t: State) {
    s.i == IIdle &&
    match s.r
    case RIdle =>
      exists space: nat, nonblock: bool :: t == s.(r := RLoop(space), rc := ReadCall(space, nonblock, Count(0)))
    case RLoop(space) =>
      t == if space > 0 then s.(r := RReadIn(space, [])) else ReadReturns(s, [])
    case RReadIn(space, got) => t == s.(r := RReadOut(space, got, s.rx.inp))
    case RReadOut(space, got, inp) =>
      var out := s.rx.out;
      var n := ReadAvail(inp, out);
      t == if n <= 0 then s.(r := RCheck(got, space, inp))
           else s.(r := RCopy(space, got, inp, out, if n > space then space else n, []))
    case RCopy(space, got, inp, out, n, tmp) =>
      out < LEN && n <= LEN && n <= space && |s.rx.buf| == LEN &&
      if |tmp| < n then
        out + |tmp| < LEN && t == s.(r := RCopy(space, got, inp, out, n, tmp + [s.rx.buf[out + |tmp|]]))
      else
        t == s.(rx := s.rx.(out := Advance(out, n)), delivered := s.delivered + tmp,
                r := if space - n > 0 then RReadIn(space - n, got + tmp) else RCheck(got + tmp, 0, inp))
    case RCheck(got, space, inp) =>
      t == if got != [] then s.(r := REnable(got))
           else if s.rc.nonblock then ReadReturns(s, [])
           else s.(r := RSpin(space, inp))
    case RSpin(space, inp) =>
      // until more data arrives or the host is found inactive
      t == if inp == s.rx.inp && s.inactive < s.timeout then s else s.(r := RWake(space, inp))
    case RWake(space, inp) =>
      t == if inp == s.rx.inp then ReadReturns(s, []) else s.(r := RLoop(space))
    case REnable(got) => t == ReadReturns(s.(re := true), got)
  }

  ghost predicate IsrStep(s: State, t: State) {
    match s.i
    case IIdle => t == s.(i := ITop)
    case ITop =>
      // the control register: which interrupts are pending, and the space in the transmit FIFO
      |s.dev.txFifo| <= s.dev.depth &&
      t == if !s.dev.ri && !s.dev.wi then s.(i := IIdle)
           else if s.dev.ri then s.(i := IRx(s.dev.wi, s.dev.depth - |s.dev.txFifo|, 1))
           else s.(i := ITxStart(s.dev.wi, s.dev.depth - |s.dev.txFifo|))
    case IRx(wi, wspace, avail) =>
      s.rx.inp < LEN &&
      t == if Advance(s.rx.inp, 1) == s.rx.out then s.(i := IRxEnd(wi, wspace, avail))
           else if s.dev.rxFifo == [] then s.(i := IRxEnd(wi, wspace, 0))
           else s.(dev := s.dev.(rxFifo := s.dev.rxFifo[1..]), i := IRxStore(wi, wspace, |s.dev.rxFifo| - 1, s.dev.rxFifo[0]))
    case IRxStore(wi, wspace, avail, c) =>
      s.rx.inp < LEN && |s.rx.buf| == LEN &&
      t == s.(rx := s.rx.(buf := s.rx.buf[s.rx.inp := c], inp := Advance(s.rx.inp, 1)), i := IRx(wi, wspace, avail))
    case IRxEnd(wi, wspace, avail) =>
      t == s.(re := if avail != 0 then false else s.re, i := ITxStart(wi, wspace))
    case ITxStart(wi, wspace) => t == s.(i := if wi then ITx(wspace) else ITop)
    case ITx(space) =>
      s.tx.out < LEN && |s.tx.buf| == LEN &&
      t == if space > 0 && s.tx.out != s.tx.inp then
             s.(dev := s.dev.(txFifo := s.dev.txFifo + [s.tx.buf[s.tx.out]]), tx := s.tx.(out := Advance(s.tx.out, 1)), i := ITx(space - 1))
           else s.(we := if space > 0 then false else s.we, i := ITop)
  }

  ghost predicate DeviceStep(s: State, t: State) {
    || (exists c: byte :: t == s.(dev := s.dev.(hostIn := s.dev.hostIn + [c], rxFifo := s.dev.rxFifo + [c])))
    || (s.dev.txFifo != [] && t == s.(dev := s.dev.(hostOut := s.dev.hostOut + [s.dev.txFifo[0]], txFifo := s.dev.txFifo[1..])))
    || (exists ri: bool, wi: bool, ac: bool :: t == s.(dev := s.dev.(ri := ri, wi := wi, ac := ac)))
  }

  /** The routine called every second counts the seconds without activity of the host. */
  ghost predicate TimerStep(s: State, t: State) {
    t == if s.dev.ac then s.(dev := s.dev.(ac := false), inactive := 0)
         else if s.inactive < INT_MAX - 2 then s.(inactive := s.inactive + 1)
         else s
  }

  ghost predicate Next(s: State, t: State) {
    WriterStep(s, t) || ReaderStep(s, t) || IsrStep(s, t) || DeviceStep(s, t) || TimerStep(s, t)
  }

  /** A run of the system. */
  ghost predicate Execution(run: seq<State>) {
    run != [] && Init(run[0]) && forall j :: 0 <= j < |run| - 1 ==> Next(run[j], run[j + 1])
  }

  // ---------------------------------------------------------------- the invariant

  /** The byte the interrupt routine has taken from the device but not stored yet. */
  function InFlight(i: Isr): seq<byte> {
    if i.IRxStore? then [i.c] else []
  }

  /** The writer's copy stays inside the free part of its ring, and what it has copied is what it will publish. */
  ghost predicate WriterOk(w: Writer, q: Ring)
    requires RingOk(q)
  {
    match w
    case WReadOut(rest, inp) => rest != [] && inp == q.inp
    case WCopy(rest, inp, out, n, k) =>
      && inp == q.inp && k <= n && 0 < n <= |rest| && inp + n <= LEN && |Contents(q)| + n < LEN
      && q.buf[inp..inp + k] == rest[..k]
    case WEnable(rest, out) => rest != [] ==> FullSince(q, out)
    case WSpin(rest, out) => rest != [] && FullSince(q, out)
    case _ => true
  }

  /** The ring was full when its output index was `out`; since then it has only been drained. */
  ghost predicate FullSince(q: Ring, out: nat)
    requires RingOk(q)
  {
    out < LEN && |Contents(q)| == LEN - 1 - Distance(out, q.out)
  }

  /** The reader copies unread bytes only. */
  ghost predicate ReaderOk(r: Reader, q: Ring)
    requires RingOk(q)
  {
    match r
    case RReadIn(space, got) => space > 0
    case RReadOut(space, got, inp) => space > 0 && inp < LEN && Distance(q.out, inp) <= |Contents(q)|
    case RCopy(space, got, inp, out, n, tmp) =>
      && out == q.out && |tmp| <= n && 0 < n <= space && n <= |Contents(q)| && out + n <= LEN
      && tmp == Contents(q)[..|tmp|]
    case RCheck(got, space, inp) => got == [] ==> EmptySince(q, inp)
    case RSpin(space, inp) => EmptySince(q, inp)
    case RWake(space, inp) => EmptySince(q, inp)
    case _ => true
  }

  /** The ring was empty when its input index was `inp`; since then it has only been filled. */
  ghost predicate EmptySince(q: Ring, inp: nat)
    requires RingOk(q)
  {
    inp < LEN && |Contents(q)| == Distance(inp, q.inp)
  }

  /** The interrupt routine never sends more than the FIFO takes, and stops receiving only when the ring is full. */
  ghost predicate IsrOk(i: Isr, queued: nat, depth: nat, q: Ring)
    requires RingOk(q)
  {
    && queued <= depth
    && match i
       case IRx(_, wspace, avail) => queued + wspace <= depth
       case IRxStore(_, wspace, _, _) => queued + wspace <= depth && |Contents(q)| < LEN - 1
       case IRxEnd(_, wspace, avail) => queued + wspace <= depth && (avail != 0 ==> |Contents(q)| == LEN - 1)
       case ITxStart(_, wspace) => queued + wspace <= depth
       case ITx(space) => queued + space <= depth
       case _ => true
  }

  /** The writer has published bytes and is still on its way to enable the transmit interrupt. */
  predicate WriterWillEnable(w: Writer) {
    w.WLoop? || w.WReadOut? || w.WCopy? || w.WEnable?
  }

  /** The reader has released space and is still on its way to enable the receive interrupt. */
  predicate ReaderWillEnable(r: Reader) {
    (r.RReadIn? || r.RReadOut? || r.RCopy? || r.RCheck? || r.REnable?) && r.got != []
  }

  /** The transmit interrupt is off only while there is nothing to send, or the writer is about to turn it on. */
  ghost predicate TxServed(we: bool, q: Ring, w: Writer)
    requires RingOk(q)
  {
    !we ==> Contents(q) == [] || WriterWillEnable(w)
  }

  /** The receive interrupt is off only while there is no room, or the reader is about to turn it on. */
  ghost predicate RxServed(re: bool, q: Ring, r: Reader)
    requires RingOk(q)
  {
    !re ==> |Contents(q)| == LEN - 1 || ReaderWillEnable(r)
  }

  ghost predicate Inv(s: State) {
    && RingOk(s.rx) && RingOk(s.tx)
    && s.accepted == s.dev.hostOut + s.dev.txFifo + Contents(s.tx)
    && s.dev.hostIn == s.delivered + Contents(s.rx) + InFlight(s.i) + s.dev.rxFifo
    && WriterOk(s.w, s.tx) && ReaderOk(s.r, s.rx) && IsrOk(s.i, |s.dev.txFifo|, s.dev.depth, s.rx)
    && TxServed(s.we, s.tx, s.w) && RxServed(s.re, s.rx, s.r)
  }

  // ---------------------------------------------------------------- every step keeps it

  lemma InitInv(s: State)
    requires Init(s)
    ensures Inv(s)
  {
  }

  lemma WriterKeepsInv(s: State, t: State)
    requires Inv(s) && WriterStep(s, t)
    ensures Inv(t)
  {
    hide Inv;
    match s.w
    case WReadOut(rest, inp) => WriterSnapshot(s, t);
    case WIdle => WriterBegins(s, t);
    case WCopy(rest, inp, out, n, k) => WriterInCopy(s); if k < n { WriterCopies(s, t); } else { WriterPublishes(s, t); }
    case WEnable(rest, out) => WriterEnables(s, t);
    case _ => WriterMoves(s, t);
  }

  lemma WriterInCopy(s: State)
    requires Inv(s) && s.w.WCopy?
    ensures s.w.k <= s.w.n
  {
  }

  lemma WriterMoves(s: State, t: State)
    requires Inv(s) && (s.w.WLoop? || s.w.WSpin? || s.w.WAfter?) && WriterStep(s, t)
    ensures Inv(t)
  {
    hide ReaderOk, IsrOk, RxServed, Contents, Distance, Advance, WriteSpace;
  }

  lemma WriterEnables(s: State, t: State)
    requires Inv(s) && s.w.WEnable? && WriterStep(s, t)
    ensures Inv(t)
  {
    hide ReaderOk, IsrOk, RxServed, Contents, Distance, Advance, WriteSpace;
  }

  lemma WriterBegins(s: State, t: State)
    requires Inv(s) && s.w.WIdle? && WriterStep(s, t)
    ensures Inv(t)
  {
    hide ReaderOk, IsrOk, RxServed, Contents;
  }

  lemma WriterSnapshot(s: State, t: State)
    requires Inv(s) && s.w.WReadOut? && WriterStep(s, t)
    ensures Inv(t)
  {
    hide ReaderOk, IsrOk, Contents, RxServed;
    ContentsLength(s.tx);
  }

  lemma WriterCopies(s: State, t: State)
    requires Inv(s) && s.w.WCopy? && s.w.k < s.w.n && WriterStep(s, t)
    ensures Inv(t)
  {
    hide ReaderOk, IsrOk, Contents, Advance, Distance, RxServed;
    var inp, k, rest := s.w.inp, s.w.k, s.w.rest;
    StoreFree(s.tx, inp + k, rest[k]);
    assert t.tx.buf[inp..inp + k + 1] == s.tx.buf[inp..inp + k] + [rest[k]];
    assert rest[..k + 1] == rest[..k] + [rest[k]];
  }

  lemma WriterPublishes(s: State, t: State)
    requires Inv(s) && s.w.WCopy? && s.w.k == s.w.n && WriterStep(s, t)
    ensures Inv(t)
  {
    hide ReaderOk, IsrOk, Contents, Advance, Distance, RxServed;
    Publish(s.tx, s.w.n, s.w.rest[..s.w.n]);
  }

  lemma ReaderKeepsInv(s: State, t: State)
    requires Inv(s) && ReaderStep(s, t)
    ensures Inv(t)
  {
    hide Inv, ReaderStep;
    match s.r
    case RReadOut(space, got, inp) => ReaderSnapshot(s, t);
    case RCopy(space, got, inp, out, n, tmp) => ReaderCopies(s, t);
    case RIdle => ReaderBegins(s, t);
    case RReadIn(space, got) => ReaderReadsIn(s, t);
    case RCheck(got, space, inp) => ReaderEnds(s, t);
    case REnable(got) => ReaderEnds(s, t);
    case _ => ReaderWaits(s, t);
  }

  lemma ReaderWaits(s: State, t: State)
    requires Inv(s) && (s.r.RLoop? || s.r.RSpin? || s.r.RWake?) && ReaderStep(s, t)
    ensures Inv(t)
  {
    hide Contents, Advance, WriterOk, IsrOk, TxServed, Distance, ReadAvail;
  }

  lemma ReaderEnds(s: State, t: State)
    requires Inv(s) && (s.r.RCheck? || s.r.REnable?) && ReaderStep(s, t)
    ensures Inv(t)
  {
    hide Contents, Advance, WriterOk, IsrOk, TxServed, Distance, ReadAvail;
  }

  lemma ReaderBegins(s: State, t: State)
    requires Inv(s) && s.r.RIdle? && ReaderStep(s, t)
    ensures Inv(t)
  {
    hide Contents, WriterOk, IsrOk, TxServed;
  }

  lemma ReaderReadsIn(s: State, t: State)
    requires Inv(s) && s.r.RReadIn? && ReaderStep(s, t)
    ensures Inv(t)
  {
    hide Contents, Advance, WriterOk, IsrOk, TxServed;
    ContentsLength(s.rx);
  }

  lemma ReaderSnapshot(s: State, t: State)
    requires Inv(s) && s.r.RReadOut? && ReaderStep(s, t)
    ensures Inv(t)
  {
    hide Contents, Advance, WriterOk, IsrOk, TxServed;
    ContentsLength(s.rx);
  }

  lemma ReaderCopies(s: State, t: State)
    requires Inv(s) && s.r.RCopy? && ReaderStep(s, t)
    ensures Inv(t)
  {
    hide Contents, Advance, Distance, WriterOk, TxServed, ReadAvail;
    var out, n, tmp := s.r.out, s.r.n, s.r.tmp;
    Consume(s.rx, n);
    if |tmp| < n {
      assert s.rx.buf[out..out + n][|tmp|] == Contents(s.rx)[..n][|tmp|];
    }
  }

  lemma IsrKeepsInv(s: State, t: State)
    requires Inv(s) && IsrStep(s, t)
    ensures Inv(t)
  {
    hide Inv, IsrStep;
    match s.i
    case IRx(wi, wspace, avail) => IsrReceives(s, t);
    case IRxStore(wi, wspace, avail, c) => IsrStores(s, t);
    case ITx(space) => IsrTransmits(s, t);
    case _ => IsrMoves(s, t);
  }

  lemma IsrMoves(s: State, t: State)
    requires Inv(s) && !s.i.IRx? && !s.i.IRxStore? && !s.i.ITx? && IsrStep(s, t)
    ensures Inv(t)
  {
    hide Contents, Advance, Distance, WriterOk, ReaderOk, TxServed;
  }

  lemma IsrReceives(s: State, t: State)
    requires Inv(s) && s.i.IRx? && IsrStep(s, t)
    ensures Inv(t)
  {
    hide Contents, WriterOk, ReaderOk;
    ContentsLength(s.rx);
  }

  lemma IsrStores(s: State, t: State)
    requires Inv(s) && s.i.IRxStore? && IsrStep(s, t)
    ensures Inv(t)
  {
    hide Contents, Advance, WriterOk;
    var q := s.rx.(buf := s.rx.buf[s.rx.inp := s.i.c]);
    StoreFree(s.rx, s.rx.inp, s.i.c);
    Publish(q, 1, [s.i.c]);
    ContentsLength(s.rx);
    ContentsLength(t.rx);
  }

  lemma IsrTransmits(s: State, t: State)
    requires Inv(s) && s.i.ITx? && IsrStep(s, t)
    ensures Inv(t)
  {
    hide Contents, Advance, ReaderOk, WriterOk, TxServed, RxServed;
    if s.i.space > 0 && s.tx.out != s.tx.inp {
      ByteTaken(s.tx, s.we, s.w);
    } else if s.i.space > 0 {
      NothingToSend(s.tx, s.w);
    }
  }

  /** The oldest byte leaves the transmit ring. */
  lemma ByteTaken(q: Ring, we: bool, w: Writer)
    requires RingOk(q) && WriterOk(w, q) && TxServed(we, q, w) && q.out != q.inp
    ensures var q' := q.(out := Advance(q.out, 1));
      RingOk(q') && WriterOk(w, q') && TxServed(we, q', w) && Contents(q) == [q.buf[q.out]] + Contents(q')
  {
    hide Contents, Advance;
    ContentsLength(q);
    Consume(q, 1);
    ContentsLength(q.(out := Advance(q.out, 1)));
  }

  lemma NothingToSend(q: Ring, w: Writer)
    requires RingOk(q) && q.out == q.inp
    ensures TxServed(false, q, w)
  {
  }

  lemma DeviceKeepsInv(s: State, t: State)
    requires Inv(s) && DeviceStep(s, t)
    ensures Inv(t)
  {
    hide Contents, Advance, Distance, WriterOk, ReaderOk, TxServed, RxServed, FullSince, EmptySince;
  }

  lemma TimerKeepsInv(s: State, t: State)
    requires Inv(s) && TimerStep(s, t)
    ensures Inv(t)
  {
    hide Contents, WriterOk, ReaderOk, IsrOk, TxServed, RxServed;
  }

  lemma {:induction false} ExecutionKeepsInv(run: seq<State>, j: nat)
    requires Execution(run) && j < |run|
    ensures Inv(run[j])
  {
    if j == 0 {
      InitInv(run[0]);
    } else {
      ExecutionKeepsInv(run, j - 1);
      var s, t := run[j - 1], run[j];
      assert Next(s, t);
      if WriterStep(s, t) {
        WriterKeepsInv(s, t);
      } else if ReaderStep(s, t) {
        ReaderKeepsInv(s, t);
      } else if IsrStep(s, t) {
        IsrKeepsInv(s, t);
      } else if DeviceStep(s, t) {
        DeviceKeepsInv(s, t);
      } else {
        TimerKeepsInv(s, t);
      }
    }
  }

  // ---------------------------------------------------------------- what it means

  /** Both directions are lossless FIFOs in every reachable state, whatever the interleaving. */
  lemma RingsAreLossless(run: seq<State>, j: nat)
    requires Execution(run) && j < |run|
    ensures var s := run[j];
      RingOk(s.tx) && RingOk(s.rx) &&
      s.accepted == s.dev.hostOut + s.dev.txFifo + Contents(s.tx) &&
      s.dev.hostIn == s.delivered + Contents(s.rx) + InFlight(s.i) + s.dev.rxFifo
  {
    ExecutionKeepsInv(run, j);
  }

  /** A writer that waits for room finds its ring full and the transmit interrupt on. */
  lemma BlockedWriterIsServed(run: seq<State>, j: nat)
    requires Execution(run) && j < |run| && run[j].w.WSpin? && run[j].w.out == run[j].tx.out
    ensures RingOk(run[j].tx) && |Contents(run[j].tx)| == LEN - 1 && run[j].we
  {
    ExecutionKeepsInv(run, j);
  }

  /** A reader that waits for data finds its ring empty and the receive interrupt on. */
  lemma BlockedReaderIsServed(run: seq<State>, j: nat)
    requires Execution(run) && j < |run| && run[j].r.RSpin? && run[j].r.inp == run[j].rx.inp
    ensures RingOk(run[j].rx) && Contents(run[j].rx) == [] && run[j].re
  {
    ExecutionKeepsInv(run, j);
  }

  /** Between calls an interrupt is off exactly when it may be: nothing to send, or no room to receive. */
  lemma NothingStranded(run: seq<State>, j: nat)
    requires Execution(run) && j < |run|
    ensures var s := run[j];
      RingOk(s.tx) && RingOk(s.rx) &&
      (!s.we && !WriterWillEnable(s.w) ==> Contents(s.tx) == []) &&
      (!s.re && !ReaderWillEnable(s.r) ==> |Contents(s.rx)| == LEN - 1)
  {
    ExecutionKeepsInv(run, j);
  }

  /** The interrupt routine never writes to a full transmit FIFO, where the byte would be lost. */
  lemma DeviceNeverOverrun(run: seq<State>, j: nat)
    requires Execution(run) && j < |run| && run[j].i.ITx? && run[j].i.space > 0
    ensures |run[j].dev.txFifo| < run[j].dev.depth
  {
    ExecutionKeepsInv(run, j);
  }

  /** No index or length check in the steps ever stops a thread or the interrupt routine. */
  lemma StepsNeverStuck(run: seq<State>, j: nat)
    requires Execution(run) && j < |run|
    ensures run[j].i == IIdle ==> (exists t :: WriterStep(run[j], t)) && (exists t :: ReaderStep(run[j], t))
    ensures exists t :: IsrStep(run[j], t)
  {
    ExecutionKeepsInv(run, j);
    hide Contents, Distance, TxServed, RxServed;
    var s := run[j];
    if s.i == IIdle {
      WriterCanStep(s);
      ReaderCanStep(s);
    }
    IsrCanStep(s);
  }

  lemma WriterCanStep(s: State)
    requires Inv(s) && s.i == IIdle
    ensures exists t :: WriterStep(s, t)
  {
    var t := match s.w
      case WIdle => s.(w := WLoop([], 0), wc := WriteCall([], false, Count(0)))
      case WLoop(rest, out) => if rest == [] then s.(w := WEnable(rest, out)) else s.(w := WReadOut(rest, s.tx.inp))
      case WReadOut(rest, inp) =>
        var n := WriteSpace(inp, s.tx.out);
        if n <= 0 then s.(w := WEnable(rest, s.tx.out)) else s.(w := WCopy(rest, inp, s.tx.out, if n > |rest| then |rest| else n, 0))
      case WCopy(rest, inp, out, n, k) =>
        if k < n then s.(tx := s.tx.(buf := s.tx.buf[inp + k := rest[k]]), w := WCopy(rest, inp, out, n, k + 1))
        else s.(tx := s.tx.(inp := Advance(inp, n)), w := WLoop(rest[n..], out), accepted := s.accepted + rest[..n])
      case WEnable(rest, out) =>
        if rest == [] || s.wc.nonblock then WriteReturns(s.(we := true), rest) else s.(we := true, w := WSpin(rest, out))
      case WSpin(rest, out) => if out == s.tx.out && s.inactive < s.timeout then s else s.(w := WAfter(rest))
      case WAfter(rest) => if s.inactive != 0 then WriteReturns(s, rest) else s.(w := WLoop(rest, 0));
    assert WriterStep(s, t);
  }

  lemma ReaderCanStep(s: State)
    requires Inv(s) && s.i == IIdle
    ensures exists t :: ReaderStep(s, t)
  {
    var t := match s.r
      case RIdle => s.(r := RLoop(0), rc := ReadCall(0, false, Count(0)))
      case RLoop(space) => if space > 0 then s.(r := RReadIn(space, [])) else ReadReturns(s, [])
      case RReadIn(space, got) => s.(r := RReadOut(space, got, s.rx.inp))
      case RReadOut(space, got, inp) =>
        var n := ReadAvail(inp, s.rx.out);
        if n <= 0 then s.(r := RCheck(got, space, inp)) else s.(r := RCopy(space, got, inp, s.rx.out, if n > space then space else n, []))
      case RCopy(space, got, inp, out, n, tmp) =>
        if |tmp| < n then s.(r := RCopy(space, got, inp, out, n, tmp + [s.rx.buf[out + |tmp|]]))
        else s.(rx := s.rx.(out := Advance(out, n)), delivered := s.delivered + tmp,
                r := if space - n > 0 then RReadIn(space - n, got + tmp) else RCheck(got + tmp, 0, inp))
      case RCheck(got, space, inp) =>
        if got != [] then s.(r := REnable(got)) else if s.rc.nonblock then ReadReturns(s, []) else s.(r := RSpin(space, inp))
      case RSpin(space, inp) => if inp == s.rx.inp && s.inactive < s.timeout then s else s.(r := RWake(space, inp))
      case RWake(space, inp) => if inp == s.rx.inp then ReadReturns(s, []) else s.(r := RLoop(space))
      case REnable(got) => ReadReturns(s.(re := true), got);
    assert ReaderStep(s, t);
  }

  lemma IsrCanStep(s: State)
    requires Inv(s)
    ensures exists t :: IsrStep(s, t)
  {
    var t := match s.i
      case IIdle => s.(i := ITop)
      case ITop =>
        if !s.dev.ri && !s.dev.wi then s.(i := IIdle)
        else if s.dev.ri then s.(i := IRx(s.dev.wi, s.dev.depth - |s.dev.txFifo|, 1))
        else s.(i := ITxStart(s.dev.wi, s.dev.depth - |s.dev.txFifo|))
      case IRx(wi, wspace, avail) =>
        if Advance(s.rx.inp, 1) == s.rx.out then s.(i := IRxEnd(wi, wspace, avail))
        else if s.dev.rxFifo == [] then s.(i := IRxEnd(wi, wspace, 0))
        else s.(dev := s.dev.(rxFifo := s.dev.rxFifo[1..]), i := IRxStore(wi, wspace, |s.dev.rxFifo| - 1, s.dev.rxFifo[0]))
      case IRxStore(wi, wspace, avail, c) =>
        s.(rx := s.rx.(buf := s.rx.buf[s.rx.inp := c], inp := Advance(s.rx.inp, 1)), i := IRx(wi, wspace, avail))
      case IRxEnd(wi, wspace, avail) => s.(re := if avail != 0 then false else s.re, i := ITxStart(wi, wspace))
      case ITxStart(wi, wspace) => s.(i := if wi then ITx(wspace) else ITop)
      case ITx(space) =>
        if space > 0 && s.tx.out != s.tx.inp then
          s.(dev := s.dev.(txFifo := s.dev.txFifo + [s.tx.buf[s.tx.out]]), tx := s.tx.(out := Advance(s.tx.out, 1)), i := ITx(space - 1))
        else s.(we := if space > 0 then false else s.we, i := ITop);
    assert IsrStep(s, t);
  }

  // ---------------------------------------------------------------- what one call returns

  /** What the other parties leave to the writer. */
  ghost predicate WriterSees(s: State, t: State) {
    t.w == s.w && t.wc == s.wc && t.accepted == s.accepted
  }

  /** What the other parties leave to the reader: bytes may only join its ring. */
  ghost predicate ReaderSees(s: State, t: State) {
    t.r == s.r && t.rc == s.rc && t.delivered == s.delivered && t.rx.out == s.rx.out &&
    (s.rx.inp != s.rx.out ==> t.rx.inp != t.rx.out)
  }

  lemma OthersLeaveWriter(s: State, t: State)
    requires Next(s, t)
    ensures WriterStep(s, t) || WriterSees(s, t)
  {
    hide WriterStep, ReaderStep, IsrStep, DeviceStep, TimerStep;
    if ReaderStep(s, t) {
      ReaderLeavesWriter(s, t);
    } else if IsrStep(s, t) {
      IsrLeavesWriter(s, t);
    } else if DeviceStep(s, t) || TimerStep(s, t) {
      DeviceLeavesThreads(s, t);
    }
  }

  lemma OthersLeaveReader(s: State, t: State)
    requires Inv(s) && Next(s, t)
    ensures ReaderStep(s, t) || ReaderSees(s, t)
  {
    hide WriterStep, ReaderStep, IsrStep, DeviceStep, TimerStep, Inv, ReaderSees;
    if WriterStep(s, t) {
      WriterLeavesReader(s, t);
    } else if IsrStep(s, t) {
      IsrLeavesReader(s, t);
    } else if DeviceStep(s, t) || TimerStep(s, t) {
      DeviceLeavesThreads(s, t);
    }
  }

  lemma ReaderLeavesWriter(s: State, t: State)
    requires ReaderStep(s, t)
    ensures WriterSees(s, t)
  {
    hide Advance, ReadAvail;
  }

  lemma WriterLeavesReader(s: State, t: State)
    requires WriterStep(s, t)
    ensures ReaderSees(s, t)
  {
    hide Advance, WriteSpace;
  }

  lemma IsrLeavesWriter(s: State, t: State)
    requires IsrStep(s, t)
    ensures WriterSees(s, t)
  {
    hide Advance;
  }

  lemma IsrLeavesReader(s: State, t: State)
    requires Inv(s) && IsrStep(s, t)
    ensures ReaderSees(s, t)
  {
    hide WriterOk, ReaderOk, TxServed, RxServed;
  }

  lemma DeviceLeavesThreads(s: State, t: State)
    requires DeviceStep(s, t) || TimerStep(s, t)
    ensures WriterSees(s, t) && ReaderSees(s, t)
  {
  }

  /** The state has been seen between `a`, exclusive, and `j`. */
  ghost predicate Seen(run: seq<State>, a: nat, j: nat, what: State -> bool)
    requires j < |run|
  {
    exists i :: a < i <= j && what(run[i])
  }

  /** From state `a` to state `b` of the run the writer is in one call. */
  ghost predicate InWrite(run: seq<State>, a: nat, b: nat) {
    a < b < |run| && run[a].w == WIdle && forall j :: a < j <= b ==> run[j].w != WIdle
  }

  predicate TxFull(s: State) {
    |s.tx.buf| == LEN && s.tx.inp < LEN && s.tx.out < LEN && Distance(s.tx.out, s.tx.inp) == LEN - 1
  }

  /** In the call `c`, `before` was accepted before it: what is left over is the rest of the data, and once the
      copying is over there is a rest only if the ring was seen `full`. */
  ghost predicate WriteOn(s: State, c: WriteCall, before: seq<byte>, full: bool) {
    && s.w != WIdle && s.wc == c
    && (var n := |c.data| - |s.w.rest|; 0 <= n && s.w.rest == c.data[n..] && s.accepted == before + c.data[..n])
    && (s.w.WEnable? || s.w.WSpin? || s.w.WAfter? ==> s.w.rest == [] || full)
    && (s.w.WSpin? || s.w.WAfter? ==> !c.nonblock && s.w.rest != [])
  }

  /** The call has returned: the bytes accepted are the front of the data, and the answer is their number. Bytes are
      left over only after the ring was seen full, and by a blocking call only if the host is inactive. */
  ghost predicate WriteDone(s: State, t: State, c: WriteCall, before: seq<byte>, full: bool) {
    exists n: nat :: n <= |c.data| && t.accepted == before + c.data[..n] && Answers(t.wc.ret, n, c.nonblock) &&
      (n < |c.data| ==> full && (c.nonblock || s.inactive != 0))
  }

  lemma WriteGoesOn(s: State, t: State, c: WriteCall, before: seq<byte>, full: bool)
    requires Inv(s) && WriterStep(s, t) && WriteOn(s, c, before, full) && (TxFull(s) ==> full)
    ensures t.w != WIdle ==> WriteOn(t, c, before, full)
    ensures t.w == WIdle ==> WriteDone(s, t, c, before, full)
  {
    hide Inv, WriterStep, WriteOn, WriteDone;
    if s.w.WCopy? {
      WriteCopies(s, t, c, before, full);
    } else if s.w.WReadOut? {
      WriteLooks(s, t, c, before, full);
    } else if s.w.WEnable? || s.w.WAfter? {
      WriteEnds(s, t, c, before, full);
    } else {
      WriteMoves(s, t, c, before, full);
    }
  }

  lemma WriteCopies(s: State, t: State, c: WriteCall, before: seq<byte>, full: bool)
    requires WriterStep(s, t) && s.w.WCopy? && WriteOn(s, c, before, full)
    ensures t.w != WIdle && WriteOn(t, c, before, full)
  {
    hide Advance;
    var n := |c.data| - |s.w.rest|;
    if s.w.k >= s.w.n {
      assert c.data[..n + s.w.n] == c.data[..n] + s.w.rest[..s.w.n];
    }
  }

  lemma WriteLooks(s: State, t: State, c: WriteCall, before: seq<byte>, full: bool)
    requires Inv(s) && WriterStep(s, t) && s.w.WReadOut? && WriteOn(s, c, before, full) && (TxFull(s) ==> full)
    ensures t.w != WIdle && WriteOn(t, c, before, full)
  {
    hide Advance, Contents, ReaderOk, IsrOk, TxServed, RxServed;
  }

  lemma WriteMoves(s: State, t: State, c: WriteCall, before: seq<byte>, full: bool)
    requires WriterStep(s, t) && WriteOn(s, c, before, full)
    requires !s.w.WCopy? && !s.w.WReadOut? && !s.w.WEnable? && !s.w.WAfter?
    ensures t.w != WIdle && WriteOn(t, c, before, full)
  {
    hide Advance, WriteSpace;
  }

  /** The steps that may be the last of a call. */
  lemma WriteEnds(s: State, t: State, c: WriteCall, before: seq<byte>, full: bool)
    requires WriterStep(s, t) && (s.w.WEnable? || s.w.WAfter?) && WriteOn(s, c, before, full)
    ensures t.w != WIdle ==> WriteOn(t, c, before, full)
    ensures t.w == WIdle ==> WriteDone(s, t, c, before, full)
  {
    hide Advance, WriteSpace;
    var n := |c.data| - |s.w.rest|;
    if t.w == WIdle {
      assert t.accepted == before + c.data[..n] && Answers(t.wc.ret, n, c.nonblock);
    }
  }

  /** One call of write() that begins behind state `a`: until it returns, what it has accepted is the front of its
      data; when it has returned, the answer is the number of bytes accepted, all of them unless the ring was full
      during the call and the call was non-blocking or the host inactive. */
  lemma {:induction false} WriteReturnsAccepted(run: seq<State>, a: nat, b: nat)
    requires Execution(run) && InWrite(run, a, b)
    ensures WriteOn(run[b], run[a + 1].wc, run[a].accepted, Seen(run, a, b, TxFull))
    ensures b + 1 < |run| && run[b + 1].w == WIdle ==>
      WriteDone(run[b], run[b + 1], run[a + 1].wc, run[a].accepted, Seen(run, a, b, TxFull))
    decreases b
  {
    hide Next, Inv, WriterStep, WriteOn, WriteDone;
    if b == a + 1 {
      WriteBegins(run[a], run[b], Seen(run, a, b, TxFull));
      assert Next(run[a], run[b]);
    } else {
      WriteReturnsAccepted(run, a, b - 1);
      WriteStepIn(run, a, b - 1);
    }
    if b + 1 < |run| {
      WriteStepIn(run, a, b);
    }
  }

  lemma WriteStepIn(run: seq<State>, a: nat, j: nat)
    requires Execution(run) && a < j && j + 1 < |run| && run[j].w != WIdle
    requires WriteOn(run[j], run[a + 1].wc, run[a].accepted, Seen(run, a, j, TxFull))
    ensures run[j + 1].w != WIdle ==>
      WriteOn(run[j + 1], run[a + 1].wc, run[a].accepted, Seen(run, a, j + 1, TxFull))
    ensures run[j + 1].w == WIdle ==>
      WriteDone(run[j], run[j + 1], run[a + 1].wc, run[a].accepted, Seen(run, a, j, TxFull))
  {
    hide Next, Inv, WriterStep, TxFull, WriteDone;
    var s, t := run[j], run[j + 1];
    assert Next(s, t);
    ExecutionKeepsInv(run, j);
    OthersLeaveWriter(s, t);
    if WriterStep(s, t) {
      WriteGoesOn(s, t, run[a + 1].wc, run[a].accepted, Seen(run, a, j, TxFull));
    }
  }

  lemma WriteBegins(s: State, t: State, full: bool)
    requires Next(s, t) && s.w == WIdle && t.w != WIdle
    ensures WriteOn(t, t.wc, s.accepted, full)
  {
    hide Next;
    OthersLeaveWriter(s, t);
  }

  // ---------------------------------------------------------------- and of read()

  /** The bytes in the caller's buffer. */
  function Got(r: Reader): seq<byte> {
    if r.RReadIn? || r.RReadOut? || r.RCopy? || r.RCheck? || r.REnable? then r.got else []
  }

  ghost predicate InRead(run: seq<State>, a: nat, b: nat) {
    a < b < |run| && run[a].r == RIdle && forall j :: a < j <= b ==> run[j].r != RIdle
  }

  predicate RxEmpty(s: State) {
    s.rx.inp == s.rx.out
  }

  predicate HostGone(s: State) {
    s.inactive >= s.timeout
  }

  /** The room left in the caller's buffer. */
  function Room(r: Reader): nat {
    if r.RIdle? || r.REnable? then 0 else r.space
  }

  /** In the call `c`, `before` was delivered before it: the buffer holds what was delivered since, and once the
      copying is over there is room left only if the ring was seen `empty`. */
  ghost predicate ReadOn(s: State, c: ReadCall, before: seq<byte>, empty: bool, gone: bool) {
    && s.r != RIdle && s.rc == c && s.delivered == before + Got(s.r)
    && (if s.r.REnable? then |s.r.got| <= c.space && (|s.r.got| < c.space ==> empty)
        else |Got(s.r)| + Room(s.r) == c.space)
    && (s.r.REnable? ==> s.r.got != [])
    && (s.r.RReadOut? && s.r.inp == s.rx.out ==> empty)
    && (s.r.RCheck? && s.r.space > 0 ==> empty)
    && (s.r.RCheck? || s.r.RSpin? || s.r.RWake? ==> c.space > 0)
    && (s.r.RSpin? || s.r.RWake? ==> empty && !c.nonblock)
    && (s.r.RWake? && RxEmpty(s) ==> gone)
  }

  /** The call has returned: the bytes delivered during it are at most as many as asked for, and the answer is their
      number. They are fewer only after the ring was seen empty; and a blocking call returns without a byte only with
      an empty ring and after the host was found gone. */
  ghost predicate ReadDone(s: State, t: State, c: ReadCall, before: seq<byte>, empty: bool, gone: bool) {
    exists got: seq<byte> :: t.delivered == before + got && |got| <= c.space && Answers(t.rc.ret, |got|, c.nonblock) &&
      (|got| < c.space ==> empty) && (got == [] && c.space > 0 && !c.nonblock ==> gone && RxEmpty(s))
  }

  lemma ReadGoesOn(s: State, t: State, c: ReadCall, before: seq<byte>, empty: bool, gone: bool)
    requires Inv(s) && ReaderStep(s, t) && ReadOn(s, c, before, empty, gone)
    requires (RxEmpty(s) ==> empty) && (HostGone(s) ==> gone)
    ensures t.r != RIdle ==> ReadOn(t, c, before, empty, gone)
    ensures t.r == RIdle ==> ReadDone(s, t, c, before, empty, gone)
  {
    hide Inv, ReaderStep, ReadOn, ReadDone;
    if s.r.RCopy? {
      ReadCopies(s, t, c, before, empty, gone);
    } else if s.r.RSpin? || s.r.RWake? {
      ReadWaits(s, t, c, before, empty, gone);
    } else {
      ReadMoves(s, t, c, before, empty, gone);
    }
  }

  lemma ReadCopies(s: State, t: State, c: ReadCall, before: seq<byte>, empty: bool, gone: bool)
    requires Inv(s) && ReaderStep(s, t) && s.r.RCopy? && ReadOn(s, c, before, empty, gone)
    ensures t.r != RIdle && ReadOn(t, c, before, empty, gone)
  {
    hide Advance, Contents, WriterOk, IsrOk, TxServed, RxServed;
    assert before + s.r.got + s.r.tmp == before + (s.r.got + s.r.tmp);
  }

  lemma ReadWaits(s: State, t: State, c: ReadCall, before: seq<byte>, empty: bool, gone: bool)
    requires Inv(s) && ReaderStep(s, t) && (s.r.RSpin? || s.r.RWake?) && ReadOn(s, c, before, empty, gone)
    requires HostGone(s) ==> gone
    ensures t.r != RIdle ==> ReadOn(t, c, before, empty, gone)
    ensures t.r == RIdle ==> ReadDone(s, t, c, before, empty, gone)
  {
    hide Advance, Contents, WriterOk, IsrOk, TxServed, RxServed;
    ContentsLength(s.rx);
    if t.r == RIdle {
      assert t.delivered == before + [] && Answers(t.rc.ret, 0, c.nonblock);
    }
  }

  lemma ReadMoves(s: State, t: State, c: ReadCall, before: seq<byte>, empty: bool, gone: bool)
    requires Inv(s) && ReaderStep(s, t) && !s.r.RCopy? && !s.r.RSpin? && !s.r.RWake? && ReadOn(s, c, before, empty, gone)
    requires RxEmpty(s) ==> empty
    ensures t.r != RIdle ==> ReadOn(t, c, before, empty, gone)
    ensures t.r == RIdle ==> ReadDone(s, t, c, before, empty, gone)
  {
    hide Advance, Contents, WriterOk, IsrOk, TxServed, RxServed;
    if t.r == RIdle {
      assert t.delivered == before + Got(s.r) && Answers(t.rc.ret, |Got(s.r)|, c.nonblock);
    }
  }

  /** One call of read() that begins behind state `a`: until it returns, the caller's buffer holds what was delivered
      since it began; when it has returned, the answer is the number of bytes delivered, as many as asked for unless
      the ring was empty during the call. */
  lemma {:induction false} ReadReturnsDelivered(run: seq<State>, a: nat, b: nat)
    requires Execution(run) && InRead(run, a, b)
    ensures ReadOn(run[b], run[a + 1].rc, run[a].delivered, Seen(run, a, b, RxEmpty), Seen(run, a, b, HostGone))
    ensures b + 1 < |run| && run[b + 1].r == RIdle ==>
      ReadDone(run[b], run[b + 1], run[a + 1].rc, run[a].delivered, Seen(run, a, b, RxEmpty), Seen(run, a, b, HostGone))
    decreases b
  {
    hide Next, Inv, ReaderStep, ReadOn, ReadDone;
    if b == a + 1 {
      assert Next(run[a], run[b]);
      ExecutionKeepsInv(run, a);
      ReadBegins(run[a], run[b], Seen(run, a, b, RxEmpty), Seen(run, a, b, HostGone));
    } else {
      ReadReturnsDelivered(run, a, b - 1);
      ReadStepIn(run, a, b - 1);
    }
    if b + 1 < |run| {
      ReadStepIn(run, a, b);
    }
  }

  lemma ReadStepIn(run: seq<State>, a: nat, j: nat)
    requires Execution(run) && a < j && j + 1 < |run| && run[j].r != RIdle
    requires ReadOn(run[j], run[a + 1].rc, run[a].delivered, Seen(run, a, j, RxEmpty), Seen(run, a, j, HostGone))
    ensures run[j + 1].r != RIdle ==>
      ReadOn(run[j + 1], run[a + 1].rc, run[a].delivered, Seen(run, a, j + 1, RxEmpty), Seen(run, a, j + 1, HostGone))
    ensures run[j + 1].r == RIdle ==>
      ReadDone(run[j], run[j + 1], run[a + 1].rc, run[a].delivered, Seen(run, a, j, RxEmpty), Seen(run, a, j, HostGone))
  {
    hide Next, Inv, ReaderStep, HostGone, ReadDone;
    var s, t := run[j], run[j + 1];
    assert Next(s, t);
    ExecutionKeepsInv(run, j);
    OthersLeaveReader(s, t);
    if ReaderStep(s, t) {
      ReadGoesOn(s, t, run[a + 1].rc, run[a].delivered, Seen(run, a, j, RxEmpty), Seen(run, a, j, HostGone));
    }
  }

  lemma ReadBegins(s: State, t: State, empty: bool, gone: bool)
    requires Inv(s) && Next(s, t) && s.r == RIdle && t.r != RIdle
    ensures ReadOn(t, t.rc, s.delivered, empty, gone)
  {
    hide Next, Inv;
    OthersLeaveReader(s, t);
  }

  // ---------------------------------------------------------------- one pass of the interrupt routine

  /** All bytes the device has been given. */
  function Sent(s: State): nat {
    |s.dev.hostOut| + |s.dev.txFifo|
  }

  predicate FifoEmpty(s: State) {
    s.dev.rxFifo == []
  }

  /** The receive half of a pass is over: the FIFO was seen empty, or the ring is full and the interrupt off. */
  ghost predicate Received(s: State, empty: bool) {
    empty || (RingOk(s.rx) && |Contents(s.rx)| == LEN - 1 && !s.re)
  }

  /** The pass began in state `o`, where the control register was read; since then the FIFO was seen `empty`. */
  ghost predicate PassOn(o: State, s: State, empty: bool) {
    var room := o.dev.depth - |o.dev.txFifo|;
    match s.i
    case IIdle => false
    case ITop => false
    case IRx(wi, wspace, avail) => o.dev.ri && wi == o.dev.wi && wspace == room && Sent(s) == Sent(o) && (avail == 0 ==> empty)
    case IRxStore(wi, wspace, avail, _) =>
      o.dev.ri && wi == o.dev.wi && wspace == room && Sent(s) == Sent(o) && (avail == 0 ==> empty)
    case IRxEnd(wi, wspace, avail) =>
      o.dev.ri && wi == o.dev.wi && wspace == room && Sent(s) == Sent(o) && (avail == 0 ==> empty)
    case ITxStart(wi, wspace) =>
      wi == o.dev.wi && wspace == room && Sent(s) == Sent(o) && (o.dev.ri ==> Received(s, empty))
    case ITx(space) => o.dev.wi && space <= room && Sent(s) == Sent(o) + room - space && (o.dev.ri ==> Received(s, empty))
  }

  /** The pass is over: pending reception was served until the FIFO was empty, or the ring full and the interrupt
      turned off; pending transmission until the space in the FIFO was used up, or the ring empty and the interrupt
      turned off. */
  ghost predicate PassDone(o: State, t: State, empty: bool) {
    && (o.dev.ri ==> Received(t, empty))
    && (o.dev.wi ==> Sent(t) == Sent(o) + o.dev.depth - |o.dev.txFifo| || (t.tx.inp == t.tx.out && !t.we))
  }

  lemma PassBegins(o: State, t: State, empty: bool)
    requires Inv(o) && IsrStep(o, t) && o.i == ITop
    ensures if t.i == ITop || t.i == IIdle then PassDone(o, t, empty) else PassOn(o, t, empty)
  {
    hide WriterOk, ReaderOk, TxServed, RxServed, Contents;
  }

  lemma PassGoesOn(o: State, s: State, t: State, empty: bool)
    requires Inv(s) && IsrStep(s, t) && PassOn(o, s, empty) && (FifoEmpty(s) ==> empty)
    ensures if t.i == ITop || t.i == IIdle then PassDone(o, t, empty || FifoEmpty(t)) else PassOn(o, t, empty || FifoEmpty(t))
  {
    hide Inv, IsrStep;
    if s.i.ITx? {
      PassSends(o, s, t, empty);
    } else if s.i.IRxStore? {
      PassStores(o, s, t, empty);
    } else {
      PassMoves(o, s, t, empty);
    }
  }

  lemma PassSends(o: State, s: State, t: State, empty: bool)
    requires Inv(s) && IsrStep(s, t) && s.i.ITx? && PassOn(o, s, empty)
    ensures if t.i == ITop then PassDone(o, t, empty) else t.i.ITx? && PassOn(o, t, empty)
  {
    hide WriterOk, ReaderOk, TxServed, RxServed, Advance, Contents;
  }

  lemma PassStores(o: State, s: State, t: State, empty: bool)
    requires Inv(s) && IsrStep(s, t) && s.i.IRxStore? && PassOn(o, s, empty)
    ensures t.i.IRx? && PassOn(o, t, empty)
  {
    hide WriterOk, ReaderOk, TxServed, RxServed, Advance, Contents;
  }

  lemma PassMoves(o: State, s: State, t: State, empty: bool)
    requires Inv(s) && IsrStep(s, t) && !s.i.ITx? && !s.i.IRxStore? && PassOn(o, s, empty) && (FifoEmpty(s) ==> empty)
    ensures if t.i == ITop then PassDone(o, t, empty) else t.i != IIdle && PassOn(o, t, empty || FifoEmpty(t))
  {
    hide WriterOk, ReaderOk, TxServed, RxServed, Advance, Contents;
  }

  /** While the routine is in a pass, the others leave what it works on. */
  lemma OthersLeavePass(o: State, s: State, t: State, empty: bool)
    requires Inv(s) && Next(s, t) && PassOn(o, s, empty)
    ensures IsrStep(s, t) || (t.i == s.i && PassOn(o, t, empty))
  {
    hide Inv, WriterStep, ReaderStep, IsrStep;
    assert s.i != IIdle;
    NoThread(s, t);
    if !IsrStep(s, t) {
      DeviceLeavesPass(s, t);
    }
  }

  lemma NoThread(s: State, t: State)
    requires s.i != IIdle
    ensures !WriterStep(s, t) && !ReaderStep(s, t)
  {
  }

  lemma DeviceLeavesPass(s: State, t: State)
    requires DeviceStep(s, t) || TimerStep(s, t)
    ensures t.i == s.i && Sent(t) == Sent(s) && t.rx == s.rx && t.re == s.re
  {
  }

  /** One pass of the interrupt routine, from the reading of the control register in state `a` to the next reading or
      the return in state `b`: it serves what the register says. */
  lemma PassServes(run: seq<State>, a: nat, b: nat)
    requires Execution(run) && a < b < |run| && run[a].i == ITop && IsrStep(run[a], run[a + 1])
    requires (run[b].i == ITop || run[b].i == IIdle) && forall j :: a < j < b ==> run[j].i != ITop && run[j].i != IIdle
    ensures PassDone(run[a], run[b], Seen(run, a, b, FifoEmpty))
  {
    hide Inv, IsrStep, PassDone, Next;
    ExecutionKeepsInv(run, a);
    PassBegins(run[a], run[a + 1], Seen(run, a, a + 1, FifoEmpty));
    if a + 1 < b {
      PassInside(run, a, b - 1);
      PassStepIn(run, a, b - 1);
    }
  }

  lemma {:induction false} PassInside(run: seq<State>, a: nat, j: nat)
    requires Execution(run) && a < j < |run| && run[a].i == ITop && IsrStep(run[a], run[a + 1])
    requires forall k :: a < k <= j ==> run[k].i != ITop && run[k].i != IIdle
    ensures PassOn(run[a], run[j], Seen(run, a, j, FifoEmpty))
    decreases j
  {
    hide Inv, IsrStep, PassDone, PassOn, Next;
    if j == a + 1 {
      ExecutionKeepsInv(run, a);
      PassBegins(run[a], run[j], Seen(run, a, j, FifoEmpty));
    } else {
      PassInside(run, a, j - 1);
      PassStepIn(run, a, j - 1);
    }
  }

  lemma PassStepIn(run: seq<State>, a: nat, j: nat)
    requires Execution(run) && a < j && j + 1 < |run| && PassOn(run[a], run[j], Seen(run, a, j, FifoEmpty))
    ensures if run[j + 1].i == ITop || run[j + 1].i == IIdle then PassDone(run[a], run[j + 1], Seen(run, a, j + 1, FifoEmpty))
      else PassOn(run[a], run[j + 1], Seen(run, a, j + 1, FifoEmpty))
  {
    hide Inv, IsrStep, Next;
    var s, t := run[j], run[j + 1];
    assert Next(s, t);
    ExecutionKeepsInv(run, j);
    OthersLeavePass(run[a], s, t, Seen(run, a, j, FifoEmpty));
    if IsrStep(s, t) {
      PassGoesOn(run[a], s, t, Seen(run, a, j, FifoEmpty));
    }
  }

  // ---------------------------------------------------------------- the host

  lemma OnlyTimerCounts(s: State, t: State)
    requires Next(s, t)
    ensures TimerStep(s, t) || t.inactive == s.inactive
  {
    hide Advance, ReadAvail, WriteSpace;
  }

  /** The host is found gone only after as many seconds without activity as the timeout has: the count starts at 0,
      goes up by single seconds, and starts again with every sign of activity. A timeout of 2^31 - 1 is never
      reached. */
  lemma {:induction false} HostGoneTakesTime(run: seq<State>, j: nat)
    requires Execution(run) && j < |run|
    ensures run[0].inactive == 0 && run[j].inactive <= 0x7FFF_FFFD
    ensures forall i {:trigger run[i]} :: 0 <= i < j ==> var s, t := run[i], run[i + 1];
      t.inactive == s.inactive || (t.inactive == 0 && s.dev.ac) || (t.inactive == s.inactive + 1 && !s.dev.ac)
  {
    if j > 0 {
      HostGoneTakesTime(run, j - 1);
      assert Next(run[j - 1], run[j]);
      OnlyTimerCounts(run[j - 1], run[j]);
    }
  }

  /** Every second counts, up to 2^31 - 3. */
  lemma SecondsCount(s: State, t: State)
    requires TimerStep(s, t)
    ensures t.inactive == if s.dev.ac then 0 else if s.inactive < 0x7FFF_FFFD then s.inactive + 1 else s.inactive
  {
  }

  // ---------------------------------------------------------------- progress

  /** A bound on the steps of write() up to its next wait or its return. */
  function WriterRank(w: Writer): int {
    match w
    case WIdle => 0
    case WLoop(rest, _) => 4 * |rest| + 5
    case WReadOut(rest, _) => 4 * |rest| + 4
    case WCopy(rest, _, _, n, k) => 4 * (|rest| - n) + 6 + (n - k)
    case WEnable(_, _) => 2
    case WSpin(_, _) => 1
    case WAfter(_) => 1
  }

  /** write() does not run in circles: every step brings it nearer to its return or its next wait, and it waits only
      for a byte to leave the ring or the host to be found inactive. */
  lemma WriterProgresses(s: State, t: State)
    requires Inv(s) && WriterStep(s, t) && s.w != WIdle
    ensures 0 <= WriterRank(t.w)
    ensures !s.w.WSpin? && !s.w.WAfter? ==> WriterRank(t.w) < WriterRank(s.w)
    ensures s.w.WSpin? && (s.tx.out != s.w.out || HostGone(s)) ==> t.w == WAfter(s.w.rest)
    ensures s.w.WAfter? ==> t.w == if s.inactive == 0 then WLoop(s.w.rest, 0) else WIdle
  {
    hide Advance, Contents, ReaderOk, IsrOk, TxServed, RxServed;
  }

  function ReaderRank(r: Reader): int {
    match r
    case RIdle => 0
    case RLoop(space) => 4 * space + 5
    case RReadIn(space, _) => 4 * space + 4
    case RReadOut(space, _, _) => 4 * space + 3
    case RCopy(space, _, _, _, n, tmp) => 4 * (space - n) + 5 + (n - |tmp|)
    case RCheck(_, _, _) => 2
    case RSpin(_, _) => 1
    case RWake(_, _) => 1
    case REnable(_) => 1
  }

  lemma ReaderProgresses(s: State, t: State)
    requires Inv(s) && ReaderStep(s, t) && s.r != RIdle
    ensures 0 <= ReaderRank(t.r)
    ensures !s.r.RSpin? && !s.r.RWake? ==> ReaderRank(t.r) < ReaderRank(s.r)
    ensures s.r.RSpin? && (s.rx.inp != s.r.inp || HostGone(s)) ==> t.r.RWake?
    ensures s.r.RWake? ==> t.r == if s.rx.inp != s.r.inp then RLoop(s.r.space) else RIdle
  {
    hide Advance, Contents, WriterOk, IsrOk, TxServed, RxServed;
  }

  /** A bound on the steps of one pass of the interrupt routine. */
  ghost function PassRank(s: State): int
    requires RingOk(s.rx)
  {
    match s.i
    case IIdle => 0
    case ITop => 0
    case IRx(_, wspace, _) => 2 * (LEN - |Contents(s.rx)|) + wspace + 5
    case IRxStore(_, wspace, _, _) => 2 * (LEN - |Contents(s.rx)|) + wspace + 4
    case IRxEnd(_, wspace, _) => wspace + 4
    case ITxStart(_, wspace) => wspace + 3
    case ITx(space) => space + 1
  }

  /** A pass of the interrupt routine comes to its end, however fast the host sends. */
  lemma PassProgresses(s: State, t: State)
    requires Inv(s) && s.i != IIdle && s.i != ITop && Next(s, t)
    ensures Inv(t) && 0 <= PassRank(t)
    ensures if IsrStep(s, t) then PassRank(t) < PassRank(s) else PassRank(t) == PassRank(s)
  {
    hide Inv, IsrStep, WriterStep, ReaderStep, Contents;
    NoThread(s, t);
    if IsrStep(s, t) {
      IsrKeepsInv(s, t);
      PassShortens(s, t);
    } else {
      if DeviceStep(s, t) {
        DeviceKeepsInv(s, t);
      } else {
        TimerKeepsInv(s, t);
      }
      DeviceLeavesPass(s, t);
    }
  }

  lemma PassShortens(s: State, t: State)
    requires Inv(s) && Inv(t) && s.i != IIdle && s.i != ITop && IsrStep(s, t)
    ensures 0 <= PassRank(t) < PassRank(s)
  {
    hide WriterOk, ReaderOk, TxServed, RxServed, Contents;
    if s.i.IRxStore? {
      ContentsLength(s.rx);
      ContentsLength(t.rx);
    }
  }
}
