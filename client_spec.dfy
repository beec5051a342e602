/**
 * The segmentation client's behaviour as functions of its state and of the
 * environment: the port cache, the connection gate, the request writer, the
 * response reader and a whole round. The class in ClientImpl implements
 * each of these step by step and is proved equal to them.
 */
module ClientSpec {
  import opened Bytes
  import opened Wrappers
  import opened Protocol
  import opened Net

  /** The connection part of the client record. */
  datatype Conn = Conn(socket: int, port: int32, lastConnect: uint64, lastPort: uint64)

  /** The whole client record; a NULL mask is None. */
  datatype ClientState = ClientState(conn: Conn, preamble: RequestPreamble, mask: Option<seq<byte>>, maskSize: nat)

  /** The mask buffer, when there is one, holds mask_size bytes. */
  predicate ClientValid(s: ClientState)
  {
    s.mask.Some? ==> |s.mask.value| == s.maskSize
  }

  /** What `SegmentationClient_create` sets up; bzalloc has zeroed `last_connect_timestamp`. */
  function Initial(): (s: ClientState)
    ensures ClientValid(s)
    ensures s.conn.socket == -1 && s.conn.port == -1 && s.mask.None? && s.maskSize == 0
    ensures s.preamble.header == REQUEST_HEADER && s.preamble.threshold == HALF
  {
    ClientState(Conn(-1, -1, 0, 0), RequestPreamble(REQUEST_HEADER, 0, HALF, 0, 0, 0, 0), None, 0)
  }

  // ---------------------------------------------------------------------------
  // invalidate_connection

  datatype Dropped = Dropped(conn: Conn, env: Env)

  function Invalidate(c: Conn, e: Env): (r: Dropped)
    ensures r.conn == c.(socket := -1)
    ensures r.env.sent == e.sent && r.env.writes == e.writes && r.env.recvs == e.recvs
  {
    if c.socket != -1 then Dropped(c.(socket := -1), CloseFd(e, c.socket)) else Dropped(c, e)
  }

  /** Invalidating twice closes once: the second call changes nothing. */
  lemma InvalidateIdempotent(c: Conn, e: Env)
    ensures var d := Invalidate(c, e); Invalidate(d.conn, d.env) == d
    ensures c.socket != -1 ==> Invalidate(c, e).env.log == e.log + [Close(c.socket)]
    ensures c.socket == -1 ==> Invalidate(c, e).env == e
  {
  }

  // ---------------------------------------------------------------------------
  // get_segmentation_port

  /** `${TMPDIR}` (or "/tmp" when unset) + "/" + ".segmentation.port". */
  function PortFilePath(tmpdir: Option<string>): (p: string)
  {
    (if tmpdir.None? then "/tmp" else tmpdir.value) + "/" + SEGMENTATION_PORT_FILENAME
  }

  /** The cache is fresh when it holds a port read less than CHECK_PORT_INTERVAL ago. */
  predicate PortCached(c: Conn, now: uint64)
  {
    c.port != -1 && SubU64(now, c.lastPort) < CHECK_PORT_INTERVAL
  }

  datatype PortResult = PortResult(conn: Conn, env: Env, port: int)

  function PortStep(c: Conn, now: uint64, e: Env): (r: PortResult)
    // the file is opened exactly when the cache is not fresh, and nothing else is called
    ensures PortCached(c, now) ==> r == PortResult(c, e, c.port)
    ensures !PortCached(c, now) ==> r.env == e.(log := e.log + [Open(PortFilePath(e.tmpdir))])
    // a missing file answers -1 and leaves the cache alone
    ensures !PortCached(c, now) && PortFilePath(e.tmpdir) !in e.files ==> r.conn == c && r.port == -1
    // a file that was read is cached with the time, a short one as -1
    ensures !PortCached(c, now) && PortFilePath(e.tmpdir) in e.files ==>
              var f := e.files[PortFilePath(e.tmpdir)];
              r.conn == c.(port := r.conn.port, lastPort := now) && r.port == r.conn.port &&
              (|f| < 4 ==> r.port == -1) && (|f| >= 4 ==> r.port == ReadInt32LE(f[..4]))
  {
    if PortCached(c, now) then PortResult(c, e, c.port)
    else
      var o := OpenRead(e, PortFilePath(e.tmpdir), 4);
      if o.contents.None? then PortResult(c, o.env, -1)
      else
        var b := o.contents.value;
        var port: int32 := if |b| == 4 then ReadInt32LE(b) else -1;
        PortResult(c.(port := port, lastPort := now), o.env, port)
  }

  // ---------------------------------------------------------------------------
  // get_client_socket

  /** What the connection gate did. */
  datatype Gate =
    | Reuse(fd: int)        // an open socket, returned untouched
    | Throttled             // within MIN_RECONNECT_INTERVAL of the last attempt
    | NoPortKnown           // no port: SOCK_NO_SEGMENTATION_PORT
    | SocketFailed          // socket() failed: SOCK_NO_SOCKET
    | SetupFailed           // a timeout option or connect failed: closed again
    | Established(fd: int)  // a new connected socket

  /** The integer get_client_socket returns. */
  function ReturnedFd(g: Gate): int
  {
    match g
    case Reuse(fd) => fd
    case Throttled => -1
    case NoPortKnown => Code(NoSegmentationPort)
    case SocketFailed => Code(NoSocket)
    case SetupFailed => -1
    case Established(fd) => fd
  }

  datatype GateResult = GateResult(conn: Conn, env: Env, gate: Gate)

  /** The gate calls socket() exactly in this case. */
  predicate Attempts(c: Conn, now: uint64, e: Env)
  {
    c.socket == -1 && SubU64(now, c.lastConnect) >= MIN_RECONNECT_INTERVAL && PortStep(c, now, e).port != -1
  }

  function GateStep(c: Conn, now: uint64, e: Env): (r: GateResult)
    ensures c.socket != -1 ==> r == GateResult(c, e, Reuse(c.socket))
    ensures c.socket == -1 && SubU64(now, c.lastConnect) < MIN_RECONNECT_INTERVAL ==> r == GateResult(c, e, Throttled)
    ensures r.conn.lastConnect == if Attempts(c, now, e) then now else c.lastConnect
    ensures !r.gate.Reuse? && !r.gate.Established? ==> r.conn.socket == -1
  {
    if c.socket != -1 then GateResult(c, e, Reuse(c.socket))
    else if SubU64(now, c.lastConnect) < MIN_RECONNECT_INTERVAL then GateResult(c, e, Throttled)
    else
      var p := PortStep(c, now, e);
      if p.port == -1 then GateResult(p.conn, p.env, NoPortKnown)
      else
        // the attempt is stamped before socket() is called
        var a := NextAttempt(p.env);
        var c1 := p.conn.(lastConnect := now, socket := a.attempt.fd);
        if a.attempt.fd == -1 then GateResult(c1, a.env, SocketFailed)
        else if !(a.attempt.recvTimeoutSet && a.attempt.sendTimeoutSet && a.attempt.connected) then
          GateResult(c1.(socket := -1), CloseFd(a.env, a.attempt.fd), SetupFailed)
        else GateResult(c1, a.env, Established(a.attempt.fd))
  }

  /** One gate call adds one socket() call to the log exactly when it attempts a connection. */
  lemma GateSocketCalls(c: Conn, now: uint64, e: Env)
    ensures SocketCalls(GateStep(c, now, e).env.log) == SocketCalls(e.log) + (if Attempts(c, now, e) then 1 else 0)
  {
    var r := GateStep(c, now, e);
    if c.socket == -1 && SubU64(now, c.lastConnect) >= MIN_RECONNECT_INTERVAL {
      var p := PortStep(c, now, e);
      if !PortCached(c, now) {
        SocketCallsStep(e.log, Open(PortFilePath(e.tmpdir)));
      }
      if p.port != -1 {
        var a := NextAttempt(p.env);
        SocketCallsStep(p.env.log, Socket(a.attempt.fd));
        if r.gate.SetupFailed? {
          SocketCallsStep(a.env.log, Close(a.attempt.fd));
        }
      }
    }
  }

  /** With no port known, the gate makes no socket() call and does not stamp the attempt. */
  lemma GateNoPort(c: Conn, now: uint64, e: Env)
    requires c.socket == -1 && SubU64(now, c.lastConnect) >= MIN_RECONNECT_INTERVAL
    requires PortStep(c, now, e).port == -1
    ensures var r := GateStep(c, now, e);
            r.gate == NoPortKnown && ReturnedFd(r.gate) == 7 &&
            r.conn.lastConnect == c.lastConnect && r.env.attempts == e.attempts &&
            SocketCalls(r.env.log) == SocketCalls(e.log)
  {
    GateSocketCalls(c, now, e);
  }

  // A run of gate calls at ascending times, each possibly followed by a lost connection.

  datatype Tick = Tick(now: uint64, drop: bool)

  predicate AscendingFrom(ticks: seq<Tick>, from: int)
  {
    (forall i :: 0 <= i < |ticks| ==> from <= ticks[i].now) &&
    (forall i, j :: 0 <= i < j < |ticks| ==> ticks[i].now <= ticks[j].now)
  }

  /** One gate call at t.now, then the connection dropped when t.drop says so. */
  function AfterTick(c: Conn, e: Env, t: Tick): (d: Dropped)
    ensures d.conn.lastConnect == if Attempts(c, t.now, e) then t.now else c.lastConnect
  {
    var g := GateStep(c, t.now, e);
    if t.drop then Invalidate(g.conn, g.env) else Dropped(g.conn, g.env)
  }

  /** The times at which socket() is called over a run. */
  function AttemptTimes(c: Conn, e: Env, ticks: seq<Tick>): seq<uint64>
    decreases |ticks|
  {
    if ticks == [] then []
    else
      var d := AfterTick(c, e, ticks[0]);
      (if Attempts(c, ticks[0].now, e) then [ticks[0].now] else []) + AttemptTimes(d.conn, d.env, ticks[1..])
  }

  /** Times at least MIN_RECONNECT_INTERVAL after base and after each other. */
  predicate Spaced(ts: seq<uint64>, base: int)
  {
    (|ts| > 0 ==> ts[0] >= base + MIN_RECONNECT_INTERVAL) &&
    (forall i :: 0 < i < |ts| ==> ts[i] >= ts[i - 1] + MIN_RECONNECT_INTERVAL)
  }

  lemma SpacedCons(now: uint64, tail: seq<uint64>, base: int)
    requires base + MIN_RECONNECT_INTERVAL <= now && Spaced(tail, now)
    ensures Spaced([now] + tail, base)
  {
    var ts := [now] + tail;
    assert forall i :: 0 < i < |ts| ==> ts[i] == tail[i - 1];
  }

  lemma AscendingTail(ticks: seq<Tick>, from: int)
    requires ticks != [] && AscendingFrom(ticks, from)
    ensures from <= ticks[0].now && AscendingFrom(ticks[1..], ticks[0].now)
  {
    var rest := ticks[1..];
    forall i | 0 <= i < |rest| ensures ticks[0].now <= rest[i].now {
      assert rest[i] == ticks[i + 1];
    }
    forall i, j | 0 <= i < j < |rest| ensures rest[i].now <= rest[j].now {
      assert rest[i] == ticks[i + 1] && rest[j] == ticks[j + 1];
    }
  }

  lemma AscendingWeaken(ticks: seq<Tick>, from: int, lower: int)
    requires lower <= from && AscendingFrom(ticks, from)
    ensures AscendingFrom(ticks, lower)
  {
  }

  /** One tick's share of AttemptTimes, and what it does to the stamp. */
  lemma TickFacts(c: Conn, e: Env, ticks: seq<Tick>)
    requires ticks != [] && c.lastConnect <= ticks[0].now
    ensures var d := AfterTick(c, e, ticks[0]);
            var a := Attempts(c, ticks[0].now, e);
            AttemptTimes(c, e, ticks) == (if a then [ticks[0].now] else []) + AttemptTimes(d.conn, d.env, ticks[1..]) &&
            d.conn.lastConnect == (if a then ticks[0].now else c.lastConnect) &&
            (a ==> c.lastConnect + MIN_RECONNECT_INTERVAL <= ticks[0].now)
  {
  }

  /**
   * Reconnects are throttled against the last attempt: over any run at ascending
   * times, successive socket() calls are at least MIN_RECONNECT_INTERVAL apart,
   * and the first is that far after the attempt stamped before the run.
   */
  lemma {:induction false} ThrottleSpacing(c: Conn, e: Env, ticks: seq<Tick>)
    requires AscendingFrom(ticks, c.lastConnect)
    ensures Spaced(AttemptTimes(c, e, ticks), c.lastConnect)
    decreases |ticks|
  {
    if ticks != [] {
      var now := ticks[0].now;
      AscendingTail(ticks, c.lastConnect);
      TickFacts(c, e, ticks);
      var d := AfterTick(c, e, ticks[0]);
      var tail := AttemptTimes(d.conn, d.env, ticks[1..]);
      AscendingWeaken(ticks[1..], now, d.conn.lastConnect);
      ThrottleSpacing(d.conn, d.env, ticks[1..]);
      if Attempts(c, now, e) {
        SpacedCons(now, tail, c.lastConnect);
      } else {
        assert [] + tail == tail;
      }
    }
  }

  /** Every attempt happens at one of the run's times, so none after the last. */
  lemma {:induction false} AttemptsWithin(c: Conn, e: Env, ticks: seq<Tick>, last: int)
    requires forall i :: 0 <= i < |ticks| ==> ticks[i].now <= last
    ensures forall i :: 0 <= i < |AttemptTimes(c, e, ticks)| ==> AttemptTimes(c, e, ticks)[i] <= last
    decreases |ticks|
  {
    if ticks != [] {
      var d := AfterTick(c, e, ticks[0]);
      var rest := ticks[1..];
      assert forall i :: 0 <= i < |rest| ==> rest[i] == ticks[i + 1];
      AttemptsWithin(d.conn, d.env, rest, last);
    }
  }

  lemma {:induction false} SpacedBound(ts: seq<uint64>, base: int, k: nat)
    requires k < |ts| && Spaced(ts, base)
    ensures ts[k] >= base + (k + 1) * MIN_RECONNECT_INTERVAL
  {
    if k > 0 {
      SpacedBound(ts, base, k - 1);
    }
  }

  /** Over a run ending at time T, at most (T - c.lastConnect) / MIN_RECONNECT_INTERVAL sockets are created. */
  lemma ThrottleBound(c: Conn, e: Env, ticks: seq<Tick>)
    requires ticks != [] && AscendingFrom(ticks, c.lastConnect)
    ensures |AttemptTimes(c, e, ticks)| * MIN_RECONNECT_INTERVAL <= ticks[|ticks| - 1].now - c.lastConnect
  {
    var last := ticks[|ticks| - 1].now;
    ThrottleSpacing(c, e, ticks);
    AttemptsWithin(c, e, ticks, last);
    var ts := AttemptTimes(c, e, ticks);
    if |ts| > 0 {
      SpacedBound(ts, c.lastConnect, |ts| - 1);
    }
  }

  // ---------------------------------------------------------------------------
  // get_mask

  datatype MaskResult = MaskResult(mask: Option<seq<byte>>, maskSize: nat)

  /** The mask buffer is kept when it exists with the requested size, otherwise replaced. */
  function GetMaskSpec(mask: Option<seq<byte>>, size: nat, n: nat, allocOk: bool): (r: MaskResult)
    ensures r.maskSize == n
    ensures mask.Some? && size == n ==> r.mask == mask
    ensures !(mask.Some? && size == n) ==> r.mask == (if allocOk then Some(Zeros(n)) else None)
  {
    if mask.None? || size != n then MaskResult(if allocOk then Some(Zeros(n)) else None, n)
    else MaskResult(mask, size)
  }

  // ---------------------------------------------------------------------------
  // write_request

  /**
   * `current_offset += written` on a size_t, for a `written` a write can return
   * (-1 up to what was offered): only -1 at offset 0 wraps.
   */
  function Advance(offset: uint64, n: int): uint64
    requires -1 <= n && offset + n < TWO_64
  {
    if offset + n < 0 then offset + n + TWO_64 else offset + n
  }

  /** Advance is size_t addition modulo 2^64. */
  lemma AdvanceWraps(offset: uint64, n: int)
    requires -1 <= n && offset + n < TWO_64
    ensures Advance(offset, n) == WrapU64(offset + n)
    ensures offset == 0 && n == -1 ==> Advance(offset, n) == TWO_64 - 1
  {
  }

  datatype Payload = Payload(env: Env, offset: uint64)

  /**
   * The payload loop as written: `current_offset` is a size_t and `written` an int that
   * is added without a check, so an error (-1) moves the offset back by one, or wraps
   * it past the end when it is 0.
   */
  function PayloadLoop(e: Env, fd: int, frame: seq<byte>, offset: uint64): (r: Payload)
    requires |frame| < TWO_64
    ensures r.offset >= |frame|
    decreases |e.writes|, if offset < |frame| then offset + 1 else 0
  {
    if offset >= |frame| then Payload(e, offset)
    else
      var w := Write(e, fd, frame[offset..]);
      PayloadLoop(w.env, fd, frame, Advance(offset, w.n))
  }

  /** Every scripted write accepts at least one byte. */
  predicate AllPositive(ws: seq<int>)
  {
    ws == [] || (ws[0] >= 1 && AllPositive(ws[1..]))
  }

  /** One write of the payload loop that accepts at least one byte. */
  lemma PayloadStep(e: Env, fd: int, frame: seq<byte>, offset: uint64) returns (e': Env, next: uint64)
    requires offset < |frame| < TWO_64
    requires e.writes != [] && e.writes[0] >= 1
    ensures offset < next <= |frame|
    ensures PayloadLoop(e, fd, frame, offset) == PayloadLoop(e', fd, frame, next)
    ensures SentOn(e', fd) == SentOn(e, fd) + frame[offset..next]
    ensures e'.writes == e.writes[1..]
  {
    var w := Write(e, fd, frame[offset..]);
    assert 1 <= w.n <= |frame| - offset;
    e', next := w.env, offset + w.n;
    assert PayloadLoop(e, fd, frame, offset) == PayloadLoop(e', fd, frame, Advance(offset, w.n));
    SliceOfSuffix(frame, offset, w.n);
  }

  /** With every write accepting at least one byte, the offset climbs strictly and stops exactly at the frame size. */
  lemma {:induction false} PayloadReachesEnd(e: Env, fd: int, frame: seq<byte>, offset: uint64)
    requires |frame| < TWO_64 && offset <= |frame|
    requires AllPositive(e.writes) && |e.writes| >= |frame| - offset
    ensures PayloadLoop(e, fd, frame, offset).offset == |frame|
    decreases |frame| - offset
  {
    if offset < |frame| {
      var e', next := PayloadStep(e, fd, frame, offset);
      PayloadReachesEnd(e', fd, frame, next);
    }
  }

  /** ... and the bytes on the wire are the rest of the frame. */
  lemma {:induction false} PayloadSendsRest(e: Env, fd: int, frame: seq<byte>, offset: uint64)
    requires |frame| < TWO_64 && offset <= |frame|
    requires AllPositive(e.writes) && |e.writes| >= |frame| - offset
    ensures SentOn(PayloadLoop(e, fd, frame, offset).env, fd) == SentOn(e, fd) + frame[offset..]
    decreases |frame| - offset
  {
    if offset < |frame| {
      var e', next := PayloadStep(e, fd, frame, offset);
      PayloadSendsRest(e', fd, frame, next);
      SliceJoin(frame, offset, next, |frame|);
      ConcatAssoc(SentOn(e, fd), frame[offset..next], frame[next..]);
    } else {
      assert frame[offset..] == [];
    }
  }

  /** The payload loop only writes: the recv script is left as it was. */
  lemma {:induction false} PayloadKeepsRecvs(e: Env, fd: int, frame: seq<byte>, offset: uint64)
    requires |frame| < TWO_64
    ensures PayloadLoop(e, fd, frame, offset).env.recvs == e.recvs
    decreases |e.writes|, if offset < |frame| then offset + 1 else 0
  {
    if offset < |frame| {
      var w := Write(e, fd, frame[offset..]);
      PayloadKeepsRecvs(w.env, fd, frame, Advance(offset, w.n));
    }
  }

  /**
   * With every write accepting at least one byte (and never more than was offered),
   * the payload loop sends the rest of the frame and stops exactly at its end.
   */
  lemma PayloadHonest(e: Env, fd: int, frame: seq<byte>, offset: uint64)
    requires |frame| < TWO_64 && offset <= |frame|
    requires AllPositive(e.writes) && |e.writes| >= |frame| - offset
    ensures var r := PayloadLoop(e, fd, frame, offset);
            r.offset == |frame| && SentOn(r.env, fd) == SentOn(e, fd) + frame[offset..]
  {
    PayloadReachesEnd(e, fd, frame, offset);
    PayloadSendsRest(e, fd, frame, offset);
  }

  datatype RequestSent = RequestSent(rc: int, state: ClientState, env: Env)

  /** The preamble after the length field is set for a payload of n bytes. */
  function Framed(p: RequestPreamble, n: nat): (q: RequestPreamble)
    ensures q == p.(length := q.length)
    ensures PREAMBLE_SIZE + n < TWO_32 ==> q.length == PREAMBLE_SIZE + n
  {
    p.(length := WrapU32(PREAMBLE_SIZE + n))
  }

  function WriteSpec(s: ClientState, fd: int, frame: seq<byte>, e: Env): RequestSent
    requires |frame| < TWO_64
  {
    var p := Framed(s.preamble, |frame|);
    var w := Write(e, fd, Serialize(p));
    if w.n != PREAMBLE_SIZE then
      var d := Invalidate(s.conn, w.env);
      RequestSent(Code(PreambleWriteFailure), s.(conn := d.conn, preamble := p), d.env)
    else
      var l := PayloadLoop(w.env, fd, frame, 0);
      RequestSent(Code(Success), s.(preamble := p), l.env)
  }

  /** A short preamble write invalidates the socket and answers SOCK_PREAMBLE_WRITE_FAILURE. */
  lemma ShortPreambleWrite(s: ClientState, fd: int, frame: seq<byte>, e: Env)
    requires |frame| < TWO_64
    requires e.writes == [] || e.writes[0] < PREAMBLE_SIZE
    ensures var r := WriteSpec(s, fd, frame, e);
            r.rc == Code(PreambleWriteFailure) && r.state.conn.socket == -1 &&
            r.state.mask == s.mask && r.state.preamble == Framed(s.preamble, |frame|)
  {
  }

  /** With honest writes the request on the wire is the framed preamble followed by the frame. */
  lemma WriteHonest(s: ClientState, fd: int, frame: seq<byte>, e: Env)
    requires |frame| < TWO_64
    requires e.writes != [] && e.writes[0] >= PREAMBLE_SIZE
    requires AllPositive(e.writes[1..]) && |e.writes| - 1 >= |frame|
    ensures var r := WriteSpec(s, fd, frame, e);
            r.rc == 0 && r.state == s.(preamble := Framed(s.preamble, |frame|)) &&
            SentOn(r.env, fd) == SentOn(e, fd) + Serialize(Framed(s.preamble, |frame|)) + frame &&
            r.env.recvs == e.recvs
  {
    var p := Framed(s.preamble, |frame|);
    var w := Write(e, fd, Serialize(p));
    assert w.n == PREAMBLE_SIZE;
    PayloadHonest(w.env, fd, frame, 0);
    PayloadKeepsRecvs(w.env, fd, frame, 0);
    assert Serialize(p)[..PREAMBLE_SIZE] == Serialize(p);
    assert frame[0..] == frame;
  }

  // ---------------------------------------------------------------------------
  // read_response

  /** How a call of the client ends: with a return code, by writing outside the mask, or never. */
  datatype Outcome = Returned(rc: int) | UndefinedBehaviour | Hangs

  function Splice(buf: seq<byte>, at: nat, data: seq<byte>): (r: seq<byte>)
    requires at + |data| <= |buf|
    ensures |r| == |buf|
  {
    buf[..at] + data + buf[at + |data|..]
  }

  /** After a splice, the buffer up to the end of the new data is the old prefix followed by it. */
  lemma SplicePrefix(buf: seq<byte>, at: nat, data: seq<byte>)
    requires at + |data| <= |buf|
    ensures Splice(buf, at, data)[..at + |data|] == buf[..at] + data
  {
    var r := Splice(buf, at, data);
    PrefixConcat(buf[..at], data + buf[at + |data|..], |data|);
    ConcatAssoc(buf[..at], data, buf[at + |data|..]);
    PrefixInFirst(data, buf[at + |data|..], |data|);
    assert data[..|data|] == data;
  }

  /** A splice replaces exactly the bytes from `at` on, as many as there are new ones. */
  lemma SpliceFacts(buf: seq<byte>, at: nat, data: seq<byte>)
    requires at + |data| <= |buf|
    ensures var r := Splice(buf, at, data);
            r[..at] == buf[..at] && r[at..at + |data|] == data && r[at + |data|..] == buf[at + |data|..]
  {
  }

  datatype Filled = Filled(buf: seq<byte>, total: int, env: Env, defined: bool, spins: bool)

  /**
   * The mask loop as written: `total_read += recv(...)` without a check. An error
   * (-1) moves it back, and once it is negative the next `recv` would write before
   * the buffer, which the model reports as undefined. Once the peer has closed,
   * every `recv` answers 0, so total_read never moves again and the loop spins for
   * ever; the model stops there and reports it (`spins`), and `ClosedNeverEnds`
   * shows that no number of further iterations gets the loop out.
   */
  function ReadLoop(buf: seq<byte>, total: int, e: Env, fd: int): (r: Filled)
    requires total <= |buf|
    ensures |r.buf| == |buf|
    ensures r.defined ==> r.total == |buf| && !r.spins
    ensures r.spins ==> !r.defined && 0 <= r.total < |buf| && Closed(r.env)
    decreases |e.recvs|, if total >= 0 then total + 1 else 0
  {
    if total >= |buf| then Filled(buf, total, e, true, false)
    else if total < 0 then Filled(buf, total, e, false, false)
    else if Closed(e) then Filled(buf, total, e, false, true)
    else
      var r := Recv(e, fd, |buf| - total);
      ReadLoop(Splice(buf, total, r.bytes), total + r.n, r.env, fd)
  }

  datatype Progress = Progress(buf: seq<byte>, total: int, env: Env)

  /** At most `fuel` iterations of the as-written mask loop; it has ended iff the result fails `total_read < mask_length`. */
  function ReadSteps(buf: seq<byte>, total: int, e: Env, fd: int, fuel: nat): (r: Progress)
    requires total <= |buf|
    ensures |r.buf| == |buf| && r.total <= |buf|
    decreases fuel
  {
    if fuel == 0 || !(0 <= total < |buf|) then Progress(buf, total, e)
    else
      var x := Recv(e, fd, |buf| - total);
      ReadSteps(Splice(buf, total, x.bytes), total + x.n, x.env, fd, fuel - 1)
  }

  /** Once the peer has closed, any number of iterations leaves the buffer, total_read and the stream as they were: the loop never ends. */
  lemma {:induction false} ClosedNeverEnds(buf: seq<byte>, total: nat, e: Env, fd: int, fuel: nat)
    requires total < |buf| && Closed(e)
    ensures var r := ReadSteps(buf, total, e, fd, fuel);
            r.buf == buf && r.total == total && r.env.recvs == e.recvs && Closed(r.env)
    decreases fuel
  {
    if fuel > 0 {
      var x := ClosedRecv(e, fd, |buf| - total);
      SpliceNothing(buf, total);
      assert ReadSteps(buf, total, e, fd, fuel) == ReadSteps(buf, total, x.env, fd, fuel - 1);
      ClosedNeverEnds(buf, total, x.env, fd, fuel - 1);
    }
  }

  /** On a closed stream recv answers 0, delivers nothing and leaves the stream closed. */
  lemma ClosedRecv(e: Env, fd: int, count: nat) returns (x: Received)
    requires Closed(e)
    ensures x == Recv(e, fd, count) && x.n == 0 && x.bytes == [] && x.env.recvs == e.recvs && Closed(x.env)
  {
    x := Recv(e, fd, count);
  }

  /** Splicing in no bytes leaves the buffer as it was. */
  lemma SpliceNothing(buf: seq<byte>, at: nat)
    requires at <= |buf|
    ensures Splice(buf, at, []) == buf
  {
    assert buf[..at] + [] + buf[at..] == buf;
  }

  /** Where `ReadLoop` reports spinning, the loop test still holds after any number of further iterations. */
  lemma ReadLoopSpins(buf: seq<byte>, total: int, e: Env, fd: int, fuel: nat)
    requires total <= |buf| && ReadLoop(buf, total, e, fd).spins
    ensures var r := ReadLoop(buf, total, e, fd);
            var q := ReadSteps(r.buf, r.total, r.env, fd, fuel);
            0 <= q.total < |buf| && q.total == r.total
  {
    var r := ReadLoop(buf, total, e, fd);
    ClosedNeverEnds(r.buf, r.total, r.env, fd, fuel);
  }

  /** Answers that each deliver at least one byte and together deliver exactly `data`. */
  predicate Chunks(answers: seq<Answer>, data: seq<byte>)
    decreases |answers|
  {
    if answers == [] then data == []
    else answers[0].Data? && 0 < |answers[0].bytes| <= |data| &&
         answers[0].bytes == data[..|answers[0].bytes|] &&
         Chunks(answers[1..], data[|answers[0].bytes|..])
  }

  /** Between a and b only recv answers were used up and calls logged. */
  predicate OnlyReads(a: Env, b: Env)
  {
    b.tmpdir == a.tmpdir && b.files == a.files && b.attempts == a.attempts && b.writes == a.writes && b.sent == a.sent
  }

  /** One recv of the mask loop that delivers the chunk b in full. */
  lemma ReadChunkStep(buf: seq<byte>, total: nat, e: Env, fd: int, b: seq<byte>) returns (buf': seq<byte>, e': Env)
    requires total < |buf| && e.recvs != [] && e.recvs[0] == Data(b) && 0 < |b| <= |buf| - total
    ensures |buf'| == |buf| && buf'[..total + |b|] == buf[..total] + b
    ensures e'.recvs == e.recvs[1..] && OnlyReads(e, e')
    ensures ReadLoop(buf, total, e, fd) == ReadLoop(buf', total + |b|, e', fd)
  {
    assert b[..Min(|buf| - total, |b|)] == b;
    var x := Recv(e, fd, |buf| - total);
    buf', e' := Splice(buf, total, b), x.env;
    SplicePrefix(buf, total, b);
  }

  /** An empty chunk list delivers nothing. */
  lemma ChunksNil(chunks: seq<Answer>, rest: seq<Answer>, data: seq<byte>)
    requires chunks == [] && Chunks(chunks, data)
    ensures data == [] && chunks + rest == rest && data + [] == data
  {
  }

  /** The first chunk of a non-empty chunked stream, and the rest of it. */
  lemma ChunksCons(chunks: seq<Answer>, rest: seq<Answer>, data: seq<byte>) returns (b: seq<byte>)
    requires chunks != [] && Chunks(chunks, data)
    ensures 0 < |b| <= |data| && (chunks + rest)[0] == Data(b) && (chunks + rest)[1..] == chunks[1..] + rest
    ensures data == b + data[|b|..] && Chunks(chunks[1..], data[|b|..])
  {
    b := chunks[0].bytes;
    ConsConcat(chunks, rest);
    TakeDrop(data, |b|);
  }

  /** With recv answers that deliver the rest in non-empty chunks, the loop ends exactly at the length, holding those bytes. */
  lemma {:induction false} ReadLoopHonest(buf: seq<byte>, total: nat, e: Env, fd: int, data: seq<byte>, chunks: seq<Answer>, rest: seq<Answer>)
    requires total + |data| == |buf| && e.recvs == chunks + rest && Chunks(chunks, data)
    ensures var r := ReadLoop(buf, total, e, fd);
            r.defined && r.buf == buf[..total] + data && r.env.recvs == rest && OnlyReads(e, r.env)
    decreases |chunks|
  {
    if chunks == [] {
      ChunksNil(chunks, rest, data);
      assert ReadLoop(buf, total, e, fd) == Filled(buf, total, e, true, false);
      assert buf[..total] == buf;
    } else {
      var b := ChunksCons(chunks, rest, data);
      var buf', e' := ReadChunkStep(buf, total, e, fd, b);
      ReadLoopHonest(buf', total + |b|, e', fd, data[|b|..], chunks[1..], rest);
      FilledPrefixGrows(buf[..total], buf'[..total + |b|], b, data);
    }
  }

  datatype ResponseRead = ResponseRead(outcome: Outcome, state: ClientState, env: Env)

  /** A failed read: invalidate, keep the rest of the state, answer the code. */
  function ReadFailure(err: SocketError, s: ClientState, e: Env): (r: ResponseRead)
    ensures r.outcome == Returned(Code(err)) && r.state == s.(conn := s.conn.(socket := -1))
  {
    var d := Invalidate(s.conn, e);
    ResponseRead(Returned(Code(err)), s.(conn := d.conn), d.env)
  }

  function ReadSpec(s: ClientState, fd: int, e: Env, allocOk: bool): ResponseRead
  {
    var h := Recv(e, fd, HEADER_LENGTH);
    if h.n != HEADER_LENGTH then ReadFailure(NoHeaderRead, s, h.env)
    else if Strncmp(h.bytes, RESPONSE_HEADER, HEADER_LENGTH) != 0 then ReadFailure(InvalidResponseHeader, s, h.env)
    else
      var l := Recv(h.env, fd, 4);
      if l.n != 4 then ReadFailure(UnderreadMask, s, l.env)
      else ReadMask(s, fd, l.env, ReadInt32LE(l.bytes), allocOk)
  }

  /** The rest of read_response once the length is known: get_mask, then the mask loop. */
  function ReadMask(s: ClientState, fd: int, e: Env, len: int32, allocOk: bool): (r: ResponseRead)
    ensures len < 0 ==> r == ReadFailure(NegativeResponseSize, s, e)
    ensures len >= 0 ==> r.state.maskSize == len && r.state.conn.port == s.conn.port
  {
    if len < 0 then ReadFailure(NegativeResponseSize, s, e)
    else
      var m := GetMaskSpec(s.mask, s.maskSize, len, allocOk);
      var s1 := s.(mask := m.mask, maskSize := m.maskSize);
      if m.mask.None? then ReadFailure(NoMask, s1, e)
      else
        var f := ReadLoop(m.mask.value, 0, e, fd);
        ResponseRead(if f.defined then Returned(0) else if f.spins then Hangs else UndefinedBehaviour,
                     s1.(mask := Some(f.buf)), f.env)
  }

  /** A first recv that is short or not the response header fails the read and keeps the mask. */
  lemma BadHeaderKeepsMask(s: ClientState, fd: int, e: Env, allocOk: bool)
    requires e.recvs != [] && e.recvs[0].Data? && |e.recvs[0].bytes| >= HEADER_LENGTH
    requires e.recvs[0].bytes[..HEADER_LENGTH] != RESPONSE_HEADER
    ensures var r := ReadSpec(s, fd, e, allocOk);
            r.outcome == Returned(Code(InvalidResponseHeader)) && r.state == s.(conn := s.conn.(socket := -1))
  {
    var h := Recv(e, fd, HEADER_LENGTH);
    ResponseHeaderCheck(h.bytes);
  }

  /** A header recv that does not return all eight bytes fails the read and keeps the mask. */
  lemma ShortHeaderKeepsMask(s: ClientState, fd: int, e: Env, allocOk: bool)
    ensures var h := Recv(e, fd, HEADER_LENGTH); var r := ReadSpec(s, fd, e, allocOk);
            h.n != HEADER_LENGTH ==>
              r.outcome == Returned(Code(NoHeaderRead)) && r.state == s.(conn := s.conn.(socket := -1))
  {
  }

  /** After the response header, a length recv that does not return four bytes fails the read and keeps the mask. */
  lemma ShortLengthKeepsMask(s: ClientState, fd: int, e: Env, allocOk: bool)
    ensures var h := Recv(e, fd, HEADER_LENGTH); var l := Recv(h.env, fd, 4);
            var r := ReadSpec(s, fd, e, allocOk);
            h.n == HEADER_LENGTH && h.bytes == RESPONSE_HEADER && l.n != 4 ==>
              r.outcome == Returned(Code(UnderreadMask)) && r.state == s.(conn := s.conn.(socket := -1))
  {
    var h := Recv(e, fd, HEADER_LENGTH);
    if h.n == HEADER_LENGTH {
      ResponseHeaderCheck(h.bytes);
    }
  }

  /**
   * A read succeeds only when the header recv delivered exactly the response header and the
   * length recv four bytes of a non-negative length, which becomes the mask size.
   */
  lemma ReadSuccessNeedsFullResponse(s: ClientState, fd: int, e: Env, allocOk: bool)
    ensures var h := Recv(e, fd, HEADER_LENGTH); var l := Recv(h.env, fd, 4);
            var r := ReadSpec(s, fd, e, allocOk);
            r.outcome == Returned(0) ==>
              h.n == HEADER_LENGTH && h.bytes == RESPONSE_HEADER && l.n == 4 &&
              ReadInt32LE(l.bytes) >= 0 && r.state.maskSize == ReadInt32LE(l.bytes)
  {
    var h := Recv(e, fd, HEADER_LENGTH);
    if h.n == HEADER_LENGTH {
      ResponseHeaderCheck(h.bytes);
    }
  }

  /** The header recv meets the response header delivered whole. */
  lemma HeaderStep(e: Env, fd: int)
    requires e.recvs != [] && e.recvs[0] == Data(RESPONSE_HEADER)
    ensures var h := Recv(e, fd, HEADER_LENGTH);
            h.n == HEADER_LENGTH && h.bytes == RESPONSE_HEADER &&
            Strncmp(h.bytes, RESPONSE_HEADER, HEADER_LENGTH) == 0 &&
            h.env.recvs == e.recvs[1..] && OnlyReads(e, h.env)
  {
    assert RESPONSE_HEADER[..Min(HEADER_LENGTH, |RESPONSE_HEADER|)] == RESPONSE_HEADER;
    ResponseHeaderCheck(RESPONSE_HEADER);
  }

  /** The length recv meets four bytes of a non-negative int32. */
  lemma LengthStep(e: Env, fd: int, n: nat)
    requires n < 0x8000_0000 && e.recvs != [] && e.recvs[0] == Data(Int32LE(n))
    ensures var l := Recv(e, fd, 4);
            l.n == 4 && ReadInt32LE(l.bytes) == n && l.env.recvs == e.recvs[1..] && OnlyReads(e, l.env)
  {
    assert Int32LE(n)[..Min(4, 4)] == Int32LE(n);
    Int32RoundTrip(n);
  }

  /** The mask part of a well-formed response fills the mask with exactly the bytes sent. */
  lemma ReadMaskRoundTrip(s: ClientState, fd: int, e: Env, allocOk: bool, mask: seq<byte>, chunks: seq<Answer>, rest: seq<Answer>)
    requires ClientValid(s) && |mask| < 0x8000_0000
    requires e.recvs == chunks + rest && Chunks(chunks, mask)
    requires allocOk || (s.mask.Some? && s.maskSize == |mask|)
    ensures var r := ReadMask(s, fd, e, |mask|, allocOk);
            r.outcome == Returned(0) && r.state == s.(mask := Some(mask), maskSize := |mask|) &&
            r.env.recvs == rest && OnlyReads(e, r.env)
  {
    var m := GetMaskSpec(s.mask, s.maskSize, |mask|, allocOk);
    assert m.mask.Some? && |m.mask.value| == |mask|;
    ReadLoopHonest(m.mask.value, 0, e, fd, mask, chunks, rest);
    assert m.mask.value[..0] + mask == mask;
  }

  /**
   * A well-formed response (header, length, and the mask bytes in non-empty
   * chunks) is read back as sent: the call returns 0 and the client holds
   * exactly the mask bytes, in a buffer kept when the size did not change.
   */
  lemma ReadResponseRoundTrip(s: ClientState, fd: int, e: Env, allocOk: bool, mask: seq<byte>, chunks: seq<Answer>, rest: seq<Answer>)
    requires ClientValid(s) && |mask| < 0x8000_0000
    requires e.recvs == [Data(RESPONSE_HEADER), Data(Int32LE(|mask|))] + (chunks + rest) && Chunks(chunks, mask)
    requires allocOk || (s.mask.Some? && s.maskSize == |mask|)
    ensures var r := ReadSpec(s, fd, e, allocOk);
            r.outcome == Returned(0) && r.state == s.(mask := Some(mask), maskSize := |mask|) &&
            r.env.recvs == rest && OnlyReads(e, r.env)
  {
    DropTwo(Data(RESPONSE_HEADER), Data(Int32LE(|mask|)), chunks + rest);
    HeaderStep(e, fd);
    var h := Recv(e, fd, HEADER_LENGTH);
    LengthStep(h.env, fd, |mask|);
    var l := Recv(h.env, fd, 4);
    ReadMaskRoundTrip(s, fd, l.env, allocOk, mask, chunks, rest);
  }

  // ---------------------------------------------------------------------------
  // run_segmentation

  datatype Round = Round(outcome: Outcome, state: ClientState, env: Env)

  /** A round as written: the gate's answer is used as a descriptor whenever it is not negative. */
  function RunSpec(s: ClientState, now: uint64, frame: seq<byte>, e: Env, allocOk: bool): Round
    requires |frame| < TWO_64
  {
    var g := GateStep(s.conn, now, e);
    var s1 := s.(conn := g.conn);
    var fd := ReturnedFd(g.gate);
    if fd < 0 then Round(Returned(-1), s1, g.env)
    else
      var w := WriteSpec(s1, fd, frame, g.env);
      if w.rc != 0 then Round(Returned(w.rc), w.state, w.env)
      else
        var r := ReadSpec(w.state, fd, w.env, allocOk);
        Round(r.outcome, r.state, r.env)
  }

  /** A round keeps the mask buffer at mask_size bytes, and one that returns 0 leaves a mask. */
  lemma RoundKeepsMask(s: ClientState, now: uint64, frame: seq<byte>, e: Env, allocOk: bool)
    requires |frame| < TWO_64 && ClientValid(s)
    ensures var r := RunSpec(s, now, frame, e, allocOk);
            ClientValid(r.state) && (r.outcome == Returned(0) ==> r.state.mask.Some?)
  {
    var g := GateStep(s.conn, now, e);
    var fd := ReturnedFd(g.gate);
    if fd >= 0 {
      var w := WriteSpec(s.(conn := g.conn), fd, frame, g.env);
      if w.rc == 0 {
        assert w.state.mask == s.mask && w.state.maskSize == s.maskSize;
        ReadKeepsMask(w.state, fd, w.env, allocOk);
      }
    }
  }

  lemma ReadKeepsMask(s: ClientState, fd: int, e: Env, allocOk: bool)
    requires ClientValid(s)
    ensures var r := ReadSpec(s, fd, e, allocOk);
            ClientValid(r.state) && (r.outcome == Returned(0) ==> r.state.mask.Some?)
  {
    var h := Recv(e, fd, HEADER_LENGTH);
    var l := Recv(h.env, fd, 4);
    if h.n == HEADER_LENGTH && Strncmp(h.bytes, RESPONSE_HEADER, HEADER_LENGTH) == 0 && l.n == 4 {
      var len := ReadInt32LE(l.bytes);
      if len >= 0 {
        var m := GetMaskSpec(s.mask, s.maskSize, len, allocOk);
        assert m.mask.Some? ==> |m.mask.value| == len;
      }
    }
  }

  /**
   * The no-port code 7 passes the `< 0` test: the round writes the request
   * preamble to descriptor 7, which the client never opened.
   */
  lemma NoPortWritesToDescriptor7(s: ClientState, now: uint64, frame: seq<byte>, e: Env, allocOk: bool)
    requires |frame| < TWO_64
    requires s.conn.socket == -1 && SubU64(now, s.conn.lastConnect) >= MIN_RECONNECT_INTERVAL
    requires !PortCached(s.conn, now) && PortFilePath(e.tmpdir) !in e.files
    requires e.writes != [] && e.writes[0] >= PREAMBLE_SIZE
    ensures var r := RunSpec(s, now, frame, e, allocOk);
            |r.env.log| > |e.log| + 1 &&
            r.env.log[..|e.log| + 2] == e.log + [Open(PortFilePath(e.tmpdir)), Send(7, Serialize(Framed(s.preamble, |frame|)))]
  {
    var g := GateStep(s.conn, now, e);
    GateNoPort(s.conn, now, e);
    var p := Framed(s.preamble, |frame|);
    var w := Write(g.env, 7, Serialize(p));
    assert Serialize(p)[..PREAMBLE_SIZE] == Serialize(p);
    var l := PayloadLoop(w.env, 7, frame, 0);
    PayloadLogGrows(w.env, 7, frame, 0);
    var pre := e.log + [Open(PortFilePath(e.tmpdir)), Send(7, Serialize(p))];
    assert w.env.log == pre;
    var x := ReadSpec(s.(conn := g.conn, preamble := p), 7, l.env, allocOk);
    ReadLogGrows(s.(conn := g.conn, preamble := p), 7, l.env, allocOk);
    LogExtendsTrans(w.env, l.env, x.env);
    assert RunSpec(s, now, frame, e, allocOk).env == x.env;
  }

  /** A socket() failure's code 8 passes too and is used as a descriptor. */
  lemma SocketFailureWritesToDescriptor8(s: ClientState, now: uint64, frame: seq<byte>, e: Env, allocOk: bool)
    requires |frame| < TWO_64
    requires s.conn.socket == -1 && SubU64(now, s.conn.lastConnect) >= MIN_RECONNECT_INTERVAL
    requires PortCached(s.conn, now) && e.attempts == []
    ensures var r := RunSpec(s, now, frame, e, allocOk);
            |r.env.log| > |e.log| + 1 &&
            r.env.log[|e.log|] == Socket(-1) && r.env.log[|e.log| + 1].Send? && r.env.log[|e.log| + 1].fd == 8
  {
    var g := GateStep(s.conn, now, e);
    assert g.gate == SocketFailed;
    var p := Framed(s.preamble, |frame|);
    var w := Write(g.env, 8, Serialize(p));
    var s1 := s.(conn := g.conn);
    var pre := w.env.log;
    assert |pre| == |e.log| + 2 && pre[|e.log|] == Socket(-1) && pre[|e.log| + 1].Send? && pre[|e.log| + 1].fd == 8;
    var r := RunSpec(s, now, frame, e, allocOk);
    if w.n != PREAMBLE_SIZE {
      assert r.env.log == pre;
    } else {
      var l := PayloadLoop(w.env, 8, frame, 0);
      PayloadLogGrows(w.env, 8, frame, 0);
      var x := ReadSpec(s1.(preamble := p), 8, l.env, allocOk);
      ReadLogGrows(s1.(preamble := p), 8, l.env, allocOk);
      LogExtendsTrans(w.env, l.env, x.env);
      assert r.env == x.env;
    }
  }

  /** The payload loop only appends to the log. */
  lemma {:induction false} PayloadLogGrows(e: Env, fd: int, frame: seq<byte>, offset: uint64)
    requires |frame| < TWO_64
    ensures LogExtends(e, PayloadLoop(e, fd, frame, offset).env)
    decreases |e.writes|, if offset < |frame| then offset + 1 else 0
  {
    if offset < |frame| {
      var w := Write(e, fd, frame[offset..]);
      assert PayloadLoop(e, fd, frame, offset) == PayloadLoop(w.env, fd, frame, Advance(offset, w.n));
      assert LogExtends(e, w.env);
      PayloadLogGrows(w.env, fd, frame, Advance(offset, w.n));
      LogExtendsTrans(e, w.env, PayloadLoop(w.env, fd, frame, Advance(offset, w.n)).env);
    } else {
      assert e.log[..|e.log|] == e.log;
    }
  }

  /** The mask loop only appends to the log. */
  lemma {:induction false} ReadLoopLogGrows(buf: seq<byte>, total: int, e: Env, fd: int)
    requires total <= |buf|
    ensures LogExtends(e, ReadLoop(buf, total, e, fd).env)
    decreases |e.recvs|, if total >= 0 then total + 1 else 0
  {
    if 0 <= total < |buf| && !Closed(e) {
      var x := Recv(e, fd, |buf| - total);
      var buf' := Splice(buf, total, x.bytes);
      assert ReadLoop(buf, total, e, fd) == ReadLoop(buf', total + x.n, x.env, fd);
      assert LogExtends(e, x.env);
      ReadLoopLogGrows(buf', total + x.n, x.env, fd);
      LogExtendsTrans(e, x.env, ReadLoop(buf', total + x.n, x.env, fd).env);
    } else {
      assert ReadLoop(buf, total, e, fd).env == e;
      assert e.log[..|e.log|] == e.log;
    }
  }

  /** read_response only appends to the log. */
  lemma ReadLogGrows(s: ClientState, fd: int, e: Env, allocOk: bool)
    ensures LogExtends(e, ReadSpec(s, fd, e, allocOk).env)
  {
    var h := Recv(e, fd, HEADER_LENGTH);
    assert LogExtends(e, h.env);
    if h.n != HEADER_LENGTH || Strncmp(h.bytes, RESPONSE_HEADER, HEADER_LENGTH) != 0 {
      InvalidateLogGrows(s.conn, h.env);
      LogExtendsTrans(e, h.env, ReadSpec(s, fd, e, allocOk).env);
    } else {
      var l := Recv(h.env, fd, 4);
      assert LogExtends(h.env, l.env);
      LogExtendsTrans(e, h.env, l.env);
      if l.n != 4 {
        InvalidateLogGrows(s.conn, l.env);
        LogExtendsTrans(e, l.env, ReadSpec(s, fd, e, allocOk).env);
      } else {
        assert ReadSpec(s, fd, e, allocOk) == ReadMask(s, fd, l.env, ReadInt32LE(l.bytes), allocOk);
        ReadMaskLogGrows(s, fd, l.env, ReadInt32LE(l.bytes), allocOk);
        LogExtendsTrans(e, l.env, ReadSpec(s, fd, e, allocOk).env);
      }
    }
  }

  lemma InvalidateLogGrows(c: Conn, e: Env)
    ensures LogExtends(e, Invalidate(c, e).env)
  {
    assert e.log[..|e.log|] == e.log;
  }

  lemma ReadMaskLogGrows(s: ClientState, fd: int, e: Env, len: int32, allocOk: bool)
    ensures LogExtends(e, ReadMask(s, fd, e, len, allocOk).env)
  {
    InvalidateLogGrows(s.conn, e);
    if len >= 0 {
      var m := GetMaskSpec(s.mask, s.maskSize, len, allocOk);
      if m.mask.Some? {
        ReadLoopLogGrows(m.mask.value, 0, e, fd);
      }
    }
  }

  /**
   * A payload write that times out once the preamble is out moves the offset
   * from 0 to SIZE_MAX and ends the loop: the request reports success though
   * none of the frame was sent.
   */
  lemma PayloadTimeoutReportsSuccess(s: ClientState, fd: int, frame: seq<byte>, e: Env)
    requires 0 < |frame| < TWO_64
    requires e.writes == [PREAMBLE_SIZE]
    ensures var r := WriteSpec(s, fd, frame, e);
            r.rc == 0 && SentOn(r.env, fd) == SentOn(e, fd) + Serialize(Framed(s.preamble, |frame|))
  {
    var p := Framed(s.preamble, |frame|);
    var w := Write(e, fd, Serialize(p));
    assert Serialize(p)[..PREAMBLE_SIZE] == Serialize(p);
    var w2 := Write(w.env, fd, frame[0..]);
    assert w2.n == -1 && Advance(0, w2.n) == TWO_64 - 1;
    assert PayloadLoop(w2.env, fd, frame, TWO_64 - 1) == Payload(w2.env, TWO_64 - 1);
    assert PayloadLoop(w.env, fd, frame, 0) == PayloadLoop(w2.env, fd, frame, TWO_64 - 1);
    assert SentOn(w2.env, fd) == SentOn(e, fd) + Serialize(p) + [];
    assert SentOn(e, fd) + Serialize(p) + [] == SentOn(e, fd) + Serialize(p);
  }

  /** A payload error after some bytes went out moves the offset back one byte, so that byte is sent again. */
  lemma PayloadErrorStepsBack(e: Env, fd: int, frame: seq<byte>)
    requires 2 <= |frame| < TWO_64
    requires e.writes == [1, -1, |frame|]
    ensures SentOn(PayloadLoop(e, fd, frame, 0).env, fd) == SentOn(e, fd) + [frame[0]] + frame
  {
    var w1 := Write(e, fd, frame[0..]);
    assert frame[0..] == frame;
    assert w1.n == 1 && Advance(0, w1.n) == 1;
    var w2 := Write(w1.env, fd, frame[1..]);
    assert w2.n == -1 && Advance(1, w2.n) == 0;
    var w3 := Write(w2.env, fd, frame[0..]);
    assert w3.n == |frame| && Advance(0, w3.n) == |frame|;
    assert PayloadLoop(w3.env, fd, frame, |frame|) == Payload(w3.env, |frame|);
    assert PayloadLoop(w2.env, fd, frame, 0) == PayloadLoop(w3.env, fd, frame, |frame|);
    assert PayloadLoop(w1.env, fd, frame, 1) == PayloadLoop(w2.env, fd, frame, 0);
    assert PayloadLoop(e, fd, frame, 0) == PayloadLoop(w1.env, fd, frame, 1);
    assert frame[0..][..1] == [frame[0]] && frame[0..][..|frame|] == frame;
    assert SentOn(w1.env, fd) == SentOn(e, fd) + [frame[0]];
    assert SentOn(w2.env, fd) == SentOn(e, fd) + [frame[0]] + [];
    assert SentOn(e, fd) + [frame[0]] + [] == SentOn(e, fd) + [frame[0]];
  }

  /** A first mask recv that times out (-1) drives total_read negative, so the next recv would write before the mask. */
  lemma ReadTimeoutUndefined(buf: seq<byte>, e: Env, fd: int)
    requires |buf| > 0
    requires e.recvs != [] && e.recvs[0] == Fail
    ensures var r := ReadLoop(buf, 0, e, fd);
            !r.defined && !r.spins && r.total == -1
  {
    var r1 := Recv(e, fd, |buf|);
    assert r1.n == -1 && r1.bytes == [];
    assert Splice(buf, 0, []) == buf;
    assert ReadLoop(buf, 0, e, fd) == ReadLoop(buf, -1, r1.env, fd);
  }

  /**
   * A response whose header and length arrive, after which the service closes the
   * connection before the first mask byte: read_response never returns.
   */
  lemma ReadClosedHangs(s: ClientState, fd: int, e: Env, allocOk: bool, n: nat)
    requires ClientValid(s) && 0 < n < 0x8000_0000
    requires e.recvs == [Data(RESPONSE_HEADER), Data(Int32LE(n)), Data([])]
    requires allocOk || (s.mask.Some? && s.maskSize == n)
    ensures ReadSpec(s, fd, e, allocOk).outcome == Hangs
  {
    assert e.recvs[1..] == [Data(Int32LE(n)), Data([])];
    HeaderStep(e, fd);
    var h := Recv(e, fd, HEADER_LENGTH);
    assert h.env.recvs[1..] == [Data([])];
    LengthStep(h.env, fd, n);
    var l := Recv(h.env, fd, 4);
    assert Closed(l.env);
    var m := GetMaskSpec(s.mask, s.maskSize, n, allocOk);
    assert m.mask.Some? && |m.mask.value| == n;
  }

  // ---------------------------------------------------------------------------
  // The corrected gate test: only a socket the gate opened or kept is used.

  function RunGuarded(s: ClientState, now: uint64, frame: seq<byte>, e: Env, allocOk: bool): (r: Round)
    requires |frame| < TWO_64
    ensures var g := GateStep(s.conn, now, e);
            !(g.gate.Reuse? || g.gate.Established?) ==>
              r == Round(Returned(ReturnedFd(g.gate)), s.(conn := g.conn), g.env)
  {
    var g := GateStep(s.conn, now, e);
    var s1 := s.(conn := g.conn);
    if !(g.gate.Reuse? || g.gate.Established?) then Round(Returned(ReturnedFd(g.gate)), s1, g.env)
    else
      var fd := ReturnedFd(g.gate);
      var w := WriteSpec(s1, fd, frame, g.env);
      if w.rc != 0 then Round(Returned(w.rc), w.state, w.env)
      else
        var r := ReadSpec(w.state, fd, w.env, allocOk);
        Round(r.outcome, r.state, r.env)
  }

  /** Without a port file the corrected round answers 7 having only tried to open it. */
  lemma GuardedNoPort(s: ClientState, now: uint64, frame: seq<byte>, e: Env, allocOk: bool)
    requires |frame| < TWO_64
    requires s.conn.socket == -1 && SubU64(now, s.conn.lastConnect) >= MIN_RECONNECT_INTERVAL
    requires !PortCached(s.conn, now) && PortFilePath(e.tmpdir) !in e.files
    ensures var r := RunGuarded(s, now, frame, e, allocOk);
            r.outcome == Returned(Code(NoSegmentationPort)) && r.state == s &&
            r.env == e.(log := e.log + [Open(PortFilePath(e.tmpdir))])
  {
    GateNoPort(s.conn, now, e);
  }

  /** The corrected round sends only on the socket the gate left open. */
  lemma GuardedSendsOnlyOnSocket(s: ClientState, now: uint64, frame: seq<byte>, e: Env, allocOk: bool, fd: int)
    requires |frame| < TWO_64
    requires fd != GateStep(s.conn, now, e).conn.socket
    ensures SentOn(RunGuarded(s, now, frame, e, allocOk).env, fd) == SentOn(e, fd)
  {
    var g := GateStep(s.conn, now, e);
    GateSendsNothing(s.conn, now, e, fd);
    if g.gate.Reuse? || g.gate.Established? {
      var sock := ReturnedFd(g.gate);
      var s1 := s.(conn := g.conn);
      var p := Framed(s1.preamble, |frame|);
      var w := Write(g.env, sock, Serialize(p));
      if w.n == PREAMBLE_SIZE {
        PayloadSendsOnlyOn(w.env, sock, frame, 0, fd);
        var l := PayloadLoop(w.env, sock, frame, 0);
        ReadSendsNothing(s1.(preamble := p), sock, l.env, allocOk, fd);
      }
    }
  }

  lemma GateSendsNothing(c: Conn, now: uint64, e: Env, fd: int)
    ensures SentOn(GateStep(c, now, e).env, fd) == SentOn(e, fd)
  {
  }

  lemma {:induction false} PayloadSendsOnlyOn(e: Env, sock: int, frame: seq<byte>, offset: uint64, fd: int)
    requires |frame| < TWO_64 && fd != sock
    ensures SentOn(PayloadLoop(e, sock, frame, offset).env, fd) == SentOn(e, fd)
    decreases |e.writes|, if offset < |frame| then offset + 1 else 0
  {
    if offset < |frame| {
      var w := Write(e, sock, frame[offset..]);
      PayloadSendsOnlyOn(w.env, sock, frame, Advance(offset, w.n), fd);
    }
  }

  lemma {:induction false} ReadLoopSendsNothing(buf: seq<byte>, total: int, e: Env, sock: int, fd: int)
    requires total <= |buf|
    ensures SentOn(ReadLoop(buf, total, e, sock).env, fd) == SentOn(e, fd)
    decreases |e.recvs|, if total >= 0 then total + 1 else 0
  {
    if 0 <= total < |buf| && !Closed(e) {
      var x := Recv(e, sock, |buf| - total);
      ReadLoopSendsNothing(Splice(buf, total, x.bytes), total + x.n, x.env, sock, fd);
    }
  }

  lemma ReadSendsNothing(s: ClientState, sock: int, e: Env, allocOk: bool, fd: int)
    ensures SentOn(ReadSpec(s, sock, e, allocOk).env, fd) == SentOn(e, fd)
  {
    var h := Recv(e, sock, HEADER_LENGTH);
    var l := Recv(h.env, sock, 4);
    if h.n == HEADER_LENGTH && Strncmp(h.bytes, RESPONSE_HEADER, HEADER_LENGTH) == 0 && l.n == 4 {
      var len := ReadInt32LE(l.bytes);
      if len >= 0 {
        var m := GetMaskSpec(s.mask, s.maskSize, len, allocOk);
        if m.mask.Some? {
          ReadLoopSendsNothing(m.mask.value, 0, l.env, sock, fd);
        }
      }
    }
  }

  // ---------------------------------------------------------------------------
  // The corrected loops: a 0 or negative return fails the request.

  /** The payload loop that stops at the first write that sends nothing. */
  function PayloadChecked(e: Env, fd: int, frame: seq<byte>, offset: nat): (r: Payload)
    requires offset <= |frame| < TWO_64
    ensures r.offset <= |frame|
    decreases |frame| - offset
  {
    if offset == |frame| then Payload(e, offset)
    else
      var w := Write(e, fd, frame[offset..]);
      if w.n <= 0 then Payload(w.env, offset)
      else PayloadChecked(w.env, fd, frame, offset + w.n)
  }

  /** One write of the checked loop: it either stops where it is or advances by what was sent. */
  lemma CheckedStep(e: Env, fd: int, frame: seq<byte>, offset: nat) returns (e': Env, next: nat)
    requires offset < |frame| < TWO_64
    ensures offset <= next <= |frame|
    ensures SentOn(e', fd) == SentOn(e, fd) + frame[offset..next]
    ensures PayloadChecked(e, fd, frame, offset) ==
            if next == offset then Payload(e', offset) else PayloadChecked(e', fd, frame, next)
  {
    var w := Write(e, fd, frame[offset..]);
    e' := w.env;
    if w.n > 0 {
      next := offset + w.n;
      SliceOfSuffix(frame, offset, w.n);
    } else {
      next := offset;
      assert frame[offset..offset] == [];
    }
  }

  /** Whatever the writes answer, the bytes on the wire are the frame's prefix up to the final offset. */
  lemma {:induction false} PayloadCheckedPrefix(e: Env, fd: int, frame: seq<byte>, offset: nat)
    requires offset <= |frame| < TWO_64
    ensures var r := PayloadChecked(e, fd, frame, offset);
            offset <= r.offset && SentOn(r.env, fd) == SentOn(e, fd) + frame[offset..r.offset]
    decreases |frame| - offset
  {
    if offset < |frame| {
      var e', next := CheckedStep(e, fd, frame, offset);
      if next > offset {
        PayloadCheckedPrefix(e', fd, frame, next);
        var r := PayloadChecked(e', fd, frame, next);
        SliceJoin(frame, offset, next, r.offset);
        ConcatAssoc(SentOn(e, fd), frame[offset..next], frame[next..r.offset]);
      }
    } else {
      assert frame[offset..offset] == [];
    }
  }

  /** The request writer with the checked loop; a payload failure is SOCK_PREAMBLE_WRITE_FAILURE too. */
  function WriteChecked(s: ClientState, fd: int, frame: seq<byte>, e: Env): RequestSent
    requires |frame| < TWO_64
  {
    var p := Framed(s.preamble, |frame|);
    var w := Write(e, fd, Serialize(p));
    if w.n != PREAMBLE_SIZE then
      var d := Invalidate(s.conn, w.env);
      RequestSent(Code(PreambleWriteFailure), s.(conn := d.conn, preamble := p), d.env)
    else
      var l := PayloadChecked(w.env, fd, frame, 0);
      if l.offset < |frame| then
        var d := Invalidate(s.conn, l.env);
        RequestSent(Code(PreambleWriteFailure), s.(conn := d.conn, preamble := p), d.env)
      else RequestSent(Code(Success), s.(preamble := p), l.env)
  }

  /** A short preamble write: the checked writer has sent only what that write accepted. */
  lemma WriteCheckedShort(s: ClientState, fd: int, frame: seq<byte>, e: Env) returns (k: nat)
    requires |frame| < TWO_64
    requires Write(e, fd, Serialize(Framed(s.preamble, |frame|))).n != PREAMBLE_SIZE
    ensures var r := WriteChecked(s, fd, frame, e);
            k < PREAMBLE_SIZE && SentOn(r.env, fd) == SentOn(e, fd) + Serialize(Framed(s.preamble, |frame|))[..k] &&
            r.rc == Code(PreambleWriteFailure) && r.state.conn.socket == -1
  {
    var p := Framed(s.preamble, |frame|);
    var w := Write(e, fd, Serialize(p));
    k := if w.n < 0 then 0 else w.n;
    var d := Invalidate(s.conn, w.env);
    assert WriteChecked(s, fd, frame, e) ==
           RequestSent(Code(PreambleWriteFailure), s.(conn := d.conn, preamble := p), d.env);
    assert SentOn(d.env, fd) == SentOn(w.env, fd);
  }

  /** A full preamble write: the checked writer has sent the preamble and a prefix of the frame. */
  lemma WriteCheckedPayload(s: ClientState, fd: int, frame: seq<byte>, e: Env) returns (j: nat)
    requires |frame| < TWO_64
    requires Write(e, fd, Serialize(Framed(s.preamble, |frame|))).n == PREAMBLE_SIZE
    ensures var r := WriteChecked(s, fd, frame, e);
            j <= |frame| &&
            SentOn(r.env, fd) == SentOn(e, fd) + Serialize(Framed(s.preamble, |frame|)) + frame[..j] &&
            (r.rc == 0 <==> j == |frame|) &&
            (r.rc != 0 ==> r.rc == Code(PreambleWriteFailure) && r.state.conn.socket == -1)
  {
    var p := Framed(s.preamble, |frame|);
    var w := Write(e, fd, Serialize(p));
    assert Serialize(p)[..PREAMBLE_SIZE] == Serialize(p);
    PayloadCheckedPrefix(w.env, fd, frame, 0);
    var l := PayloadChecked(w.env, fd, frame, 0);
    j := l.offset;
    assert frame[0..j] == frame[..j];
    if j < |frame| {
      var d := Invalidate(s.conn, l.env);
      assert WriteChecked(s, fd, frame, e) ==
             RequestSent(Code(PreambleWriteFailure), s.(conn := d.conn, preamble := p), d.env);
      assert SentOn(d.env, fd) == SentOn(l.env, fd);
    } else {
      assert WriteChecked(s, fd, frame, e) == RequestSent(Code(Success), s.(preamble := p), l.env);
    }
  }

  /** The corrected writer sends a prefix of the request, all of it exactly when it answers success. */
  lemma WriteCheckedSends(s: ClientState, fd: int, frame: seq<byte>, e: Env) returns (k: nat)
    requires |frame| < TWO_64
    ensures var r := WriteChecked(s, fd, frame, e);
            var request := Serialize(Framed(s.preamble, |frame|)) + frame;
            k <= |request| && SentOn(r.env, fd) == SentOn(e, fd) + request[..k] &&
            (r.rc == 0 <==> k == |request|) &&
            (r.rc != 0 ==> r.rc == Code(PreambleWriteFailure) && r.state.conn.socket == -1)
  {
    var p := Framed(s.preamble, |frame|);
    if Write(e, fd, Serialize(p)).n != PREAMBLE_SIZE {
      k := WriteCheckedShort(s, fd, frame, e);
      PrefixInFirst(Serialize(p), frame, k);
    } else {
      var j := WriteCheckedPayload(s, fd, frame, e);
      k := PREAMBLE_SIZE + j;
      PrefixConcat(Serialize(p), frame, j);
      ConcatAssoc(SentOn(e, fd), Serialize(p), frame[..j]);
    }
  }

  /** The corrected writer reports success exactly when the whole request reached the socket. */
  lemma WriteCheckedComplete(s: ClientState, fd: int, frame: seq<byte>, e: Env)
    requires |frame| < TWO_64
    ensures var r := WriteChecked(s, fd, frame, e);
            var sent := SentOn(r.env, fd);
            var request := Serialize(Framed(s.preamble, |frame|)) + frame;
            (r.rc == 0 <==> sent == SentOn(e, fd) + request) &&
            (r.rc != 0 ==> r.rc == Code(PreambleWriteFailure) && r.state.conn.socket == -1)
  {
    var k := WriteCheckedSends(s, fd, frame, e);
    var request := Serialize(Framed(s.preamble, |frame|)) + frame;
    assert request[..|request|] == request;
  }

  /** The mask loop that fails at the first recv that delivers nothing. */
  function ReadLoopChecked(buf: seq<byte>, total: nat, e: Env, fd: int): (r: Filled)
    requires total <= |buf|
    ensures |r.buf| == |buf| && 0 <= r.total <= |buf|
    ensures r.defined <==> r.total == |buf|
    decreases |buf| - total
  {
    if total == |buf| then Filled(buf, total, e, true, false)
    else
      var x := Recv(e, fd, |buf| - total);
      if x.n <= 0 then Filled(buf, total, x.env, false, false)
      else ReadLoopChecked(Splice(buf, total, x.bytes), total + x.n, x.env, fd)
  }

  /** One recv of the checked mask loop that delivers the non-empty chunk b in full. */
  lemma CheckedChunkStep(buf: seq<byte>, total: nat, e: Env, fd: int, b: seq<byte>) returns (buf': seq<byte>, e': Env)
    requires total < |buf| && e.recvs != [] && e.recvs[0] == Data(b) && 0 < |b| <= |buf| - total
    ensures |buf'| == |buf| && buf'[..total + |b|] == buf[..total] + b
    ensures e'.recvs == e.recvs[1..] && OnlyReads(e, e')
    ensures ReadLoopChecked(buf, total, e, fd) == ReadLoopChecked(buf', total + |b|, e', fd)
  {
    assert b[..Min(|buf| - total, |b|)] == b;
    var x := Recv(e, fd, |buf| - total);
    buf', e' := Splice(buf, total, b), x.env;
    SplicePrefix(buf, total, b);
  }

  /** On a well-formed stream the checked loop fills the buffer with the bytes sent ... */
  lemma {:induction false} ReadLoopCheckedFills(buf: seq<byte>, total: nat, e: Env, fd: int, data: seq<byte>, chunks: seq<Answer>, rest: seq<Answer>)
    requires total + |data| == |buf| && e.recvs == chunks + rest && Chunks(chunks, data)
    ensures var r := ReadLoopChecked(buf, total, e, fd); r.defined && r.buf == buf[..total] + data
    decreases |chunks|
  {
    if chunks == [] {
      ChunksNil(chunks, rest, data);
      assert ReadLoopChecked(buf, total, e, fd) == Filled(buf, total, e, true, false);
      assert buf[..total] == buf;
    } else {
      var b := ChunksCons(chunks, rest, data);
      var buf', e' := CheckedChunkStep(buf, total, e, fd, b);
      ReadLoopCheckedFills(buf', total + |b|, e', fd, data[|b|..], chunks[1..], rest);
      FilledPrefixGrows(buf[..total], buf'[..total + |b|], b, data);
    }
  }

  /** A filled prefix extended by a chunk, then by the rest of the data, is the old prefix followed by all of it. */
  lemma FilledPrefixGrows(filled: seq<byte>, filled': seq<byte>, b: seq<byte>, data: seq<byte>)
    requires filled' == filled + b && |b| <= |data| && data == b + data[|b|..]
    ensures filled' + data[|b|..] == filled + data
  {
    ConcatAssoc(filled, b, data[|b|..]);
  }

  /** ... and uses up exactly the chunks, touching nothing but the recv script and the log. */
  lemma {:induction false} ReadLoopCheckedConsumes(buf: seq<byte>, total: nat, e: Env, fd: int, data: seq<byte>, chunks: seq<Answer>, rest: seq<Answer>)
    requires total + |data| == |buf| && e.recvs == chunks + rest && Chunks(chunks, data)
    ensures var r := ReadLoopChecked(buf, total, e, fd); r.env.recvs == rest && OnlyReads(e, r.env)
    decreases |chunks|
  {
    if chunks == [] {
      ChunksNil(chunks, rest, data);
      assert ReadLoopChecked(buf, total, e, fd) == Filled(buf, total, e, true, false);
    } else {
      var b := ChunksCons(chunks, rest, data);
      var buf', e' := CheckedChunkStep(buf, total, e, fd, b);
      ReadLoopCheckedConsumes(buf', total + |b|, e', fd, data[|b|..], chunks[1..], rest);
    }
  }

  /** On a well-formed stream the checked loop reads what the as-written loop reads. */
  lemma ReadLoopCheckedHonest(buf: seq<byte>, total: nat, e: Env, fd: int, data: seq<byte>, chunks: seq<Answer>, rest: seq<Answer>)
    requires total + |data| == |buf| && e.recvs == chunks + rest && Chunks(chunks, data)
    ensures var r := ReadLoopChecked(buf, total, e, fd);
            r.defined && r.buf == buf[..total] + data && r.env.recvs == rest && OnlyReads(e, r.env)
  {
    ReadLoopCheckedFills(buf, total, e, fd, data, chunks, rest);
    ReadLoopCheckedConsumes(buf, total, e, fd, data, chunks, rest);
  }

  /** The mask part with the checked loop: a short mask is SOCK_UNDERREAD_MASK. */
  function ReadMaskChecked(s: ClientState, fd: int, e: Env, len: int32, allocOk: bool): (r: ResponseRead)
    ensures r.outcome.Returned?
  {
    if len < 0 then ReadFailure(NegativeResponseSize, s, e)
    else
      var m := GetMaskSpec(s.mask, s.maskSize, len, allocOk);
      var s1 := s.(mask := m.mask, maskSize := m.maskSize);
      if m.mask.None? then ReadFailure(NoMask, s1, e)
      else
        var f := ReadLoopChecked(m.mask.value, 0, e, fd);
        if f.defined then ResponseRead(Returned(0), s1.(mask := Some(f.buf)), f.env)
        else ReadFailure(UnderreadMask, s1.(mask := Some(f.buf)), f.env)
  }

  /** read_response with the checked loop. */
  function ReadChecked(s: ClientState, fd: int, e: Env, allocOk: bool): ResponseRead
  {
    var h := Recv(e, fd, HEADER_LENGTH);
    if h.n != HEADER_LENGTH then ReadFailure(NoHeaderRead, s, h.env)
    else if Strncmp(h.bytes, RESPONSE_HEADER, HEADER_LENGTH) != 0 then ReadFailure(InvalidResponseHeader, s, h.env)
    else
      var l := Recv(h.env, fd, 4);
      if l.n != 4 then ReadFailure(UnderreadMask, s, l.env)
      else ReadMaskChecked(s, fd, l.env, ReadInt32LE(l.bytes), allocOk)
  }

  /** Whatever recv answers, the corrected reader ends with a return code, 0 only with the whole mask read. */
  lemma ReadCheckedDefined(s: ClientState, fd: int, e: Env, allocOk: bool)
    requires ClientValid(s)
    ensures var r := ReadChecked(s, fd, e, allocOk);
            r.outcome.Returned? && (r.outcome.rc == 0 ==> r.state.mask.Some? && |r.state.mask.value| == r.state.maskSize)
  {
    var h := Recv(e, fd, HEADER_LENGTH);
    var l := Recv(h.env, fd, 4);
    if h.n == HEADER_LENGTH && Strncmp(h.bytes, RESPONSE_HEADER, HEADER_LENGTH) == 0 && l.n == 4 {
      var len := ReadInt32LE(l.bytes);
      if len >= 0 {
        var m := GetMaskSpec(s.mask, s.maskSize, len, allocOk);
        assert m.mask.Some? ==> |m.mask.value| == len;
      }
    }
  }

  /** The corrected reader reads a well-formed response back as sent, like the original. */
  lemma ReadCheckedRoundTrip(s: ClientState, fd: int, e: Env, allocOk: bool, mask: seq<byte>, chunks: seq<Answer>, rest: seq<Answer>)
    requires ClientValid(s) && |mask| < 0x8000_0000
    requires e.recvs == [Data(RESPONSE_HEADER), Data(Int32LE(|mask|))] + (chunks + rest) && Chunks(chunks, mask)
    requires allocOk || (s.mask.Some? && s.maskSize == |mask|)
    ensures var r := ReadChecked(s, fd, e, allocOk);
            r.outcome == Returned(0) && r.state == s.(mask := Some(mask), maskSize := |mask|) &&
            r.env.recvs == rest && OnlyReads(e, r.env)
  {
    DropTwo(Data(RESPONSE_HEADER), Data(Int32LE(|mask|)), chunks + rest);
    HeaderStep(e, fd);
    var h := Recv(e, fd, HEADER_LENGTH);
    LengthStep(h.env, fd, |mask|);
    var l := Recv(h.env, fd, 4);
    var m := GetMaskSpec(s.mask, s.maskSize, |mask|, allocOk);
    assert m.mask.Some? && |m.mask.value| == |mask|;
    ReadLoopCheckedHonest(m.mask.value, 0, l.env, fd, mask, chunks, rest);
    assert m.mask.value[..0] + mask == mask;
  }
}
