/**
 * The segmentation client as the plugin holds it: a record whose fields the
 * operations update in place, with the mask buffer as an array. Every
 * operation threads the environment (Net.Env) through and is proved to do
 * exactly what the matching function of ClientSpec describes.
 */
module ClientImpl {
  import opened Bytes
  import opened Wrappers
  import opened Protocol
  import opened Net
  import opened ClientSpec

  class SegmentationClient {
    var clientPort: int32
    var clientSocket: int
    var lastConnectTimestamp: uint64
    var lastPortTimestamp: uint64
    var preamble: RequestPreamble
    var mask: array?<byte>
    var maskSize: nat

    /** A mask buffer, when there is one, is mask_size bytes long. */
    ghost predicate Valid()
      reads this
    {
      mask != null ==> mask.Length == maskSize
    }

    /** The connection fields as a value. */
    function ConnOf(): Conn
      reads this
    {
      Conn(clientSocket, clientPort, lastConnectTimestamp, lastPortTimestamp)
    }

    /** The whole record as a value, with the mask's current bytes. */
    ghost function State(): ClientState
      reads this, mask
    {
      ClientState(ConnOf(), preamble, if mask == null then None else Some(mask[..]), maskSize)
    }

    /** `SegmentationClient_create` (the bzalloc failure path is not modelled). */
    constructor ()
      ensures Valid() && State() == Initial() && lastConnectTimestamp == 0
    {
      clientSocket := -1;
      clientPort := -1;
      lastConnectTimestamp := 0;
      lastPortTimestamp := 0;
      mask := null;
      maskSize := 0;
      preamble := RequestPreamble(REQUEST_HEADER, 0, HALF, 0, 0, 0, 0);
    }

    /** `SegmentationClient_set_dimensions`: both values are narrowed to int16_t. */
    method SetDimensions(height: int, width: int)
      requires Valid()
      modifies this
      ensures Valid() && mask == old(mask)
      ensures State() == old(State()).(preamble := old(preamble).(height := TruncInt16(height), width := TruncInt16(width)))
    {
      preamble := preamble.(height := TruncInt16(height), width := TruncInt16(width));
    }

    /** `SegmentationClient_set_parameters`: the threshold's bytes are kept, blur and growshrink narrowed. */
    method SetParameters(threshold: Float32, blur: int, growshrink: int)
      requires Valid()
      modifies this
      ensures Valid() && mask == old(mask)
      ensures State() == old(State()).(preamble := old(preamble).(threshold := threshold,
                                                                 blur := TruncInt16(blur),
                                                                 growshrink := TruncInt16(growshrink)))
    {
      preamble := preamble.(threshold := threshold, blur := TruncInt16(blur), growshrink := TruncInt16(growshrink));
    }

    /** `SegmentationClient_get_mask`: the buffer the last round filled (NULL before any). */
    method GetMask() returns (m: array?<byte>)
      ensures m == mask
    {
      m := mask;
    }

    /** `SegmentationClient_get_mask_size`. */
    method GetMaskSize() returns (n: nat)
      ensures n == maskSize
    {
      n := maskSize;
    }

    /** `invalidate_connection`: close an open socket and forget it. */
    method InvalidateConnection(e: Env) returns (e': Env)
      requires Valid()
      modifies this
      ensures Valid() && mask == old(mask)
      ensures var d := Invalidate(old(ConnOf()), e);
              State() == old(State()).(conn := d.conn) && e' == d.env
    {
      e' := e;
      if clientSocket != -1 {
        e' := CloseFd(e, clientSocket);
        clientSocket := -1;
      }
    }

    /** `SegmentationClient_destroy`: free the mask, then invalidate the connection. */
    method Destroy(e: Env) returns (e': Env)
      requires Valid()
      modifies this
      ensures Valid() && mask == null
      ensures var d := Invalidate(old(ConnOf()), e);
              State() == old(State()).(conn := d.conn, mask := None) && e' == d.env
    {
      if mask != null {
        mask := null;
      }
      e' := InvalidateConnection(e);
    }

    /** `get_segmentation_port`: the cached port, or the first four bytes of the port file. */
    method GetSegmentationPort(now: uint64, e: Env) returns (port: int, e': Env)
      requires Valid()
      modifies this
      ensures Valid() && mask == old(mask)
      ensures var r := PortStep(old(ConnOf()), now, e);
              State() == old(State()).(conn := r.conn) && port == r.port && e' == r.env
    {
      if clientPort != -1 && SubU64(now, lastPortTimestamp) < CHECK_PORT_INTERVAL {
        return clientPort, e;
      }
      var o := OpenRead(e, PortFilePath(e.tmpdir), 4);
      e' := o.env;
      if o.contents.None? {
        return -1, e';
      }
      var b := o.contents.value;
      var p: int32 := -1;
      if |b| == 4 {
        p := ReadInt32LE(b);
      }
      clientPort := p;
      lastPortTimestamp := now;
      port := p;
    }

    /** `get_client_socket`: reuse, throttle, or look up the port and connect. */
    method GetClientSocket(now: uint64, e: Env) returns (fd: int, e': Env)
      requires Valid()
      modifies this
      ensures Valid() && mask == old(mask)
      ensures var g := GateStep(old(ConnOf()), now, e);
              State() == old(State()).(conn := g.conn) && fd == ReturnedFd(g.gate) && e' == g.env
    {
      if clientSocket != -1 {
        return clientSocket, e;
      }
      if SubU64(now, lastConnectTimestamp) < MIN_RECONNECT_INTERVAL {
        return clientSocket, e;
      }
      var port;
      port, e' := GetSegmentationPort(now, e);
      if port == -1 {
        return Code(NoSegmentationPort), e';
      }
      lastConnectTimestamp := now;
      var a := NextAttempt(e');
      e' := a.env;
      clientSocket := a.attempt.fd;
      if clientSocket == -1 {
        return Code(NoSocket), e';
      }
      if !a.attempt.recvTimeoutSet || !a.attempt.sendTimeoutSet || !a.attempt.connected {
        e' := CloseFd(e', clientSocket);
        clientSocket := -1;
        return -1, e';
      }
      fd := clientSocket;
    }

    /** `get_mask`: keep the buffer when its size matches, otherwise replace it by a zeroed one. */
    method GetMaskBuffer(n: nat, allocOk: bool) returns (m: array?<byte>)
      requires Valid()
      modifies this
      ensures Valid() && m == mask
      ensures var r := GetMaskSpec(old(State()).mask, old(maskSize), n, allocOk);
              State() == old(State()).(mask := r.mask, maskSize := r.maskSize)
      ensures mask != old(mask) ==> mask == null || fresh(mask)
    {
      if mask == null || maskSize != n {
        if allocOk {
          mask := new byte[n](_ => 0);
          assert mask[..] == Zeros(n);
        } else {
          mask := null;
        }
        maskSize := n;
      }
      m := mask;
    }

    /** `write_request`: the preamble, then the frame in the unchecked loop. */
    method WriteRequest(fd: int, frame: seq<byte>, e: Env) returns (rc: int, e': Env)
      requires Valid() && |frame| < TWO_64
      modifies this
      ensures Valid() && mask == old(mask)
      ensures RequestSent(rc, State(), e') == WriteSpec(old(State()), fd, frame, e)
    {
      preamble := Framed(preamble, |frame|);
      var w := Write(e, fd, Serialize(preamble));
      if w.n != PREAMBLE_SIZE {
        e' := InvalidateConnection(w.env);
        return Code(PreambleWriteFailure), e';
      }
      var offset: uint64 := 0;
      e' := w.env;
      while offset < |frame|
        invariant PayloadLoop(e', fd, frame, offset) == PayloadLoop(w.env, fd, frame, 0)
        decreases |e'.writes|, if offset < |frame| then offset + 1 else 0
      {
        var x := Write(e', fd, frame[offset..]);
        offset := Advance(offset, x.n);
        e' := x.env;
      }
      rc := Code(Success);
    }

    /** `read_response`: the header and the length, then the mask. */
    method ReadResponse(fd: int, e: Env, allocOk: bool) returns (outcome: Outcome, e': Env)
      requires Valid()
      modifies this, mask
      ensures Valid()
      ensures ResponseRead(outcome, State(), e') == ReadSpec(old(State()), fd, e, allocOk)
      ensures mask != old(mask) ==> mask == null || fresh(mask)
    {
      var h := Recv(e, fd, HEADER_LENGTH);
      if h.n != HEADER_LENGTH {
        e' := InvalidateConnection(h.env);
        return Returned(Code(NoHeaderRead)), e';
      }
      if Strncmp(h.bytes, RESPONSE_HEADER, HEADER_LENGTH) != 0 {
        e' := InvalidateConnection(h.env);
        return Returned(Code(InvalidResponseHeader)), e';
      }
      var l := Recv(h.env, fd, 4);
      if l.n != 4 {
        e' := InvalidateConnection(l.env);
        return Returned(Code(UnderreadMask)), e';
      }
      outcome, e' := ReceiveMask(fd, l.env, ReadInt32LE(l.bytes), allocOk);
    }

    /** The rest of `read_response` once the length is known: get_mask, then the mask loop. */
    method ReceiveMask(fd: int, e: Env, len: int32, allocOk: bool) returns (outcome: Outcome, e': Env)
      requires Valid()
      modifies this, mask
      ensures Valid()
      ensures ResponseRead(outcome, State(), e') == ReadMask(old(State()), fd, e, len, allocOk)
      ensures mask != old(mask) ==> mask == null || fresh(mask)
    {
      if len < 0 {
        e' := InvalidateConnection(e);
        return Returned(Code(NegativeResponseSize)), e';
      }
      var m := GetMaskBuffer(len, allocOk);
      if m == null {
        e' := InvalidateConnection(e);
        return Returned(Code(NoMask)), e';
      }
      var defined, spins;
      defined, spins, e' := FillMask(m, fd, e);
      outcome := if defined then Returned(0) else if spins then Hangs else UndefinedBehaviour;
    }
    /** `SegmentationClient_run_segmentation`: connect, write the request, read the response. */
    method RunSegmentation(now: uint64, frame: seq<byte>, e: Env, allocOk: bool) returns (outcome: Outcome, e': Env)
      requires Valid() && |frame| < TWO_64
      modifies this, mask
      ensures Valid()
      ensures Round(outcome, State(), e') == RunSpec(old(State()), now, frame, e, allocOk)
      ensures mask != old(mask) ==> mask == null || fresh(mask)
    {
      var fd;
      fd, e' := GetClientSocket(now, e);
      if fd < 0 {
        return Returned(-1), e';
      }
      var rc;
      rc, e' := WriteRequest(fd, frame, e');
      if rc != 0 {
        return Returned(rc), e';
      }
      outcome, e' := ReadResponse(fd, e', allocOk);
    }
  }

  /**
   * The mask loop of `read_response`: recv into the buffer until total_read
   * reaches its length. Once the peer has closed, every further iteration
   * repeats the last one (`ClosedNeverEnds`); the loop stops there and reports
   * that it spins.
   */
  method FillMask(m: array<byte>, fd: int, e: Env) returns (defined: bool, spins: bool, e': Env)
    modifies m
    ensures var f := ReadLoop(old(m[..]), 0, e, fd);
            m[..] == f.buf && e' == f.env && defined == f.defined && spins == f.spins
  {
    ghost var buf0 := m[..];
    var total: int := 0;
    e' := e;
    while 0 <= total < m.Length && !Closed(e')
      invariant total <= m.Length
      invariant ReadLoop(m[..], total, e', fd) == ReadLoop(buf0, 0, e, fd)
      decreases |e'.recvs|, if total >= 0 then total + 1 else 0
    {
      var x := Recv(e', fd, m.Length - total);
      Deliver(m, total, x.bytes);
      total := total + x.n;
      e' := x.env;
    }
    defined := total >= m.Length;
    spins := 0 <= total < m.Length;
  }

  /** What recv does with the bytes it delivers: they land in the buffer from `at` on. */
  method Deliver(m: array<byte>, at: nat, data: seq<byte>)
    requires at + |data| <= m.Length
    modifies m
    ensures m[..] == Splice(old(m[..]), at, data)
  {
    forall i | 0 <= i < |data| {
      m[at + i] := data[i];
    }
    SpliceIndex(old(m[..]), at, data);
  }

  /** Each byte of a splice: the new data inside its window, the old buffer elsewhere. */
  lemma SpliceIndex(buf: seq<byte>, at: nat, data: seq<byte>)
    requires at + |data| <= |buf|
    ensures forall j :: 0 <= j < |buf| ==>
              Splice(buf, at, data)[j] == if at <= j < at + |data| then data[j - at] else buf[j]
  {
  }
}
