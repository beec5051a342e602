/**
 * The plugin's client and the segmentation service against each other: what
 * the client writes is what the service decodes, what the service answers is
 * what the client reads, and both sides name the same port file (except for
 * an empty TMPDIR).
 */
module Theorems {
  import opened Bytes
  import opened Wrappers
  import opened Protocol
  import opened Net
  import opened ClientSpec
  import opened Server

  /**
   * When every write succeeds in full, the bytes the client puts on a fresh
   * socket are gathered by the service, however they are chunked, with the
   * header accepted, and decode to the client's parameters and the frame.
   */
  lemma ClientRequestDecodedByServer(s: ClientState, fd: int, frame: seq<byte>, e: Env, arrivals: seq<seq<byte>>)
    requires s.preamble.header == REQUEST_HEADER && PREAMBLE_SIZE + |frame| < 0x8000_0000
    requires e.writes != [] && e.writes[0] >= PREAMBLE_SIZE
    requires AllPositive(e.writes[1..]) && |e.writes| - 1 >= |frame|
    requires SentOn(e, fd) == []
    requires NonEmptyChunks(arrivals) && Concat(arrivals) == SentOn(WriteSpec(s, fd, frame, e).env, fd)
    ensures GatherSpec(arrivals) == Gathered(true, PREAMBLE_SIZE + |frame|, Concat(arrivals), |arrivals|)
    ensures HandleSpec(GatherSpec(arrivals)) ==
            Handled(false, Some(Request(s.preamble.threshold, s.preamble.height, s.preamble.width,
                                        s.preamble.blur, s.preamble.growshrink, frame)))
  {
    WriteOnFreshSocket(s, fd, frame, e);
    FramedRequestDecoded(s.preamble, frame, arrivals);
  }

  /** With honest writes, a fresh socket carries exactly the framed preamble followed by the frame. */
  lemma WriteOnFreshSocket(s: ClientState, fd: int, frame: seq<byte>, e: Env)
    requires |frame| < TWO_64
    requires e.writes != [] && e.writes[0] >= PREAMBLE_SIZE
    requires AllPositive(e.writes[1..]) && |e.writes| - 1 >= |frame|
    requires SentOn(e, fd) == []
    ensures SentOn(WriteSpec(s, fd, frame, e).env, fd) == Serialize(Framed(s.preamble, |frame|)) + frame
  {
    WriteHonest(s, fd, frame, e);
    assert SentOn(e, fd) + Serialize(Framed(s.preamble, |frame|)) == Serialize(Framed(s.preamble, |frame|));
  }

  /** A preamble framed for the frame, followed by the frame, is gathered and decoded whatever the chunking. */
  lemma FramedRequestDecoded(p: RequestPreamble, frame: seq<byte>, arrivals: seq<seq<byte>>)
    requires p.header == REQUEST_HEADER && PREAMBLE_SIZE + |frame| < 0x8000_0000
    requires NonEmptyChunks(arrivals) && Concat(arrivals) == Serialize(Framed(p, |frame|)) + frame
    ensures GatherSpec(arrivals) == Gathered(true, PREAMBLE_SIZE + |frame|, Concat(arrivals), |arrivals|)
    ensures HandleSpec(GatherSpec(arrivals)) ==
            Handled(false, Some(Request(p.threshold, p.height, p.width, p.blur, p.growshrink, frame)))
  {
    RequestRoundTrip(Framed(p, |frame|), frame, arrivals);
  }

  /**
   * The service's response, delivered as its first two writes and then the
   * mask in non-empty pieces, is read by the client as success with exactly
   * the service's mask.
   */
  lemma ServerResponseReadByClient(s: ClientState, fd: int, e: Env, allocOk: bool, mask: seq<byte>,
                                   chunks: seq<Answer>, rest: seq<Answer>)
    requires ClientValid(s) && |mask| < 0x8000_0000
    requires var r := EncodeResponse(mask);
             e.recvs == [Data(r[..8]), Data(r[8..12])] + (chunks + rest) && Chunks(chunks, r[12..])
    requires allocOk || (s.mask.Some? && s.maskSize == |mask|)
    ensures var r := ReadSpec(s, fd, e, allocOk);
            r.outcome == Returned(0) && r.state == s.(mask := Some(mask), maskSize := |mask|) &&
            r.env.recvs == rest
  {
    var r := EncodeResponse(mask);
    EncodeResponseParts(mask);
    assert r[8..12] == Int32LE(|mask|);
    ReadResponseRoundTrip(s, fd, e, allocOk, mask, chunks, rest);
  }

  /** The reply to an undecodable image carries length -1, which the client rejects and drops the socket for. */
  lemma NullImageRejectedByClient(s: ClientState, fd: int, e: Env, allocOk: bool, rest: seq<Answer>)
    requires e.recvs == [Data(NullImageResponse()[..8]), Data(NullImageResponse()[8..])] + rest
    ensures var r := ReadSpec(s, fd, e, allocOk);
            r.outcome == Returned(Code(NegativeResponseSize)) && r.state == s.(conn := s.conn.(socket := -1)) &&
            r.env.recvs == rest
  {
    HeadersMatchClient();
    var n := NullImageResponse();
    assert n[..8] == RESPONSE_HEADER;
    assert n[8..] == Int32LE(-1);
    var h := Recv(e, fd, HEADER_LENGTH);
    assert RESPONSE_HEADER[..Min(HEADER_LENGTH, |RESPONSE_HEADER|)] == RESPONSE_HEADER;
    ResponseHeaderCheck(RESPONSE_HEADER);
    var l := Recv(h.env, fd, 4);
    assert l.bytes == Int32LE(-1);
    Int32RoundTrip(-1);
  }

  /** A port file the service wrote at the path the client opens is read back as the service's port and cached. */
  lemma PortFileReadByClient(c: Conn, now: uint64, e: Env, port: int32)
    requires !PortCached(c, now)
    requires PortFilePath(e.tmpdir) in e.files && e.files[PortFilePath(e.tmpdir)] == PortFileBytes(port)
    ensures var r := PortStep(c, now, e);
            r.port == port && r.conn == c.(port := port, lastPort := now)
  {
    assert PortFileBytes(port)[..4] == PortFileBytes(port);
    Int32RoundTrip(port);
  }

  /** The port file path as the client builds it, with an empty TMPDIR treated as unset, like the service. */
  function PortFilePathFixed(tmpdir: Option<string>): (p: string)
  {
    if tmpdir == Some("") then PortFilePath(None) else PortFilePath(tmpdir)
  }

  /** With the empty TMPDIR treated as unset, the client opens the file the service writes, for every TMPDIR. */
  lemma PortPathsAgree(tmpdir: Option<string>)
    ensures PortFilePathFixed(tmpdir) == ServerPortPath(tmpdir)
    ensures tmpdir != Some("") ==> PortFilePathFixed(tmpdir) == PortFilePath(tmpdir)
  {
  }

  /**
   * As written, an empty TMPDIR sends the client to "/" + ".segmentation.port"
   * while the service writes the file under /tmp, as for an unset TMPDIR.
   */
  lemma EmptyTmpdirMissesPortFile()
    ensures PortFilePath(Some("")) == "/" + SEGMENTATION_PORT_FILENAME
    ensures ServerPortPath(Some("")) == PortFilePath(None)
    ensures PortFilePath(Some("")) != ServerPortPath(Some(""))
  {
    assert |PortFilePath(Some(""))| == 1 + |SEGMENTATION_PORT_FILENAME|;
    assert |PortFilePath(None)| == 5 + |SEGMENTATION_PORT_FILENAME|;
  }
}
