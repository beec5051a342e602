/**
 * The segmentation service's side of the wire protocol: how one connection
 * gathers a request from the chunks the socket delivers, how it decodes the
 * preamble, the mask post-processing parameters, the response frame and the
 * port file. Neural-network inference and image processing are left out.
 */
module Server {
  import opened Bytes
  import opened Wrappers
  import opened Protocol

  /** The magic headers as the service declares them, as unsigned byte values. */
  const SERVER_REQUEST_HEADER: seq<byte> := [0xee, 0x61, 0xbe, 0xc4, 0x38, 0xd2, 0x56, 0xa9]
  const SERVER_RESPONSE_HEADER: seq<byte> := [0x50, 0x77, 0x3d, 0xda, 0xc8, 0x7d, 0x5d, 0x97]

  /** The service's constants are the client's signed `char` constants taken modulo 256. */
  lemma HeadersMatchClient()
    ensures SERVER_REQUEST_HEADER == REQUEST_HEADER
    ensures SERVER_RESPONSE_HEADER == RESPONSE_HEADER
  {
    assert REQUEST_HEADER[0] == CharByte(-18);
    assert REQUEST_HEADER[2] == CharByte(-66);
    assert REQUEST_HEADER[3] == CharByte(-60);
    assert REQUEST_HEADER[5] == CharByte(-46);
    assert REQUEST_HEADER[7] == CharByte(-87);
    assert RESPONSE_HEADER[3] == CharByte(-38);
    assert RESPONSE_HEADER[4] == CharByte(-56);
    assert RESPONSE_HEADER[7] == CharByte(-105);
  }

  // ---------------------------------------------------------------------------
  // Gathering a request from the socket's chunks.

  /** `Buffer.concat(chunks)`: the chunks' bytes in arrival order. */
  function Concat(chunks: seq<seq<byte>>): seq<byte>
    decreases |chunks|
  {
    if chunks == [] then [] else Concat(chunks[..|chunks| - 1]) + chunks[|chunks| - 1]
  }

  lemma ConcatSnoc(chunks: seq<seq<byte>>, c: seq<byte>)
    ensures Concat(chunks + [c]) == Concat(chunks) + c
  {
    assert (chunks + [c])[..|chunks|] == chunks;
  }

  /** Concatenation distributes over joining the chunk lists. */
  lemma {:induction false} ConcatJoin(a: seq<seq<byte>>, b: seq<seq<byte>>)
    ensures Concat(a + b) == Concat(a) + Concat(b)
    decreases |b|
  {
    if b == [] {
      assert a + b == a;
    } else {
      var b' := b[..|b| - 1];
      var c := b[|b| - 1];
      assert b == b' + [c];
      assert a + b == (a + b') + [c];
      ConcatSnoc(a + b', c);
      ConcatSnoc(b', c);
      ConcatJoin(a, b');
    }
  }

  /** Every chunk a socket `data` event delivers holds at least one byte. */
  predicate NonEmptyChunks(chunks: seq<seq<byte>>)
  {
    forall i :: 0 <= i < |chunks| ==> |chunks[i]| > 0
  }

  /** With non-empty chunks, every proper prefix of the chunks holds fewer bytes than all of them. */
  lemma ConcatPrefixShorter(chunks: seq<seq<byte>>, i: nat)
    requires NonEmptyChunks(chunks) && i < |chunks|
    ensures |Concat(chunks[..i])| < |Concat(chunks)|
  {
    assert chunks == chunks[..i] + chunks[i..];
    ConcatJoin(chunks[..i], chunks[i..]);
    var rest := chunks[i..];
    assert rest == [rest[0]] + rest[1..];
    ConcatJoin([rest[0]], rest[1..]);
    assert [rest[0]] == [] + [rest[0]];
    ConcatSnoc([], rest[0]);
  }

  /** The bytes of a prefix of the chunks are a prefix of the bytes of all of them. */
  lemma ConcatPrefix(chunks: seq<seq<byte>>, i: nat)
    requires i <= |chunks|
    ensures |Concat(chunks[..i])| <= |Concat(chunks)|
    ensures Concat(chunks)[..|Concat(chunks[..i])|] == Concat(chunks[..i])
  {
    assert chunks == chunks[..i] + chunks[i..];
    ConcatJoin(chunks[..i], chunks[i..]);
  }

  /**
   * `while (currentTotalSize < need)` from chunk i on: the number of chunks
   * taken when the loop stops, or None when the data runs out first (the
   * await then never resolves).
   */
  function Fill(arrivals: seq<seq<byte>>, i: nat, need: int): (r: Option<nat>)
    requires i <= |arrivals|
    ensures r.Some? ==> i <= r.value <= |arrivals| && |Concat(arrivals[..r.value])| >= need
    decreases |arrivals| - i
  {
    if |Concat(arrivals[..i])| >= need then Some(i)
    else if i == |arrivals| then None
    else Fill(arrivals, i + 1, need)
  }

  /** The loop stops at the first chunk count whose bytes reach `need`. */
  lemma {:induction false} FillIsFirst(arrivals: seq<seq<byte>>, i: nat, need: int, j: nat)
    requires i <= j <= |arrivals| && Fill(arrivals, i, need).Some?
    requires j < Fill(arrivals, i, need).value
    ensures |Concat(arrivals[..j])| < need
    decreases |arrivals| - i
  {
    if i < j {
      FillIsFirst(arrivals, i + 1, need, j);
    }
  }

  /** With non-empty chunks and a target of all their bytes, the loop takes every chunk. */
  lemma {:induction false} FillTakesAll(arrivals: seq<seq<byte>>, i: nat)
    requires NonEmptyChunks(arrivals) && i <= |arrivals|
    ensures Fill(arrivals, i, |Concat(arrivals)|) == Some(|arrivals|)
    decreases |arrivals| - i
  {
    if i < |arrivals| {
      ConcatPrefixShorter(arrivals, i);
      FillTakesAll(arrivals, i + 1);
    } else {
      assert arrivals[..i] == arrivals;
    }
  }

  /** What the two gathering loops leave: the header check, the size field, the buffer and the chunks taken. */
  datatype Gathered =
    | Stalled
    | Gathered(headerOk: bool, requestSize: int32, bytes: seq<byte>, used: nat)

  /**
   * The chunks the socket still delivers once the header has been compared: a
   * mismatch destroys the socket, which emits no further `data` event, so no
   * chunk after the first k arrives.
   */
  function Live(arrivals: seq<seq<byte>>, k: nat, headerOk: bool): (live: seq<seq<byte>>)
    requires k <= |arrivals|
    ensures k <= |live| && live[..k] == arrivals[..k]
  {
    if headerOk then arrivals else arrivals[..k]
  }

  /**
   * `handleConnection` up to `Buffer.concat`: at least 12 bytes, the header
   * compared (a mismatch destroys the socket), the size read at offset 8, then
   * chunks until the size is reached.
   */
  function GatherSpec(arrivals: seq<seq<byte>>): Gathered
  {
    match Fill(arrivals, 0, 12)
    case None => Stalled
    case Some(k) =>
      var head := Concat(arrivals[..k]);
      var ok := head[..8] == SERVER_REQUEST_HEADER;
      var size := ReadInt32LE(head[8..12]);
      var live := Live(arrivals, k, ok);
      match Fill(live, k, size)
      case None => Stalled
      case Some(j) => Gathered(ok, size, Concat(live[..j]), j)
  }

  /**
   * `while (currentTotalSize < need)`: await the next chunk, push it, count its
   * bytes. `ok` is false when the socket delivers nothing more before the total
   * is reached: the await never resolves.
   */
  method AwaitChunks(arrivals: seq<seq<byte>>, chunks: seq<seq<byte>>, currentTotalSize: nat, need: int)
    returns (ok: bool, chunks': seq<seq<byte>>, total': nat)
    requires |chunks| <= |arrivals| && chunks == arrivals[..|chunks|] && currentTotalSize == |Concat(chunks)|
    ensures var f := Fill(arrivals, |chunks|, need);
            (ok <==> f.Some?) && (ok ==> chunks' == arrivals[..f.value] && total' == |Concat(chunks')|)
  {
    chunks', total' := chunks, currentTotalSize;
    while total' < need
      invariant |chunks| <= |chunks'| <= |arrivals| && chunks' == arrivals[..|chunks'|] && total' == |Concat(chunks')|
      invariant Fill(arrivals, |chunks'|, need) == Fill(arrivals, |chunks|, need)
      decreases |arrivals| - |chunks'|
    {
      if |chunks'| == |arrivals| {
        return false, chunks', total';
      }
      var buf := arrivals[|chunks'|];
      ConcatSnoc(chunks', buf);
      assert arrivals[..|chunks'| + 1] == chunks' + [buf];
      chunks' := chunks' + [buf];
      total' := total' + |buf|;
    }
    ok := true;
  }

  /** The gathering loops of `handleConnection`, over the chunks the socket delivers in order. */
  method GatherRequest(arrivals: seq<seq<byte>>) returns (g: Gathered)
    ensures g == GatherSpec(arrivals)
  {
    var ok, chunks, currentTotalSize := AwaitChunks(arrivals, [], 0, 12);
    if !ok {
      return Stalled;
    }
    var currentBuffer := Concat(chunks);
    var headerOk := currentBuffer[..8] == SERVER_REQUEST_HEADER;
    var live := arrivals;
    if !headerOk {
      // socket.destroy(): no further chunk arrives
      live := arrivals[..|chunks|];
    }
    var requestSize := ReadInt32LE(currentBuffer[8..12]);
    ok, chunks, currentTotalSize := AwaitChunks(live, chunks, currentTotalSize, requestSize);
    if !ok {
      return Stalled;
    }
    g := Gathered(headerOk, requestSize, Concat(chunks), |chunks|);
  }

  // ---------------------------------------------------------------------------
  // Decoding the preamble.

  /** The request as the service decodes it; the payload is everything after offset 24. */
  datatype Request = Request(threshold: Float32, height: int16, width: int16, blur: int16, growshrink: int16, payload: seq<byte>)

  /**
   * The reads at offsets 12, 16, 18, 20 and 22 of the concatenated buffer; a
   * buffer shorter than 24 bytes makes them throw a RangeError (None).
   */
  function ParseRequest(buf: seq<byte>): Option<Request>
  {
    if |buf| < PREAMBLE_SIZE then None
    else Some(Request(buf[12..16], ReadInt16LE(buf[16..18]), ReadInt16LE(buf[18..20]),
                      ReadInt16LE(buf[20..22]), ReadInt16LE(buf[22..24]), buf[PREAMBLE_SIZE..]))
  }

  /** A connection's handling of one gathered request: whether the socket is destroyed, and what is decoded. */
  datatype Handled = Handled(destroyed: bool, request: Option<Request>)

  /** A header mismatch destroys the socket, and the request is decoded and processed all the same. */
  function HandleSpec(g: Gathered): (h: Handled)
    requires g.Gathered?
  {
    Handled(!g.headerOk, ParseRequest(g.bytes))
  }

  /** The first gathering loop stops at k chunks, and those hold the buffer's header and size field. */
  lemma FirstGather(arrivals: seq<seq<byte>>) returns (k: nat)
    requires NonEmptyChunks(arrivals) && |Concat(arrivals)| >= 12
    ensures Fill(arrivals, 0, 12) == Some(k) && k <= |arrivals|
    ensures var head := Concat(arrivals[..k]);
            |head| >= 12 && head[..8] == Concat(arrivals)[..8] && head[8..12] == Concat(arrivals)[8..12]
  {
    var bytes := Concat(arrivals);
    FillTakesAll(arrivals, 0);
    FillUpTo(arrivals, 0, 12, |bytes|);
    k := Fill(arrivals, 0, 12).value;
    var head := Concat(arrivals[..k]);
    ConcatPrefix(arrivals, k);
    assert head[..12] == bytes[..12];
    assert head[..8] == bytes[..8];
    assert head[8..12] == bytes[8..12];
  }

  /**
   * Whatever the chunking, a buffer that starts with the request magic and whose
   * size field at offset 8 is its own length is gathered whole.
   */
  lemma GatherWhole(arrivals: seq<seq<byte>>)
    requires NonEmptyChunks(arrivals) && |Concat(arrivals)| >= 12
    requires Concat(arrivals)[..8] == SERVER_REQUEST_HEADER
    requires ReadInt32LE(Concat(arrivals)[8..12]) == |Concat(arrivals)|
    ensures GatherSpec(arrivals) == Gathered(true, |Concat(arrivals)|, Concat(arrivals), |arrivals|)
  {
    var k := FirstGather(arrivals);
    FillTakesAll(arrivals, k);
    assert arrivals[..|arrivals|] == arrivals;
  }

  /**
   * A buffer with any other header destroys the socket after the first loop, so
   * it is gathered at all iff that loop already took every chunk, that is iff
   * the chunks before the last hold fewer than 12 bytes; then it is whole.
   */
  lemma WrongHeaderGather(arrivals: seq<seq<byte>>)
    requires NonEmptyChunks(arrivals) && |Concat(arrivals)| >= 12
    requires Concat(arrivals)[..8] != SERVER_REQUEST_HEADER
    requires ReadInt32LE(Concat(arrivals)[8..12]) == |Concat(arrivals)|
    ensures |arrivals| > 0
    ensures GatherSpec(arrivals).Gathered? <==> |Concat(arrivals[..|arrivals| - 1])| < 12
    ensures GatherSpec(arrivals).Gathered? ==>
              GatherSpec(arrivals) == Gathered(false, |Concat(arrivals)|, Concat(arrivals), |arrivals|)
  {
    var n := |arrivals|;
    var k := FirstGather(arrivals);
    var live := Live(arrivals, k, false);
    if k < n {
      ConcatPrefixShorter(arrivals, k);
      assert live[..k] == live;
      assert Fill(live, k, |Concat(arrivals)|) == None;
      ConcatPrefix(arrivals[..n - 1], k);
      assert arrivals[..n - 1][..k] == arrivals[..k];
    } else {
      assert live == arrivals && arrivals[..n] == arrivals;
      if n - 1 < k {
        FillIsFirst(arrivals, 0, 12, n - 1);
      }
    }
  }

  /**
   * Whatever the chunking, the bytes the client sends for one frame are
   * gathered whole, with the header accepted and the size read back, and
   * decode to the client's parameters and frame.
   */
  lemma RequestRoundTrip(p: RequestPreamble, frame: seq<byte>, arrivals: seq<seq<byte>>)
    requires p.header == REQUEST_HEADER && p.length == PREAMBLE_SIZE + |frame| < 0x8000_0000
    requires NonEmptyChunks(arrivals) && Concat(arrivals) == Serialize(p) + frame
    ensures GatherSpec(arrivals) == Gathered(true, PREAMBLE_SIZE + |frame|, Concat(arrivals), |arrivals|)
    ensures HandleSpec(GatherSpec(arrivals)) ==
            Handled(false, Some(Request(p.threshold, p.height, p.width, p.blur, p.growshrink, frame)))
  {
    RequestFraming(p, frame);
    HeadersMatchClient();
    GatherWhole(arrivals);
    ParsePreamble(p, frame);
  }

  /** A framed request starts with its preamble's header, and its size field is its own length. */
  lemma RequestFraming(p: RequestPreamble, frame: seq<byte>)
    requires p.length == PREAMBLE_SIZE + |frame| < 0x8000_0000
    ensures var bytes := Serialize(p) + frame;
            |bytes| >= 12 && bytes[..8] == p.header && ReadInt32LE(bytes[8..12]) == |bytes|
  {
    var bytes := Serialize(p) + frame;
    SerializeFields(p);
    assert bytes[8..12] == UInt32LE(p.length);
    UInt32ReadSigned(p.length);
    assert bytes[..8] == p.header;
  }

  /**
   * A request whose header is not the request magic destroys the socket. It is
   * decoded all the same when the first loop already took all of it; otherwise
   * the handler waits for a chunk that never comes.
   */
  lemma WrongHeaderStillDecoded(p: RequestPreamble, frame: seq<byte>, arrivals: seq<seq<byte>>)
    requires p.header != REQUEST_HEADER && p.length == PREAMBLE_SIZE + |frame| < 0x8000_0000
    requires NonEmptyChunks(arrivals) && Concat(arrivals) == Serialize(p) + frame
    ensures |arrivals| > 0
    ensures GatherSpec(arrivals).Gathered? <==> |Concat(arrivals[..|arrivals| - 1])| < 12
    ensures GatherSpec(arrivals).Gathered? ==>
              GatherSpec(arrivals) == Gathered(false, PREAMBLE_SIZE + |frame|, Concat(arrivals), |arrivals|) &&
              HandleSpec(GatherSpec(arrivals)) ==
              Handled(true, Some(Request(p.threshold, p.height, p.width, p.blur, p.growshrink, frame)))
  {
    RequestFraming(p, frame);
    HeadersMatchClient();
    WrongHeaderGather(arrivals);
    ParsePreamble(p, frame);
  }

  /**
   * The client writes the preamble and the frame in separate calls; when they
   * arrive as two chunks, a wrong header leaves the handler waiting for ever.
   */
  lemma WrongHeaderSeparateWritesStall(p: RequestPreamble, frame: seq<byte>)
    requires p.header != REQUEST_HEADER && p.length == PREAMBLE_SIZE + |frame| < 0x8000_0000 && frame != []
    ensures GatherSpec([Serialize(p), frame]) == Stalled
  {
    var arrivals := [Serialize(p), frame];
    ConcatSnoc([], Serialize(p));
    ConcatSnoc([Serialize(p)], frame);
    assert [Serialize(p)] == [] + [Serialize(p)] && arrivals == [Serialize(p)] + [frame];
    assert arrivals[..1] == [Serialize(p)];
    WrongHeaderStillDecoded(p, frame, arrivals);
  }

  /** The decoder reads back every member the client serialised, and the frame after them. */
  lemma ParsePreamble(p: RequestPreamble, frame: seq<byte>)
    ensures ParseRequest(Serialize(p) + frame) == Some(Request(p.threshold, p.height, p.width, p.blur, p.growshrink, frame))
  {
    var bytes := Serialize(p) + frame;
    SerializeFields(p);
    assert bytes[12..16] == p.threshold;
    assert bytes[16..18] == Int16LE(p.height);
    assert bytes[18..20] == Int16LE(p.width);
    assert bytes[20..22] == Int16LE(p.blur);
    assert bytes[22..24] == Int16LE(p.growshrink);
    assert bytes[PREAMBLE_SIZE..] == frame;
    Int16RoundTrip(p.height);
    Int16RoundTrip(p.width);
    Int16RoundTrip(p.blur);
    Int16RoundTrip(p.growshrink);
  }

  /** A lower target is met no later than a higher one that is met. */
  lemma {:induction false} FillUpTo(arrivals: seq<seq<byte>>, i: nat, need: int, more: int)
    requires i <= |arrivals| && need <= more && Fill(arrivals, i, more).Some?
    ensures Fill(arrivals, i, need).Some? && Fill(arrivals, i, need).value <= Fill(arrivals, i, more).value
    decreases |arrivals| - i
  {
    if |Concat(arrivals[..i])| < need {
      FillUpTo(arrivals, i + 1, need, more);
    }
  }

  /** `cvImageHolder` is reallocated when the dimensions change or none exists yet. */
  datatype Holder = NoHolder | Holder(height: int16, width: int16)

  function PrepareHolder(h: Holder, height: int16, width: int16): (r: (Holder, bool))
  {
    if h.NoHolder? || h.height != height || h.width != width then (Holder(height, width), true)
    else (h, false)
  }

  /** After preparation the holder has the request's dimensions; it is reallocated exactly when it did not. */
  lemma PrepareHolderFits(h: Holder, height: int16, width: int16)
    ensures PrepareHolder(h, height, width).0 == Holder(height, width)
    ensures PrepareHolder(h, height, width).1 <==> h != Holder(height, width)
  {
  }

  // ---------------------------------------------------------------------------
  // Mask post-processing parameters.

  /** The morphological step: dilate or erode with a square kernel of ones, or neither. */
  datatype Morph = Dilate(side: nat) | Erode(side: nat) | NoMorph

  /** `growshrink > 0` dilates with a growshrink-sided kernel, `growshrink < 0` erodes with a (-growshrink)-sided one. */
  function Morphology(growshrink: int16): Morph
  {
    if growshrink > 0 then Dilate(growshrink)
    else if growshrink < 0 then Erode(-(growshrink as int))
    else NoMorph
  }

  /** The kernel side is the parameter's magnitude; the sign picks the operation and 0 picks none. */
  lemma MorphologyBySign(g: int16)
    ensures Morphology(g) == NoMorph <==> g == 0
    ensures Morphology(g).Dilate? <==> g > 0
    ensures Morphology(g).Erode? <==> g < 0
    ensures Morphology(g) != NoMorph ==> Morphology(g).side > 0 && (Morphology(g).side == g || Morphology(g).side == -(g as int))
  {
  }

  /** Negating the parameter swaps dilation and erosion and keeps the kernel. */
  lemma MorphologyMirror(g: int16)
    requires g != -0x8000
    ensures Morphology((-(g as int)) as int16) == match Morphology(g)
                                       case Dilate(s) => Erode(s)
                                       case Erode(s) => Dilate(s)
                                       case NoMorph => NoMorph
  {
  }

  /** `blur > 0` blurs with a Gaussian kernel of side 2*blur+1; otherwise there is no blur. */
  function BlurKernel(blur: int16): Option<nat>
  {
    if blur > 0 then Some(2 * blur + 1) else None
  }

  /** A blur kernel's side is odd, at least 3, and gives back the parameter. */
  lemma BlurKernelOdd(b: int16)
    ensures BlurKernel(b).Some? <==> b > 0
    ensures BlurKernel(b).Some? ==>
              BlurKernel(b).value % 2 == 1 && BlurKernel(b).value >= 3 && (BlurKernel(b).value - 1) / 2 == b
  {
  }

  // ---------------------------------------------------------------------------
  // The response frame and the port file.

  /** `getIntBuffer`: a 4-byte buffer holding the value as Int32LE. */
  function GetIntBuffer(value: int32): (r: seq<byte>)
    ensures |r| == 4
  {
    Int32LE(value)
  }

  lemma GetIntBufferReadsBack(value: int32)
    ensures ReadInt32LE(GetIntBuffer(value)) == value
  {
    Int32RoundTrip(value);
  }

  /** The three writes of a response: the header, the mask's length, the mask. */
  function EncodeResponse(mask: seq<byte>): (r: seq<byte>)
    requires |mask| < 0x8000_0000
  {
    SERVER_RESPONSE_HEADER + GetIntBuffer(|mask|) + mask
  }

  /** A response splits back into the header, a length equal to the mask's, and the mask. */
  lemma EncodeResponseParts(mask: seq<byte>)
    requires |mask| < 0x8000_0000
    ensures var r := EncodeResponse(mask);
            |r| == 12 + |mask| && r[..8] == RESPONSE_HEADER &&
            ReadInt32LE(r[8..12]) == |mask| && r[12..] == mask
  {
    HeadersMatchClient();
    var r := EncodeResponse(mask);
    assert r[8..12] == GetIntBuffer(|mask|);
    GetIntBufferReadsBack(|mask|);
  }

  /** The reply written when the image cannot be decoded (the handler then goes on regardless). */
  function NullImageResponse(): (r: seq<byte>)
  {
    SERVER_RESPONSE_HEADER + GetIntBuffer(-1)
  }

  /** The port file: exactly four bytes, the port as Int32LE. */
  function PortFileBytes(port: int32): (r: seq<byte>)
    ensures |r| == 4 && ReadInt32LE(r) == port
  {
    GetIntBufferReadsBack(port);
    GetIntBuffer(port)
  }

  /** `${process.env.TMPDIR || "/tmp"}/.segmentation.port`: an unset or empty TMPDIR falls back to /tmp. */
  function ServerPortPath(tmpdir: Option<string>): (p: string)
  {
    (if tmpdir.None? || tmpdir.value == "" then "/tmp" else tmpdir.value) + "/" + SEGMENTATION_PORT_FILENAME
  }
}
