/**
 * The wire protocol shared by the plugin's segmentation client and the
 * segmentation service: the request preamble record and its C layout, the two
 * magic headers, the protocol constants and the client's error codes.
 */
module Protocol {
  import opened Bytes

  const HEADER_LENGTH: nat := 8
  const CHECK_PORT_INTERVAL: nat := 10000
  const MIN_RECONNECT_INTERVAL: nat := 5000
  const SEGMENTATION_PORT_FILENAME: string := ".segmentation.port"
  const SEGMENTATION_HOSTNAME: string := "localhost"

  type Header = s: seq<byte> | |s| == 8 witness [0, 0, 0, 0, 0, 0, 0, 0]

  /** The four bytes of an IEEE-754 single; the model never looks at its value. */
  type Float32 = s: seq<byte> | |s| == 4 witness [0, 0, 0, 0]

  /** 0.5f, the default threshold: sign 0, exponent 126, mantissa 0, little-endian. */
  const HALF: Float32 := [0x00, 0x00, 0x00, 0x3F]

  /** The magic headers as the client declares them: arrays of signed `char`. */
  const REQUEST_HEADER_CHARS: seq<int> := [-18, 97, -66, -60, 56, -46, 86, -87]
  const RESPONSE_HEADER_CHARS: seq<int> := [80, 119, 61, -38, -56, 125, 93, -105]

  predicate IsCharSeq(cs: seq<int>)
  {
    forall i :: 0 <= i < |cs| ==> -128 <= cs[i] < 128
  }

  /** The bytes a `char` array occupies in memory. */
  function CharBytes(cs: seq<int>): (r: seq<byte>)
    requires IsCharSeq(cs)
    ensures |r| == |cs|
    ensures forall i :: 0 <= i < |cs| ==> r[i] == CharByte(cs[i])
  {
    seq(|cs|, i requires 0 <= i < |cs| => CharByte(cs[i]))
  }

  const REQUEST_HEADER: Header := CharBytes(REQUEST_HEADER_CHARS)
  const RESPONSE_HEADER: Header := CharBytes(RESPONSE_HEADER_CHARS)

  lemma HeaderLengthMatchesConstants()
    ensures |REQUEST_HEADER_CHARS| == HEADER_LENGTH && |RESPONSE_HEADER_CHARS| == HEADER_LENGTH
    ensures REQUEST_HEADER != RESPONSE_HEADER
  {
    assert REQUEST_HEADER[0] == CharByte(-18) == 238;
    assert RESPONSE_HEADER[0] == 80;
  }

  lemma IntervalsOrdered()
    ensures MIN_RECONNECT_INTERVAL < CHECK_PORT_INTERVAL
  {
  }

  // ---------------------------------------------------------------------------
  // Layout of `RequestPreamble` under the C rules: each member starts at the next
  // multiple of its alignment, and the size is rounded up to the largest alignment.

  datatype CField = CField(size: nat, align: nat)

  /** char header[8]; uint32_t length; float threshold; int16_t height, width, blur, growshrink. */
  const PREAMBLE_FIELDS: seq<CField> :=
    [CField(8, 1), CField(4, 4), CField(4, 4), CField(2, 2), CField(2, 2), CField(2, 2), CField(2, 2)]

  predicate WellAligned(fields: seq<CField>)
  {
    forall i :: 0 <= i < |fields| ==> fields[i].align > 0
  }

  function AlignUp(x: nat, a: nat): (r: nat)
    requires a > 0
    ensures x <= r < x + a
  {
    if x % a == 0 then x else x + (a - x % a)
  }

  /** The offset of each member when the members are laid out from `at`. */
  function OffsetsFrom(fields: seq<CField>, at: nat): (r: seq<nat>)
    requires WellAligned(fields)
    ensures |r| == |fields|
  {
    if fields == [] then []
    else
      var o := AlignUp(at, fields[0].align);
      [o] + OffsetsFrom(fields[1..], o + fields[0].size)
  }

  /** Where the last member ends. */
  function EndFrom(fields: seq<CField>, at: nat): (r: nat)
    requires WellAligned(fields)
    ensures r >= at
  {
    if fields == [] then at else EndFrom(fields[1..], AlignUp(at, fields[0].align) + fields[0].size)
  }

  function MaxAlign(fields: seq<CField>): (r: nat)
    ensures r >= 1
    ensures forall i :: 0 <= i < |fields| ==> fields[i].align <= r
  {
    if fields == [] then 1
    else var m := MaxAlign(fields[1..]); if fields[0].align > m then fields[0].align else m
  }

  function StructSize(fields: seq<CField>): nat
    requires WellAligned(fields)
  {
    AlignUp(EndFrom(fields, 0), MaxAlign(fields))
  }

  const PREAMBLE_SIZE: nat := 24

  /** The fields sit at 0/8/12/16/18/20/22 with no padding, and `sizeof` is 24. */
  lemma PreambleLayout()
    ensures WellAligned(PREAMBLE_FIELDS)
    ensures OffsetsFrom(PREAMBLE_FIELDS, 0) == [0, 8, 12, 16, 18, 20, 22]
    ensures StructSize(PREAMBLE_FIELDS) == PREAMBLE_SIZE
  {
    var f := PREAMBLE_FIELDS;
    LayoutWords();
    assert EndFrom(f, 0) == EndFrom(f[1..], 8) == 24;
    assert f[1..][1..][1..] == f[3..];
    assert MaxAlign(f[3..]) == 2;
    assert MaxAlign(f) == 4;
    assert StructSize(f) == AlignUp(24, 4) == 24;
  }

  /** The four int16_t members sit at 16, 18, 20 and 22 and end at 24. */
  lemma LayoutShorts()
    ensures WellAligned(PREAMBLE_FIELDS[3..])
    ensures OffsetsFrom(PREAMBLE_FIELDS[3..], 16) == [16, 18, 20, 22] && EndFrom(PREAMBLE_FIELDS[3..], 16) == 24
  {
    var f := PREAMBLE_FIELDS;
    assert f[6..][1..] == [];
    assert OffsetsFrom(f[6..], 22) == [22] && EndFrom(f[6..], 22) == 24;
    assert f[5..][1..] == f[6..];
    assert OffsetsFrom(f[5..], 20) == [20, 22] && EndFrom(f[5..], 20) == 24;
    assert f[4..][1..] == f[5..];
    assert OffsetsFrom(f[4..], 18) == [18, 20, 22] && EndFrom(f[4..], 18) == 24;
    assert f[3..][1..] == f[4..];
  }

  /** The length and the threshold sit at 8 and 12, followed by the int16_t members. */
  lemma LayoutWords()
    ensures WellAligned(PREAMBLE_FIELDS[1..])
    ensures OffsetsFrom(PREAMBLE_FIELDS[1..], 8) == [8, 12, 16, 18, 20, 22] && EndFrom(PREAMBLE_FIELDS[1..], 8) == 24
  {
    var f := PREAMBLE_FIELDS;
    LayoutShorts();
    assert f[2..][1..] == f[3..];
    assert OffsetsFrom(f[2..], 12) == [12, 16, 18, 20, 22] && EndFrom(f[2..], 12) == 24;
    assert f[1..][1..] == f[2..];
  }

  // ---------------------------------------------------------------------------
  // The record and its byte image.

  datatype RequestPreamble = RequestPreamble(
    header: Header,
    length: uint32,
    threshold: Float32,
    height: int16,
    width: int16,
    blur: int16,
    growshrink: int16)

  /** The bytes of member `i` of the record, in declaration order. */
  function FieldBytes(p: RequestPreamble, i: nat): (r: seq<byte>)
    requires i < |PREAMBLE_FIELDS|
    ensures |r| == PREAMBLE_FIELDS[i].size
  {
    match i
    case 0 => p.header
    case 1 => UInt32LE(p.length)
    case 2 => p.threshold
    case 3 => Int16LE(p.height)
    case 4 => Int16LE(p.width)
    case 5 => Int16LE(p.blur)
    case _ => Int16LE(p.growshrink)
  }

  /** The record as `write(sock_fd, &preamble, sizeof(preamble))` puts it on the wire. */
  function Serialize(p: RequestPreamble): (r: seq<byte>)
    ensures |r| == PREAMBLE_SIZE
  {
    p.header + UInt32LE(p.length) + p.threshold
      + Int16LE(p.height) + Int16LE(p.width) + Int16LE(p.blur) + Int16LE(p.growshrink)
  }

  /** The preamble's members at their offsets in the serialised record. */
  lemma SerializeFields(p: RequestPreamble)
    ensures var r := Serialize(p);
            r[..8] == p.header && r[8..12] == UInt32LE(p.length) && r[12..16] == p.threshold &&
            r[16..18] == Int16LE(p.height) && r[18..20] == Int16LE(p.width) &&
            r[20..22] == Int16LE(p.blur) && r[22..24] == Int16LE(p.growshrink)
  {
  }

  /** Every member of the record occupies exactly the bytes the C layout assigns it. */
  lemma SerializeFollowsLayout(p: RequestPreamble, i: nat)
    requires i < |PREAMBLE_FIELDS|
    ensures WellAligned(PREAMBLE_FIELDS)
    ensures var o := OffsetsFrom(PREAMBLE_FIELDS, 0)[i];
            o + PREAMBLE_FIELDS[i].size <= PREAMBLE_SIZE &&
            Serialize(p)[o .. o + PREAMBLE_FIELDS[i].size] == FieldBytes(p, i)
  {
    PreambleLayout();
    SerializeFields(p);
    var sizes := [8, 4, 4, 2, 2, 2, 2];
    assert PREAMBLE_FIELDS[i].size == sizes[i];
  }

  // ---------------------------------------------------------------------------
  // `strncmp` as the response check uses it.

  /** C's `strncmp`: compares at most n characters as `unsigned char`, and stops after a NUL. */
  function Strncmp(a: seq<byte>, b: seq<byte>, n: nat): int
    requires n <= |a| && n <= |b|
  {
    if n == 0 then 0
    else if a[0] != b[0] then (if a[0] < b[0] then -1 else 1)
    else if a[0] == 0 then 0
    else Strncmp(a[1..], b[1..], n - 1)
  }

  /** Against a string with no NUL among its first n bytes, `strncmp` is byte-for-byte equality. */
  lemma {:induction false} StrncmpBytewise(a: seq<byte>, b: seq<byte>, n: nat)
    requires n <= |a| && n <= |b|
    requires forall i :: 0 <= i < n ==> b[i] != 0
    ensures Strncmp(a, b, n) == 0 <==> a[..n] == b[..n]
  {
    if n > 0 && a[0] == b[0] {
      StrncmpBytewise(a[1..], b[1..], n - 1);
      assert a[..n] == [a[0]] + a[1..][..n - 1];
      assert b[..n] == [b[0]] + b[1..][..n - 1];
    } else if n > 0 {
      assert a[..n][0] != b[..n][0];
    }
  }

  /** Why the no-NUL condition matters: strncmp does not look past a shared NUL. */
  lemma StrncmpStopsAtNul()
    ensures Strncmp([0, 1], [0, 2], 2) == 0
  {
  }

  lemma ResponseHeaderHasNoNul()
    ensures forall i :: 0 <= i < HEADER_LENGTH ==> RESPONSE_HEADER[i] != 0
  {
    forall i | 0 <= i < HEADER_LENGTH
      ensures RESPONSE_HEADER[i] != 0
    {
      assert RESPONSE_HEADER[i] == CharByte(RESPONSE_HEADER_CHARS[i]);
    }
  }

  /** What the client's header check accepts: exactly the eight bytes of the response magic. */
  lemma ResponseHeaderCheck(h: seq<byte>)
    requires |h| == HEADER_LENGTH
    ensures Strncmp(h, RESPONSE_HEADER, HEADER_LENGTH) == 0 <==> h == RESPONSE_HEADER
  {
    ResponseHeaderHasNoNul();
    StrncmpBytewise(h, RESPONSE_HEADER, HEADER_LENGTH);
    assert h[..HEADER_LENGTH] == h;
    assert RESPONSE_HEADER[..HEADER_LENGTH] == RESPONSE_HEADER;
  }

  // ---------------------------------------------------------------------------
  // The client's return codes.

  datatype SocketError =
    | Success
    | PreambleWriteFailure
    | NoHeaderRead
    | InvalidResponseHeader
    | UnderreadMask
    | NegativeResponseSize
    | NoMask
    | NoSegmentationPort
    | NoSocket

  /** The enumerator's value: declaration order from 0. */
  function Code(e: SocketError): (c: int)
    ensures c == 0 <==> e == Success
    ensures 0 <= c <= 8
  {
    match e
    case Success => 0
    case PreambleWriteFailure => 1
    case NoHeaderRead => 2
    case InvalidResponseHeader => 3
    case UnderreadMask => 4
    case NegativeResponseSize => 5
    case NoMask => 6
    case NoSegmentationPort => 7
    case NoSocket => 8
  }

  /** Distinct errors have distinct codes. */
  lemma CodeInjective(e1: SocketError, e2: SocketError)
    ensures Code(e1) == Code(e2) ==> e1 == e2
  {
  }
}
