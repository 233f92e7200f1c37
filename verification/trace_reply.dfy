/** The hop record (`DHTHop`) and the TRACE_REPLY frame builder
    (`DHTMessageTRACE_REPLY.__init__`) of the DHT API codec. */
module TraceReply {
  import opened Results
  import opened Bytes
  import opened MessageParser

  /** A `DHTHop` as its constructor stores it: every field already as bytes.
      The addresses are the packed forms of the two addresses it was given. */
  datatype Hop = Hop(peerId: seq<Byte>, kxPort: seq<Byte>, reserved: seq<Byte>, ipv4: seq<Byte>, ipv6: seq<Byte>)

  /** The `to_bytes` call that raised OverflowError. */
  datatype BuildError = PeerIdOverflow | KxPortOverflow | SizeOverflow | KeyOverflow

  /** The bytes the constructor writes itself have their fixed widths. */
  predicate FixedWidths(h: Hop)
  {
    |h.peerId| == 32 && |h.kxPort| == 2 && |h.reserved| == 2
  }

  /** A hop built from an IPv4 and an IPv6 address: a 56-byte record. */
  predicate Standard(h: Hop)
  {
    FixedWidths(h) && |h.ipv4| == 4 && |h.ipv6| == 16
  }

  predicate AllStandard(hops: seq<Hop>)
  {
    forall i :: 0 <= i < |hops| ==> Standard(hops[i])
  }

  /** `DHTHop.__init__`: peerId in 32 bytes, kxPort in 2, two zero bytes.
      Either `to_bytes` raises on a negative or too-large value, peerId first. */
  function NewHop(peerId: int, kxPort: int, ipv4: seq<Byte>, ipv6: seq<Byte>): (r: Result<Hop, BuildError>)
    ensures r.Ok? <==> 0 <= peerId < Pow256(32) && 0 <= kxPort < 65536
    ensures r == Err(PeerIdOverflow) <==> !(0 <= peerId < Pow256(32))
    ensures r.Ok? ==> FixedWidths(r.value) && r.value.reserved == [0, 0]
    ensures r.Ok? ==> BE(r.value.peerId) == peerId && BE(r.value.kxPort) == kxPort
    ensures r.Ok? ==> r.value.ipv4 == ipv4 && r.value.ipv6 == ipv6
  {
    Pow256Values();
    match ToBytes(peerId, 32)
    case None => Err(PeerIdOverflow)
    case Some(peerIdBytes) =>
      match ToBytes(kxPort, 2)
      case None => Err(KxPortOverflow)
      case Some(kxPortBytes) => Ok(Hop(peerIdBytes, kxPortBytes, ToBE(0, 2), ipv4, ipv6))
  }

  /** `DHTHop.as_bytes`: the fields in declaration order. */
  function AsBytes(h: Hop): (r: seq<Byte>)
    ensures |r| == |h.peerId| + |h.kxPort| + |h.reserved| + |h.ipv4| + |h.ipv6|
  {
    h.peerId + h.kxPort + h.reserved + h.ipv4 + h.ipv6
  }

  /** Reads a 56-byte hop record back into its fields. */
  function DecodeHop(b: seq<Byte>): (h: Hop)
    requires |b| == 56
    ensures Standard(h)
  {
    Hop(b[0..32], b[32..34], b[34..36], b[36..40], b[40..56])
  }

  /** A built hop serialises as peerId, kxPort, two zero bytes, then the
      addresses; the integer slices read back as peerId and kxPort, and with
      a 4-byte and a 16-byte address the record is 56 bytes. */
  lemma HopLayout(peerId: int, kxPort: int, ipv4: seq<Byte>, ipv6: seq<Byte>)
    requires NewHop(peerId, kxPort, ipv4, ipv6).Ok?
    ensures var b := AsBytes(NewHop(peerId, kxPort, ipv4, ipv6).value);
      |b| == 36 + |ipv4| + |ipv6|
      && BE(b[0..32]) == peerId
      && BE(b[32..34]) == kxPort
      && b[34..36] == [0, 0]
      && b[36..36 + |ipv4|] == ipv4
      && b[36 + |ipv4|..] == ipv6
      && (|ipv4| == 4 && |ipv6| == 16 ==> |b| == 56)
  {
    var h := NewHop(peerId, kxPort, ipv4, ipv6).value;
    var b := AsBytes(h);
    assert b[0..32] == h.peerId;
    assert b[32..34] == h.kxPort;
    assert b[34..36] == h.reserved;
    assert b[36..36 + |ipv4|] == ipv4;
    assert b[36 + |ipv4|..] == ipv6;
  }

  /** Decoding a serialised 56-byte hop gives back the hop. */
  lemma HopRoundTrip(h: Hop)
    requires Standard(h)
    ensures DecodeHop(AsBytes(h)) == h
  {
    var front := h.peerId + h.kxPort + h.reserved + h.ipv4;
    var b := AsBytes(h);
    assert b == front + h.ipv6;
    assert b[..40] == front && b[40..56] == h.ipv6;
    assert front[0..32] == h.peerId;
    assert front[32..34] == h.kxPort;
    assert front[34..36] == h.reserved;
    assert front[36..40] == h.ipv4;
  }

  /** The other direction: every 56-byte record whose reserved bytes are zero
      is what `DHTHop` builds from the values read out of it. */
  lemma HopRebuild(b: seq<Byte>)
    requires |b| == 56 && b[34..36] == [0, 0]
    ensures NewHop(BE(b[0..32]), BE(b[32..34]), b[36..40], b[40..56]).Ok?
    ensures AsBytes(NewHop(BE(b[0..32]), BE(b[32..34]), b[36..40], b[40..56]).value) == b
  {
    Pow256Values();
    var h := NewHop(BE(b[0..32]), BE(b[32..34]), b[36..40], b[40..56]).value;
    BEInjective(h.peerId, b[0..32]);
    BEInjective(h.kxPort, b[32..34]);
    assert b == b[0..32] + b[32..34] + b[34..36] + b[36..40] + b[40..56];
  }

  /** `for hop in hops: frame += hop.as_bytes()`: the records in input order. */
  function HopsBytes(hops: seq<Hop>): (r: seq<Byte>)
    ensures AllStandard(hops) ==> |r| == 56 * |hops|
  {
    if |hops| == 0 then []
    else HopsBytes(hops[..|hops| - 1]) + AsBytes(hops[|hops| - 1])
  }

  /** With 56-byte records, record i sits at offset 56 * i. */
  lemma {:induction false} HopsBytesAt(hops: seq<Hop>, i: nat)
    requires AllStandard(hops) && i < |hops|
    ensures |HopsBytes(hops)| == 56 * |hops|
    ensures HopsBytes(hops)[56 * i..56 * i + 56] == AsBytes(hops[i])
  {
    var init := hops[..|hops| - 1];
    assert AllStandard(init);
    var prefix := HopsBytes(init);
    assert HopsBytes(hops) == prefix + AsBytes(hops[|hops| - 1]);
    if i < |hops| - 1 {
      HopsBytesAt(init, i);
      assert HopsBytes(hops)[56 * i..56 * i + 56] == prefix[56 * i..56 * i + 56];
    }
  }

  /** Splits a run of 56-byte records, last record last. */
  function DecodeHops(b: seq<Byte>): (hops: seq<Hop>)
    requires |b| % 56 == 0
    ensures |hops| == |b| / 56
    ensures AllStandard(hops)
    decreases |b|
  {
    if |b| == 0 then []
    else DecodeHops(b[..|b| - 56]) + [DecodeHop(b[|b| - 56..])]
  }

  /** Splitting serialised records gives back the hops. */
  lemma {:induction false} DecodeHopsRoundTrip(hops: seq<Hop>)
    requires AllStandard(hops)
    ensures |HopsBytes(hops)| % 56 == 0 && DecodeHops(HopsBytes(hops)) == hops
  {
    if |hops| > 0 {
      var init := hops[..|hops| - 1];
      assert AllStandard(init);
      var b := HopsBytes(hops);
      assert b[..|b| - 56] == HopsBytes(init);
      assert b[|b| - 56..] == AsBytes(hops[|hops| - 1]);
      DecodeHopsRoundTrip(init);
      HopRoundTrip(hops[|hops| - 1]);
      assert hops == init + [hops[|hops| - 1]];
    }
  }

  /** Serialising split records gives back the bytes. */
  lemma {:induction false} HopsBytesOfDecode(b: seq<Byte>)
    requires |b| % 56 == 0
    ensures HopsBytes(DecodeHops(b)) == b
    decreases |b|
  {
    if |b| > 0 {
      var prefix, last := b[..|b| - 56], b[|b| - 56..];
      var hops := DecodeHops(b);
      assert hops == DecodeHops(prefix) + [DecodeHop(last)];
      assert hops[..|hops| - 1] == DecodeHops(prefix);
      HopsBytesOfDecode(prefix);
      HopRecordRebuilt(last);
      assert HopsBytes(hops) == prefix + last;
      assert b == prefix + last;
    }
  }

  /** One 56-byte record, read into its fields and serialised again. */
  lemma HopRecordRebuilt(b: seq<Byte>)
    requires |b| == 56
    ensures AsBytes(DecodeHop(b)) == b
  {
    assert b == b[0..32] + b[32..34] + b[34..36] + b[36..40] + b[40..56];
  }

  /** The size `DHTMessageTRACE_REPLY` declares: a bit count divided by 8. */
  function DeclaredSize(hopCount: nat): (size: nat)
    ensures size == 34 + 52 * hopCount
  {
    (16 + 256 + hopCount * (256 + 32 + 128)) / 8
  }

  /** `DHTMessageTRACE_REPLY.__init__`, returning the frame it builds: the
      declared size, code 504, the key in 32 bytes, then every hop record.
      The size is encoded before the key, so an oversized hop list is
      reported even when the key would also overflow. */
  function TraceReplyFrame(key: int, hops: seq<Hop>): (r: Result<seq<Byte>, BuildError>)
    ensures r.Ok? <==> |hops| < 1260 && 0 <= key < Pow256(32)
    ensures r == Err(SizeOverflow) <==> |hops| >= 1260
    ensures r.Ok? ==> |r.value| >= 36 && r.value[36..] == HopsBytes(hops)
    ensures r.Ok? ==> GetSize(r.value) == 34 + 52 * |hops|
    ensures r.Ok? ==> CommandNumber(r.value) == MSG_DHT_TRACE_REPLY
    ensures r.Ok? ==> BE(r.value[4..36]) == key
  {
    Pow256Values();
    match ToBytes(DeclaredSize(|hops|), 2)
    case None => Err(SizeOverflow)
    case Some(sizeBytes) =>
      match ToBytes(key, 32)
      case None => Err(KeyOverflow)
      case Some(keyBytes) =>
        var frame := sizeBytes + ToBE(MSG_DHT_TRACE_REPLY, 2) + keyBytes + HopsBytes(hops);
        assert PySlice(frame, 0, 2) == sizeBytes;
        assert PySlice(frame, 2, 4) == ToBE(MSG_DHT_TRACE_REPLY, 2);
        assert frame[4..36] == keyBytes;
        Ok(frame)
  }

  /** With 56-byte hop records the frame is 36 + 56 * n bytes, record i is at
      offset 36 + 56 * i, and the declared size falls 2 + 4 * n bytes short. */
  lemma TraceReplyLayout(key: int, hops: seq<Hop>)
    requires AllStandard(hops) && TraceReplyFrame(key, hops).Ok?
    ensures var frame := TraceReplyFrame(key, hops).value;
      |frame| == 36 + 56 * |hops|
      && |frame| - GetSize(frame) == 2 + 4 * |hops|
      && forall i :: 0 <= i < |hops| ==> frame[36 + 56 * i..36 + 56 * i + 56] == AsBytes(hops[i])
  {
    var frame := TraceReplyFrame(key, hops).value;
    forall i | 0 <= i < |hops|
      ensures frame[36 + 56 * i..36 + 56 * i + 56] == AsBytes(hops[i])
    {
      HopsBytesAt(hops, i);
      assert frame[36 + 56 * i..36 + 56 * i + 56] == frame[36..][56 * i..56 * i + 56];
    }
  }

  /** Fed back to `parse`, a TRACE_REPLY frame comes out as a TRACE message
      whose 8-byte key is the top 64 bits of the 256-bit key it carries. */
  lemma TraceReplyParsesAsTrace(key: int, hops: seq<Hop>)
    requires TraceReplyFrame(key, hops).Ok?
    ensures var frame := TraceReplyFrame(key, hops).value;
      Parse(frame) == Ok(Trace(frame, 34 + 52 * |hops|))
      && GetKey(Trace(frame, 34 + 52 * |hops|)) == key / Pow256(24)
  {
    var frame := TraceReplyFrame(key, hops).value;
    TraceKeyPrefix(frame, 34 + 52 * |hops|);
  }

  /** A TRACE read of a buffer holding a 32-byte key at offset 4 sees the
      top 8 bytes of that key. */
  lemma TraceKeyPrefix(frame: seq<Byte>, size: nat)
    requires |frame| >= 36
    ensures GetKey(Trace(frame, size)) == BE(frame[4..36]) / Pow256(24)
  {
    var keyBytes := frame[4..36];
    assert PySlice(frame, 4, 12) == keyBytes[..8];
    BEPrefix(keyBytes, 8);
  }

  /** The smallest witness: no hops and key 0 give a 36-byte frame that
      declares 34 bytes. */
  lemma EmptyTraceReplyUndercounts()
    ensures TraceReplyFrame(0, []).Ok?
    ensures |TraceReplyFrame(0, []).value| == 36
    ensures GetSize(TraceReplyFrame(0, []).value) == 34
  {
    TraceReplyLayout(0, []);
  }

  /** The TRACE_REPLY frame with its size field equal to its real length,
      4 header bytes + 32 key bytes + the hop records. */
  function TraceReplyFrameCorrected(key: int, hops: seq<Hop>): (r: Result<seq<Byte>, BuildError>)
    ensures r.Ok? <==> 36 + |HopsBytes(hops)| < 65536 && 0 <= key < Pow256(32)
    ensures r.Ok? ==> GetSize(r.value) == |r.value|
    ensures r.Ok? ==> |r.value| >= 36 && r.value[36..] == HopsBytes(hops)
    ensures r.Ok? ==> CommandNumber(r.value) == MSG_DHT_TRACE_REPLY && BE(r.value[4..36]) == key
  {
    Pow256Values();
    var body := HopsBytes(hops);
    match ToBytes(36 + |body|, 2)
    case None => Err(SizeOverflow)
    case Some(sizeBytes) =>
      match ToBytes(key, 32)
      case None => Err(KeyOverflow)
      case Some(keyBytes) =>
        var frame := sizeBytes + ToBE(MSG_DHT_TRACE_REPLY, 2) + keyBytes + body;
        assert PySlice(frame, 0, 2) == sizeBytes;
        assert PySlice(frame, 2, 4) == ToBE(MSG_DHT_TRACE_REPLY, 2);
        assert frame[4..36] == keyBytes;
        Ok(frame)
  }

  /** With 56-byte records the corrected frame fits for up to 1169 hops. */
  lemma CorrectedCapacity(key: int, hops: seq<Hop>)
    requires AllStandard(hops) && 0 <= key < Pow256(32)
    ensures TraceReplyFrameCorrected(key, hops).Ok? <==> |hops| < 1170
  {
  }

  /** Reads a TRACE_REPLY frame: its size must be its length, its command
      504, and its body a whole number of 56-byte records. */
  function DecodeTraceReply(data: seq<Byte>): (r: Option<(nat, seq<Hop>)>)
    ensures r.Some? ==> |data| >= 36 && GetSize(data) == |data| && CommandNumber(data) == MSG_DHT_TRACE_REPLY
    ensures r.Some? ==> |r.value.1| == (|data| - 36) / 56 && AllStandard(r.value.1)
  {
    if |data| < 36 || GetSize(data) != |data| || CommandNumber(data) != MSG_DHT_TRACE_REPLY
      || (|data| - 36) % 56 != 0
    then None
    else Some((BE(data[4..36]), DecodeHops(data[36..])))
  }

  /** The corrected frame decodes to the key and hops it was built from. */
  lemma TraceReplyRoundTrip(key: int, hops: seq<Hop>)
    requires AllStandard(hops) && TraceReplyFrameCorrected(key, hops).Ok?
    ensures DecodeTraceReply(TraceReplyFrameCorrected(key, hops).value) == Some((key, hops))
  {
    DecodeHopsRoundTrip(hops);
  }

  /** Every frame the decoder accepts is the corrected encoding of what it
      decodes to. */
  lemma TraceReplyReassemble(data: seq<Byte>)
    requires DecodeTraceReply(data).Some?
    ensures var (key, hops) := DecodeTraceReply(data).value;
      TraceReplyFrameCorrected(key, hops) == Ok(data)
  {
    var key := BE(data[4..36]);
    var hops := DecodeHops(data[36..]);
    assert DecodeTraceReply(data).value == (key, hops);
    HopsBytesOfDecode(data[36..]);
    CorrectedFrameOf(data, key, hops);
  }

  /** A buffer whose header is right for its length is the corrected frame
      of its key and of any hops serialising to its body. */
  lemma CorrectedFrameOf(data: seq<Byte>, key: nat, hops: seq<Hop>)
    requires |data| >= 36 && GetSize(data) == |data| && CommandNumber(data) == MSG_DHT_TRACE_REPLY
    requires key == BE(data[4..36]) && HopsBytes(hops) == data[36..]
    ensures TraceReplyFrameCorrected(key, hops) == Ok(data)
  {
    FrameFromSlices(data);
    assert TraceReplyFrameCorrected(key, hops).Ok?;
    CorrectedFrameShape(key, hops);
    var sizeField, codeField := GetSize(data), CommandNumber(data);
    assert sizeField == 36 + |HopsBytes(hops)|;
    assert TraceReplyFrameCorrected(key, hops).value
      == ToBE(sizeField, 2) + ToBE(codeField, 2) + ToBE(key, 32) + data[36..];
  }

  /** The corrected frame, piece by piece. */
  lemma CorrectedFrameShape(key: int, hops: seq<Hop>)
    requires TraceReplyFrameCorrected(key, hops).Ok?
    ensures 0 <= key < Pow256(32) && 36 + |HopsBytes(hops)| < Pow256(2)
    ensures TraceReplyFrameCorrected(key, hops).value
      == ToBE(36 + |HopsBytes(hops)|, 2) + ToBE(MSG_DHT_TRACE_REPLY, 2) + ToBE(key, 32) + HopsBytes(hops)
  {
    Pow256Values();
  }

  /** A frame of 36 bytes or more is its header and key fields re-encoded,
      followed by its body. */
  lemma FrameFromSlices(data: seq<Byte>)
    requires |data| >= 36
    ensures BE(data[4..36]) < Pow256(32)
    ensures data == ToBE(GetSize(data), 2) + ToBE(CommandNumber(data), 2) + ToBE(BE(data[4..36]), 32) + data[36..]
  {
    var keyBytes := data[4..36];
    HeaderReencode(data);
    ToBEOfBE(keyBytes);
    assert data == data[0..2] + data[2..4] + keyBytes + data[36..];
  }

  /** As written, no frame the builder produces from 56-byte hops passes
      the length check a reader needs. */
  lemma AsWrittenFrameRejected(key: int, hops: seq<Hop>)
    requires AllStandard(hops) && TraceReplyFrame(key, hops).Ok?
    ensures DecodeTraceReply(TraceReplyFrame(key, hops).value).None?
  {
    TraceReplyLayout(key, hops);
  }
}
