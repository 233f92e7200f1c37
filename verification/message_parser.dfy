/** The frame header, command dispatch and field getters of the DHT API
    codec (`DHTMessage`, `DHTMessagePUT`, `DHTMessageGET`, `DHTMessageTRACE`).
    Every read is a Python slice of the received bytes, so a short frame is
    never an error: slices clamp, and `int.from_bytes` of an empty slice is 0. */
module MessageParser {
  import opened Results
  import opened Bytes

  const MSG_DHT_PUT: nat := 500
  const MSG_DHT_GET: nat := 501
  const MSG_DHT_TRACE: nat := 502
  const MSG_DHT_GET_REPLY: nat := 503
  const MSG_DHT_TRACE_REPLY: nat := 504
  const MSG_DHT_ERROR: nat := 505

  /** The `DHTCommands` table: command code to command name. */
  const Commands: map<nat, string> := map[
    MSG_DHT_PUT := "MSG_DHT_PUT",
    MSG_DHT_GET := "MSG_DHT_GET",
    MSG_DHT_TRACE := "MSG_DHT_TRACE",
    MSG_DHT_GET_REPLY := "MSG_DHT_GET_REPLY",
    MSG_DHT_TRACE_REPLY := "MSG_DHT_TRACE_REPLY",
    MSG_DHT_ERROR := "MSG_DHT_ERROR"
  ]

  /** A parsed message: the class `parse` chose, holding the whole received
      buffer and the size read from its header (`DHTMessageParent`). */
  datatype Message =
    | Put(data: seq<Byte>, size: nat)
    | Get(data: seq<Byte>, size: nat)
    | Trace(data: seq<Byte>, size: nat)
    | GetReply(data: seq<Byte>, size: nat)
    | Error(data: seq<Byte>, size: nat)

  /** Why `parse` raises: a code missing from `DHTCommands` (KeyError), or a
      message class that takes no constructor arguments (TypeError). */
  datatype ParseError =
    | UnknownCommand(code: nat)
    | TakesNoArguments(className: string)

  /** `getSize`: bytes 0..2 read big-endian (fewer if the buffer is shorter). */
  function GetSize(data: seq<Byte>): (r: nat)
    ensures r < 65536
  {
    Pow256Values();
    BE(PySlice(data, 0, 2))
  }

  /** The command number: bytes 2..4 read big-endian. */
  function CommandNumber(data: seq<Byte>): (r: nat)
    ensures r < 65536
  {
    Pow256Values();
    BE(PySlice(data, 2, 4))
  }

  /** The header fields are the usual two-byte network-order integers, and a
      buffer too short for a field reads it from the bytes that exist. */
  lemma HeaderFields(data: seq<Byte>)
    ensures |data| >= 2 ==> GetSize(data) == data[0] as int * 256 + data[1]
    ensures |data| == 1 ==> GetSize(data) == data[0]
    ensures |data| == 0 ==> GetSize(data) == 0
    ensures |data| >= 4 ==> CommandNumber(data) == data[2] as int * 256 + data[3]
    ensures |data| == 3 ==> CommandNumber(data) == data[2]
    ensures |data| <= 2 ==> CommandNumber(data) == 0
  {
    if |data| >= 2 {
      BETwo(data[0..2]);
    }
    if |data| == 1 {
      assert PySlice(data, 0, 2) == [data[0]];
    }
    if |data| >= 4 {
      BETwo(data[2..4]);
    }
    if |data| == 3 {
      assert PySlice(data, 2, 4) == [data[2]];
    }
  }

  /** `DHTMessage.parse`: look the command up in `DHTCommands`, then build the
      message class its name selects. A TRACE_REPLY code is parsed as a TRACE,
      and the GET_REPLY and ERROR classes reject their constructor arguments,
      so only 500, 501, 502 and 504 produce a message. */
  function Parse(data: seq<Byte>): (r: Result<Message, ParseError>)
    ensures r.Ok? <==> CommandNumber(data) in {500, 501, 502, 504}
    ensures r == Err(UnknownCommand(CommandNumber(data))) <==> !(500 <= CommandNumber(data) <= 505)
    ensures CommandNumber(data) in {503, 505} ==> r.Err? && r.error.TakesNoArguments?
    ensures r.Ok? ==> r.value.data == data && r.value.size == GetSize(data)
    ensures CommandNumber(data) == 500 ==> r.Ok? && r.value.Put?
    ensures CommandNumber(data) == 501 ==> r.Ok? && r.value.Get?
    ensures CommandNumber(data) in {502, 504} ==> r.Ok? && r.value.Trace?
  {
    var commandNumber := CommandNumber(data);
    if commandNumber !in Commands then Err(UnknownCommand(commandNumber))
    else
      var command := Commands[commandNumber];
      if command == "MSG_DHT_GET" then Ok(Get(data, GetSize(data)))
      else if command == "MSG_DHT_PUT" then Ok(Put(data, GetSize(data)))
      else if command == "MSG_DHT_TRACE" then Ok(Trace(data, GetSize(data)))
      else if command == "MSG_DHT_TRACE_REPLY" then Ok(Trace(data, GetSize(data)))
      else if command == "MSG_DHT_GET_REPLY" then Err(TakesNoArguments("DHTMessageGET_REPLY"))
      else if command == "MSG_DHT_ERROR" then Err(TakesNoArguments("DHTMessageERROR"))
      else assert false; Err(UnknownCommand(commandNumber))
  }

  /** The classes that define `get_key`. */
  predicate HasKey(m: Message)
  {
    m.Put? || m.Get? || m.Trace?
  }

  /** `get_key` of PUT, GET and TRACE alike: bytes 4..12, an 8-byte key. */
  function GetKey(m: Message): (r: nat)
    requires HasKey(m)
    ensures r < 0x1_0000_0000_0000_0000
  {
    Pow256Values();
    BE(PySlice(m.data, 4, 12))
  }

  /** `DHTMessagePUT.get_ttl`: bytes 12..14. */
  function GetTtl(m: Message): (r: nat)
    requires m.Put?
    ensures r < 65536
  {
    Pow256Values();
    BE(PySlice(m.data, 12, 14))
  }

  /** `DHTMessagePUT.get_replication`: byte 14, as the raw one-byte slice. */
  function GetReplication(m: Message): (r: seq<Byte>)
    requires m.Put?
    ensures |r| <= 1
  {
    PySlice(m.data, 14, 15)
  }

  /** `DHTMessagePUT.get_reserved`: bytes 15..20. */
  function GetReserved(m: Message): (r: seq<Byte>)
    requires m.Put?
    ensures |r| <= 5
  {
    PySlice(m.data, 15, 20)
  }

  /** `DHTMessagePUT.get_content`: bytes 20 up to the header size, as raw bytes. */
  function GetContent(m: Message): (r: seq<Byte>)
    requires m.Put?
    ensures |r| <= |m.data|
  {
    PySlice(m.data, 20, m.size)
  }

  /** Whether the PUT fields fit the layout `get_key`, `get_ttl`, ... read. */
  predicate ValidPutFields(key: nat, ttl: nat, reserved: seq<Byte>, content: seq<Byte>)
  {
    key < 0x1_0000_0000_0000_0000 && ttl < 65536 && |reserved| == 5 && 20 + |content| < 65536
  }

  /** A PUT frame laid out the way the getters read it, with the header size
      equal to the frame length. */
  function EncodePut(key: nat, ttl: nat, replication: Byte, reserved: seq<Byte>, content: seq<Byte>): (frame: seq<Byte>)
    requires ValidPutFields(key, ttl, reserved, content)
    ensures |frame| == 20 + |content|
    ensures frame[20..] == content
  {
    Pow256Values();
    ToBE(20 + |content|, 2) + ToBE(MSG_DHT_PUT, 2) + ToBE(key, 8) + ToBE(ttl, 2)
      + [replication] + reserved + content
  }

  /** Decoding an encoded PUT gives back every field, and the frame parses as
      a PUT carrying itself and its own length. */
  lemma PutRoundTrip(key: nat, ttl: nat, replication: Byte, reserved: seq<Byte>, content: seq<Byte>)
    requires ValidPutFields(key, ttl, reserved, content)
    ensures var frame := EncodePut(key, ttl, replication, reserved, content);
      Parse(frame) == Ok(Put(frame, |frame|))
      && GetKey(Put(frame, |frame|)) == key
      && GetTtl(Put(frame, |frame|)) == ttl
      && GetReplication(Put(frame, |frame|)) == [replication]
      && GetReserved(Put(frame, |frame|)) == reserved
      && GetContent(Put(frame, |frame|)) == content
  {
    Pow256Values();
    var frame := EncodePut(key, ttl, replication, reserved, content);
    var size := ToBE(20 + |content|, 2);
    var code := ToBE(MSG_DHT_PUT, 2);
    var k := ToBE(key, 8);
    var t := ToBE(ttl, 2);
    assert frame[0..2] == size;
    assert frame[2..4] == code;
    assert frame[4..12] == k;
    assert frame[12..14] == t;
    assert frame[14..15] == [replication];
    assert frame[15..20] == reserved;
    assert PySlice(frame, 0, 2) == size;
    assert PySlice(frame, 2, 4) == code;
  }

  /** The other direction: a well-formed PUT (at least 20 bytes, header size
      equal to the buffer length) is exactly the encoding of its fields. */
  lemma PutReassemble(data: seq<Byte>)
    requires Parse(data).Ok? && Parse(data).value.Put?
    requires |data| >= 20 && GetSize(data) == |data|
    ensures var m := Parse(data).value;
      |GetReplication(m)| == 1
      && ValidPutFields(GetKey(m), GetTtl(m), GetReserved(m), GetContent(m))
      && EncodePut(GetKey(m), GetTtl(m), GetReplication(m)[0], GetReserved(m), GetContent(m)) == data
  {
    Pow256Values();
    var m := Parse(data).value;
    assert CommandNumber(data) == MSG_DHT_PUT;
    assert m == Put(data, |data|);
    PutFieldsReencode(data);
  }

  /** Each field slice of a 20-byte-or-longer buffer is the encoding of the
      value read from it; the buffer is their concatenation. */
  lemma PutFieldsReencode(data: seq<Byte>)
    requires |data| >= 20 && GetSize(data) == |data| && CommandNumber(data) == MSG_DHT_PUT
    ensures var m := Put(data, |data|);
      ValidPutFields(GetKey(m), GetTtl(m), GetReserved(m), GetContent(m))
      && EncodePut(GetKey(m), GetTtl(m), data[14], GetReserved(m), GetContent(m)) == data
  {
    var m := Put(data, |data|);
    assert GetReserved(m) == data[15..20];
    assert GetContent(m) == data[20..];
    PutBodyReencode(data);
    HeaderReencode(data);
    AssemblePut(data, GetKey(m), GetTtl(m));
  }

  /** A buffer whose slices are the encodings of the given fields is their
      PUT frame. */
  lemma AssemblePut(data: seq<Byte>, key: nat, ttl: nat)
    requires |data| >= 20 && key < 0x1_0000_0000_0000_0000 && ttl < 65536 && |data| < 65536
    requires Pow256(2) == 65536 && Pow256(8) == 0x1_0000_0000_0000_0000
    requires ToBE(|data|, 2) == data[0..2] && ToBE(MSG_DHT_PUT, 2) == data[2..4]
    requires ToBE(key, 8) == data[4..12] && ToBE(ttl, 2) == data[12..14]
    ensures ValidPutFields(key, ttl, data[15..20], data[20..])
    ensures EncodePut(key, ttl, data[14], data[15..20], data[20..]) == data
  {
    assert 20 + |data[20..]| == |data|;
    PutSlicesCover(data);
  }

  /** The two header fields re-encode to the header bytes. */
  lemma HeaderReencode(data: seq<Byte>)
    requires |data| >= 4
    ensures ToBE(GetSize(data), 2) == data[0..2]
    ensures ToBE(CommandNumber(data), 2) == data[2..4]
  {
    SliceReencode(data, 0, 2);
    SliceReencode(data, 2, 4);
  }

  /** A field read from an in-range slice re-encodes to that slice. */
  lemma SliceReencode(data: seq<Byte>, lo: nat, hi: nat)
    requires lo <= hi <= |data|
    ensures BE(PySlice(data, lo, hi)) < Pow256(hi - lo)
    ensures ToBE(BE(PySlice(data, lo, hi)), hi - lo) == data[lo..hi]
  {
    ToBEOfBE(data[lo..hi]);
  }

  /** The PUT key and ttl re-encode to their slices. */
  lemma PutBodyReencode(data: seq<Byte>)
    requires |data| >= 20
    ensures ToBE(GetKey(Put(data, |data|)), 8) == data[4..12]
    ensures ToBE(GetTtl(Put(data, |data|)), 2) == data[12..14]
  {
    SliceReencode(data, 4, 12);
    SliceReencode(data, 12, 14);
  }

  /** The PUT field slices tile the buffer. */
  lemma PutSlicesCover<T>(s: seq<T>)
    requires |s| >= 20
    ensures s == s[0..2] + s[2..4] + s[4..12] + s[12..14] + [s[14]] + s[15..20] + s[20..]
  {
    assert s[..20] == s[0..2] + s[2..4] + s[4..12] + s[12..14] + [s[14]] + s[15..20];
    assert s == s[..20] + s[20..];
  }

  /** GET, TRACE and PUT share one key layout: the 8 bytes at offset 4, and
      the key re-encoded in 8 bytes gives those bytes back. On a shorter
      buffer the key is the value of whatever part of that range exists. */
  lemma KeyLayout(m: Message)
    requires HasKey(m)
    ensures |m.data| >= 12 ==> ToBE(GetKey(m), 8) == m.data[4..12]
    ensures |m.data| <= 4 ==> GetKey(m) == 0
    ensures 4 <= |m.data| < 12 ==> GetKey(m) == BE(m.data[4..])
  {
    Pow256Values();
    if |m.data| >= 12 {
      ToBEOfBE(m.data[4..12]);
    } else if |m.data| >= 4 {
      assert PySlice(m.data, 4, 12) == m.data[4..];
    }
  }

  /** What `parse` would return if GET_REPLY and ERROR accepted the
      `(data, size)` arguments it passes them, as PUT, GET and TRACE do. */
  function ParseIntended(data: seq<Byte>): (r: Result<Message, ParseError>)
    ensures r.Ok? <==> 500 <= CommandNumber(data) <= 505
    ensures r.Ok? ==> r.value.data == data && r.value.size == GetSize(data)
    ensures CommandNumber(data) == 503 ==> r.Ok? && r.value.GetReply?
    ensures CommandNumber(data) == 505 ==> r.Ok? && r.value.Error?
  {
    var commandNumber := CommandNumber(data);
    if commandNumber == MSG_DHT_GET_REPLY then Ok(GetReply(data, GetSize(data)))
    else if commandNumber == MSG_DHT_ERROR then Ok(Error(data, GetSize(data)))
    else Parse(data)
  }

  /** As written, a GET_REPLY header makes `parse` raise TypeError: the
      four-byte frame `[0, 4, 0x01, 0xF7]` (size 4, command 503). */
  lemma GetReplyRejected()
    ensures Parse([0, 4, 0x01, 0xF7]) == Err(TakesNoArguments("DHTMessageGET_REPLY"))
    ensures ParseIntended([0, 4, 0x01, 0xF7]) == Ok(GetReply([0, 4, 0x01, 0xF7], 4))
  {
    HeaderFields([0, 4, 0x01, 0xF7]);
  }
}
