/**
  The on-disk spool of src/serde.rs: every record becomes one frame, a two-byte
  little-endian length followed by exactly that many payload bytes. The payload
  codec (CBOR) is opaque; only the framing around it is modelled.
 */
module Spool {
  import opened Wrappers
  import opened Machine
  import opened Records

  /** The CBOR codec, uninterpreted: an encoder and a decoder that may refuse its input. */
  datatype Codec = Codec(encode: LogRecord -> seq<byte>, decode: seq<byte> -> Option<LogRecord>)

  /** Decoding what was encoded gives the record back. */
  ghost predicate Faithful(c: Codec) {
    forall log :: c.decode(c.encode(log)) == Some(log)
  }

  /** The largest payload a `u16` length prefix can describe. */
  const MAX_PAYLOAD: int := U16_LIMIT - 1

  /** `DiskGourceLog`: a length and the encoded record. */
  datatype DiskLog = DiskLog(size: u16, data: seq<byte>)

  predicate WellSized(d: DiskLog) {
    d.size == |d.data|
  }

  /** `u16::from_le_bytes`. */
  function FromLe(lo: byte, hi: byte): u16 {
    lo as int + 0x100 * hi as int
  }

  /** `u16::to_le_bytes`. */
  function ToLe(n: u16): (b: seq<byte>)
    ensures |b| == 2 && FromLe(b[0], b[1]) == n
  {
    [(n % 0x100) as byte, (n / 0x100) as byte]
  }

  /** `log_to_bytes`: encode, then fail unless the length fits a `u16`. */
  function LogToBytes(c: Codec, log: LogRecord): (r: Result<DiskLog, Error>)
    ensures r.Failure? <==> |c.encode(log)| > MAX_PAYLOAD
    ensures r.Failure? ==> r.error == RecordTooLarge
    ensures r.Success? ==> WellSized(r.value) && r.value.data == c.encode(log)
  {
    var data := c.encode(log);
    if |data| < U16_LIMIT then Success(DiskLog(|data|, data)) else Failure(RecordTooLarge)
  }

  /** The bytes `log_write` emits for one frame. */
  function Frame(d: DiskLog): (b: seq<byte>)
    ensures |b| == 2 + |d.data|
    ensures FromLe(b[0], b[1]) == d.size && b[2..] == d.data
  {
    ToLe(d.size) + d.data
  }

  /** The frames of a batch, in batch order. */
  function Frames(ds: seq<DiskLog>): seq<byte> {
    if ds == [] then [] else Frame(ds[0]) + Frames(ds[1..])
  }

  /** `serialize_logs`: every record of a commit, or nothing if any is too large. */
  function SerializeLogs(c: Codec, logs: seq<LogRecord>): (r: Result<seq<DiskLog>, Error>)
    ensures r.Success? <==> forall i :: 0 <= i < |logs| ==> |c.encode(logs[i])| <= MAX_PAYLOAD
    ensures r.Failure? ==> r.error == RecordTooLarge
    ensures r.Success? ==> |r.value| == |logs|
    ensures r.Success? ==> forall i :: 0 <= i < |logs| ==>
      WellSized(r.value[i]) && r.value[i].data == c.encode(logs[i])
  {
    if logs == [] then Success([])
    else
      match LogToBytes(c, logs[0])
      case Failure(e) => Failure(e)
      case Success(d) =>
        match SerializeLogs(c, logs[1..])
        case Failure(e) => Failure(e)
        case Success(ds) =>
          assert forall i :: 1 <= i < |logs| ==> logs[i] == logs[1..][i - 1];
          Success([d] + ds)
  }

  // ---------------------------------------------------------------------------
  // Writing

  /**
    The spool file behind its `BufWriter`: the bytes written so far and how many
    more the device accepts before a write fails (a full disk).
   */
  datatype Sink = Sink(bytes: seq<byte>, room: nat)

  /** A writer after a write, and whether the write succeeded. */
  datatype Written = Written(sink: Sink, ok: bool)

  function Min(x: int, y: int): int {
    if x <= y then x else y
  }

  /** What a sink holds after appending `chunk` as far as its room allows. */
  ghost predicate AppendedUpTo(s: Sink, chunk: seq<byte>, w: Written) {
    && (w.ok <==> |chunk| <= s.room)
    && w.sink.bytes == s.bytes + chunk[..Min(|chunk|, s.room)]
    && w.sink.room == s.room - Min(|chunk|, s.room)
  }

  /** `write_all`: everything, or as much as fits and then an error. */
  function WriteAll(s: Sink, chunk: seq<byte>): (w: Written)
    ensures AppendedUpTo(s, chunk, w)
  {
    if |chunk| <= s.room then Written(Sink(s.bytes + chunk, s.room - |chunk|), true)
    else Written(Sink(s.bytes + chunk[..s.room], 0), false)
  }

  /** `log_write`: the length prefix, then the payload unchanged. */
  function LogWrite(s: Sink, d: DiskLog): (w: Written)
    ensures AppendedUpTo(s, Frame(d), w)
    ensures w.ok ==> |w.sink.bytes| == |s.bytes| + 2 + |d.data|
  {
    var header := WriteAll(s, ToLe(d.size));
    if !header.ok then
      AppendStops(s, ToLe(d.size), d.data, header);
      header
    else
      var w := WriteAll(header.sink, d.data);
      AppendChains(s, ToLe(d.size), d.data, header, w);
      w
  }

  /** A failed append ends the chain: nothing after it is written. */
  lemma AppendStops(s: Sink, a: seq<byte>, b: seq<byte>, w: Written)
    requires AppendedUpTo(s, a, w) && !w.ok
    ensures AppendedUpTo(s, a + b, w)
  {
    assert (a + b)[..s.room] == a[..s.room];
  }

  /** Two successive appends, the first complete, append the concatenation. */
  lemma AppendChains(s: Sink, a: seq<byte>, b: seq<byte>, w1: Written, w2: Written)
    requires AppendedUpTo(s, a, w1) && w1.ok && AppendedUpTo(w1.sink, b, w2)
    ensures AppendedUpTo(s, a + b, w2)
  {
    var m := Min(|b|, w1.sink.room);
    assert (a + b)[..|a| + m] == a + b[..m];
  }

  lemma FramesAppend(ds: seq<DiskLog>, d: DiskLog)
    ensures Frames(ds + [d]) == Frames(ds) + Frame(d)
  {
    if ds != [] {
      assert (ds + [d])[1..] == ds[1..] + [d];
      FramesAppend(ds[1..], d);
    }
  }

  /**
    `batch_log_write`: the frames in batch order; the first frame that does not
    fit ends the batch, leaving whatever part of it fitted.
   */
  function BatchLogWrite(s: Sink, ds: seq<DiskLog>): (w: Written)
    ensures AppendedUpTo(s, Frames(ds), w)
    decreases |ds|
  {
    if ds == [] then Written(s, true)
    else
      var first := LogWrite(s, ds[0]);
      if !first.ok then
        AppendStops(s, Frame(ds[0]), Frames(ds[1..]), first);
        first
      else
        var w := BatchLogWrite(first.sink, ds[1..]);
        AppendChains(s, Frame(ds[0]), Frames(ds[1..]), first, w);
        w
  }

  /** `written` holds the frames before `ds[k]` whole, and `ds[k]` only in part. */
  ghost predicate PartAt(before: seq<byte>, ds: seq<DiskLog>, k: nat, written: seq<byte>)
    requires k < |ds|
  {
    before + Frames(ds[..k]) <= written < before + Frames(ds[..k + 1])
  }

  lemma PartAtFirst(before: seq<byte>, ds: seq<DiskLog>, written: seq<byte>)
    requires ds != [] && before <= written < before + Frame(ds[0])
    ensures PartAt(before, ds, 0, written)
  {
    assert ds[..1] == [ds[0]];
    assert Frames(ds[..1]) == Frame(ds[0]) + Frames([]);
    assert before + Frames(ds[..0]) == before;
  }

  lemma PartAtShift(before: seq<byte>, d: DiskLog, ds: seq<DiskLog>, k: nat, written: seq<byte>)
    requires k < |ds| && PartAt(before + Frame(d), ds, k, written)
    ensures PartAt(before, [d] + ds, k + 1, written)
  {
    var ds' := [d] + ds;
    assert ds'[..k + 1] == [d] + ds[..k];
    assert ds'[..k + 2] == [d] + ds[..k + 1];
    assert Frames(ds'[..k + 1]) == Frame(d) + Frames(ds[..k]);
    assert Frames(ds'[..k + 2]) == Frame(d) + Frames(ds[..k + 1]);
    assert before + Frames(ds'[..k + 1]) == before + Frame(d) + Frames(ds[..k]);
    assert before + Frames(ds'[..k + 2]) == before + Frame(d) + Frames(ds[..k + 1]);
  }

  /** A batch stops at its first failing frame: every frame before it is whole. */
  lemma {:induction false} BatchStopsAtFailingFrame(s: Sink, ds: seq<DiskLog>)
    requires !BatchLogWrite(s, ds).ok
    ensures exists k :: 0 <= k < |ds| && PartAt(s.bytes, ds, k, BatchLogWrite(s, ds).sink.bytes)
    decreases |ds|
  {
    var w := BatchLogWrite(s, ds);
    var first := LogWrite(s, ds[0]);
    if !first.ok {
      assert w == first;
      PartAtFirst(s.bytes, ds, w.sink.bytes);
    } else {
      assert w == BatchLogWrite(first.sink, ds[1..]);
      assert first.sink.bytes == s.bytes + Frame(ds[0]);
      BatchStopsAtFailingFrame(first.sink, ds[1..]);
      var k :| 0 <= k < |ds[1..]| && PartAt(first.sink.bytes, ds[1..], k, w.sink.bytes);
      PartAtShift(s.bytes, ds[0], ds[1..], k, w.sink.bytes);
      assert [ds[0]] + ds[1..] == ds;
    }
  }

  // ---------------------------------------------------------------------------
  // Reading

  /** `DiskLogReader`: the spool file's bytes and the position of its cursor. */
  datatype Reader = Reader(bytes: seq<byte>, pos: nat)

  /** The bytes after the cursor; a cursor sought past the end has none left. */
  function Unread(rd: Reader): (rest: seq<byte>)
    ensures |rest| <= |rd.bytes|
  {
    if rd.pos <= |rd.bytes| then rd.bytes[rd.pos..] else []
  }

  /** One call of the iterator: the record it yields, if any, and the bytes still unread. */
  datatype Step = Step(item: Option<LogRecord>, rest: seq<byte>)

  /** The payload length a complete header declares. */
  function DeclaredSize(rest: seq<byte>): u16
    requires |rest| >= 2
  {
    FromLe(rest[0], rest[1])
  }

  /**
    `DiskLogReader::next` on the unread bytes: read a header, then the payload it
    declares, then decode it. A short header, a short payload and an
    undecodable payload all end the sequence, and none is reported as an error;
    a failed `read_exact` is modelled as consuming the rest of the file.
   */
  function Next(c: Codec, rest: seq<byte>): (st: Step)
    ensures st.item.Some? ==> |st.rest| + 2 <= |rest|
  {
    if |rest| < 2 then Step(None, [])
    else
      var end := 2 + DeclaredSize(rest);
      if end > |rest| then Step(None, [])
      else Step(c.decode(rest[2..end]), rest[end..])
  }

  /** The records the iterator yields before it first returns None. */
  function ReadAll(c: Codec, rest: seq<byte>): seq<LogRecord>
    decreases |rest|
  {
    var st := Next(c, rest);
    match st.item
    case None => []
    case Some(log) => [log] + ReadAll(c, st.rest)
  }

  /**
    Frames `record_count` counts in the unread bytes: one per complete header,
    its payload skipped unread; a seek past the end leaves nothing to count.
   */
  function CountFrames(rest: seq<byte>): nat
    decreases |rest|
  {
    if |rest| < 2 then 0
    else
      var end := 2 + DeclaredSize(rest);
      1 + (if end <= |rest| then CountFrames(rest[end..]) else 0)
  }

  /**
    `DiskLogReader::record_count`: walk the length prefixes from the cursor,
    seeking past each payload (a seek may pass the end of the file), then
    rewind to offset 0.
   */
  method RecordCount(rd: Reader) returns (count: nat, rewound: Reader)
    ensures rewound == Reader(rd.bytes, 0)
    ensures count == CountFrames(Unread(rd))
  {
    var pos := rd.pos;
    count := 0;
    while pos + 2 <= |rd.bytes|
      invariant CountFrom(rd.bytes, rd.pos) == count + CountFrom(rd.bytes, pos)
      decreases |rd.bytes| - pos
    {
      var size := FromLe(rd.bytes[pos], rd.bytes[pos + 1]);
      pos := pos + 2 + size;
      count := count + 1;
    }
    CountFromUnread(rd.bytes, rd.pos);
    rewound := Reader(rd.bytes, 0);
  }

  /** What `record_count` counts with the cursor at `pos`, walking by position. */
  function CountFrom(b: seq<byte>, pos: nat): nat
    decreases |b| - pos
  {
    if pos + 2 > |b| then 0
    else 1 + CountFrom(b, pos + 2 + FromLe(b[pos], b[pos + 1]))
  }

  /** Walking by position counts what the unread bytes hold. */
  lemma {:induction false} CountFromUnread(b: seq<byte>, pos: nat)
    ensures CountFrom(b, pos) == CountFrames(Unread(Reader(b, pos)))
    decreases |b| - pos
  {
    if pos + 2 <= |b| {
      var size := FromLe(b[pos], b[pos + 1]);
      CountFromUnread(b, pos + 2 + size);
      UnreadStep(b, pos, size);
    }
  }

  /** A complete header at the cursor counts one, and the cursor moves past its payload. */
  lemma UnreadStep(b: seq<byte>, pos: nat, size: u16)
    requires pos + 2 <= |b| && size == FromLe(b[pos], b[pos + 1])
    ensures CountFrames(Unread(Reader(b, pos))) == 1 + CountFrames(Unread(Reader(b, pos + 2 + size)))
  {
    var rest := Unread(Reader(b, pos));
    var next := Unread(Reader(b, pos + 2 + size));
    assert rest == b[pos..];
    assert DeclaredSize(rest) == size by {
      assert rest[0] == b[pos] && rest[1] == b[pos + 1];
    }
    if 2 + size <= |rest| {
      assert next == rest[2 + size..];
    } else {
      assert next == [];
    }
  }

  // ---------------------------------------------------------------------------
  // Properties of the frame format

  /** `next` on a whole frame reads exactly that frame's payload and stops after it. */
  lemma NextOverFrame(c: Codec, d: DiskLog, tail: seq<byte>)
    requires WellSized(d)
    ensures Next(c, Frame(d) + tail) == Step(c.decode(d.data), tail)
  {
    var f := Frame(d);
    var b := f + tail;
    assert b[0] == f[0] && b[1] == f[1];
    assert b[2..|f|] == f[2..];
    assert b[|f|..] == tail;
  }

  /** A whole frame whose payload decodes yields that record; reading resumes after it. */
  lemma ReadAllOverFrame(c: Codec, d: DiskLog, log: LogRecord, tail: seq<byte>)
    requires WellSized(d) && c.decode(d.data) == Some(log)
    ensures ReadAll(c, Frame(d) + tail) == [log] + ReadAll(c, tail)
  {
    NextOverFrame(c, d, tail);
  }

  /** A whole frame whose payload does not decode ends the sequence, silently. */
  lemma UndecodableEndsRead(c: Codec, d: DiskLog, tail: seq<byte>)
    requires WellSized(d) && c.decode(d.data) == None
    ensures ReadAll(c, Frame(d) + tail) == []
  {
    NextOverFrame(c, d, tail);
  }

  /**
    Unread bytes that stop inside a frame, in its header or in its payload,
    yield nothing: a half-written frame is never misread as a record.
   */
  lemma PartialFrameReadsNothing(c: Codec, d: DiskLog, rest: seq<byte>)
    requires WellSized(d) && rest < Frame(d)
    ensures ReadAll(c, rest) == []
  {
    var f := Frame(d);
    if |rest| >= 2 {
      assert rest[0] == f[0] && rest[1] == f[1];
    }
  }

  /** `ds` are whole frames whose payloads decode to `logs`, one for one. */
  ghost predicate Carries(c: Codec, ds: seq<DiskLog>, logs: seq<LogRecord>) {
    && |ds| == |logs|
    && forall i :: 0 <= i < |ds| ==> WellSized(ds[i]) && c.decode(ds[i].data) == Some(logs[i])
  }

  lemma CarriesTail(c: Codec, ds: seq<DiskLog>, logs: seq<LogRecord>)
    requires Carries(c, ds, logs) && ds != []
    ensures WellSized(ds[0]) && c.decode(ds[0].data) == Some(logs[0])
    ensures Carries(c, ds[1..], logs[1..])
  {
    forall i | 0 <= i < |ds[1..]|
      ensures WellSized(ds[1..][i]) && c.decode(ds[1..][i].data) == Some(logs[1..][i])
    {
      assert ds[1..][i] == ds[i + 1] && logs[1..][i] == logs[i + 1];
    }
  }

  /** A faithful codec reads back what `serialize_logs` wrote. */
  lemma SerializedCarries(c: Codec, logs: seq<LogRecord>, ds: seq<DiskLog>)
    requires Faithful(c)
    requires SerializeLogs(c, logs) == Success(ds)
    ensures Carries(c, ds, logs)
  {
  }

  /**
    Round trip: frames carrying `logs`, followed by anything, read back as
    those records in order, then whatever the rest yields.
   */
  lemma {:induction false} ReadBackFrames(c: Codec, logs: seq<LogRecord>, ds: seq<DiskLog>, tail: seq<byte>)
    requires Carries(c, ds, logs)
    ensures ReadAll(c, Frames(ds) + tail) == logs + ReadAll(c, tail)
    decreases |ds|
  {
    if ds == [] {
      assert Frames(ds) + tail == tail;
    } else {
      CarriesTail(c, ds, logs);
      var rest := Frames(ds[1..]) + tail;
      assert Frames(ds) + tail == Frame(ds[0]) + rest;
      ReadAllOverFrame(c, ds[0], logs[0], rest);
      ReadBackFrames(c, logs[1..], ds[1..], tail);
      ReadBackGlue(ReadAll(c, Frames(ds) + tail), ReadAll(c, rest), ReadAll(c, tail), logs);
    }
  }

  lemma ReadBackGlue<T>(whole: seq<T>, rest: seq<T>, tail: seq<T>, xs: seq<T>)
    requires xs != [] && whole == [xs[0]] + rest && rest == xs[1..] + tail
    ensures whole == xs + tail
  {
    assert xs == [xs[0]] + xs[1..];
  }

  /** Reading the frames of a whole serialised batch yields exactly its records. */
  lemma ReadBackBatch(c: Codec, logs: seq<LogRecord>, ds: seq<DiskLog>)
    requires Faithful(c)
    requires SerializeLogs(c, logs) == Success(ds)
    ensures ReadAll(c, Frames(ds)) == logs
  {
    SerializedCarries(c, logs, ds);
    ReadBackFrames(c, logs, ds, []);
    assert Frames(ds) + [] == Frames(ds);
    assert logs + [] == logs;
  }

  /**
    A spool cut short anywhere, e.g. by a write that ran out of room, yields a
    prefix of the records it was meant to hold.
   */
  lemma {:induction false} TruncatedSpoolYieldsPrefix(c: Codec, logs: seq<LogRecord>, ds: seq<DiskLog>, b: seq<byte>)
    requires Carries(c, ds, logs) && b <= Frames(ds)
    ensures ReadAll(c, b) <= logs
    decreases |ds|
  {
    if ds == [] {
      assert b == [];
    } else {
      var f := Frame(ds[0]);
      CarriesTail(c, ds, logs);
      assert Frames(ds) == f + Frames(ds[1..]);
      if |b| < |f| {
        assert b == Frames(ds)[..|b|] == f[..|b|];
        PartialFrameReadsNothing(c, ds[0], b);
      } else {
        var rest := b[|f|..];
        PrefixSplit(b, f, Frames(ds[1..]));
        ReadAllOverFrame(c, ds[0], logs[0], rest);
        TruncatedSpoolYieldsPrefix(c, logs[1..], ds[1..], rest);
        ConsPrefix(logs[0], ReadAll(c, rest), logs[1..]);
        assert logs == [logs[0]] + logs[1..];
      }
    }
  }

  /** A prefix of `x + y` that covers `x` is `x` followed by a prefix of `y`. */
  lemma PrefixSplit<T>(b: seq<T>, x: seq<T>, y: seq<T>)
    requires |x| <= |b| && b <= x + y
    ensures b == x + b[|x|..] && b[|x|..] <= y
  {
    assert b == b[..|x|] + b[|x|..];
    assert b[..|x|] == (x + y)[..|x|] == x;
    assert b[|x|..] == (x + y)[|x|..|b|] == y[..|b| - |x|];
  }

  lemma ConsPrefix<T>(x: T, xs: seq<T>, ys: seq<T>)
    requires xs <= ys
    ensures [x] + xs <= [x] + ys
  {
    assert ([x] + ys)[..|[x] + xs|] == [x] + ys[..|xs|];
  }

  /** `record_count` steps over a whole frame in one turn. */
  lemma CountOverFrame(d: DiskLog, tail: seq<byte>)
    requires WellSized(d)
    ensures CountFrames(Frame(d) + tail) == 1 + CountFrames(tail)
  {
    var f := Frame(d);
    var b := f + tail;
    assert b[0] == f[0] && b[1] == f[1];
    assert b[|f|..] == tail;
  }

  /** `record_count` counts one frame per serialised record, then goes on counting what follows. */
  lemma {:induction false} CountFramesOfBatch(ds: seq<DiskLog>, tail: seq<byte>)
    requires forall i :: 0 <= i < |ds| ==> WellSized(ds[i])
    ensures CountFrames(Frames(ds) + tail) == |ds| + CountFrames(tail)
    decreases |ds|
  {
    if ds == [] {
      assert Frames(ds) + tail == tail;
    } else {
      var rest := Frames(ds[1..]) + tail;
      assert Frames(ds) + tail == Frame(ds[0]) + rest;
      CountOverFrame(ds[0], rest);
      assert forall i :: 0 <= i < |ds[1..]| ==> ds[1..][i] == ds[i + 1];
      CountFramesOfBatch(ds[1..], tail);
    }
  }

  /**
    On a spool holding only whole frames of serialised records, `record_count`
    agrees with the number of records the iterator yields.
   */
  lemma CountMatchesRead(c: Codec, logs: seq<LogRecord>, ds: seq<DiskLog>)
    requires Carries(c, ds, logs)
    ensures CountFrames(Frames(ds)) == |ReadAll(c, Frames(ds))| == |logs|
  {
    CountFramesOfBatch(ds, []);
    ReadBackFrames(c, logs, ds, []);
    assert Frames(ds) + [] == Frames(ds);
    assert logs + [] == logs;
  }

  /** A single stray byte after the last frame is not counted and not read. */
  lemma TrailingByteIgnored(c: Codec, logs: seq<LogRecord>, ds: seq<DiskLog>, stray: byte)
    requires Carries(c, ds, logs)
    ensures CountFrames(Frames(ds) + [stray]) == |logs|
    ensures ReadAll(c, Frames(ds) + [stray]) == logs
  {
    CountFramesOfBatch(ds, [stray]);
    ReadBackFrames(c, logs, ds, [stray]);
    assert logs + [] == logs;
  }

  /**
    The two readers disagree on a truncated final frame: a header that declares
    more bytes than remain is counted by `record_count`, but `next` yields
    nothing for it.
   */
  lemma TruncatedFrameCountedNotRead(c: Codec, logs: seq<LogRecord>, ds: seq<DiskLog>, size: u16)
    requires Carries(c, ds, logs)
    requires size > 0
    ensures CountFrames(Frames(ds) + ToLe(size)) == |logs| + 1
    ensures ReadAll(c, Frames(ds) + ToLe(size)) == logs
  {
    CountFramesOfBatch(ds, ToLe(size));
    ReadBackFrames(c, logs, ds, ToLe(size));
    assert DeclaredSize(ToLe(size)) == size;
    assert logs + [] == logs;
  }
}
