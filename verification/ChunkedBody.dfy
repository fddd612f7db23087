/** The chunked body reader of the HTTP engine (section 7.1 of RFC 9112). */
module ChunkedBody {
  import opened Bytes
  import opened Wrappers
  import opened ByteReader
  import opened Text

  datatype ReadError = Eof | UnexpectedEof | BadSize | NegativeSize | BadDelimiter

  /** The fields of `chunkedBodyReader`, with the bytes its reader has yet to deliver. */
  datatype BodyState = BodyState(input: bytes, remaining: nat, done: bool)

  datatype Outcome = Outcome(reader: BodyState, data: bytes, err: Option<ReadError>)

  /** The size in a chunk's first line, without its extensions. */
  function ChunkSize(line: bytes): Option<int> {
    ParseInt(TrimSpace(line[..Find(line, SEMICOLON)]), 16)
  }

  /** What follows the empty line that ends the trailers. */
  function AfterTrailers(input: bytes): (r: Option<bytes>)
    ensures r.Some? ==> |r.value| < |input|
    decreases |input|
  {
    match Line(input)
    case None => None
    case Some((line, rest)) => if line == [] then Some(rest) else AfterTrailers(rest)
  }

  datatype Start = Sized(size: nat, rest: bytes) | Last(rest: bytes) | Bad(err: ReadError, rest: bytes)

  /** Reads a chunk's first line, and the trailers if it is the last chunk. */
  function StartChunk(input: bytes): (r: Start)
    ensures r.Sized? ==> r.size > 0 && |r.rest| < |input|
  {
    match Line(input)
    case None => Bad(Eof, [])
    case Some((line, rest)) =>
      match ChunkSize(line)
      case None => Bad(BadSize, rest)
      case Some(n) =>
        if n == 0 then
          match AfterTrailers(rest)
          case None => Bad(Eof, [])
          case Some(after) => Last(after)
        else if n < 0 then Bad(NegativeSize, rest)
        else Sized(n, rest)
  }

  /** Reads data of the current chunk, and its line end when it is complete. */
  function TakeData(r: BodyState, size: nat, choice: nat): Outcome
    requires r.remaining > 0
  {
    var p := if size <= r.remaining then size else r.remaining;
    if p > 0 && r.input == [] then Outcome(r, [], Some(Eof))
    else
      var n := Delivered(p, |r.input|, choice);
      var data, rest := r.input[..n], r.input[n..];
      if n < r.remaining then Outcome(r.(input := rest, remaining := r.remaining - n), data, None)
      else if |rest| < 2 then Outcome(BodyState([], 0, r.done), data, Some(if rest == [] then Eof else UnexpectedEof))
      else Outcome(BodyState(rest[2..], 0, r.done), data, if rest[..2] == CRLF then None else Some(BadDelimiter))
  }

  /** One call of `Read` with a buffer of the given size. */
  function ReadCall(r: BodyState, size: nat, choice: nat): Outcome {
    if r.done then Outcome(r, [], Some(Eof))
    else if r.remaining > 0 then TakeData(r, size, choice)
    else
      match StartChunk(r.input)
      case Bad(err, rest) => Outcome(r.(input := rest), [], Some(err))
      case Last(rest) => Outcome(BodyState(rest, 0, true), [], Some(Eof))
      case Sized(n, rest) => TakeData(BodyState(rest, n, false), size, choice)
  }

  function Prepend(data: bytes, r: Option<(bytes, bytes)>): Option<(bytes, bytes)> {
    if r.Some? then Some((data + r.value.0, r.value.1)) else None
  }

  /** The one-shot decoder: the body and what follows the encoding. */
  function Decode(input: bytes): Option<(bytes, bytes)>
    decreases |input|, 0
  {
    match StartChunk(input)
    case Bad(_, _) => None
    case Last(rest) => Some(([], rest))
    case Sized(n, rest) => DecodeWithin(n, rest)
  }

  /** The same from inside a chunk of which n bytes are missing. */
  function DecodeWithin(n: nat, input: bytes): Option<(bytes, bytes)>
    decreases |input|, 1
  {
    if |input| < n + 2 || input[n..n + 2] != CRLF then None
    else Prepend(input[..n], Decode(input[n + 2..]))
  }

  /** What a reader has still to deliver, and what it will leave behind. */
  function Pending(r: BodyState): Option<(bytes, bytes)> {
    if r.done then Some(([], r.input))
    else if r.remaining > 0 then DecodeWithin(r.remaining, r.input)
    else Decode(r.input)
  }

  lemma WithinSplit(n: nat, m: nat, input: bytes)
    requires n <= m && n <= |input|
    ensures DecodeWithin(m, input) == Prepend(input[..n], DecodeWithin(m - n, input[n..]))
  {
    hide Decode;
    var rest, k := input[n..], m - n;
    if |input| >= m + 2 {
      assert rest[k..k + 2] == input[m..m + 2] && rest[k + 2..] == input[m + 2..];
      var after := Decode(input[m + 2..]);
      if after.Some? {
        assert input[..m] + after.value.0 == input[..n] + (rest[..k] + after.value.0);
      }
    }
  }

  lemma TakeDataKeepsPending(r: BodyState, size: nat, choice: nat)
    requires r.remaining > 0 && !r.done
    ensures var o := TakeData(r, size, choice);
            && !o.reader.done && |o.data| <= size
            && (o.err.None? ==> Pending(r) == Prepend(o.data, Pending(o.reader)))
            && (o.err.None? && size > 0 ==> o.data != [])
            && (o.err.Some? ==> Pending(r) == None)
  {
    hide Decode, Delivered;
    var o := TakeData(r, size, choice);
    var n, m := |o.data|, r.remaining;
    if o.err.None? && n < m {
      hide DecodeWithin;
      WithinSplit(n, m, r.input);
    } else if m + 2 <= |r.input| {
      SliceTwice(r.input, m, 2);
    }
  }

  /** One call of `Read` delivers the front of what is pending, as far as the buffer holds it, and
      keeps the rest pending; it reports an error exactly when nothing is left to deliver or the input
      is no encoding. */
  lemma ReadKeepsPending(r: BodyState, size: nat, choice: nat)
    ensures var o := ReadCall(r, size, choice);
            && |o.data| <= size
            && (o.err.None? ==> Pending(r) == Prepend(o.data, Pending(o.reader)))
            && (o.err.None? && size > 0 ==> o.data != [])
            && (o.err.Some? && o.reader.done ==>
                  o.err == Some(Eof) && o.data == [] && Pending(r) == Some(([], o.reader.input)))
            && (o.err.Some? && !o.reader.done ==> Pending(r) == None)
  {
    hide TakeData, StartChunk;
    if !r.done {
      if r.remaining > 0 {
        TakeDataKeepsPending(r, size, choice);
      } else if StartChunk(r.input).Sized? {
        TakeDataKeepsPending(BodyState(StartChunk(r.input).rest, StartChunk(r.input).size, false), size, choice);
      }
    }
  }

  /** The calls of a caller: a buffer size each, and how much the connection chooses to deliver. */
  type Schedule = seq<(nat, nat)>

  /** Calls `Read` along a schedule up to the first error; the data of all calls is joined. */
  function ReadAll(r: BodyState, schedule: Schedule): Outcome
    decreases |schedule|
  {
    if schedule == [] then Outcome(r, [], None)
    else
      var o := ReadCall(r, schedule[0].0, schedule[0].1);
      if o.err.Some? then o
      else
        var more := ReadAll(o.reader, schedule[1..]);
        more.(data := o.data + more.data)
  }

  lemma PrependTwice(a: bytes, b: bytes, r: Option<(bytes, bytes)>)
    ensures Prepend(a, Prepend(b, r)) == Prepend(a + b, r)
  {
    if r.Some? {
      assert a + (b + r.value.0) == (a + b) + r.value.0;
    }
  }

  /** The reader agrees with the one-shot decoder, for every input and every schedule. Without an
      error so far, what was delivered followed by what is pending is what the decoder gives. The
      reader reports its end (done) exactly when the decoder accepts, having delivered the whole
      body and left the input right behind the encoding; any other error means that the decoder
      rejects. */
  lemma {:induction false} ReaderAgrees(r: BodyState, schedule: Schedule)
    ensures var o := ReadAll(r, schedule);
            && (o.err.None? ==> Pending(r) == Prepend(o.data, Pending(o.reader)))
            && (o.err.Some? && o.reader.done ==>
                  o.err == Some(Eof) && Pending(r) == Some((o.data, o.reader.input)))
            && (o.err.Some? && !o.reader.done ==> Pending(r) == None)
    decreases |schedule|
  {
    hide ReadCall, Pending;
    if schedule == [] {
      if Pending(r).Some? { assert [] + Pending(r).value.0 == Pending(r).value.0; }
    } else {
      var o := ReadCall(r, schedule[0].0, schedule[0].1);
      ReadKeepsPending(r, schedule[0].0, schedule[0].1);
      if o.err.None? {
        ReaderAgrees(o.reader, schedule[1..]);
        var more := ReadAll(o.reader, schedule[1..]);
        PrependTwice(o.data, more.data, Pending(more.reader));
      }
    }
  }

  /** Calls `Read` along a whole schedule, whatever the calls report: the data, the errors, the end. */
  function ReadOn(r: BodyState, schedule: Schedule): (bytes, seq<Option<ReadError>>, BodyState)
    decreases |schedule|
  {
    if schedule == [] then ([], [], r)
    else
      var o := ReadCall(r, schedule[0].0, schedule[0].1);
      var (data, errs, last) := ReadOn(o.reader, schedule[1..]);
      (o.data + data, [o.err] + errs, last)
  }

  /** Once the end was reported, every later call reports it again, delivers nothing and leaves the
      input alone. */
  lemma {:induction false} EndIsForever(r: BodyState, schedule: Schedule)
    requires r.done
    ensures var (data, errs, last) := ReadOn(r, schedule);
            && data == [] && last == r
            && |errs| == |schedule| && forall i :: 0 <= i < |errs| ==> errs[i] == Some(Eof)
    decreases |schedule|
  {
    if schedule != [] {
      EndIsForever(r, schedule[1..]);
    }
  }

  /** With buffers that are not empty, the end comes after at most one call per body byte and one. */
  lemma {:induction false} ReaderFinishes(r: BodyState, schedule: Schedule)
    requires Pending(r).Some? && |schedule| > |Pending(r).value.0|
    requires forall i :: 0 <= i < |schedule| ==> schedule[i].0 > 0
    ensures var o := ReadAll(r, schedule);
            o.err == Some(Eof) && o.reader.done && (o.data, o.reader.input) == Pending(r).value
    decreases |schedule|
  {
    hide ReadCall, Pending;
    var o := ReadCall(r, schedule[0].0, schedule[0].1);
    ReadKeepsPending(r, schedule[0].0, schedule[0].1);
    if o.err.None? {
      ReaderFinishes(o.reader, schedule[1..]);
    }
  }

  /** A reader that is done counts no missing bytes. */
  lemma {:induction false} ReaderStaysDone(r: BodyState, schedule: Schedule)
    requires !r.done
    ensures ReadAll(r, schedule).reader.done ==> ReadAll(r, schedule).reader.remaining == 0
    decreases |schedule|
  {
    hide StartChunk;
    if schedule != [] {
      var o := ReadCall(r, schedule[0].0, schedule[0].1);
      if o.err.None? { ReaderStaysDone(o.reader, schedule[1..]); }
    }
  }

  lemma {:induction false} TrailersExtend(input: bytes, more: bytes)
    requires AfterTrailers(input).Some?
    ensures AfterTrailers(input + more) == Some(AfterTrailers(input).value + more)
    decreases |input|
  {
    hide Line;
    LineExtends(input, more);
    if Line(input).value.0 != [] {
      TrailersExtend(Line(input).value.1, more);
    }
  }

  /** What was read from a cut input is read in the same way from the whole one. */
  lemma StartExtends(input: bytes, more: bytes)
    requires !StartChunk(input).Bad?
    ensures var a, b := StartChunk(input), StartChunk(input + more);
            (a.Last? ==> b == Last(a.rest + more)) && (a.Sized? ==> b == Sized(a.size, a.rest + more))
  {
    hide Line, ChunkSize, AfterTrailers;
    LineExtends(input, more);
    if StartChunk(input).Last? {
      TrailersExtend(Line(input).value.1, more);
    }
  }

  function Extend(r: BodyState, more: bytes): BodyState {
    r.(input := r.input + more)
  }

  /** A call on a cut input delivers what some call on the whole input delivers. */
  lemma TakeDataCut(r: BodyState, more: bytes, size: nat, choice: nat)
    requires r.remaining > 0 && !r.done
    ensures var o := TakeData(r, size, choice);
            && (o.err.None? ==>
                  TakeData(Extend(r, more), size, |o.data|) == Outcome(Extend(o.reader, more), o.data, None))
            && (o.err.Some? && Pending(Extend(r, more)).Some? ==> o.data <= Pending(Extend(r, more)).value.0)
  {
    hide Decode;
    var o, all := TakeData(r, size, choice), r.input + more;
    var n := |o.data|;
    assert all[..n] == r.input[..n] && all[n..] == r.input[n..] + more;
    if o.err.None? {
      if n == r.remaining {
        var rest := r.input[n..];
        assert (rest + more)[..2] == rest[..2] && (rest + more)[2..] == rest[2..] + more;
      }
    } else if Pending(Extend(r, more)).Some? {
      assert all[..r.remaining][..n] == all[..n];
    }
  }

  lemma ReadCut(r: BodyState, more: bytes, size: nat, choice: nat)
    ensures var o := ReadCall(r, size, choice);
            && (o.err.None? ==>
                  ReadCall(Extend(r, more), size, |o.data|) == Outcome(Extend(o.reader, more), o.data, None))
            && (o.err.Some? && Pending(Extend(r, more)).Some? ==> o.data <= Pending(Extend(r, more)).value.0)
  {
    hide TakeData, StartChunk;
    if !r.done {
      if r.remaining > 0 {
        TakeDataCut(r, more, size, choice);
      } else if StartChunk(r.input).Sized? {
        StartExtends(r.input, more);
        TakeDataCut(BodyState(StartChunk(r.input).rest, StartChunk(r.input).size, false), more, size, choice);
      }
    }
  }

  /** However an encoding is cut and read, what is delivered (even along with the error) is a prefix
      of the true body. */
  lemma {:induction false} CutDeliversPrefix(r: BodyState, more: bytes, schedule: Schedule)
    requires Pending(Extend(r, more)).Some?
    ensures ReadAll(r, schedule).data <= Pending(Extend(r, more)).value.0
    decreases |schedule|
  {
    hide ReadCall, Pending, Extend;
    if schedule != [] {
      var (size, choice) := schedule[0];
      var o := ReadCall(r, size, choice);
      ReadCut(r, more, size, choice);
      if o.err.None? {
        ReadKeepsPending(Extend(r, more), size, |o.data|);
        CutDeliversPrefix(o.reader, more, schedule[1..]);
      }
    }
  }

  /** A chunk as a server writes it: its first line, without the LF, and its data. */
  datatype Chunk = Chunk(line: bytes, data: bytes)

  /** The size that a first line states. */
  function Stated(line: bytes): Option<int> {
    ChunkSize(TrimLineEnd(line + [LF]))
  }

  ghost predicate ValidChunk(c: Chunk) {
    LF !in c.line && c.data != [] && Stated(c.line) == Some(|c.data|)
  }

  function EncodeChunk(c: Chunk): bytes {
    c.line + [LF] + (c.data + CRLF)
  }

  ghost predicate ValidChunks(cs: seq<Chunk>) {
    cs == [] || (ValidChunk(cs[0]) && ValidChunks(cs[1..]))
  }

  /** A trailer line is anything that is not empty once its line end is cut off. */
  ghost predicate ValidTrailer(t: bytes) {
    LF !in t && TrimLineEnd(t + [LF]) != []
  }

  ghost predicate ValidTrailers(ts: seq<bytes>) {
    ts == [] || (ValidTrailer(ts[0]) && ValidTrailers(ts[1..]))
  }

  /** The final line is empty once its line end is cut off. */
  ghost predicate ValidEnd(end: bytes) {
    LF !in end && TrimLineEnd(end + [LF]) == []
  }

  function EncodeTrailers(ts: seq<bytes>, end: bytes): bytes {
    if ts == [] then end + [LF] else ts[0] + [LF] + EncodeTrailers(ts[1..], end)
  }

  /** The line of the last chunk, the trailers and the final empty line. */
  function EncodeEnd(last: bytes, ts: seq<bytes>, end: bytes): bytes {
    last + [LF] + EncodeTrailers(ts, end)
  }

  ghost predicate Closing(last: bytes, ts: seq<bytes>, end: bytes) {
    LF !in last && Stated(last) == Some(0) && ValidTrailers(ts) && ValidEnd(end)
  }

  /** A chunked body: chunks and, behind them, the lines that end it. */
  function Encode(cs: seq<Chunk>, ending: bytes): bytes {
    if cs == [] then ending else EncodeChunk(cs[0]) + Encode(cs[1..], ending)
  }

  function Body(cs: seq<Chunk>): bytes {
    if cs == [] then [] else cs[0].data + Body(cs[1..])
  }

  lemma {:induction false} TrailersDecode(ts: seq<bytes>, end: bytes, tail: bytes)
    requires ValidTrailers(ts) && ValidEnd(end)
    ensures AfterTrailers(EncodeTrailers(ts, end) + tail) == Some(tail)
  {
    hide Line, TrimLineEnd;
    if ts == [] {
      LineOf(end, tail);
    } else {
      var more := EncodeTrailers(ts[1..], end) + tail;
      assert EncodeTrailers(ts, end) + tail == ts[0] + [LF] + more;
      LineOf(ts[0], more);
      TrailersDecode(ts[1..], end, tail);
    }
  }

  lemma ChunkStarts(c: Chunk, more: bytes)
    requires ValidChunk(c)
    ensures StartChunk(EncodeChunk(c) + more) == Sized(|c.data|, c.data + (CRLF + more))
  {
    hide Line, ChunkSize, AfterTrailers;
    assert EncodeChunk(c) + more == c.line + [LF] + (c.data + (CRLF + more));
    LineOf(c.line, c.data + (CRLF + more));
  }

  lemma ChunkDecodes(c: Chunk, more: bytes)
    requires ValidChunk(c)
    ensures Decode(EncodeChunk(c) + more) == Prepend(c.data, Decode(more))
  {
    hide StartChunk, EncodeChunk, Stated;
    ChunkStarts(c, more);
    var n, input := |c.data|, c.data + (CRLF + more);
    assert input[..n] == c.data && input[n..n + 2] == CRLF && input[n + 2..] == more;
  }

  lemma EndDecodes(last: bytes, ts: seq<bytes>, end: bytes, tail: bytes)
    requires Closing(last, ts, end)
    ensures Decode(EncodeEnd(last, ts, end) + tail) == Some(([], tail))
  {
    hide Line, ChunkSize, AfterTrailers, EncodeTrailers;
    var more := EncodeTrailers(ts, end) + tail;
    assert EncodeEnd(last, ts, end) + tail == last + [LF] + more;
    LineOf(last, more);
    TrailersDecode(ts, end, tail);
  }

  /** The one-shot decoder accepts every valid encoding: any chunk sizes in any spelling, any
      extensions, any trailers and any line end. It gives the joined chunks and leaves what follows. */
  lemma {:induction false} DecodeEncode(cs: seq<Chunk>, last: bytes, ts: seq<bytes>, end: bytes, tail: bytes)
    requires ValidChunks(cs) && Closing(last, ts, end)
    ensures Decode(Encode(cs, EncodeEnd(last, ts, end)) + tail) == Some((Body(cs), tail))
  {
    hide Decode, EncodeChunk, EncodeEnd, Closing;
    var ending := EncodeEnd(last, ts, end);
    if cs == [] {
      EndDecodes(last, ts, end, tail);
    } else {
      var more := Encode(cs[1..], ending) + tail;
      assert Encode(cs, ending) + tail == EncodeChunk(cs[0]) + more;
      ChunkDecodes(cs[0], more);
      DecodeEncode(cs[1..], last, ts, end, tail);
    }
  }

  lemma {:induction false} TrailersParse(input: bytes) returns (ts: seq<bytes>, end: bytes)
    requires AfterTrailers(input).Some?
    ensures ValidTrailers(ts) && ValidEnd(end)
    ensures input == EncodeTrailers(ts, end) + AfterTrailers(input).value
    decreases |input|
  {
    hide Line, TrimLineEnd;
    var text := LineSplits(input);
    var (line, rest) := Line(input).value;
    if line == [] {
      ts, end := [], text;
    } else {
      var more: seq<bytes>;
      more, end := TrailersParse(rest);
      ts := [text] + more;
      assert ts[1..] == more;
    }
  }

  lemma EndParses(input: bytes) returns (last: bytes, ts: seq<bytes>, end: bytes)
    requires StartChunk(input).Last?
    ensures Closing(last, ts, end) && input == EncodeEnd(last, ts, end) + StartChunk(input).rest
  {
    hide Line, TrimLineEnd, ChunkSize, AfterTrailers, EncodeTrailers;
    last := LineSplits(input);
    ts, end := TrailersParse(Line(input).value.1);
  }

  lemma SizedLine(input: bytes) returns (line: bytes)
    requires StartChunk(input).Sized?
    ensures LF !in line && Stated(line) == Some(StartChunk(input).size)
    ensures input == line + [LF] + StartChunk(input).rest
  {
    hide Line, TrimLineEnd, ChunkSize, AfterTrailers;
    line := LineSplits(input);
  }

  lemma ChunkParses(input: bytes) returns (c: Chunk)
    requires StartChunk(input).Sized? && Decode(input).Some?
    ensures ValidChunk(c)
    ensures var n := |c.data| + 2;
            && n <= |StartChunk(input).rest|
            && input == EncodeChunk(c) + StartChunk(input).rest[n..]
            && Decode(input) == Prepend(c.data, Decode(StartChunk(input).rest[n..]))
  {
    hide Line, TrimLineEnd, ChunkSize, AfterTrailers, StartChunk;
    var rest := StartChunk(input).rest;
    var n := StartChunk(input).size;
    var line := SizedLine(input);
    c := Chunk(line, rest[..n]);
    assert rest == rest[..n] + CRLF + rest[n + 2..];
    assert input == EncodeChunk(c) + rest[n + 2..];
  }

  /** The decoder accepts nothing else: an input that it accepts is a valid encoding of the body
      that it gives, followed by what it leaves. */
  lemma {:induction false} DecodeOnlyEncoded(input: bytes)
    returns (cs: seq<Chunk>, last: bytes, ts: seq<bytes>, end: bytes)
    requires Decode(input).Some?
    ensures ValidChunks(cs) && Closing(last, ts, end)
    ensures Decode(input).value.0 == Body(cs)
    ensures input == Encode(cs, EncodeEnd(last, ts, end)) + Decode(input).value.1
    decreases |input|
  {
    hide StartChunk, DecodeWithin, EncodeChunk, EncodeEnd, Closing, ValidChunk;
    if StartChunk(input).Last? {
      last, ts, end := EndParses(input);
      cs := [];
    } else {
      var c := ChunkParses(input);
      var more := StartChunk(input).rest[|c.data| + 2..];
      var others: seq<Chunk>;
      others, last, ts, end := DecodeOnlyEncoded(more);
      cs := [c] + others;
      assert cs[1..] == others;
    }
  }

  /** A valid encoding, with anything behind it, read through non-empty buffers: the calls deliver
      the body and then report the end, they leave what is behind the encoding to the next user of
      the connection, and every later call reports the end again. */
  lemma EncodingIsRead(cs: seq<Chunk>, last: bytes, ts: seq<bytes>, end: bytes, tail: bytes,
                       schedule: Schedule, later: Schedule)
    requires ValidChunks(cs) && Closing(last, ts, end)
    requires |schedule| > |Body(cs)| && forall i :: 0 <= i < |schedule| ==> schedule[i].0 > 0
    ensures var r := BodyState(Encode(cs, EncodeEnd(last, ts, end)) + tail, 0, false);
            ReadAll(r, schedule) == Outcome(BodyState(tail, 0, true), Body(cs), Some(Eof))
    ensures var (data, errs, r) := ReadOn(BodyState(tail, 0, true), later);
            && data == [] && r == BodyState(tail, 0, true)
            && |errs| == |later| && forall i :: 0 <= i < |errs| ==> errs[i] == Some(Eof)
  {
    hide Decode, ReadCall, ReadAll, ReadOn, Closing, Encode, EncodeEnd, ValidChunks, Body;
    var r := BodyState(Encode(cs, EncodeEnd(last, ts, end)) + tail, 0, false);
    DecodeEncode(cs, last, ts, end, tail);
    ReaderFinishes(r, schedule);
    ReaderStaysDone(r, schedule);
    EndIsForever(BodyState(tail, 0, true), later);
  }

  lemma HexSize(n: nat)
    requires n <= INT64_MAX
    ensures ParseInt(TrimSpace(Hex(n)), 16) == Some(n) && SEMICOLON !in Hex(n)
  {
    HexValue(n);
    var digits := Hex(n);
    hide Hex, DigitsValue;
    TrimmedStays(digits);
  }

  lemma SizeLine(digits: bytes, extensions: bytes)
    requires ParseInt(digits, 16).Some? && Trimmed(digits) && SEMICOLON !in digits && LF !in digits
    requires extensions != [] ==> extensions[0] == SEMICOLON
    requires CR !in extensions && LF !in extensions
    ensures LF !in digits + extensions + [CR] && Stated(digits + extensions + [CR]) == ParseInt(digits, 16)
  {
    var line := digits + extensions;
    assert digits != [] by { assert ParseInt([], 16).None?; }
    hide ParseInt, TrimSpace, TrimLineEnd;
    assert ChunkSize(line) == ParseInt(digits, 16) by {
      if extensions == [] {
        assert line == digits && Find(line, SEMICOLON) == |line| && line[..|line|] == digits;
      } else {
        FindAt(digits, SEMICOLON, extensions[1..]);
        assert line == digits + [SEMICOLON] + extensions[1..] && line[..|digits|] == digits;
      }
      TrimmedStays(digits);
    }
    assert line[|line| - 1] == if extensions == [] then digits[|digits| - 1] else extensions[|extensions| - 1];
    assert extensions != [] ==> extensions[|extensions| - 1] in extensions;
    TrimLineEndOf(line);
    assert line + [CR] + [LF] == (line + [CR]) + [LF];
  }

  /** The usual spelling of a first line: hexadecimal digits, extensions, CR. */
  lemma HexLineStates(n: nat, extensions: bytes)
    requires n <= INT64_MAX
    requires extensions != [] ==> extensions[0] == SEMICOLON
    requires CR !in extensions && LF !in extensions
    ensures Stated(Hex(n) + extensions + [CR]) == Some(n)
  {
    HexSize(n);
    var digits := Hex(n);
    hide Hex, ParseInt, TrimSpace, Stated;
    TrimmedStays(digits);
    SizeLine(digits, extensions);
  }

  /** The input, when its last m bytes are missing, stops between CR and LF behind a chunk's data. */
  ghost predicate StopsInCrLf(input: bytes, m: nat)
    decreases |input|, 0
  {
    StartChunk(input).Sized? && StopsWithin(StartChunk(input).size, StartChunk(input).rest, m)
  }

  /** The same from inside a chunk of which n bytes are missing. */
  ghost predicate StopsWithin(n: nat, input: bytes, m: nat)
    decreases |input|, 1
  {
    || |input| - m == n + 1
    || (|input| - m >= n + 2 && StopsInCrLf(input[n + 2..], m))
  }

  ghost predicate StateStops(r: BodyState, m: nat) {
    if r.remaining > 0 then StopsWithin(r.remaining, r.input, m) else StopsInCrLf(r.input, m)
  }

  /** The error that ends the reading of a cut input. */
  ghost function CutError(r: BodyState, m: nat): ReadError {
    if StateStops(r, m) then UnexpectedEof else Eof
  }

  lemma TakeDataStops(r: BodyState, more: bytes, size: nat, choice: nat)
    requires r.remaining > 0 && size > 0 && Pending(Extend(r, more)).Some? && !r.done
    ensures var o := TakeData(r, size, choice);
            && !o.reader.done
            && (o.err.None? ==> StateStops(Extend(o.reader, more), |more|) == StateStops(Extend(r, more), |more|))
            && (o.err.None? ==> |o.reader.input| < |r.input|)
            && (o.err.Some? ==> o.err == Some(CutError(Extend(r, more), |more|)))
  {
    hide Decode, StopsInCrLf, Delivered;
    var o, all, m := TakeData(r, size, choice), r.input + more, r.remaining;
    var n := |o.data|;
    if o.err.None? && n < m {
      assert all[n..] == r.input[n..] + more;
      if |r.input| >= m + 2 { assert all[n..][m - n + 2..] == all[m + 2..]; }
    } else if |r.input| >= m + 2 {
      assert all[m..m + 2] == r.input[m..][..2];
      assert all[m + 2..] == r.input[m..][2..] + more;
    }
  }

  lemma DecodeStarts(input: bytes)
    requires Decode(input).Some?
    ensures !StartChunk(input).Bad?
  {
  }

  lemma StartStops(input: bytes, more: bytes)
    requires Decode(input + more).Some? && StartChunk(input).Bad?
    ensures StartChunk(input).err == Eof && !StopsInCrLf(input + more, |more|)
  {
    hide Line, ChunkSize, AfterTrailers, Decode;
    assert !StartChunk(input + more).Bad? by { DecodeStarts(input + more); }
    if Line(input).None? {
      LineOfCut(input, more);
    } else {
      LineExtends(input, more);
    }
  }

  lemma ReadStops(r: BodyState, more: bytes, size: nat, choice: nat)
    requires size > 0 && Pending(Extend(r, more)).Some? && |Pending(Extend(r, more)).value.1| < |more|
    ensures var o := ReadCall(r, size, choice);
            && !o.reader.done
            && (o.err.None? ==> StateStops(Extend(o.reader, more), |more|) == StateStops(Extend(r, more), |more|))
            && (o.err.None? ==> |o.reader.input| < |r.input|)
            && (o.err.Some? ==> o.err == Some(CutError(Extend(r, more), |more|)))
  {
    hide TakeData, StartChunk, DecodeWithin, StopsWithin;
    if r.remaining > 0 {
      TakeDataStops(r, more, size, choice);
    } else if StartChunk(r.input).Bad? {
      StartStops(r.input, more);
    } else {
      StartExtends(r.input, more);
      if StartChunk(r.input).Sized? {
        TakeDataStops(BodyState(StartChunk(r.input).rest, StartChunk(r.input).size, false), more, size, choice);
      }
    }
  }

  lemma ExtendKeepsDone(r: BodyState, more: bytes)
    ensures r.done ==> Pending(Extend(r, more)) == Some(([], r.input + more))
  {
  }

  /** Which error ends the reading of an encoding that lacks its last bytes, for every cut and every
      schedule of non-empty buffers: the error for an input cut between CR and LF behind a chunk's
      data, plain EOF at every other cut, as at the end of a complete body. The end is never noted. */
  lemma {:induction false} CutEndsReading(r: BodyState, more: bytes, schedule: Schedule)
    requires Pending(Extend(r, more)).Some? && |Pending(Extend(r, more)).value.1| < |more|
    requires forall i :: 0 <= i < |schedule| ==> schedule[i].0 > 0
    ensures var o := ReadAll(r, schedule);
            && !r.done && !o.reader.done
            && (o.err.Some? ==> o.err == Some(CutError(Extend(r, more), |more|)))
            && (|schedule| > |r.input| ==> o.err.Some?)
    decreases |schedule|
  {
    hide ReadCall, Pending, Extend, StateStops;
    ExtendKeepsDone(r, more);
    if schedule != [] {
      var (size, choice) := schedule[0];
      var o := ReadCall(r, size, choice);
      ReadStops(r, more, size, choice);
      ReadCut(r, more, size, choice);
      if o.err.None? {
        ReadKeepsPending(Extend(r, more), size, |o.data|);
        CutEndsReading(o.reader, more, schedule[1..]);
      }
    }
  }

  /** The first n bytes of the chunks stop between the CR and the LF behind a chunk's data. */
  ghost predicate BetweenCrAndLf(cs: seq<Chunk>, n: nat) {
    cs != [] &&
    var size := |EncodeChunk(cs[0])|;
    n + 1 == size || (n >= size && BetweenCrAndLf(cs[1..], n - size))
  }

  lemma EndStarts(last: bytes, ts: seq<bytes>, end: bytes)
    requires Closing(last, ts, end)
    ensures StartChunk(EncodeEnd(last, ts, end)) == Last([])
  {
    hide Line, ChunkSize, AfterTrailers, EncodeTrailers;
    LineOf(last, EncodeTrailers(ts, end));
    TrailersDecode(ts, end, []);
    assert EncodeTrailers(ts, end) + [] == EncodeTrailers(ts, end);
  }

  lemma {:induction false} EncodingStops(cs: seq<Chunk>, last: bytes, ts: seq<bytes>, end: bytes, m: nat)
    requires ValidChunks(cs) && Closing(last, ts, end)
    requires 0 < m <= |Encode(cs, EncodeEnd(last, ts, end))|
    ensures var input := Encode(cs, EncodeEnd(last, ts, end));
            StopsInCrLf(input, m) <==> BetweenCrAndLf(cs, |input| - m)
  {
    hide Decode, EncodeEnd, Closing, StartChunk;
    var ending := EncodeEnd(last, ts, end);
    var input := Encode(cs, ending);
    if cs == [] {
      EndStarts(last, ts, end);
    } else {
      var more := Encode(cs[1..], ending);
      ChunkStarts(cs[0], more);
      var c := cs[0];
      var rest := c.data + (CRLF + more);
      assert rest[|c.data| + 2..] == more;
      if m <= |more| { EncodingStops(cs[1..], last, ts, end, m); }
    }
  }

  /** The same for the first n bytes of an encoding, read from the start: the reading ends in
      `UnexpectedEof` exactly when the cut is between CR and LF of a chunk's delimiter. At every
      other cut, a whole chunk's end among them, it ends in plain `Eof`. */
  lemma CutEncoding(cs: seq<Chunk>, last: bytes, ts: seq<bytes>, end: bytes, n: nat, schedule: Schedule)
    requires ValidChunks(cs) && Closing(last, ts, end)
    requires n < |Encode(cs, EncodeEnd(last, ts, end))|
    requires forall i :: 0 <= i < |schedule| ==> schedule[i].0 > 0
    ensures var o := ReadAll(BodyState(Encode(cs, EncodeEnd(last, ts, end))[..n], 0, false), schedule);
            && !o.reader.done && o.data <= Body(cs)
            && (|schedule| > n ==> o.err.Some?)
            && (o.err.Some? ==> o.err == Some(if BetweenCrAndLf(cs, n) then UnexpectedEof else Eof))
  {
    hide Encode, EncodeEnd, Closing, Decode, ReadAll, BetweenCrAndLf, StopsInCrLf, ValidChunks, Body;
    var input := Encode(cs, EncodeEnd(last, ts, end));
    var r, more := BodyState(input[..n], 0, false), input[n..];
    DecodeEncode(cs, last, ts, end, []);
    EncodingStops(cs, last, ts, end, |more|);
    assert input + [] == input && input[..n] + more == input;
    assert Extend(r, more) == BodyState(input, 0, false);
    CutEndsReading(r, more, schedule);
    CutDeliversPrefix(r, more, schedule);
  }

  /** A chunk on the wire: its size in hexadecimal digits, extensions, CR LF, the data, CR LF. */
  lemma ChunkOnWire(digits: bytes, extensions: bytes, data: bytes, more: bytes)
    requires data != [] && ParseInt(digits, 16) == Some(|data|) && Trimmed(digits)
    requires SEMICOLON !in digits && LF !in digits && (extensions != [] ==> extensions[0] == 59)
    requires CR !in extensions && LF !in extensions
    ensures Decode(digits + extensions + [13, 10] + data + [13, 10] + more) == Prepend(data, Decode(more))
  {
    hide Decode, ParseInt;
    var line := digits + extensions;
    SizeLine(digits, extensions);
    var c := Chunk(line + [CR], data);
    ChunkDecodes(c, more);
    assert digits + extensions + [13, 10] + data + [13, 10] + more == EncodeChunk(c) + more;
  }

  lemma EmptyEnd(end: bytes)
    ensures EncodeTrailers([], end) == end + [LF]
  {
  }

  lemma ZeroSize()
    ensures Stated([48, 13]) == Some(0)
  {
    assert ParseInt([48], 16) == Some(0) by {
      assert [48] == [] + [48];
      DigitsAppend([], 48, 16);
    }
    hide ParseInt, Stated;
    SizeLine([48], []);
    assert [48] + [] + [CR] == [48, 13];
  }

  /** The end of a body on the wire. */
  lemma EndOnWire(more: bytes)
    ensures Decode([48, 13, 10, 13, 10] + more) == Some(([], more))
  {
    hide Decode, Stated, TrimLineEnd, EncodeTrailers;
    ZeroSize();
    TrimLineEndOf([]);
    assert [] + [CR] + [LF] == [CR] + [LF];
    EndDecodes([48, 13], [], [CR], more);
    assert EncodeEnd([48, 13], [], [CR]) == [48, 13, 10, 13, 10] by { EmptyEnd([CR]); }
  }

  /** The other errors: a size line that is no number, a negative number, and data that is not followed
      by CR LF. */
  lemma ErrorMeans(line: bytes, rest: bytes, size: nat, choice: nat)
    requires LF !in line
    ensures var o := ReadCall(BodyState(line + [10] + rest, 0, false), size, choice);
            && (Stated(line).None? ==> o.err == Some(BadSize) && o.data == [])
            && (Stated(line).Some? && Stated(line).value < 0 ==> o.err == Some(NegativeSize) && o.data == [])
  {
    hide Line, ChunkSize, TakeData, AfterTrailers, TrimLineEnd;
    LineOf(line, rest);
  }

  lemma BadDelimiterMeans(data: bytes, rest: bytes, choice: nat)
    requires data != [] && |rest| >= 2 && choice >= |data|
    ensures var o := ReadCall(BodyState(data + rest, |data|, false), |data|, choice);
            o.data == data && (if rest[..2] == [13, 10] then o.err == None else o.err == Some(BadDelimiter))
  {
    var input := data + rest;
    assert input[..|data|] == data && input[|data|..] == rest;
  }

  class ChunkedBodyReader {
    /** The bytes that the buffered reader has yet to deliver. */
    var input: bytes
    var currentRemaining: int
    var done: bool

    constructor (input: bytes)
      ensures Valid() && State() == BodyState(input, 0, false)
    {
      this.input := input;
      currentRemaining, done := 0, false;
    }

    ghost predicate Valid()
      reads this
    {
      currentRemaining >= 0
    }

    ghost function State(): BodyState
      requires Valid()
      reads this
    {
      BodyState(input, currentRemaining, done)
    }

    method ReadLine() returns (line: Option<bytes>)
      modifies this`input
      ensures match Line(old(input))
              case None => line == None && input == []
              case Some((text, rest)) => line == Some(text) && input == rest
    {
      var i := 0;
      while i < |input| && input[i] != LF
        invariant i <= |input| && LF !in input[..i]
      {
        i := i + 1;
      }
      assert Find(input, LF) == i;
      if i == |input| {
        input := [];
        return None;
      }
      var j := i + 1;
      while j > 0 && (input[j - 1] == CR || input[j - 1] == LF)
        invariant j <= i + 1 && TrimLineEnd(input[..j]) == TrimLineEnd(input[..i + 1])
      {
        assert input[..j][..j - 1] == input[..j - 1];
        j := j - 1;
      }
      line := Some(input[..j]);
      input := input[i + 1..];
    }

    method SkipTrailers() returns (found: bool)
      modifies this`input
      ensures found == AfterTrailers(old(input)).Some?
      ensures input == if found then AfterTrailers(old(input)).value else []
    {
      while true
        invariant AfterTrailers(input) == AfterTrailers(old(input))
        decreases |input|
      {
        var line := ReadLine();
        if line.None? { return false; }
        if line.value == [] { return true; }
      }
    }

    /** `Read` with a buffer of the given size, for any number of bytes that the connection chooses
        to deliver: the reader does what ReadCall says, and never counts below zero. */
    method Read(size: nat, choice: nat) returns (data: bytes, err: Option<ReadError>)
      requires Valid()
      modifies this
      ensures Valid()
      ensures Outcome(State(), data, err) == ReadCall(old(State()), size, choice)
    {
      hide AfterTrailers, ChunkSize, Line, Delivered;
      if done { return [], Some(Eof); }
      while currentRemaining == 0
        invariant Valid() && !done
        invariant currentRemaining == 0 ==> input == old(input) && old(currentRemaining) == 0
        invariant currentRemaining > 0 ==>
                    TakeData(State(), size, choice) == ReadCall(old(State()), size, choice)
        decreases currentRemaining == 0
      {
        var line := ReadLine();
        if line.None? { return [], Some(Eof); }
        var chunkSize := ChunkSize(line.value);
        if chunkSize.None? { return [], Some(BadSize); }
        if chunkSize.value == 0 {
          var found := SkipTrailers();
          if !found { return [], Some(Eof); }
          done := true;
          return [], Some(Eof);
        }
        if chunkSize.value < 0 { return [], Some(NegativeSize); }
        currentRemaining := chunkSize.value;
      }
      var p := size;
      if p > currentRemaining { p := currentRemaining; }
      if p > 0 && input == [] { return [], Some(Eof); }
      var n := Delivered(p, |input|, choice);
      data, input := input[..n], input[n..];
      currentRemaining := currentRemaining - n;
      if currentRemaining == 0 {
        if |input| < 2 {
          err := Some(if input == [] then Eof else UnexpectedEof);
          input := [];
          return;
        }
        var crlf := input[..2];
        input := input[2..];
        if crlf[0] != CR || crlf[1] != LF { return data, Some(BadDelimiter); }
      }
      return data, None;
    }
  }
}
