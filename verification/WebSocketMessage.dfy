/** Message reassembly in the WebSocket engine (sections 5.4 and 5.5 of RFC 6455). */
module WebSocketMessage {
  import opened Bytes
  import opened Wrappers
  import opened ByteReader
  import opened TcpClient
  import opened WebSocketFrame

  const CONTINUATION: byte := 0x0
  const TEXT: byte := 0x1
  const BINARY: byte := 0x2
  const CLOSE: byte := 0x8
  const PING: byte := 0x9
  const PONG: byte := 0xA

  /** The opcodes of section 5.2 of RFC 6455. */
  lemma Opcodes()
    ensures CONTINUATION == 0 && TEXT == 1 && BINARY == 2 && CLOSE == 8 && PING == 9 && PONG == 10
  {
  }

  datatype ReadError =
    | ClientClosed
    | FrameUnreadable
    | FragmentsTooLarge
    | UnexpectedContinuation
    | UnsupportedOpcode

  datatype Outcome =
    | Message(opcode: byte, data: bytes)
    | PeerClosed(code: nat, reason: bytes, data: bytes)
    | Failed(error: ReadError)

  /** A frame handed to the frame writer. */
  datatype Sent = Sent(opcode: byte, payload: bytes)

  /** What one call of `ReadMessage` does: its result, the input it leaves and the frames it sends. */
  datatype Reading = Reading(outcome: Outcome, rest: bytes, sent: seq<Sent>)

  /** `parseWebSocketClosePayload`. */
  function ParseClose(payload: bytes): (nat, bytes) {
    if |payload| < 2 then (1000, []) else (FromBigEndian(payload[..2]), payload[2..])
  }

  /** The payload that `writeCloseFrame` builds. */
  function ClosePayload(code: nat, reason: bytes): bytes {
    BigEndian(code, 2) + reason
  }

  lemma ThousandBytes()
    ensures BigEndian(1000, 2) == [0x03, 0xE8]
  {
    assert BigEndian(1000, 2) == BigEndian(3, 1) + [0xE8];
    assert BigEndian(3, 1) == BigEndian(0, 0) + [3];
  }

  /** A close frame is answered with its own payload, or with code 1000 when it has none. */
  lemma CloseEchoed(payload: bytes)
    ensures ClosePayload(ParseClose(payload).0, ParseClose(payload).1) ==
            if |payload| < 2 then [0x03, 0xE8] else payload
  {
    if |payload| < 2 {
      ThousandBytes();
    } else {
      BigEndianEncodes(payload[..2]);
    }
  }

  /** Code and reason of a close payload: a number of two bytes, the most significant first, and the
      rest; without those two bytes code 1000 and no reason. */
  lemma CloseParsed(payload: bytes)
    ensures ParseClose(payload) == if |payload| < 2 then (1000, []) else (Word(payload[0], payload[1]), payload[2..])
  {
    if |payload| >= 2 { FromBigEndianTwo(payload[..2]); }
  }

  /** `Pong` refuses payloads over 125 bytes, and the refusal is ignored. */
  function PongFor(payload: bytes, autoPong: bool): seq<Sent> {
    if autoPong && |payload| <= 125 then [Sent(PONG, payload)] else []
  }

  /** No payload is longer than a Go slice can be. */
  predicate Sendable(fs: seq<Sent>) {
    fs == [] || (|fs[0].payload| <= INT64_MAX && Sendable(fs[1..]))
  }

  lemma {:induction false} SendableJoins(a: seq<Sent>, b: seq<Sent>)
    requires Sendable(a) && Sendable(b)
    ensures Sendable(a + b)
  {
    if a == [] {
      assert a + b == b;
    } else {
      SendableJoins(a[1..], b);
      assert (a + b)[1..] == a[1..] + b;
    }
  }

  datatype SendError = Refused | PayloadTooLong | NoRandomKey | WriteFailed(error: WriteError)

  /** What the frame writer works on: the random keys to come (the source fails when nothing is
      left) and the TCP client. */
  datatype Output = Output(keys: seq<MaskKey>, tcp: Tcp)

  /** `writeFrameLocked`. */
  function SendFrame(o: Output, f: Sent): (Output, Option<SendError>)
    requires |f.payload| <= INT64_MAX
  {
    if o.keys == [] then (o, Some(NoRandomKey))
    else
      var (tcp, err) := WriteAll(o.tcp, Encode(ClientFrame(f.opcode, f.payload, o.keys[0])));
      (Output(o.keys[1..], tcp), if err.Some? then Some(WriteFailed(err.value)) else None)
  }

  /** One frame after the other; the errors are ignored, as the reading loop ignores them. */
  function SendAll(o: Output, fs: seq<Sent>): Output
    requires Sendable(fs)
    decreases |fs|
  {
    if fs == [] then o else SendAll(SendFrame(o, fs[0]).0, fs[1..])
  }

  lemma {:induction false} SendAllJoins(o: Output, a: seq<Sent>, b: seq<Sent>)
    requires Sendable(a) && Sendable(b)
    ensures Sendable(a + b) && SendAll(o, a + b) == SendAll(SendAll(o, a), b)
    decreases |a|
  {
    hide SendFrame;
    SendableJoins(a, b);
    if a == [] {
      assert a + b == b;
    } else {
      SendAllJoins(SendFrame(o, a[0]).0, a[1..], b);
      assert (a + b)[1..] == a[1..] + b;
    }
  }

  lemma SendNone(o: Output)
    ensures SendAll(o, []) == o
  {
  }

  lemma SendOne(o: Output, f: Sent)
    requires |f.payload| <= INT64_MAX
    ensures Sendable([f]) && SendAll(o, [f]) == SendFrame(o, f).0
  {
    hide SendFrame;
    assert [f][1..] == [];
  }

  /** The frame that a peer must see for what was asked: final, masked, the low four opcode bits. */
  function FrameFor(sent: Sent): Frame {
    Frame(true, sent.opcode % 16, true, sent.payload)
  }

  /** Without an error the wire has grown by one frame, from which a peer reads what was asked for
      and nothing else. With an error it has grown by a part of that frame at most, and the TCP
      client is closed unless the key was missing or a write took nothing. */
  lemma SendFrameOutcome(o: Output, f: Sent) returns (out: bytes)
    requires |f.payload| <= INT64_MAX
    ensures var (o', err) := SendFrame(o, f);
            && o'.tcp.wire == o.tcp.wire + out
            && (err.None? ==> Decode(out, 0) == Decoded(FrameFor(f), []) && o'.tcp.isClosed == o.tcp.isClosed)
            && (err.None? ==> o.keys != [] && SentBytes(out, f.opcode, f.payload, o.keys[0]))
            && (o.keys != [] ==> err != Some(NoRandomKey) && o'.keys == o.keys[1..])
            && (err == Some(NoRandomKey) ==> out == [] && o' == o)
            && (err.Some? && err.value.WriteFailed? ==>
                  && o.keys != [] && out <= Encode(ClientFrame(f.opcode, f.payload, o.keys[0]))
                  && o'.tcp.isClosed == !err.value.error.ShortWrite?)
  {
    hide Encode, Decode, SentBytes;
    if o.keys == [] {
      out := [];
    } else {
      ClientFrameBytes(f.opcode, f.payload, o.keys[0]);
      var w := ClientFrame(f.opcode, f.payload, o.keys[0]);
      var n := WriteAllOutcome(o.tcp, Encode(w));
      out := Encode(w)[..n];
      DecodeEncode(w, [], 0);
      assert Encode(w) + [] == Encode(w) && Encode(w)[..|Encode(w)|] == Encode(w);
    }
  }

  datatype Step =
    | Stop(outcome: Outcome, sent: seq<Sent>)
    | Go(opcode: byte, partial: bytes, sent: seq<Sent>)

  /** What `ReadMessage` does with a frame after it has collected `partial` under `opcode`
      (0 for nothing yet). */
  function OnFrame(f: Frame, limit: int, autoPong: bool, opcode: byte, partial: bytes): (r: Step)
    ensures r.Stop? ==> r.outcome != Failed(FrameUnreadable)
    ensures |f.payload| <= INT64_MAX ==> Sendable(r.sent)
  {
    if f.opcode == PING then Go(opcode, partial, PongFor(f.payload, autoPong))
    else if f.opcode == PONG then Stop(Message(PONG, f.payload), [])
    else if f.opcode == CLOSE then
      var (code, reason) := ParseClose(f.payload);
      CloseEchoed(f.payload);
      Stop(PeerClosed(code, reason, f.payload), [Sent(CLOSE, ClosePayload(code, reason))])
    else if f.opcode == TEXT || f.opcode == BINARY then
      if f.fin then Stop(Message(f.opcode, f.payload), [])
      else if |partial + f.payload| > limit then Stop(Failed(FragmentsTooLarge), [])
      else Go(f.opcode, partial + f.payload, [])
    else if f.opcode == CONTINUATION then
      if opcode == 0 then Stop(Failed(UnexpectedContinuation), [])
      else if |partial + f.payload| > limit then Stop(Failed(FragmentsTooLarge), [])
      else if f.fin then Stop(Message(opcode, partial + f.payload), [])
      else Go(opcode, partial + f.payload, [])
    else Stop(Failed(UnsupportedOpcode), [])
  }

  lemma DecodedFits(s: bytes, limit: int)
    ensures var d := Decode(s, limit);
            d.Decoded? ==> |d.frame.payload| <= INT64_MAX && (limit > 0 ==> |d.frame.payload| <= limit)
  {
    if Decode(s, limit).Decoded? {
      var w := DecodeOnlyEncoded(s, limit);
    }
  }

  /** One call of `ReadMessage` over the bytes that are still to arrive. */
  function Read(input: bytes, limit: int, autoPong: bool, opcode: byte, partial: bytes): (r: Reading)
    ensures Sendable(r.sent)
    decreases |input|
  {
    DecodeShrinks(input, limit);
    DecodedFits(input, limit);
    match Decode(input, limit)
    case Decoded(f, rest) =>
      (match OnFrame(f, limit, autoPong, opcode, partial)
       case Stop(outcome, sent) => Reading(outcome, rest, sent)
       case Go(opcode', partial', sent) =>
         var r := Read(rest, limit, autoPong, opcode', partial');
         SendableJoins(sent, r.sent);
         r.(sent := sent + r.sent))
    case _ => Reading(Failed(FrameUnreadable), [], [])
  }

  class WebSocketClient {
    const reader: Reader
    const tcp: TcpClient
    const maxPayloadSize: int
    const disableAutoPong: bool
    var isClosed: bool
    /** What the random source has yet to deliver. */
    var keys: seq<MaskKey>

    constructor (reader: Reader, tcp: TcpClient, maxPayloadSize: int, disableAutoPong: bool, keys: seq<MaskKey>)
      ensures this.reader == reader && this.tcp == tcp && this.disableAutoPong == disableAutoPong
      ensures this.maxPayloadSize == if maxPayloadSize <= 0 then 16 * 1024 * 1024 else maxPayloadSize
      ensures !isClosed && this.keys == keys
    {
      this.reader, this.tcp := reader, tcp;
      this.maxPayloadSize := if maxPayloadSize <= 0 then 16 * 1024 * 1024 else maxPayloadSize;
      this.disableAutoPong := disableAutoPong;
      this.isClosed := false;
      this.keys := keys;
    }

    ghost function State(): Output
      reads this, tcp
    {
      Output(keys, tcp.State())
    }

    /** `writeFrameLocked` does what SendFrame says, and so has its outcome. */
    method WriteFrameLocked(opcode: byte, payload: bytes) returns (err: Option<SendError>, ghost out: bytes)
      requires |payload| <= INT64_MAX
      modifies this`keys, tcp
      ensures (State(), err) == SendFrame(old(State()), Sent(opcode, payload))
      ensures tcp.wire == old(tcp.wire) + out
      ensures err.None? ==> Decode(out, 0) == Decoded(FrameFor(Sent(opcode, payload)), [])
    {
      hide Encode, Decode, WriteAll;
      out := SendFrameOutcome(State(), Sent(opcode, payload));
      var random := None;
      if keys != [] { random, keys := Some(keys[0]), keys[1..]; }
      var frame := BuildClientFrame(opcode, payload, random);
      if frame.None? { return Some(NoRandomKey), out; }
      var e, _ := tcp.WriteFull(frame.value);
      return if e.Some? then Some(WriteFailed(e.value)) else None, out;
    }

    /** A closed client refuses the frame and leaves everything alone; otherwise the frame goes out
        or the error says why not. */
    method WriteFrame(opcode: byte, payload: bytes) returns (err: Option<SendError>)
      requires |payload| <= INT64_MAX
      modifies this`keys, tcp
      ensures isClosed ==> err == Some(Refused) && State() == old(State())
      ensures !isClosed ==> (State(), err) == SendFrame(old(State()), Sent(opcode, payload))
    {
      if isClosed { return Some(Refused); }
      ghost var out;
      err, out := WriteFrameLocked(opcode, payload);
    }

    method Pong(data: bytes) returns (err: Option<SendError>)
      modifies this`keys, tcp
      ensures |data| > 125 ==> err == Some(PayloadTooLong) && State() == old(State())
      ensures |data| <= 125 && isClosed ==> err == Some(Refused) && State() == old(State())
      ensures |data| <= 125 && !isClosed ==> (State(), err) == SendFrame(old(State()), Sent(PONG, data))
    {
      if |data| > 125 { return Some(PayloadTooLong); }
      err := WriteFrame(PONG, data);
    }

    /** `writeCloseFrame` does not look at `isClosed`. */
    method WriteCloseFrame(code: nat, reason: bytes) returns (err: Option<SendError>)
      requires |reason| + 2 <= INT64_MAX
      modifies this`keys, tcp
      ensures (State(), err) == SendFrame(old(State()), Sent(CLOSE, ClosePayload(code, reason)))
    {
      ghost var out;
      err, out := WriteFrameLocked(CLOSE, BigEndian(code, 2) + reason);
    }

    /** The switch in the loop of `ReadMessage`; the errors of its answers are ignored. */
    method HandleFrame(f: Frame, opcode: byte, partial: bytes) returns (step: Step)
      requires !isClosed && |f.payload| <= INT64_MAX
      modifies this`keys, tcp
      ensures step == OnFrame(f, maxPayloadSize, !disableAutoPong, opcode, partial)
      ensures State() == SendAll(old(State()), step.sent)
    {
      hide SendFrame, ClosePayload;
      if f.opcode == PING {
        if !disableAutoPong {
          var _ := Pong(f.payload);
        }
        return Go(opcode, partial, PongFor(f.payload, !disableAutoPong));
      } else if f.opcode == PONG {
        return Stop(Message(PONG, f.payload), []);
      } else if f.opcode == CLOSE {
        var (code, reason) := ParseClose(f.payload);
        CloseEchoed(f.payload);
        var _ := WriteCloseFrame(code, reason);
        return Stop(PeerClosed(code, reason, f.payload), [Sent(CLOSE, ClosePayload(code, reason))]);
      } else if f.opcode == TEXT || f.opcode == BINARY {
        if f.fin { return Stop(Message(f.opcode, f.payload), []); }
        var joined := partial + f.payload;
        if |joined| > maxPayloadSize { return Stop(Failed(FragmentsTooLarge), []); }
        return Go(f.opcode, joined, []);
      } else if f.opcode == CONTINUATION {
        if opcode == 0 { return Stop(Failed(UnexpectedContinuation), []); }
        var joined := partial + f.payload;
        if |joined| > maxPayloadSize { return Stop(Failed(FragmentsTooLarge), []); }
        if f.fin { return Stop(Message(opcode, joined), []); }
        return Go(opcode, joined, []);
      } else {
        return Stop(Failed(UnsupportedOpcode), []);
      }
    }

    /** `ReadMessage` does what Read says, hands Read's answers to the frame writer in their order, and
        closes the client on an unreadable frame and on a close frame only. */
    method ReadMessage() returns (outcome: Outcome)
      modifies this`isClosed, this`keys, tcp, reader
      ensures old(isClosed) ==>
                outcome == Failed(ClientClosed) && isClosed && State() == old(State()) &&
                reader.input == old(reader.input)
      ensures !old(isClosed) ==>
                var r := Read(old(reader.input), maxPayloadSize, !disableAutoPong, 0, []);
                && outcome == r.outcome
                && State() == SendAll(old(State()), r.sent)
                && (outcome == Failed(FrameUnreadable) || reader.input == r.rest)
                && isClosed == (outcome == Failed(FrameUnreadable) || outcome.PeerClosed?)
    {
      hide Decode, OnFrame, SendFrame, SendAll, Sendable;
      if isClosed { return Failed(ClientClosed); }
      var opcode: byte, partial := 0, [];
      ghost var whole := Read(reader.input, maxPayloadSize, !disableAutoPong, 0, []);
      while true
        invariant !isClosed
        invariant var r := Read(reader.input, maxPayloadSize, !disableAutoPong, opcode, partial);
                  && r.outcome == whole.outcome && r.rest == whole.rest
                  && SendAll(State(), r.sent) == SendAll(old(State()), whole.sent)
        decreases |reader.input|
      {
        ghost var s, o := reader.input, State();
        DecodeShrinks(s, maxPayloadSize);
        DecodedFits(s, maxPayloadSize);
        var frame := ReadFrame(reader, maxPayloadSize);
        if frame.None? {
          isClosed := true;
          SendNone(State());
          return Failed(FrameUnreadable);
        }
        var step := HandleFrame(frame.value, opcode, partial);
        match step
        case Stop(result, _) =>
          isClosed := result.PeerClosed?;
          return result;
        case Go(opcode', partial', sent) =>
          opcode, partial := opcode', partial';
          SendAllJoins(o, sent, Read(reader.input, maxPayloadSize, !disableAutoPong, opcode, partial).sent);
      }
    }
  }

  /** The bytes s are frames fs, each within the limit, followed by tail. */
  ghost predicate Carries(s: bytes, fs: seq<Frame>, tail: bytes, limit: int) {
    if fs == [] then s == tail
    else Decode(s, limit).Decoded? && Decode(s, limit).frame == fs[0]
         && Carries(Decode(s, limit).rest, fs[1..], tail, limit)
  }

  /** Frames written back to back, by any valid encoding of each, are carried in their order. */
  lemma {:induction false} EncodedCarries(ws: seq<WireFrame>, tail: bytes, limit: int)
    requires AllValid(ws, limit) && AllValid(ws, 0)
    ensures Carries(EncodeAll(ws) + tail, AsFrames(ws), tail, limit)
  {
    hide Decode, Encode;
    if ws == [] {
      assert EncodeAll(ws) + tail == tail;
    } else {
      var more := EncodeAll(ws[1..]) + tail;
      assert EncodeAll(ws) + tail == Encode(ws[0]) + more;
      DecodeEncode(ws[0], more, limit);
      EncodedCarries(ws[1..], tail, limit);
    }
  }

  /** What may follow the first fragment of a message: pings, pongs, continuations that are not
      final, and one final continuation at the end. */
  predicate Completion(fs: seq<Frame>) {
    && fs != []
    && if |fs| == 1 then fs[0].opcode == CONTINUATION && fs[0].fin
       else
         && (IsProbe(fs[0]) || (fs[0].opcode == CONTINUATION && !fs[0].fin))
         && Completion(fs[1..])
  }

  predicate IsProbe(f: Frame) {
    f.opcode == PING || f.opcode == PONG
  }

  predicate OnlyPings(fs: seq<Frame>) {
    fs == [] || (fs[0].opcode == PING && OnlyPings(fs[1..]))
  }

  /** The index of the first pong, or the number of frames. */
  function PongAt(fs: seq<Frame>): (k: nat)
    ensures k <= |fs| && (k < |fs| ==> fs[k].opcode == 10)
    ensures forall i :: 0 <= i < k ==> fs[i].opcode != 10
  {
    if fs == [] || fs[0].opcode == PONG then 0 else 1 + PongAt(fs[1..])
  }

  /** The payloads of all frames but the pings and pongs, joined onto what is there already. */
  function Joined(partial: bytes, fs: seq<Frame>): bytes
    decreases |fs|
  {
    if fs == [] then partial
    else Joined(if IsProbe(fs[0]) then partial else partial + fs[0].payload, fs[1..])
  }

  lemma {:induction false} JoinedGrows(partial: bytes, fs: seq<Frame>)
    ensures |Joined(partial, fs)| >= |partial|
    decreases |fs|
  {
    if fs != [] {
      JoinedGrows(if IsProbe(fs[0]) then partial else partial + fs[0].payload, fs[1..]);
    }
  }

  /** The answers to the pings, in their order. */
  function Pongs(fs: seq<Frame>, autoPong: bool): seq<Sent> {
    if fs == [] then []
    else (if fs[0].opcode == PING then PongFor(fs[0].payload, autoPong) else []) + Pongs(fs[1..], autoPong)
  }

  /** The pings that `Pong` accepts, in their order. */
  function ShortPings(fs: seq<Frame>): seq<Frame> {
    if fs == [] then []
    else (if fs[0].opcode == 9 && |fs[0].payload| <= 125 then [fs[0]] else []) + ShortPings(fs[1..])
  }

  /** With automatic pongs every such ping has its answer, in its order: opcode 10 and the ping's own
      payload. Without them there is none. */
  ghost predicate Answers(sent: seq<Sent>, fs: seq<Frame>, autoPong: bool) {
    if autoPong then
      && |sent| == |ShortPings(fs)|
      && forall j :: 0 <= j < |sent| ==> sent[j].opcode == 10 && sent[j].payload == ShortPings(fs)[j].payload
    else sent == []
  }

  lemma {:induction false} PongsAnswer(fs: seq<Frame>, autoPong: bool)
    ensures Answers(Pongs(fs, autoPong), fs, autoPong)
  {
    if fs != [] {
      PongsAnswer(fs[1..], autoPong);
      var here := if fs[0].opcode == PING then PongFor(fs[0].payload, autoPong) else [];
      var rest := Pongs(fs[1..], autoPong);
      assert Pongs(fs, autoPong) == here + rest;
      assert autoPong ==> |here| == |ShortPings(fs)| - |ShortPings(fs[1..])|;
    }
  }

  lemma {:induction false} PongsJoin(a: seq<Frame>, b: seq<Frame>, autoPong: bool)
    ensures Pongs(a + b, autoPong) == Pongs(a, autoPong) + Pongs(b, autoPong)
  {
    hide PongFor;
    if a == [] {
      assert a + b == b;
    } else {
      PongsJoin(a[1..], b, autoPong);
      assert (a + b)[0] == a[0] && (a + b)[1..] == a[1..] + b;
      var here := if a[0].opcode == PING then PongFor(a[0].payload, autoPong) else [];
      Regroup(here, Pongs(a[1..], autoPong), Pongs(b, autoPong));
    }
  }

  /** The result of reading the rest of a fragmented message. */
  function Completed(opcode: byte, whole: bytes, limit: int): Outcome {
    if |whole| <= limit then Message(opcode, whole) else Failed(FragmentsTooLarge)
  }

  /** The result when a pong comes first. */
  function Interrupted(pong: Frame, partial: bytes, limit: int): Outcome {
    if |partial| <= limit then Message(PONG, pong.payload) else Failed(FragmentsTooLarge)
  }

  /** One frame of Read unfolded. */
  lemma ReadUnfolds(s: bytes, limit: int, autoPong: bool, opcode: byte, partial: bytes)
    requires Decode(s, limit).Decoded?
    ensures var Decoded(f, rest) := Decode(s, limit);
            Read(s, limit, autoPong, opcode, partial) ==
            match OnFrame(f, limit, autoPong, opcode, partial)
            case Stop(outcome, sent) => Reading(outcome, rest, sent)
            case Go(opcode', partial', sent) =>
              var r := Read(rest, limit, autoPong, opcode', partial');
              r.(sent := sent + r.sent)
  {
    hide Decode, OnFrame;
  }

  lemma OnPing(f: Frame, limit: int, autoPong: bool, opcode: byte, partial: bytes)
    requires f.opcode == PING
    ensures OnFrame(f, limit, autoPong, opcode, partial) == Go(opcode, partial, PongFor(f.payload, autoPong))
  {
  }

  lemma OnPong(f: Frame, limit: int, autoPong: bool, opcode: byte, partial: bytes)
    requires f.opcode == PONG
    ensures OnFrame(f, limit, autoPong, opcode, partial) == Stop(Message(PONG, f.payload), [])
  {
  }

  lemma OnContinuation(f: Frame, limit: int, autoPong: bool, opcode: byte, partial: bytes)
    requires f.opcode == CONTINUATION && opcode != 0
    ensures OnFrame(f, limit, autoPong, opcode, partial) ==
            if |partial + f.payload| > limit then Stop(Failed(FragmentsTooLarge), [])
            else if f.fin then Stop(Message(opcode, partial + f.payload), [])
            else Go(opcode, partial + f.payload, [])
  {
  }

  /** The rest of a fragmented message, read from inside it: the first pong is returned in its
      place; without one, the message is. */
  lemma {:induction false} CompletionRead(
    s: bytes, fs: seq<Frame>, tail: bytes, limit: int, autoPong: bool, opcode: byte, partial: bytes)
    requires Carries(s, fs, tail, limit) && Completion(fs)
    requires opcode != 0 && |partial| <= limit
    ensures var r, k := Read(s, limit, autoPong, opcode, partial), PongAt(fs);
            && (k == |fs| ==>
                  && r.outcome == Completed(opcode, Joined(partial, fs), limit)
                  && (r.outcome.Message? ==> r.rest == tail && r.sent == Pongs(fs, autoPong)))
            && (k < |fs| ==>
                  && r.outcome == Interrupted(fs[k], Joined(partial, fs[..k]), limit)
                  && (r.outcome.Message? ==>
                        Carries(r.rest, fs[k + 1..], tail, limit) && r.sent == Pongs(fs[..k], autoPong)))
    decreases |fs|
  {
    hide Decode, PongFor, OnFrame, Read, Sendable;
    var f, rest, k := fs[0], Decode(s, limit).rest, PongAt(fs);
    ReadUnfolds(s, limit, autoPong, opcode, partial);
    if f.opcode == PONG {
      OnPong(f, limit, autoPong, opcode, partial);
    } else {
      if k < |fs| {
        assert fs[..k][1..] == fs[1..][..k - 1] && fs[k + 1..] == fs[1..][k..];
      }
      if f.opcode == PING {
        OnPing(f, limit, autoPong, opcode, partial);
        CompletionRead(rest, fs[1..], tail, limit, autoPong, opcode, partial);
      } else {
        var joined := partial + f.payload;
        OnContinuation(f, limit, autoPong, opcode, partial);
        JoinedGrows(joined, if k < |fs| then fs[1..][..k - 1] else fs[1..]);
        if |fs| > 1 && |joined| <= limit {
          CompletionRead(rest, fs[1..], tail, limit, autoPong, opcode, joined);
        }
      }
    }
  }

  /** A message in fragments: pings, the first fragment, and what may follow it. */
  ghost predicate Fragmented(
    s: bytes, pings: seq<Frame>, first: Frame, fs: seq<Frame>, tail: bytes, limit: int)
  {
    && limit > 0
    && OnlyPings(pings) && Completion(fs)
    && !first.fin && (first.opcode == TEXT || first.opcode == BINARY)
    && Carries(s, pings + ([first] + fs), tail, limit)
  }

  lemma {:induction false} FragmentedRead(
    s: bytes, pings: seq<Frame>, first: Frame, fs: seq<Frame>, tail: bytes, limit: int, autoPong: bool)
    requires Fragmented(s, pings, first, fs, tail, limit)
    ensures var r, k := Read(s, limit, autoPong, 0, []), PongAt(fs);
            && (k == |fs| ==>
                  && r.outcome == Completed(first.opcode, Joined(first.payload, fs), limit)
                  && (r.outcome.Message? ==>
                        r.rest == tail && r.sent == Pongs(pings, autoPong) + Pongs(fs, autoPong)))
            && (k < |fs| ==>
                  && r.outcome == Interrupted(fs[k], Joined(first.payload, fs[..k]), limit)
                  && (r.outcome.Message? ==> Carries(r.rest, fs[k + 1..], tail, limit)))
    decreases |pings|
  {
    hide Decode, Read, Sendable;
    ReadUnfolds(s, limit, autoPong, 0, []);
    var rest := Decode(s, limit).rest;
    var all := pings + ([first] + fs);
    if pings == [] {
      assert all[0] == first && all[1..] == fs;
      assert [] + first.payload == first.payload;
      DecodedFits(s, limit);
      CompletionRead(rest, fs, tail, limit, autoPong, first.opcode, first.payload);
    } else {
      assert all[0] == pings[0] && all[1..] == pings[1..] + ([first] + fs);
      FragmentedRead(rest, pings[1..], first, fs, tail, limit, autoPong);
    }
  }

  /** Reassembly. However a text or binary message is cut into fragments, and whatever pings and
      pongs come between them, one call returns the first opcode with the joined payload exactly when
      there is no pong among them and the joined payload is within the limit. It then leaves what
      follows and has answered every ping of at most 125 bytes in order. */
  lemma Reassembled(
    s: bytes, pings: seq<Frame>, first: Frame, fs: seq<Frame>, tail: bytes, limit: int, autoPong: bool)
    requires Fragmented(s, pings, first, fs, tail, limit)
    ensures var r, whole := Read(s, limit, autoPong, 0, []), Joined(first.payload, fs);
            && (r.outcome == Message(first.opcode, whole) <==> PongAt(fs) == |fs| && |whole| <= limit)
            && (r.outcome == Message(first.opcode, whole) ==> r.rest == tail && Answers(r.sent, pings + fs, autoPong))
            && (PongAt(fs) == |fs| && |whole| > limit ==> r.outcome == Failed(FragmentsTooLarge))
  {
    hide Decode, Read, Carries, Completion, OnlyPings, Joined, Pongs, Answers;
    FragmentedRead(s, pings, first, fs, tail, limit, autoPong);
    PongsJoin(pings, fs, autoPong);
    PongsAnswer(pings + fs, autoPong);
  }

  /** A message in one frame, and a pong, are returned as they are. */
  lemma WholeMessageRead(s: bytes, f: Frame, tail: bytes, limit: int, autoPong: bool)
    requires Carries(s, [f], tail, limit)
    requires f.opcode == PONG || (f.fin && (f.opcode == TEXT || f.opcode == BINARY))
    ensures Read(s, limit, autoPong, 0, []) == Reading(Message(f.opcode, f.payload), tail, [])
  {
    hide Decode;
    CarriesOne(s, f, tail, limit);
  }

  lemma CarriesOne(s: bytes, f: Frame, tail: bytes, limit: int)
    requires Carries(s, [f], tail, limit)
    ensures Decode(s, limit) == Decoded(f, tail)
  {
    hide Decode;
    assert [f][1..] == [];
    assert Carries(Decode(s, limit).rest, [], tail, limit);
  }

  /** A close frame is reported with its code and reason and is answered with one close frame, which
      has the same payload (code 1000 if there was none); nothing else is read. */
  lemma CloseFrameRead(s: bytes, f: Frame, tail: bytes, limit: int, autoPong: bool)
    requires Carries(s, [f], tail, limit) && f.opcode == CLOSE
    ensures var r := Read(s, limit, autoPong, 0, []);
            && r.outcome == (if |f.payload| < 2 then PeerClosed(1000, [], f.payload)
                             else PeerClosed(Word(f.payload[0], f.payload[1]), f.payload[2..], f.payload))
            && r.rest == tail
            && r.sent == [Sent(CLOSE, if |f.payload| < 2 then [0x03, 0xE8] else f.payload)]
  {
    hide Decode, ParseClose, ClosePayload;
    CarriesOne(s, f, tail, limit);
    CloseEchoed(f.payload);
    CloseParsed(f.payload);
  }

  /** Data frames inside a fragmented message. A final one is returned in its place, and the fragments
      before it are lost. One that is not final goes on with the payload collected so far, under its own
      opcode. */
  lemma DataInsideMessage(
    s: bytes, f: Frame, tail: bytes, limit: int, autoPong: bool, opcode: byte, partial: bytes)
    requires Carries(s, [f], tail, limit) && (f.opcode == 1 || f.opcode == 2)
    ensures var r, joined := Read(s, limit, autoPong, opcode, partial), partial + f.payload;
            && (f.fin ==> r == Reading(Message(f.opcode, f.payload), tail, []))
            && (!f.fin && |joined| > limit ==> r == Reading(Failed(FragmentsTooLarge), tail, []))
            && (!f.fin && |joined| <= limit ==> r == Read(tail, limit, autoPong, f.opcode, joined))
  {
    hide Decode, Read, Sendable;
    CarriesOne(s, f, tail, limit);
    ReadUnfolds(s, limit, autoPong, opcode, partial);
    var r := Read(tail, limit, autoPong, f.opcode, partial + f.payload);
    assert [] + r.sent == r.sent;
  }

  /** Any other opcode ends the call with an error, and so do a continuation of nothing and bytes that
      are no frame; nothing is sent. */
  lemma UnsupportedRead(s: bytes, limit: int, autoPong: bool, opcode: byte, partial: bytes)
    ensures var d, r := Decode(s, limit), Read(s, limit, autoPong, opcode, partial);
            && (!d.Decoded? ==> r.outcome == Failed(FrameUnreadable) && r.sent == [])
            && (d.Decoded? && d.frame.opcode == 0 && opcode == 0 ==>
                  r == Reading(Failed(UnexpectedContinuation), d.rest, []))
            && (d.Decoded? && d.frame.opcode !in {0, 1, 2, 8, 9, 10} ==>
                  r == Reading(Failed(UnsupportedOpcode), d.rest, []))
  {
    hide Decode;
  }

  /** The continuations among fs carry the text from its index i on, cut anywhere. */
  predicate CutsOf(text: bytes, i: nat, fs: seq<Frame>)
    decreases |fs|
  {
    if fs == [] then i == |text|
    else if fs[0].opcode != 0 then CutsOf(text, i, fs[1..])
    else
      && fs[0].payload <= text[if i <= |text| then i else |text|..]
      && CutsOf(text, i + |fs[0].payload|, fs[1..])
  }

  lemma {:induction false} CutsJoin(text: bytes, i: nat, fs: seq<Frame>)
    requires i <= |text| && Completion(fs) && CutsOf(text, i, fs)
    ensures Joined(text[..i], fs) == text
    decreases |fs|
  {
    var f := fs[0];
    if f.opcode == 0 {
      var j := i + |f.payload|;
      assert f.payload == text[i..j];
      assert text[..i] + f.payload == text[..j];
      if |fs| == 1 {
        assert fs[1..] == [] && text[..|text|] == text;
      } else {
        CutsJoin(text, j, fs[1..]);
      }
    } else {
      CutsJoin(text, i, fs[1..]);
    }
  }

  /** The round trip of a message: cut into fragments anywhere, with pings before and between them,
      it comes back whole from one call if it is within the limit. */
  lemma MessageComesBack(
    s: bytes, pings: seq<Frame>, first: Frame, fs: seq<Frame>, text: bytes, tail: bytes, limit: int, autoPong: bool)
    requires Fragmented(s, pings, first, fs, tail, limit) && PongAt(fs) == |fs|
    requires first.payload <= text && CutsOf(text, |first.payload|, fs) && |text| <= limit
    ensures var r := Read(s, limit, autoPong, 0, []);
            r.outcome == Message(first.opcode, text) && r.rest == tail && Answers(r.sent, pings + fs, autoPong)
  {
    hide Decode, Read, Carries, OnlyPings, Joined, Pongs, Answers;
    Reassembled(s, pings, first, fs, tail, limit, autoPong);
    assert text[..|first.payload|] == first.payload;
    CutsJoin(text, |first.payload|, fs);
  }

  /** n calls of `ReadMessage` one after the other: their results and the input they leave. */
  function Calls(s: bytes, limit: int, autoPong: bool, n: nat): (seq<Outcome>, bytes)
    decreases n
  {
    if n == 0 then ([], s)
    else
      var r := Read(s, limit, autoPong, 0, []);
      var (outcomes, rest) := Calls(r.rest, limit, autoPong, n - 1);
      ([r.outcome] + outcomes, rest)
  }

  /** What the frames behind a lost fragment give: every pong itself, every continuation an error. */
  function Strays(fs: seq<Frame>): seq<Outcome> {
    if fs == [] then []
    else if fs[0].opcode == PING then Strays(fs[1..])
    else if fs[0].opcode == PONG then [Message(PONG, fs[0].payload)] + Strays(fs[1..])
    else [Failed(UnexpectedContinuation)] + Strays(fs[1..])
  }

  lemma {:induction false} StraysRead(s: bytes, fs: seq<Frame>, tail: bytes, limit: int, autoPong: bool)
    requires Carries(s, fs, tail, limit) && Completion(fs)
    ensures |Strays(fs)| > 0 && Calls(s, limit, autoPong, |Strays(fs)|) == (Strays(fs), tail)
    decreases |fs|
  {
    hide Decode, Read, Sendable;
    ReadUnfolds(s, limit, autoPong, 0, []);
    var rest, n := Decode(s, limit).rest, |Strays(fs)|;
    if |fs| == 1 {
      assert fs[1..] == [];
      assert Calls(rest, limit, autoPong, 0) == ([], tail);
    } else {
      StraysRead(rest, fs[1..], tail, limit, autoPong);
    }
  }

  lemma {:induction false} CompletionAfter(fs: seq<Frame>, k: nat)
    requires Completion(fs) && k < |fs| && fs[k].opcode == PONG
    ensures Completion(fs[k + 1..])
  {
    if k > 0 {
      CompletionAfter(fs[1..], k - 1);
      assert fs[1..][k..] == fs[k + 1..];
    }
  }

  /** A pong among the fragments is returned at once, in place of the message (unless the fragments
      before it are over the limit already). The fragments before it are lost, and so are those
      behind it: the calls up to the end of the message return the other pongs and fail on every
      continuation. */
  lemma PongLosesFragment(
    s: bytes, pings: seq<Frame>, first: Frame, fs: seq<Frame>, tail: bytes, limit: int, autoPong: bool)
    requires Fragmented(s, pings, first, fs, tail, limit)
    requires PongAt(fs) < |fs|
    ensures var r, k := Read(s, limit, autoPong, 0, []), PongAt(fs);
            && r.outcome == Interrupted(fs[k], Joined(first.payload, fs[..k]), limit)
            && (r.outcome.Message? ==>
                  var left := Strays(fs[k + 1..]);
                  |left| > 0 && Calls(r.rest, limit, autoPong, |left|) == (left, tail))
  {
    hide Decode, Read, Carries, Completion, OnlyPings, Joined, Pongs, Strays, Calls;
    FragmentedRead(s, pings, first, fs, tail, limit, autoPong);
    var r, k := Read(s, limit, autoPong, 0, []), PongAt(fs);
    if r.outcome.Message? {
      CompletionAfter(fs, k);
      StraysRead(r.rest, fs[k + 1..], tail, limit, autoPong);
    }
  }
}
