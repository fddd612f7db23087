/** Several goroutines write frames to one connection under one mutex. The model is a state
    machine whose steps are the points where goroutines can interleave. */
module FrameWriters {
  import opened Bytes
  import opened Wrappers
  import opened Text
  import opened WebSocketFrame
  import opened WebSocketMessage

  /** What a writer still does once it has given the mutex back: `Close` closes the TCP client,
      the reply to a peer's close frame marks the WebSocket closed. */
  datatype Then = Return | CloseTcp | MarkClosed

  datatype Thread =
    | Idle
    | Waiting(frame: Sent, next: Then)
    | Writing
    | Released(next: Then)

  /** The goroutine t that has the mutex: it is in `WriteFull` with `done` bytes of its frame
      written, and `checked` says that it has found the TCP client open for its next write. */
  datatype Holder = Holder(t: nat, asked: Sent, w: WireFrame, done: nat, checked: bool, next: Then)

  /** A call of the frame writer that is over: what it was asked for, and whether it reported no error. */
  datatype Report = Report(asked: Sent, ok: bool)

  /** The TCP client: its flag, whether its connection was closed, and (as history) whether a failing
      write was the first to set the flag. */
  datatype Tcp = Tcp(isClosed: bool, connClosed: bool, broke: bool) {
    /** A write fails. */
    function Break(): (r: Tcp)
      ensures r.isClosed
    {
      this.(isClosed := true, broke := broke || !isClosed)
    }

    /** `TCPClient.Close` closes the connection only if it finds the flag unset. */
    function Close(): (r: Tcp)
      ensures r.isClosed
    {
      if isClosed then this else this.(isClosed := true, connClosed := true)
    }
  }

  /** `wsClosed` is `isClosed` of the WebSocket. `asked`, `log`, `torn` and `returned` are history: what
      was asked for in the frames that were written whole, these frames, the frame (with the number of
      its bytes that got out) that was given up half way, and the calls that are over. */
  datatype State = State(
    threads: map<nat, Thread>, mutex: Option<Holder>, wsClosed: bool, tcp: Tcp, wire: bytes,
    asked: seq<Sent>, log: seq<WireFrame>, torn: Option<(WireFrame, nat)>, returned: seq<Report>)
  {
    function At(t: nat): Thread {
      if t in threads then threads[t] else Idle
    }
  }

  /** The reason text "normal closure". */
  const NORMAL_CLOSURE: bytes := Ascii("normal closure")

  const INIT := State(map[], None, false, Tcp(false, false, false), [], [], [], None, [])

  datatype Step =
    | StartWrite(t: nat, opcode: byte, payload: bytes)  // WriteFrame finds isClosed false
    | StartClose(t: nat)                                // Close swaps isClosed
    | StartReply(t: nat, code: nat, reason: bytes)      // ReadMessage answers a close frame
    | ReadFails                                         // ReadMessage stores isClosed
    | Lock(t: nat, random: Option<MaskKey>)             // takes the mutex and builds the frame
    | CheckTcp                                          // TCPClient.Write loads isClosed
    | Sends(n: nat)                                     // conn.Write takes n bytes, no error
    | SendFails(n: nat)                                 // conn.Write takes n bytes and fails
    | SendsNothing                                      // conn.Write takes no byte, no error
    | Finish(t: nat)                                    // what follows the unlock

  function Put(s: State, t: nat, thread: Thread): State {
    s.(threads := s.threads[t := thread])
  }

  /** The writer gives the mutex back with its frame incomplete. */
  function GiveUp(s: State, h: Holder): State {
    Put(s, h.t, Released(h.next)).(
    mutex := None,
    torn := if h.done > 0 then Some((h.w, h.done)) else s.torn,
    returned := s.returned + [Report(h.asked, false)])
  }

  /** The writer has put n more bytes of its frame on the wire. */
  function Advance(s: State, h: Holder, n: nat): State
    requires h.w.Valid() && h.done + n <= |Encode(h.w)|
  {
    var s' := s.(wire := s.wire + Encode(h.w)[h.done..h.done + n]);
    if h.done + n == |Encode(h.w)| then
      Put(s', h.t, Released(h.next)).(
      mutex := None,
      asked := s.asked + [h.asked],
      log := s.log + [h.w],
      returned := s.returned + [Report(h.asked, true)])
    else
      s'.(mutex := Some(h.(done := h.done + n, checked := false)))
  }

  /** The connection has taken n more bytes, perhaps all of them, and reported an error. */
  function Fail(s: State, h: Holder, n: nat): State
    requires h.w.Valid() && h.done + n <= |Encode(h.w)|
  {
    if h.done + n == |Encode(h.w)| then
      Advance(s, h, n).(
      tcp := s.tcp.Break(),
      returned := s.returned + [Report(h.asked, false)])
    else
      GiveUp(s.(wire := s.wire + Encode(h.w)[h.done..h.done + n], tcp := s.tcp.Break()), h.(done := h.done + n))
  }

  /** One step, if it is possible. */
  function Next(s: State, step: Step): Option<State> {
    match step
    case StartWrite(t, opcode, payload) =>
      if s.At(t).Idle? && !s.wsClosed && |payload| <= INT64_MAX
      then Some(Put(s, t, Waiting(Sent(opcode, payload), Return))) else None
    case StartClose(t) =>
      if !s.At(t).Idle? then None
      else if s.wsClosed then Some(s)
      else Some(Put(s, t, Waiting(Sent(CLOSE, ClosePayload(1000, NORMAL_CLOSURE)), CloseTcp)).(wsClosed := true))
    case StartReply(t, code, reason) =>
      if s.At(t).Idle? && |ClosePayload(code, reason)| <= INT64_MAX
      then Some(Put(s, t, Waiting(Sent(CLOSE, ClosePayload(code, reason)), MarkClosed))) else None
    case ReadFails => Some(s.(wsClosed := true))
    case Lock(t, random) =>
      var th := s.At(t);
      if !th.Waiting? || s.mutex.Some? || |th.frame.payload| > INT64_MAX then None
      else if random.None? then
        Some(Put(s, t, Released(th.next)).(returned := s.returned + [Report(th.frame, false)]))
      else
        var w := ClientFrame(th.frame.opcode, th.frame.payload, random.value);
        Some(Put(s, t, Writing).(mutex := Some(Holder(t, th.frame, w, 0, false, th.next))))
    case CheckTcp =>
      if s.mutex.None? || s.mutex.value.checked then None
      else if s.tcp.isClosed then Some(GiveUp(s, s.mutex.value))
      else Some(s.(mutex := Some(s.mutex.value.(checked := true))))
    case Sends(n) =>
      if s.mutex.Some? && s.mutex.value.checked && s.mutex.value.w.Valid()
         && 0 < n <= |Encode(s.mutex.value.w)| - s.mutex.value.done
      then Some(Advance(s, s.mutex.value, n)) else None
    case SendFails(n) =>
      if s.mutex.Some? && s.mutex.value.checked && s.mutex.value.w.Valid()
         && n <= |Encode(s.mutex.value.w)| - s.mutex.value.done then
        Some(Fail(s, s.mutex.value, n))
      else None
    case SendsNothing =>
      if s.mutex.Some? && s.mutex.value.checked then Some(GiveUp(s, s.mutex.value)) else None
    case Finish(t) =>
      match s.At(t)
      case Released(CloseTcp) => Some(Put(s, t, Idle).(tcp := s.tcp.Close()))
      case Released(MarkClosed) => Some(Put(s, t, Idle).(wsClosed := true))
      case Released(Return) => Some(Put(s, t, Idle))
      case _ => None
  }

  /** The state after a whole run, if every step of it is possible. */
  function Run(s: State, steps: seq<Step>): Option<State>
    decreases |steps|
  {
    if steps == [] then Some(s)
    else match Next(s, steps[0])
         case None => None
         case Some(s') => Run(s', steps[1..])
  }

  /** A write that takes no byte and reports no error, in the middle of a frame. */
  predicate ZeroWrite(s: State, step: Step) {
    step.SendsNothing? && s.mutex.Some? && s.mutex.value.done > 0
  }

  /** Inside a frame every write that reports no error takes at least one byte. */
  predicate Progress(s: State, steps: seq<Step>)
    decreases |steps|
  {
    steps == [] ||
    (!ZeroWrite(s, steps[0]) && (Next(s, steps[0]).Some? ==> Progress(Next(s, steps[0]).value, steps[1..])))
  }

  ghost predicate ProperPart(part: Option<(WireFrame, nat)>) {
    part.Some? ==> part.value.0.Valid() && part.value.1 < |Encode(part.value.0)|
  }

  /** The bytes of an incomplete frame. */
  function PartOf(part: Option<(WireFrame, nat)>): bytes
    requires ProperPart(part)
  {
    if part.Some? then Encode(part.value.0)[..part.value.1] else []
  }

  /** The trailing incomplete frame: a given-up one, or the one that is being written. */
  ghost function Trailing(s: State): Option<(WireFrame, nat)> {
    if s.torn.Some? then s.torn
    else if s.mutex.Some? then Some((s.mutex.value.w, s.mutex.value.done))
    else None
  }

  /** Nobody can put another byte on the wire. */
  ghost predicate Dead(s: State) {
    s.tcp.isClosed && (s.mutex.Some? ==> !s.mutex.value.checked)
  }

  function FramesFor(sents: seq<Sent>): seq<Frame> {
    if sents == [] then [] else FramesFor(sents[..|sents| - 1]) + [FrameFor(sents[|sents| - 1])]
  }

  /** Who has the mutex is writing, and has yet to complete its frame. */
  ghost predicate HolderWriting(s: State) {
    s.mutex.Some? ==>
      s.At(s.mutex.value.t).Writing? && ProperPart(Some((s.mutex.value.w, s.mutex.value.done)))
  }

  ghost predicate Inv(s: State) {
    && AllValid(s.log, 0)
    && AsFrames(s.log) == FramesFor(s.asked)
    && HolderWriting(s)
    && (s.mutex.Some? ==> s.mutex.value.w.AsFrame() == FrameFor(s.mutex.value.asked))
    && ProperPart(s.torn)
    && (s.torn.Some? ==> Dead(s) && (s.mutex.Some? ==> s.mutex.value.done == 0))
    && s.wire == EncodeAll(s.log) + PartOf(Trailing(s))
  }

  lemma {:induction false} EncodeAllAppend(ws: seq<WireFrame>, w: WireFrame)
    requires AllValid(ws, 0) && w.Valid()
    ensures AllValid(ws + [w], 0)
    ensures EncodeAll(ws + [w]) == EncodeAll(ws) + Encode(w)
  {
    hide Encode;
    if ws == [] {
      assert ws + [w] == [w];
      assert EncodeAll([w]) == Encode(w) + EncodeAll([]);
    } else {
      EncodeAllAppend(ws[1..], w);
      assert (ws + [w])[1..] == ws[1..] + [w];
    }
  }

  lemma {:induction false} AsFramesAppend(ws: seq<WireFrame>, w: WireFrame)
    ensures AsFrames(ws + [w]) == AsFrames(ws) + [w.AsFrame()]
  {
    if ws == [] {
      assert ws + [w] == [w] && [w][1..] == [];
    } else {
      AsFramesAppend(ws[1..], w);
      assert (ws + [w])[1..] == ws[1..] + [w];
    }
  }

  lemma FramesForAppend(sents: seq<Sent>, sent: Sent)
    ensures FramesFor(sents + [sent]) == FramesFor(sents) + [FrameFor(sent)]
  {
    assert (sents + [sent])[..|sents|] == sents;
  }

  lemma InitInv()
    ensures Inv(INIT)
  {
    hide Encode;
    assert EncodeAll([]) + [] == [];
  }

  lemma StepKeepsInv(s: State, step: Step)
    requires Inv(s) && Next(s, step).Some? && !ZeroWrite(s, step)
    ensures Inv(Next(s, step).value)
  {
    if step.Sends? {
      SendsKeepsInv(s, step.n);
    } else if step.SendFails? {
      FailKeepsInv(s, step.n);
    } else {
      QuietStepKeepsInv(s, step);
    }
  }

  /** The steps that put nothing on the wire. */
  lemma QuietStepKeepsInv(s: State, step: Step)
    requires Inv(s) && Next(s, step).Some? && !step.Sends? && !step.SendFails? && !ZeroWrite(s, step)
    ensures Inv(Next(s, step).value)
  {
    hide Encode, ClosePayload, EncodeAll, AllValid, AsFrames, FramesFor, Advance, ProperPart, PartOf;
    var s' := Next(s, step).value;
    if step.Lock? || step.CheckTcp? || step.SendsNothing? {
      MutexStepKeepsInv(s, step);
    } else {
      assert s'.mutex == s.mutex && s'.torn == s.torn && Trailing(s') == Trailing(s);
    }
  }

  lemma MutexStepKeepsInv(s: State, step: Step)
    requires Inv(s) && Next(s, step).Some? && (step.Lock? || step.CheckTcp? || step.SendsNothing?)
    requires !ZeroWrite(s, step)
    ensures Inv(Next(s, step).value)
  {
    hide Encode, ClosePayload, EncodeAll, AllValid, AsFrames, FramesFor, Advance;
    var s' := Next(s, step).value;
    assert PartOf(Trailing(s')) == PartOf(Trailing(s));
  }

  lemma FailKeepsInv(s: State, n: nat)
    requires Inv(s) && Next(s, SendFails(n)).Some?
    ensures Inv(Next(s, SendFails(n)).value)
  {
    hide Encode, EncodeAll, AllValid, AsFrames, FramesFor, GiveUp, Advance, Fail, ClientFrame, ProperPart;
    FailingKeepsInv(s, n);
  }

  lemma FailingKeepsInv(s: State, n: nat)
    requires Inv(s) && s.mutex.Some? && s.mutex.value.checked && s.mutex.value.w.Valid()
    requires n <= |Encode(s.mutex.value.w)| - s.mutex.value.done
    ensures Inv(Fail(s, s.mutex.value, n))
  {
    hide Encode, EncodeAll, AllValid, AsFrames, FramesFor;
    var h := s.mutex.value;
    if h.done + n == |Encode(h.w)| {
      AdvanceKeepsInv(s, n);
    } else {
      SliceJoin(EncodeAll(s.log), Encode(h.w), h.done, h.done + n);
    }
  }

  lemma SendsKeepsInv(s: State, n: nat)
    requires Inv(s) && Next(s, Sends(n)).Some?
    ensures Inv(Next(s, Sends(n)).value)
  {
    hide Encode, EncodeAll, AllValid, AsFrames, FramesFor, GiveUp, ClientFrame, Advance, ProperPart;
    AdvanceKeepsInv(s, n);
  }

  lemma AdvanceKeepsInv(s: State, n: nat)
    requires Inv(s) && s.mutex.Some? && s.mutex.value.checked && s.mutex.value.w.Valid()
    requires 0 < n <= |Encode(s.mutex.value.w)| - s.mutex.value.done
    ensures Inv(Advance(s, s.mutex.value, n))
  {
    hide Encode, EncodeAll, AllValid, AsFrames, FramesFor;
    var h := s.mutex.value;
    var e := Encode(h.w);
    var s' := Advance(s, h, n);
    SliceJoin(EncodeAll(s.log), e, h.done, h.done + n);
    if h.done + n == |e| {
      EncodeAllAppend(s.log, h.w);
      AsFramesAppend(s.log, h.w);
      FramesForAppend(s.asked, h.asked);
      assert e[..|e|] == e;
      assert s'.wire == EncodeAll(s'.log) + [];
    }
  }

  lemma {:induction false} RunKeepsInv(s: State, steps: seq<Step>)
    requires Inv(s) && Run(s, steps).Some? && Progress(s, steps)
    ensures Inv(Run(s, steps).value)
    decreases |steps|
  {
    hide Next, Inv, ZeroWrite;
    if steps != [] {
      StepKeepsInv(s, steps[0]);
      RunKeepsInv(Next(s, steps[0]).value, steps[1..]);
    }
  }

  lemma PartNotDecoded(part: Option<(WireFrame, nat)>)
    requires ProperPart(part)
    ensures DecodeAll(PartOf(part), 0) == ([], PartOf(part))
  {
    if part.Some? {
      hide Decode, Encode;
      DecodeCut(part.value.0, part.value.1, 0);
    }
  }

  lemma InvDecodes(s: State)
    requires Inv(s)
    ensures DecodeAll(s.wire, 0) == (FramesFor(s.asked), PartOf(Trailing(s)))
  {
    hide Decode, Encode, EncodeAll, DecodeAll, PartOf, AsFrames, FramesFor;
    var part := PartOf(Trailing(s));
    DecodeAllEncodeAll(s.log, part, 0);
    PartNotDecoded(Trailing(s));
    var (frames, left) := DecodeAll(s.wire, 0);
    assert AsFrames(s.log) + [] == AsFrames(s.log);
    assert frames == AsFrames(s.log) && left == part;
  }

  /** In every interleaving and for every pattern of short writes that make progress, the bytes on
      the wire are whole frames back to back and at most one incomplete frame behind them: a peer that
      decodes the wire gets exactly the opcodes and payloads that were asked for in the frames written whole, in
      the order in which the writers held the mutex, and is left with a proper prefix of one frame. */
  lemma WireHoldsWholeFrames(steps: seq<Step>)
    requires Run(INIT, steps).Some? && Progress(INIT, steps)
    ensures var s := Run(INIT, steps).value;
            && AllValid(s.log, 0) && ProperPart(Trailing(s))
            && s.wire == EncodeAll(s.log) + PartOf(Trailing(s))
            && DecodeAll(s.wire, 0) == (FramesFor(s.asked), PartOf(Trailing(s)))
  {
    hide Decode, Encode, DecodeAll, PartOf, AsFrames, FramesFor;
    InitInv();
    RunKeepsInv(INIT, steps);
    InvDecodes(Run(INIT, steps).value);
  }

  /** Once the TCP client is closed and no writer is past its check, no byte is ever written
      again; in particular nothing follows a frame that was given up half way. */
  lemma {:induction false} DeadStaysDead(s: State, steps: seq<Step>)
    requires Run(s, steps).Some? && Dead(s)
    ensures Dead(Run(s, steps).value) && Run(s, steps).value.wire == s.wire
    ensures Run(s, steps).value.log == s.log && Run(s, steps).value.asked == s.asked
    decreases |steps|
  {
    hide Next, Dead;
    if steps != [] {
      DeadStep(s, steps[0]);
      DeadStaysDead(Next(s, steps[0]).value, steps[1..]);
    }
  }

  lemma DeadStep(s: State, step: Step)
    requires Next(s, step).Some? && Dead(s)
    ensures var s' := Next(s, step).value; Dead(s') && s'.wire == s.wire && s'.log == s.log && s'.asked == s.asked
  {
    hide Encode, ClientFrame, ClosePayload, Tcp.Break, Tcp.Close;
  }

  lemma NothingAfterTornFrame(before: seq<Step>, after: seq<Step>)
    requires Run(INIT, before).Some? && Progress(INIT, before) && Run(INIT, before).value.torn.Some?
    requires Run(Run(INIT, before).value, after).Some?
    ensures Run(Run(INIT, before).value, after).value.wire == Run(INIT, before).value.wire
  {
    hide Decode, Encode, Next;
    InitInv();
    RunKeepsInv(INIT, before);
    DeadStaysDead(Run(INIT, before).value, after);
  }

  lemma OneRun(s: State)
    ensures Run(s, []) == Some(s)
  {
  }

  /** Runs can be put one after the other. */
  lemma {:induction false} RunJoins(s: State, a: seq<Step>, b: seq<Step>)
    requires Run(s, a).Some?
    ensures Run(s, a + b) == Run(Run(s, a).value, b)
    decreases |a|
  {
    hide Next;
    if a == [] {
      assert a + b == b;
    } else {
      assert (a + b)[0] == a[0] && (a + b)[1..] == a[1..] + b;
      RunJoins(Next(s, a[0]).value, a[1..], b);
    }
  }

  /** A whole frame goes out in one write: lock, check, send. */
  lemma FrameGoesOut(s: State, t: nat, key: MaskKey)
    requires s.At(t).Waiting? && s.mutex.None? && !s.tcp.isClosed && |s.At(t).frame.payload| <= INT64_MAX
    ensures var w := ClientFrame(s.At(t).frame.opcode, s.At(t).frame.payload, key);
            var r := Run(s, [Lock(t, Some(key)), CheckTcp, Sends(|Encode(w)|)]);
            && r.Some?
            && r.value == Put(Put(s, t, Writing), t, Released(s.At(t).next)).(
                            asked := s.asked + [s.At(t).frame], log := s.log + [w],
                            wire := s.wire + Encode(w)[0..|Encode(w)|],
                            returned := s.returned + [Report(s.At(t).frame, true)])
  {
    hide Encode, ClientFrame, Run;
    var w := ClientFrame(s.At(t).frame.opcode, s.At(t).frame.payload, key);
    var s1 := Next(s, Lock(t, Some(key))).value;
    var s2 := Next(s1, CheckTcp).value;
    var n := |Encode(w)|;
    var s3 := Next(s2, Sends(n)).value;
    assert Run(s, [Lock(t, Some(key)), CheckTcp, Sends(n)]) == Some(s3) by {
      ThreeSteps(s, s1, s2, s3, Lock(t, Some(key)), CheckTcp, Sends(n));
    }
  }

  lemma ThreeSteps(s: State, s1: State, s2: State, s3: State, a: Step, b: Step, c: Step)
    requires Next(s, a) == Some(s1) && Next(s1, b) == Some(s2) && Next(s2, c) == Some(s3)
    ensures Run(s, [a, b, c]) == Some(s3)
  {
    hide Next;
    assert [a, b, c][1..] == [b, c] && [b, c][1..] == [c] && [c][1..] == [];
    assert Run(s2, [c]) == Run(s3, []);
    assert Run(s1, [b, c]) == Run(s2, [c]);
  }

  lemma OneStep(s: State, s1: State, a: Step)
    requires Next(s, a) == Some(s1)
    ensures Run(s, [a]) == Some(s1)
  {
    hide Next;
    assert Run(s1, [a][1..]) == Some(s1);
  }

  lemma TwoSteps(s: State, s1: State, s2: State, a: Step, b: Step)
    requires Next(s, a) == Some(s1) && Next(s1, b) == Some(s2)
    ensures Run(s, [a, b]) == Some(s2)
  {
    hide Next;
    assert [a, b][1..] == [b] && [b][1..] == [];
    assert Run(s1, [b]) == Run(s2, []);
  }

  lemma ClosePayloadSize(code: nat, reason: bytes)
    ensures |ClosePayload(code, reason)| == 2 + |reason|
  {
  }

  /** What a peer decodes is what was asked for in the frames written whole. */
  ghost predicate PeerSeesAsked(s: State) {
    DecodeAll(s.wire, 0).0 == FramesFor(s.asked)
  }

  /** It stays so in every run from s in which no further frame is given up by a write of nothing. */
  ghost predicate StaysFramed(s: State) {
    forall steps :: Run(s, steps).Some? && Progress(s, steps) ==> PeerSeesAsked(Run(s, steps).value)
  }

  lemma {:induction false} ByteBelow(b: bytes, i: nat)
    requires i < |b|
    ensures FromBigEndian(b) >= b[i]
  {
    var front := b[..|b| - 1];
    if i < |front| {
      ByteBelow(front, i);
      assert FromBigEndian(b) == FromBigEndian(front) * 256 + b[|b| - 1];
    }
  }

  /** Behind n bytes of the frame w, a close frame whose payload has another length than that of w
      is not read as such: its first bytes are taken for the header or the body of w. */
  lemma TornHeader(w: WireFrame, n: nat, next: bytes)
    requires w.Valid() && 0 < n < |Encode(w)| && |next| >= 2 && next[0] == 0x88
    ensures var s := Encode(w)[..n] + next;
            Decode(s, 0).Decoded? ==> |Decode(s, 0).frame.payload| >= 8 || |Decode(s, 0).frame.payload| == |w.payload|
  {
    hide BigEndian, FromBigEndian, Masked;
    var s := Encode(w)[..n] + next;
    var k := 2 + FormSize(w.header.form);
    if n >= k {
      hide EncodeHeader, DecodeHeader;
      assert s == EncodeHeader(w.header) + s[k..];
      HeaderRoundTrip(w.header, s[k..]);
    } else if n >= 2 {
      HeaderBits(w.header);
      assert s[1] == w.header.SecondByte();
      if |s| >= k {
        assert s[2..k][n - 2] == 0x88;
        ByteBelow(s[2..k], n - 2);
      }
    } else {
      assert s[1] == 0x88;
    }
  }

  lemma ClientFrameStarts(payload: bytes, key: MaskKey)
    requires |payload| <= 125
    ensures |Encode(ClientFrame(CLOSE, payload, key))| >= 2
    ensures Encode(ClientFrame(CLOSE, payload, key))[0] == 0x88
  {
    hide Masked, BigEndian;
  }

  /** No byte in nothing: a run without such writes makes progress. */
  lemma {:induction false} NoZeroWrites(s: State, steps: seq<Step>)
    requires forall i :: 0 <= i < |steps| ==> !steps[i].SendsNothing?
    ensures Progress(s, steps)
    decreases |steps|
  {
    hide Next;
    if steps != [] && Next(s, steps[0]).Some? {
      NoZeroWrites(Next(s, steps[0]).value, steps[1..]);
    }
  }

  lemma {:induction false} FreshThread(used: set<nat>) returns (t: nat)
    ensures forall u :: u in used ==> u < t
    decreases |used|
  {
    t := 0;
    if used != {} {
      var u :| u in used;
      t := FreshThread(used - {u});
      assert used == used - {u} + {u};
      if t <= u { t := u + 1; }
    }
  }

  /** A close frame written behind n bytes of another frame is not what the peer sees. */
  lemma NextFrameUnseen(s: State, w: WireFrame, n: nat, sent: Sent, next: WireFrame)
    requires AllValid(s.log, 0) && AsFrames(s.log) == FramesFor(s.asked)
    requires w.Valid() && 0 < n < |Encode(w)| && s.wire == EncodeAll(s.log) + Encode(w)[..n]
    requires next.Valid() && Encode(next)[0] == 0x88
    requires |sent.payload| < 8 && |sent.payload| != |w.payload|
    ensures DecodeAll(s.wire + Encode(next), 0).0 != FramesFor(s.asked + [sent])
  {
    hide Encode, Decode, EncodeAll, AsFrames, FramesFor;
    var part := Encode(w)[..n];
    var tail := part + Encode(next);
    assert s.wire + Encode(next) == EncodeAll(s.log) + tail;
    DecodeAllEncodeAll(s.log, tail, 0);
    FramesForAppend(s.asked, sent);
    TornHeader(w, n, Encode(next));
    var frames, seen := AsFrames(s.log), DecodeAll(tail, 0).0;
    assert seen != [] ==> Decode(tail, 0).Decoded? && seen[0] == Decode(tail, 0).frame;
    assert seen != [FrameFor(sent)];
    assert (frames + seen)[|frames|..] == seen;
    assert (frames + [FrameFor(sent)])[|frames|..] == [FrameFor(sent)];
  }

  /** After a frame was given up half way with the TCP client open, one more close frame is enough. */
  lemma FramingBreaks(s: State, w: WireFrame, n: nat) returns (steps: seq<Step>)
    requires AllValid(s.log, 0) && AsFrames(s.log) == FramesFor(s.asked)
    requires w.Valid() && 0 < n < |Encode(w)| && s.wire == EncodeAll(s.log) + Encode(w)[..n]
    requires s.mutex.None? && !s.tcp.isClosed
    ensures Run(s, steps).Some? && Progress(s, steps) && !PeerSeesAsked(Run(s, steps).value)
  {
    hide Encode, EncodeAll, AsFrames, FramesFor, Run, ClientFrame, ClosePayload, DecodeAll;
    var t := FreshThread(s.threads.Keys);
    var reason: bytes := if |w.payload| == 2 then [0] else [];
    var key: MaskKey := [0, 0, 0, 0];
    var sent := Sent(CLOSE, ClosePayload(1000, reason));
    ClosePayloadSize(1000, reason);
    var reply := StartReply(t, 1000, reason);
    var s1 := Next(s, reply).value;
    OneStep(s, s1, reply);
    FrameGoesOut(s1, t, key);
    var next := ClientFrame(CLOSE, sent.payload, key);
    var out := [Lock(t, Some(key)), CheckTcp, Sends(|Encode(next)|)];
    RunJoins(s, [reply], out);
    steps := [reply] + out;
    NoZeroWrites(s, steps);
    ClientFrameStarts(sent.payload, key);
    assert Encode(next)[0..|Encode(next)|] == Encode(next);
    NextFrameUnseen(s, w, n, sent, next);
  }

  lemma GiveUpKeepsInv(s: State)
    requires Inv(s) && s.mutex.Some? && (s.mutex.value.done == 0 || s.tcp.isClosed)
    ensures Inv(GiveUp(s, s.mutex.value))
  {
    hide Encode, EncodeAll, AllValid, AsFrames, FramesFor;
    assert PartOf(Trailing(GiveUp(s, s.mutex.value))) == PartOf(Trailing(s));
  }

  /** `WriteFull` also gives up when a write takes no byte without an error, and then the TCP client
      stays open for the next writer. The peer goes on seeing what was asked for, in every run from
      there, exactly when that write was the first of its frame or the TCP client was closed. */
  lemma FramingSurvivesGiveUp(s: State)
    requires Inv(s) && s.mutex.Some?
    ensures StaysFramed(GiveUp(s, s.mutex.value)) <==> s.mutex.value.done == 0 || s.tcp.isClosed
  {
    hide Encode, EncodeAll, AllValid, AsFrames, FramesFor, Run, Progress, DecodeAll;
    var h := s.mutex.value;
    var g := GiveUp(s, h);
    if h.done == 0 || s.tcp.isClosed {
      assert Inv(g) by { GiveUpKeepsInv(s); }
      forall steps | Run(g, steps).Some? && Progress(g, steps)
        ensures PeerSeesAsked(Run(g, steps).value)
      {
        hide Inv;
        RunKeepsInv(g, steps);
        InvDecodes(Run(g, steps).value);
      }
    } else {
      var steps := FramingBreaks(g, h.w, h.done);
    }
  }

  lemma EmptyTextFrame(key: MaskKey) returns (e: bytes)
    ensures e == Encode(ClientFrame(TEXT, [], key)) == [0x81, 0x80] + key
  {
    e := Encode(ClientFrame(TEXT, [], key));
    assert Masked([], key) == [] && BigEndian(0, 0) == [];
  }

  lemma OneDecoded(s: bytes, f: Frame)
    requires Decode(s, 0) == Decoded(f, [])
    ensures DecodeAll(s, 0) == ([f], [])
  {
    assert Decode([], 0) == ShortRead;
    hide Decode;
    assert DecodeAll([], 0) == ([], []);
    assert [f] + [] == [f];
  }

  lemma SwallowedHeader(rest: bytes)
    ensures DecodeHeader([0x81, 0x81] + rest) == Some((Header(true, 0, TEXT, true, Seven, 1), rest))
  {
    var s := [0x81, 0x81] + rest;
    assert s[2..] == rest;
  }

  lemma SwallowedBody(key: MaskKey)
    ensures var k := [0x80, key[0], key[1], key[2]];
            DecodeBody(true, 1, [0x80] + key) == Some((Some(k), [Xor(key[3], 0x80)], []))
  {
    hide Xor;
    var body, k := [0x80] + key, [0x80, key[0], key[1], key[2]];
    assert body[..4] == k && body[4..5] == [key[3]] && body[5..] == [];
    assert Masked([key[3]], k) == [Xor(key[3], 0x80)];
  }

  lemma SwallowedFrame(key: MaskKey)
    ensures DecodeAll([0x81] + ([0x81, 0x80] + key), 0) == ([Frame(true, TEXT, true, [Xor(key[3], 0x80)])], [])
  {
    hide Xor, DecodeHeader, DecodeBody, DecodeAll;
    var s := [0x81] + ([0x81, 0x80] + key);
    assert s == [0x81, 0x81] + ([0x80] + key);
    SwallowedHeader([0x80] + key);
    SwallowedBody(key);
    OneDecoded(s, Frame(true, TEXT, true, [Xor(key[3], 0x80)]));
  }

  /** A frame is given up after its first byte. */
  lemma GivenUpAfterOne(s: State, t: nat, key: MaskKey)
    requires s.At(t) == Waiting(Sent(TEXT, []), Return) && s.mutex.None? && !s.tcp.isClosed
    ensures var w := ClientFrame(TEXT, [], key);
            var r := Run(s, [Lock(t, Some(key)), CheckTcp, Sends(1)] + [CheckTcp, SendsNothing]);
            && r.Some?
            && r.value == Put(Put(s, t, Writing), t, Released(Return)).(
                            wire := s.wire + Encode(w)[0..1], torn := Some((w, 1)),
                            returned := s.returned + [Report(Sent(TEXT, []), false)])
  {
    hide Encode, ClientFrame, Run;
    var w := ClientFrame(TEXT, [], key);
    var a, b := [Lock(t, Some(key)), CheckTcp, Sends(1)], [CheckTcp, SendsNothing];
    var s1 := Next(s, a[0]).value;
    var s2 := Next(s1, a[1]).value;
    var s3 := Next(s2, a[2]).value;
    ThreeSteps(s, s1, s2, s3, a[0], a[1], a[2]);
    var s4 := Next(s3, b[0]).value;
    var s5 := Next(s4, b[1]).value;
    TwoSteps(s3, s4, s5, b[0], b[1]);
    RunJoins(s, a, b);
  }

  lemma NoFrames()
    ensures FramesFor([]) == []
  {
  }

  /** A run that shows it: of two empty text frames the first is given up after one byte, and the
      second, written whole, is read as the rest of it. The peer sees one frame with one byte. */
  lemma TornFrameSwallowsNext(k1: MaskKey, k2: MaskKey) returns (steps: seq<Step>)
    ensures Run(INIT, steps).Some?
    ensures var s := Run(INIT, steps).value;
            && s.asked == [Sent(TEXT, [])] && !PeerSeesAsked(s)
            && DecodeAll(s.wire, 0) == ([Frame(true, TEXT, true, [Xor(k2[3], 0x80)])], [])
  {
    hide Run, Encode, ClientFrame, DecodeAll, Xor, FramesFor;
    var s1 := Next(INIT, StartWrite(1, TEXT, [])).value;
    var s2 := Next(s1, StartWrite(2, TEXT, [])).value;
    var starts := [StartWrite(1, TEXT, []), StartWrite(2, TEXT, [])];
    TwoSteps(INIT, s1, s2, starts[0], starts[1]);
    var first := [Lock(1, Some(k1)), CheckTcp, Sends(1)] + [CheckTcp, SendsNothing];
    GivenUpAfterOne(s2, 1, k1);
    var s3 := Run(s2, first).value;
    var e1 := EmptyTextFrame(k1);
    var e2 := EmptyTextFrame(k2);
    var second := [Lock(2, Some(k2)), CheckTcp, Sends(|e2|)];
    FrameGoesOut(s3, 2, k2);
    var s := Run(s3, second).value;
    RunJoins(s2, first, second);
    RunJoins(INIT, starts, first + second);
    steps := starts + (first + second);
    assert s.wire == [0x81] + e2 by { assert [] + e1[0..1] == [0x81] && e2[0..|e2|] == e2; }
    SwallowedFrame(k2);
    FramesForAppend([], Sent(TEXT, []));
    assert [] + [Sent(TEXT, [])] == [Sent(TEXT, [])];
    assert FramesFor(s.asked)[|FramesFor([])|].payload == [];
    assert |DecodeAll(s.wire, 0).0[0].payload| == 1;
    assert FramesFor([]) == [] by { NoFrames(); }
  }

  /** A writer that was past the closed check when `Close` ran still gets its frame out, after the
      close frame. */
  lemma DataAfterClose(payload: bytes, k1: MaskKey, k2: MaskKey) returns (steps: seq<Step>)
    requires |payload| <= INT64_MAX
    ensures Run(INIT, steps).Some? && Run(INIT, steps).value.wsClosed
    ensures Run(INIT, steps).value.log ==
            [ClientFrame(CLOSE, ClosePayload(1000, NORMAL_CLOSURE), k2), ClientFrame(TEXT, payload, k1)]
  {
    hide Encode, ClientFrame, Run, ClosePayload;
    var bye := ClosePayload(1000, NORMAL_CLOSURE);
    ClosePayloadSize(1000, NORMAL_CLOSURE);
    var s1 := Next(INIT, StartWrite(1, TEXT, payload)).value;
    var s2 := Next(s1, StartClose(2)).value;
    var starts := [StartWrite(1, TEXT, payload), StartClose(2)];
    assert Run(INIT, starts) == Some(s2) by { TwoSteps(INIT, s1, s2, starts[0], starts[1]); }
    var n2 := |Encode(ClientFrame(CLOSE, bye, k2))|;
    var n1 := |Encode(ClientFrame(TEXT, payload, k1))|;
    var close := [Lock(2, Some(k2)), CheckTcp, Sends(n2)];
    var text := [Lock(1, Some(k1)), CheckTcp, Sends(n1)];
    FrameGoesOut(s2, 2, k2);
    var s3 := Run(s2, close).value;
    FrameGoesOut(s3, 1, k1);
    RunJoins(s2, close, text);
    RunJoins(INIT, starts, close + text);
    steps := starts + (close + text);
  }

  const BYE: Sent := Sent(CLOSE, ClosePayload(1000, NORMAL_CLOSURE))

  /** A whole frame in one write. */
  function WholeFrame(f: Sent, t: nat, key: MaskKey): seq<Step>
    requires |f.payload| <= INT64_MAX
  {
    [Lock(t, Some(key)), CheckTcp, Sends(|Encode(ClientFrame(f.opcode, f.payload, key))|)]
  }

  /** The reader answers a close frame of the peer, whatever `isClosed` says. */
  lemma ReplyGoesOut(s: State, t: nat, code: nat, reason: bytes, key: MaskKey) returns (steps: seq<Step>)
    requires s.At(t).Idle? && s.mutex.None? && !s.tcp.isClosed && 2 + |reason| <= INT64_MAX
    ensures Run(s, steps).Some?
    ensures Run(s, steps).value.asked == s.asked + [Sent(CLOSE, ClosePayload(code, reason))]
  {
    hide Encode, ClientFrame, Run, ClosePayload;
    ClosePayloadSize(code, reason);
    var reply := StartReply(t, code, reason);
    var s1 := Next(s, reply).value;
    OneStep(s, s1, reply);
    FrameGoesOut(s1, t, key);
    var out := WholeFrame(s1.At(t).frame, t, key);
    RunJoins(s, [reply], out);
    steps := [reply] + out;
  }

  /** The close frame of `Close`: code 1000 and the reason. */
  lemma ByeIs()
    ensures BYE == Sent(8, [0x03, 0xE8] + Ascii("normal closure"))
  {
    hide Ascii, BigEndian;
    ThousandBytes();
  }

  /** The answer to a close frame of the peer is written without a look at `isClosed`, so it can
      follow the close frame of `Close` even when nobody else was past the closed check. */
  lemma ReplyAfterClose(key: MaskKey) returns (steps: seq<Step>)
    ensures Run(INIT, steps).Some?
    ensures Run(INIT, steps).value.asked == [BYE, Sent(CLOSE, ClosePayload(1000, []))]
  {
    hide Encode, ClientFrame, Run, ClosePayload;
    ClosePayloadSize(1000, NORMAL_CLOSURE);
    ClosePayloadSize(1000, []);
    var s1 := Next(INIT, StartClose(1)).value;
    OneStep(INIT, s1, StartClose(1));
    var bye := WholeFrame(BYE, 1, key);
    FrameGoesOut(s1, 1, key);
    var s2 := Run(s1, bye).value;
    var reply := ReplyGoesOut(s2, 2, 1000, [], key);
    RunJoins(s1, bye, reply);
    RunJoins(INIT, [StartClose(1)], bye + reply);
    steps := [StartClose(1)] + (bye + reply);
    assert [] + [BYE] + [Sent(CLOSE, ClosePayload(1000, []))] == [BYE, Sent(CLOSE, ClosePayload(1000, []))];
  }

  /** A writer that is past the closed check and waits for the mutex. */
  predicate CanWrite(th: Thread) {
    th.Waiting? && |th.frame.payload| <= INT64_MAX
  }

  /** A frame that a peer takes for anything but a close frame. */
  predicate IsData(f: Sent) {
    FrameFor(f).opcode != CLOSE
  }

  ghost predicate DataWaits(s: State, t: nat) {
    exists u :: u != t && CanWrite(s.At(u)) && IsData(s.At(u).frame)
  }

  /** Nothing but close frames was written since. */
  ghost predicate OnlyCloses(before: seq<Sent>, after: seq<Sent>) {
    before <= after && forall i :: |before| <= i < |after| ==> !IsData(after[i])
  }

  /** The client is marked closed, nobody who waits has a data frame, and neither has the holder of
      the mutex, unless t is still waiting for it. */
  ghost predicate ClosesOnly(s: State, t: nat) {
    && s.wsClosed
    && (forall u :: CanWrite(s.At(u)) ==> !IsData(s.At(u).frame))
    && (s.mutex.Some? && IsData(s.mutex.value.asked) ==> s.At(t).Waiting?)
  }

  /** Once the client is marked closed, only close frames come to wait. */
  lemma WaitersStep(s: State, step: Step, u: nat)
    requires s.wsClosed && Next(s, step).Some?
    ensures var s' := Next(s, step).value;
            s'.wsClosed && (s'.At(u).Waiting? ==> s'.At(u) == s.At(u) || s'.At(u).frame.opcode == CLOSE)
  {
    hide Encode, ClientFrame, ClosePayload;
  }

  lemma HeldStep(s: State, t: nat, step: Step)
    requires ClosesOnly(s, t) && Next(s, step).Some?
    ensures var s' := Next(s, step).value;
            s'.mutex.Some? && IsData(s'.mutex.value.asked) ==> s'.At(t).Waiting?
  {
    hide Encode, ClientFrame, ClosePayload;
    assert step.Lock? ==> CanWrite(s.At(step.t));
  }

  lemma ClosesOnlyStep(s: State, t: nat, step: Step)
    requires ClosesOnly(s, t) && Next(s, step).Some?
    ensures ClosesOnly(Next(s, step).value, t)
  {
    hide Next;
    HeldStep(s, t, step);
    WaitersStep(s, step, t);
    var s' := Next(s, step).value;
    forall u | CanWrite(s'.At(u))
      ensures !IsData(s'.At(u).frame)
    {
      WaitersStep(s, step, u);
    }
  }

  /** The holder's frame is the only one that a step can complete. */
  lemma StepWrites(s: State, step: Step)
    requires Next(s, step).Some?
    ensures var s' := Next(s, step).value;
            || s'.asked == s.asked
            || (s.mutex.Some? && s'.mutex.None? && s'.asked == s.asked + [s.mutex.value.asked])
  {
    hide Encode, ClientFrame, ClosePayload;
  }

  predicate NoDataHeld(s: State) {
    s.mutex.Some? ==> !IsData(s.mutex.value.asked)
  }

  lemma NoDataHeldStep(s: State, t: nat, step: Step)
    requires ClosesOnly(s, t) && NoDataHeld(s) && Next(s, step).Some?
    ensures NoDataHeld(Next(s, step).value)
  {
    hide Encode, ClientFrame, ClosePayload;
    assert step.Lock? ==> CanWrite(s.At(step.t));
  }

  /** Data is written only while t is waiting. */
  lemma {:induction false} ClosesOnlyRun(s: State, t: nat, steps: seq<Step>)
    requires ClosesOnly(s, t) && Run(s, steps).Some?
    ensures var s' := Run(s, steps).value;
            && ClosesOnly(s', t)
            && (NoDataHeld(s) ==> NoDataHeld(s') && OnlyCloses(s.asked, s'.asked))
    decreases |steps|
  {
    hide Next, ClosesOnly;
    if steps != [] {
      var s1 := Next(s, steps[0]).value;
      ClosesOnlyStep(s, t, steps[0]);
      StepWrites(s, steps[0]);
      if NoDataHeld(s) { NoDataHeldStep(s, t, steps[0]); }
      ClosesOnlyRun(s1, t, steps[1..]);
    }
  }

  /** The TCP client is closed, and t has not had the mutex yet or nobody can write any more. */
  ghost predicate TooLate(s: State, t: nat) {
    s.tcp.isClosed && (s.At(t).Waiting? || Dead(s))
  }

  lemma TooLateStep(s: State, t: nat, step: Step)
    requires TooLate(s, t) && Next(s, step).Some?
    ensures TooLate(Next(s, step).value, t)
  {
    hide Encode, ClientFrame, ClosePayload, Tcp.Break, Tcp.Close;
  }

  lemma {:induction false} TooLateRun(s: State, t: nat, steps: seq<Step>)
    requires TooLate(s, t) && Run(s, steps).Some?
    ensures TooLate(Run(s, steps).value, t)
    decreases |steps|
  {
    hide Next, TooLate;
    if steps != [] {
      TooLateStep(s, t, steps[0]);
      TooLateRun(Next(s, steps[0]).value, t, steps[1..]);
    }
  }

  /** The `Close` of t has just got its close frame out. */
  predicate ByeIsOut(s: State, t: nat) {
    s.At(t).Released? && s.asked != [] && s.asked[|s.asked| - 1] == BYE
  }

  /** In some run from s, a frame gets out behind the close frame of t. */
  ghost predicate FrameFollows(s: State, t: nat) {
    exists a, b ::
      && Run(s, a).Some? && ByeIsOut(Run(s, a).value, t)
      && Run(Run(s, a).value, b).Some?
      && Run(Run(s, a).value, b).value.asked != Run(s, a).value.asked
  }

  /** The same for a frame that is not a close frame. */
  ghost predicate DataFollows(s: State, t: nat) {
    exists a, b ::
      && Run(s, a).Some? && ByeIsOut(Run(s, a).value, t)
      && Run(Run(s, a).value, b).Some?
      && !OnlyCloses(Run(s, a).value.asked, Run(Run(s, a).value, b).value.asked)
  }

  lemma NothingFollows(s: State, t: nat, a: seq<Step>, b: seq<Step>)
    requires s.At(t).Waiting? && s.tcp.isClosed
    requires Run(s, a).Some? && Run(s, a).value.At(t).Released? && Run(Run(s, a).value, b).Some?
    ensures Run(Run(s, a).value, b).value.asked == Run(s, a).value.asked
  {
    hide Next, Run, Dead;
    TooLateRun(s, t, a);
    DeadStaysDead(Run(s, a).value, b);
  }

  lemma NoDataFollows(s: State, t: nat, a: seq<Step>, b: seq<Step>)
    requires ClosesOnly(s, t)
    requires Run(s, a).Some? && Run(s, a).value.At(t).Released? && Run(Run(s, a).value, b).Some?
    ensures OnlyCloses(Run(s, a).value.asked, Run(Run(s, a).value, b).value.asked)
  {
    hide Next, Run, OnlyCloses;
    ClosesOnlyRun(s, t, a);
    ClosesOnlyRun(Run(s, a).value, t, b);
  }

  /** Whoever has the mutex can complete its frame in one write. */
  lemma HolderFinishes(s: State) returns (steps: seq<Step>)
    requires HolderWriting(s) && s.mutex.Some? && !s.tcp.isClosed
    ensures Run(s, steps).Some?
    ensures var s', h := Run(s, steps).value, s.mutex.value;
            && s'.mutex.None? && !s'.tcp.isClosed && s'.threads == s.threads[h.t := Released(h.next)]
  {
    hide Encode, Run;
    var h := s.mutex.value;
    var n := |Encode(h.w)| - h.done;
    if h.checked {
      var s1 := Next(s, Sends(n)).value;
      OneStep(s, s1, Sends(n));
      steps := [Sends(n)];
    } else {
      var s1 := Next(s, CheckTcp).value;
      var s2 := Next(s1, Sends(n)).value;
      TwoSteps(s, s1, s2, CheckTcp, Sends(n));
      steps := [CheckTcp, Sends(n)];
    }
  }

  /** With t waiting and the TCP client open, the frame of t can go out while all others wait. */
  lemma WaiterGoesOut(s: State, t: nat, key: MaskKey) returns (steps: seq<Step>)
    requires HolderWriting(s) && !s.tcp.isClosed && CanWrite(s.At(t))
    ensures Run(s, steps).Some?
    ensures var s' := Run(s, steps).value;
            && s'.mutex.None? && !s'.tcp.isClosed && s'.At(t).Released?
            && s'.asked != [] && s'.asked[|s'.asked| - 1] == s.At(t).frame
            && forall u :: u != t && s.At(u).Waiting? ==> s'.At(u) == s.At(u)
  {
    hide Run, Encode, ClientFrame, ProperPart;
    var first, free := [], s;
    OneRun(s);
    if s.mutex.Some? {
      first := HolderFinishes(s);
      free := Run(s, first).value;
      assert forall u :: s.At(u).Waiting? ==> free.At(u) == s.At(u);
    }
    var second := WholeFrame(free.At(t).frame, t, key);
    FrameGoesOut(free, t, key);
    RunJoins(s, first, second);
    steps := first + second;
  }

  lemma DataWriterFollows(s: State, t: nat, u: nat)
    requires HolderWriting(s) && !s.tcp.isClosed && CanWrite(s.At(t)) && s.At(t).frame == BYE
    requires t != u && CanWrite(s.At(u)) && IsData(s.At(u).frame)
    ensures DataFollows(s, t)
  {
    hide Run, HolderWriting, Encode, ClientFrame, ClosePayload;
    var key: MaskKey := [0, 0, 0, 0];
    var a := WaiterGoesOut(s, t, key);
    var s2 := Run(s, a).value;
    var b := WholeFrame(s2.At(u).frame, u, key);
    FrameGoesOut(s2, u, key);
    var s3 := Run(s2, b).value;
    assert IsData(s3.asked[|s2.asked|]);
    assert !OnlyCloses(Run(s, a).value.asked, Run(Run(s, a).value, b).value.asked);
  }

  lemma ReplyFollows(s: State, t: nat)
    requires HolderWriting(s) && !s.tcp.isClosed && CanWrite(s.At(t)) && s.At(t).frame == BYE
    ensures FrameFollows(s, t)
  {
    hide Run, HolderWriting, Encode, ClientFrame, ClosePayload;
    var key: MaskKey := [0, 0, 0, 0];
    var a := WaiterGoesOut(s, t, key);
    var s2 := Run(s, a).value;
    var u := FreshThread(s2.threads.Keys);
    var b := ReplyGoesOut(s2, u, 1000, [], key);
    assert |Run(s2, b).value.asked| == |s2.asked| + 1;
    assert Run(Run(s, a).value, b).value.asked != Run(s, a).value.asked;
  }

  lemma AfterSwap(s: State, t: nat)
    requires HolderWriting(s) && !s.wsClosed && s.At(t).Idle?
    ensures var s1 := Next(s, StartClose(t)).value;
            && HolderWriting(s1) && s1.wsClosed && s1.tcp.isClosed == s.tcp.isClosed && s1.mutex == s.mutex
            && CanWrite(s1.At(t)) && s1.At(t).frame == BYE && s1.At(t).next.CloseTcp?
            && (forall u :: u != t ==> s1.At(u) == s.At(u))
  {
    hide ClosePayload, ProperPart;
    ClosePayloadSize(1000, NORMAL_CLOSURE);
  }

  lemma QuietAtSwap(s: State, t: nat, s1: State)
    requires !DataWaits(s, t) && s1.wsClosed && s1.At(t).Waiting? && s1.At(t).frame == BYE
    requires forall u :: u != t ==> s1.At(u) == s.At(u)
    ensures ClosesOnly(s1, t)
  {
    hide ClosePayload;
    forall u | CanWrite(s1.At(u))
      ensures !IsData(s1.At(u).frame)
    {
      assert u != t ==> s1.At(u) == s.At(u);
    }
  }

  lemma SameIsOnlyCloses(sents: seq<Sent>)
    ensures OnlyCloses(sents, sents)
  {
  }

  /** `Close` swaps `isClosed` and only then waits for the mutex. In some run a frame that is not a
      close frame follows the call's own close frame exactly when, at the swap, such a frame of some
      other writer was past the closed check and the TCP client was open. */
  lemma DataAfterCloseExactly(s: State, t: nat)
    requires HolderWriting(s) && !s.wsClosed && s.At(t).Idle?
    ensures DataFollows(Next(s, StartClose(t)).value, t) <==> DataWaits(s, t) && !s.tcp.isClosed
  {
    hide Run, HolderWriting, OnlyCloses;
    var s1 := Next(s, StartClose(t)).value;
    AfterSwap(s, t);
    if DataWaits(s, t) && !s.tcp.isClosed {
      var u :| u != t && CanWrite(s.At(u)) && IsData(s.At(u).frame);
      DataWriterFollows(s1, t, u);
    } else {
      forall a, b | Run(s1, a).Some? && ByeIsOut(Run(s1, a).value, t) && Run(Run(s1, a).value, b).Some?
        ensures OnlyCloses(Run(s1, a).value.asked, Run(Run(s1, a).value, b).value.asked)
      {
        if s.tcp.isClosed {
          NothingFollows(s1, t, a, b);
          SameIsOnlyCloses(Run(s1, a).value.asked);
        } else {
          assert ClosesOnly(s1, t) by { QuietAtSwap(s, t, s1); }
          NoDataFollows(s1, t, a, b);
        }
      }
    }
  }

  /** In some run any frame at all follows it exactly when the TCP client was open: a peer's close
      frame may be answered at any time. */
  lemma FrameAfterCloseExactly(s: State, t: nat)
    requires HolderWriting(s) && !s.wsClosed && s.At(t).Idle?
    ensures FrameFollows(Next(s, StartClose(t)).value, t) <==> !s.tcp.isClosed
  {
    hide Run, HolderWriting;
    var s1 := Next(s, StartClose(t)).value;
    AfterSwap(s, t);
    if s.tcp.isClosed {
      forall a, b | Run(s1, a).Some? && ByeIsOut(Run(s1, a).value, t) && Run(Run(s1, a).value, b).Some?
        ensures Run(Run(s1, a).value, b).value.asked == Run(s1, a).value.asked
      {
        NothingFollows(s1, t, a, b);
      }
    } else {
      ReplyFollows(s1, t);
    }
  }

  /** If, at the swap, no other writer had a frame past the closed check that is not a close frame,
      waiting or under way, then in every run only close frames are written. */
  lemma OnlyCloseFramesFollow(s: State, t: nat, steps: seq<Step>)
    requires HolderWriting(s) && !s.wsClosed && s.At(t).Idle?
    requires !DataWaits(s, t) && NoDataHeld(s)
    requires Run(Next(s, StartClose(t)).value, steps).Some?
    ensures OnlyCloses(s.asked, Run(Next(s, StartClose(t)).value, steps).value.asked)
  {
    hide Run, HolderWriting, OnlyCloses, ClosePayload;
    var s1 := Next(s, StartClose(t)).value;
    AfterSwap(s, t);
    assert ClosesOnly(s1, t) by { QuietAtSwap(s, t, s1); }
    ClosesOnlyRun(s1, t, steps);
  }

  /** No answer to a close frame of the peer begins. */
  ghost predicate NoReply(steps: seq<Step>) {
    forall i :: 0 <= i < |steps| ==> !steps[i].StartReply?
  }

  ghost predicate OthersQuiet(s: State, t: nat) {
    forall u :: u != t ==> !CanWrite(s.At(u))
  }

  /** Nobody but t writes, and t has yet to complete its close frame or has done so. */
  ghost predicate OnlyBye(s: State, t: nat, before: seq<Sent>) {
    && s.wsClosed && OthersQuiet(s, t)
    && (s.mutex.Some? ==> s.mutex.value.t == t && s.mutex.value.asked == BYE && s.At(t).Writing?)
    && (s.At(t).Waiting? ==> s.At(t).frame == BYE)
    && (s.At(t).Waiting? || s.At(t).Writing? ==> s.asked == before)
    && (s.asked == before || s.asked == before + [BYE])
  }

  lemma QuietStep(s: State, t: nat, step: Step)
    requires s.wsClosed && OthersQuiet(s, t) && Next(s, step).Some? && !step.StartReply?
    ensures OthersQuiet(Next(s, step).value, t) && (step.Lock? ==> step.t == t)
  {
    hide Encode, ClientFrame, ClosePayload;
    assert step.Lock? ==> CanWrite(s.At(step.t));
    forall u | u != t
      ensures !CanWrite(Next(s, step).value.At(u))
    {
      assert !CanWrite(s.At(u));
    }
  }

  lemma OnlyByeStep(s: State, t: nat, before: seq<Sent>, step: Step)
    requires OnlyBye(s, t, before) && Next(s, step).Some? && !step.StartReply?
    ensures OnlyBye(Next(s, step).value, t, before)
  {
    hide Encode, ClientFrame, ClosePayload, OthersQuiet;
    QuietStep(s, t, step);
  }

  lemma {:induction false} OnlyByeRun(s: State, t: nat, before: seq<Sent>, steps: seq<Step>)
    requires OnlyBye(s, t, before) && Run(s, steps).Some? && NoReply(steps)
    ensures OnlyBye(Run(s, steps).value, t, before)
    decreases |steps|
  {
    hide Next, OnlyBye;
    if steps != [] {
      OnlyByeStep(s, t, before, steps[0]);
      OnlyByeRun(Next(s, steps[0]).value, t, before, steps[1..]);
    }
  }

  /** If nobody else was waiting or writing at the swap, only close frames are written after it in any
      run: the call's own, and answers to the peer's. Until such an answer begins it is the call's own
      at most. */
  lemma CloseFrameIsLast(s: State, t: nat, steps: seq<Step>)
    requires !s.wsClosed && s.At(t).Idle? && s.mutex.None? && OthersQuiet(s, t)
    requires Run(Next(s, StartClose(t)).value, steps).Some?
    ensures var s' := Run(Next(s, StartClose(t)).value, steps).value;
            && OnlyCloses(s.asked, s'.asked)
            && (NoReply(steps) ==> s'.asked == s.asked || s'.asked == s.asked + [BYE])
  {
    hide Run, ClosePayload, OnlyCloses, CanWrite, NoReply;
    var s1 := Next(s, StartClose(t)).value;
    AfterSwap(s, t);
    OnlyCloseFramesFollow(s, t, steps);
    if NoReply(steps) { OnlyByeRun(s1, t, s.asked, steps); }
  }

  lemma HolderStep(s: State, step: Step)
    requires HolderWriting(s) && Next(s, step).Some?
    ensures HolderWriting(Next(s, step).value)
  {
    hide Encode, ClientFrame, ClosePayload;
  }

  /** Who has the mutex is writing in every state of every run. */
  lemma {:induction false} HolderKeepsWriting(s: State, steps: seq<Step>)
    requires HolderWriting(s) && Run(s, steps).Some?
    ensures HolderWriting(Run(s, steps).value)
    decreases |steps|
  {
    hide Next, HolderWriting;
    if steps != [] {
      HolderStep(s, steps[0]);
      HolderKeepsWriting(Next(s, steps[0]).value, steps[1..]);
    }
  }

  /** The `Close` of t is under way and will go on to the TCP client. */
  ghost predicate OnItsWay(s: State, t: nat) {
    || (s.At(t).Waiting? && s.At(t).next.CloseTcp?)
    || (s.At(t).Writing? && s.mutex.Some? && s.mutex.value.t == t && s.mutex.value.next.CloseTcp?)
    || s.At(t) == Released(CloseTcp)
  }

  ghost predicate WillClose(s: State, t: nat) {
    s.tcp.isClosed || OnItsWay(s, t)
  }

  lemma ClosedStep(s: State, step: Step)
    requires s.tcp.isClosed && Next(s, step).Some?
    ensures Next(s, step).value.tcp.isClosed
  {
    hide Encode, ClientFrame, ClosePayload, Tcp.Break, Tcp.Close;
  }

  lemma OnItsWayStep(s: State, t: nat, step: Step)
    requires OnItsWay(s, t) && HolderWriting(s) && Next(s, step).Some?
    ensures WillClose(Next(s, step).value, t)
  {
    hide Encode, ClientFrame, ClosePayload, ProperPart, Tcp.Break, Tcp.Close;
  }

  lemma WillCloseStep(s: State, t: nat, step: Step)
    requires WillClose(s, t) && HolderWriting(s) && Next(s, step).Some?
    ensures WillClose(Next(s, step).value, t)
  {
    hide Next, OnItsWay, HolderWriting;
    if s.tcp.isClosed {
      ClosedStep(s, step);
    } else {
      OnItsWayStep(s, t, step);
    }
  }

  lemma {:induction false} WillCloseRun(s: State, t: nat, steps: seq<Step>)
    requires WillClose(s, t) && HolderWriting(s) && Run(s, steps).Some?
    ensures WillClose(Run(s, steps).value, t)
    decreases |steps|
  {
    hide Next, WillClose, HolderWriting;
    if steps != [] {
      HolderStep(s, steps[0]);
      WillCloseStep(s, t, steps[0]);
      WillCloseRun(Next(s, steps[0]).value, t, steps[1..]);
    }
  }

  /** The answer of t to a close frame is under way and will mark the WebSocket closed, or it is. */
  ghost predicate WillMark(s: State, t: nat) {
    || s.wsClosed
    || (s.At(t).Waiting? && s.At(t).next.MarkClosed?)
    || (s.At(t).Writing? && s.mutex.Some? && s.mutex.value.t == t && s.mutex.value.next.MarkClosed?)
    || s.At(t) == Released(MarkClosed)
  }

  lemma WillMarkStep(s: State, t: nat, step: Step)
    requires WillMark(s, t) && HolderWriting(s) && Next(s, step).Some?
    ensures WillMark(Next(s, step).value, t)
  {
    hide Encode, ClientFrame, ClosePayload, ProperPart, Tcp.Break, Tcp.Close;
  }

  lemma {:induction false} WillMarkRun(s: State, t: nat, steps: seq<Step>)
    requires WillMark(s, t) && HolderWriting(s) && Run(s, steps).Some?
    ensures WillMark(Run(s, steps).value, t)
    decreases |steps|
  {
    hide Next, WillMark, HolderWriting;
    if steps != [] {
      HolderStep(s, steps[0]);
      WillMarkStep(s, t, steps[0]);
      WillMarkRun(Next(s, steps[0]).value, t, steps[1..]);
    }
  }

  /** Once the answer to a peer's close frame is over, whether it got out or not, no frame is accepted
      any more: `WriteFrame` refuses every writer. */
  lemma NoWriteAfterReply(s: State, t: nat, code: nat, reason: bytes, steps: seq<Step>,
                          u: nat, opcode: byte, payload: bytes)
    requires HolderWriting(s) && Next(s, StartReply(t, code, reason)).Some?
    requires Run(Next(s, StartReply(t, code, reason)).value, steps).Some?
    requires Run(Next(s, StartReply(t, code, reason)).value, steps).value.At(t).Idle?
    ensures Next(Run(Next(s, StartReply(t, code, reason)).value, steps).value, StartWrite(u, opcode, payload)) == None
  {
    hide Run, ClosePayload, ProperPart;
    WillMarkRun(Next(s, StartReply(t, code, reason)).value, t, steps);
  }

  /** In every run in which the call of t is over, the TCP client is marked closed. */
  ghost predicate MarksTcp(s: State, t: nat) {
    forall steps :: Run(s, steps).Some? && Run(s, steps).value.At(t).Idle? ==> Run(s, steps).value.tcp.isClosed
  }

  /** `Close` of the WebSocket goes on to `Close` of the TCP client exactly when it is the call that
      sets `isClosed`. */
  lemma CloseMarksTcpExactly(s: State, t: nat)
    requires HolderWriting(s) && s.At(t).Idle? && !s.tcp.isClosed
    ensures MarksTcp(Next(s, StartClose(t)).value, t) <==> !s.wsClosed
  {
    hide Run, ClosePayload;
    var s1 := Next(s, StartClose(t)).value;
    if s.wsClosed {
      OneRun(s1);
    } else {
      forall steps | Run(s1, steps).Some? && Run(s1, steps).value.At(t).Idle?
        ensures Run(s1, steps).value.tcp.isClosed
      {
        WillCloseRun(s1, t, steps);
      }
    }
  }

  /** The TCP client is marked closed by the call that closes the socket or by a failing write,
      whichever comes first. */
  ghost predicate Marked(s: State) {
    (s.tcp.isClosed <==> s.tcp.connClosed || s.tcp.broke) && !(s.tcp.connClosed && s.tcp.broke)
  }

  lemma MarkedStep(s: State, step: Step)
    requires Marked(s) && Next(s, step).Some?
    ensures var s' := Next(s, step).value;
            && Marked(s') && (s.tcp.broke ==> s'.tcp.broke) && (s.tcp.connClosed ==> s'.tcp.connClosed)
            && (!step.SendFails? ==> s'.tcp.broke == s.tcp.broke)
  {
    hide Encode, ClientFrame, ClosePayload;
  }

  /** No write of the run fails. */
  ghost predicate NoFailure(steps: seq<Step>) {
    forall i :: 0 <= i < |steps| ==> !steps[i].SendFails?
  }

  lemma {:induction false} MarkedRun(s: State, steps: seq<Step>)
    requires Marked(s) && Run(s, steps).Some?
    ensures var s' := Run(s, steps).value;
            && Marked(s') && (s.tcp.broke ==> s'.tcp.broke) && (s.tcp.connClosed ==> s'.tcp.connClosed)
            && (NoFailure(steps) ==> s'.tcp.broke == s.tcp.broke)
    decreases |steps|
  {
    hide Next, Marked;
    if steps != [] {
      MarkedStep(s, steps[0]);
      MarkedRun(Next(s, steps[0]).value, steps[1..]);
    }
  }

  /** When the `Close` that found `isClosed` false is over, the socket is closed if and only if no
      write has failed before, in every run. */
  lemma SocketClosedIff(s: State, t: nat, steps: seq<Step>)
    requires HolderWriting(s) && Marked(s) && !s.wsClosed && s.At(t).Idle?
    requires Run(Next(s, StartClose(t)).value, steps).Some?
    requires Run(Next(s, StartClose(t)).value, steps).value.At(t).Idle?
    ensures var s' := Run(Next(s, StartClose(t)).value, steps).value;
            s'.tcp.isClosed && (s'.tcp.connClosed <==> !s'.tcp.broke)
  {
    hide Run, ClosePayload;
    var s1 := Next(s, StartClose(t)).value;
    WillCloseRun(s1, t, steps);
    MarkedRun(s1, steps);
  }

  /** In every run without a failing write in which the call of t is over, the socket is closed. */
  ghost predicate ReachesSocket(s: State, t: nat) {
    forall steps :: Run(s, steps).Some? && NoFailure(steps) && Run(s, steps).value.At(t).Idle? ==>
      Run(s, steps).value.tcp.connClosed
  }

  /** With the TCP client marked closed, whoever has the mutex gives up. */
  lemma HolderGivesUp(s: State) returns (steps: seq<Step>)
    requires HolderWriting(s) && s.mutex.Some? && s.tcp.isClosed
    ensures NoFailure(steps) && Run(s, steps).Some?
    ensures var s', h := Run(s, steps).value, s.mutex.value;
            && s'.mutex.None? && s'.threads == s.threads[h.t := Released(h.next)]
            && s'.tcp.isClosed && s'.tcp.connClosed == s.tcp.connClosed
  {
    hide Encode, Run, ProperPart;
    var step := if s.mutex.value.checked then SendsNothing else CheckTcp;
    OneStep(s, Next(s, step).value, step);
    steps := [step];
  }

  /** The `Close` of t can come to its end without a write, and finds the TCP client marked. */
  lemma CloseEndsMarked(s: State, t: nat) returns (steps: seq<Step>)
    requires HolderWriting(s) && s.tcp.isClosed && CanWrite(s.At(t)) && s.At(t).next.CloseTcp?
    ensures NoFailure(steps) && Run(s, steps).Some?
    ensures var s' := Run(s, steps).value; s'.At(t).Idle? && s'.tcp.connClosed == s.tcp.connClosed
  {
    hide Run, ProperPart;
    var first, free := [], s;
    OneRun(s);
    if s.mutex.Some? {
      first := HolderGivesUp(s);
      free := Run(s, first).value;
      assert free.At(t) == s.At(t);
    }
    var s1 := Next(free, Lock(t, None)).value;
    var s2 := Next(s1, Finish(t)).value;
    TwoSteps(free, s1, s2, Lock(t, None), Finish(t));
    RunJoins(s, first, [Lock(t, None), Finish(t)]);
    steps := first + [Lock(t, None), Finish(t)];
  }

  lemma NothingFails()
    ensures NoFailure([])
  {
  }

  /** If no write fails from then on, `Close` closes the socket exactly when it is the call that sets
      `isClosed` and no write has failed before: a read error that has set it, and a failed write that
      has marked the TCP client, both leave the connection open. */
  lemma CloseReachesSocketExactly(s: State, t: nat)
    requires HolderWriting(s) && Marked(s) && s.At(t).Idle? && !s.tcp.connClosed
    ensures ReachesSocket(Next(s, StartClose(t)).value, t) <==> !s.wsClosed && !s.tcp.broke
  {
    hide Run, HolderWriting, NoFailure, ClosePayload;
    var s1 := Next(s, StartClose(t)).value;
    if s.wsClosed {
      OneRun(s1);
      assert NoFailure([]) by { NothingFails(); }
    } else {
      AfterSwap(s, t);
      if s.tcp.broke {
        var steps := CloseEndsMarked(s1, t);
      } else {
        forall steps | Run(s1, steps).Some? && NoFailure(steps) && Run(s1, steps).value.At(t).Idle?
          ensures Run(s1, steps).value.tcp.connClosed
        {
          SocketClosedIff(s, t, steps);
          MarkedRun(s1, steps);
        }
      }
    }
  }

  /** A run that shows it: the write of the close frame fails, `Close` returns, and the socket is
      open. It stays open in every run from there. */
  lemma FailedWriteKeepsSocketOpen(key: MaskKey, more: seq<Step>) returns (steps: seq<Step>)
    ensures Run(INIT, steps).Some?
    ensures var s := Run(INIT, steps).value; s.At(1).Idle? && s.wsClosed && s.tcp.isClosed && !s.tcp.connClosed
    ensures var s := Run(INIT, steps).value; Run(s, more).Some? ==> !Run(s, more).value.tcp.connClosed
  {
    hide Run, Encode, ClientFrame, ClosePayload;
    ClosePayloadSize(1000, NORMAL_CLOSURE);
    var a, b := [StartClose(1), Lock(1, Some(key)), CheckTcp], [SendFails(0), Finish(1)];
    var s1 := Next(INIT, a[0]).value;
    var s2 := Next(s1, a[1]).value;
    var s3 := Next(s2, a[2]).value;
    ThreeSteps(INIT, s1, s2, s3, a[0], a[1], a[2]);
    var s4 := Next(s3, b[0]).value;
    var s5 := Next(s4, b[1]).value;
    TwoSteps(s3, s4, s5, b[0], b[1]);
    RunJoins(INIT, a, b);
    steps := a + b;
    if Run(s5, more).Some? { MarkedRun(s5, more); }
  }

  /** No call of `Close` that would go on to close the TCP client is under way, and none can begin. */
  ghost predicate NoCloser(s: State) {
    && s.wsClosed
    && (s.mutex.Some? ==> !s.mutex.value.next.CloseTcp?)
    && forall t :: t in s.threads && (s.threads[t].Waiting? || s.threads[t].Released?) ==> !s.threads[t].next.CloseTcp?
  }

  lemma NoCloserStep(s: State, step: Step)
    requires NoCloser(s) && Next(s, step).Some?
    ensures var s' := Next(s, step).value;
            && NoCloser(s') && s'.tcp.connClosed == s.tcp.connClosed
            && (!step.SendFails? ==> s'.tcp.isClosed == s.tcp.isClosed)
  {
    hide Encode, ClientFrame, ClosePayload;
  }

  /** After a read error `isClosed` is already set, so no later `Close` reaches the TCP client: no run
      closes the socket, and only a failing write ever marks the TCP client closed. */
  lemma {:induction false} ReadErrorLeavesSocketOpen(s: State, steps: seq<Step>)
    requires NoCloser(s) && Run(s, steps).Some?
    ensures var s' := Run(s, steps).value;
            && NoCloser(s') && s'.tcp.connClosed == s.tcp.connClosed
            && (NoFailure(steps) ==> s'.tcp.isClosed == s.tcp.isClosed)
    decreases |steps|
  {
    hide Next, NoCloser;
    if steps != [] {
      NoCloserStep(s, steps[0]);
      ReadErrorLeavesSocketOpen(Next(s, steps[0]).value, steps[1..]);
    }
  }

  lemma ReadErrorOnIdleClient(steps: seq<Step>)
    requires Run(INIT, [ReadFails] + steps).Some?
    ensures var s := Run(INIT, [ReadFails] + steps).value;
            !s.tcp.connClosed && (NoFailure(steps) ==> !s.tcp.isClosed)
  {
    assert ([ReadFails] + steps)[1..] == steps;
    ReadErrorLeavesSocketOpen(Next(INIT, ReadFails).value, steps);
  }

  // ----- what the calls report

  /** What the calls that reported no error were asked for, in their order. */
  function Succeeded(rs: seq<Report>): seq<Sent> {
    if rs == [] then []
    else Succeeded(rs[..|rs| - 1]) + if rs[|rs| - 1].ok then [rs[|rs| - 1].asked] else []
  }

  lemma SucceededAppend(rs: seq<Report>, r: Report)
    ensures Succeeded(rs + [r]) == Succeeded(rs) + if r.ok then [r.asked] else []
  {
    assert (rs + [r])[..|rs|] == rs;
  }

  /** The frames that were written whole are those of the calls that reported no error, in their
      order, and at most one more, the last of all: that of a call whose failing write took the last
      byte. */
  ghost predicate Reported(s: State) {
    || s.asked == Succeeded(s.returned)
    || (exists f :: Dead(s) && Report(f, false) in s.returned && s.asked == Succeeded(s.returned) + [f])
  }

  /** The call that a step ends, if it ends one. */
  function Ended(s: State, step: Step): Option<Report> {
    match Next(s, step)
    case None => None
    case Some(s') =>
      if |s'.returned| > |s.returned| then Some(s'.returned[|s.returned|]) else None
  }

  /** What a step does to the history agrees with the call that it ends. */
  ghost predicate Consistent(s: State, s': State, r: Option<Report>) {
    && s'.returned == (if r.Some? then s.returned + [r.value] else s.returned)
    && (r.Some? && r.value.ok ==> s'.asked == s.asked + [r.value.asked])
    && (r.None? || !r.value.ok ==>
          s'.asked == s.asked || (r.Some? && Dead(s') && s'.asked == s.asked + [r.value.asked]))
  }

  lemma WriteReports(s: State, step: Step)
    requires Next(s, step).Some? && (step.Sends? || step.SendFails?)
    ensures Consistent(s, Next(s, step).value, Ended(s, step))
  {
    hide Encode;
  }

  lemma StepReports(s: State, step: Step)
    requires Next(s, step).Some?
    ensures Consistent(s, Next(s, step).value, Ended(s, step))
  {
    hide Encode, ClientFrame, ClosePayload, Advance, Fail, Dead;
    if step.Sends? || step.SendFails? { WriteReports(s, step); }
  }

  lemma StepKeepsReported(s: State, step: Step)
    requires Reported(s) && Next(s, step).Some?
    ensures Reported(Next(s, step).value)
  {
    hide Next, Succeeded, Ended, Dead;
    var s', r := Next(s, step).value, Ended(s, step);
    StepReports(s, step);
    if r.Some? { SucceededAppend(s.returned, r.value); }
    if s.asked != Succeeded(s.returned) {
      var f :| Dead(s) && Report(f, false) in s.returned && s.asked == Succeeded(s.returned) + [f];
      DeadStep(s, step);
      assert Report(f, false) in s'.returned;
      assert |s'.asked| == |s.asked|;
    }
  }

  lemma {:induction false} RunReports(s: State, steps: seq<Step>)
    requires Reported(s) && Run(s, steps).Some?
    ensures Reported(Run(s, steps).value)
    decreases |steps|
  {
    hide Next, Reported;
    if steps != [] {
      StepKeepsReported(s, steps[0]);
      RunReports(Next(s, steps[0]).value, steps[1..]);
    }
  }

  lemma NothingReported()
    ensures Reported(INIT)
  {
  }

  /** In every run with writes that make progress, a peer sees exactly the frames of the calls that
      reported no error, in their order; a frame of a call that reported an error can only be the
      last of all, when the failing write took its last byte, and then the TCP client is closed. */
  lemma PeerSeesReported(steps: seq<Step>)
    requires Run(INIT, steps).Some? && Progress(INIT, steps)
    ensures var s := Run(INIT, steps).value;
            var seen := DecodeAll(s.wire, 0).0;
            || seen == FramesFor(Succeeded(s.returned))
            || (exists f :: && Report(f, false) in s.returned && s.tcp.isClosed
                            && seen == FramesFor(Succeeded(s.returned)) + [FrameFor(f)])
  {
    hide Run, Progress, DecodeAll, FramesFor, Succeeded;
    assert Reported(INIT) by { NothingReported(); }
    RunReports(INIT, steps);
    WireHoldsWholeFrames(steps);
    var s := Run(INIT, steps).value;
    if s.asked != Succeeded(s.returned) {
      var f :| Dead(s) && Report(f, false) in s.returned && s.asked == Succeeded(s.returned) + [f];
      FramesForAppend(Succeeded(s.returned), f);
    }
  }
}
