/** The frame codec of the WebSocket engine (section 5.2 of RFC 6455). */
module WebSocketFrame {
  import opened Bytes
  import opened Wrappers
  import opened ByteReader

  type MaskKey = k: bytes | |k| == 4 witness [0, 0, 0, 0]

  /** What the reader hands to its caller. */
  datatype Frame = Frame(fin: bool, opcode: byte, masked: bool, payload: bytes)

  datatype DecodeResult =
    | Decoded(frame: Frame, rest: bytes)
    | ShortRead
    | TooLarge

  datatype LengthForm = Seven | Sixteen | SixtyFour

  /** The first bytes of a frame; the length form need not be the shortest. */
  datatype Header = Header(
    fin: bool, reserved: nat, opcode: byte, masked: bool, form: LengthForm, length: nat)
  {
    predicate Valid() {
      && reserved < 8
      && opcode < 16
      && match form
         case Seven => length <= 125
         case Sixteen => length < 0x1_0000
         case SixtyFour => length < 0x1_0000_0000_0000_0000
    }

    function FirstByte(): byte
      requires Valid()
    {
      (if fin then 0x80 else 0) + 16 * reserved + opcode
    }

    function SecondByte(): byte
      requires Valid()
    {
      (if masked then 0x80 else 0) + match form case Seven => length case Sixteen => 126 case SixtyFour => 127
    }
  }

  /** Every frame a peer can put on the wire. */
  datatype WireFrame = WireFrame(header: Header, key: Option<MaskKey>, payload: bytes)
  {
    predicate Valid() {
      header.Valid() && header.length == |payload| <= INT64_MAX && header.masked == key.Some?
    }

    function AsFrame(): Frame {
      Frame(header.fin, header.opcode, header.masked, payload)
    }
  }

  function Masked(payload: bytes, key: MaskKey): (r: bytes)
    ensures |r| == |payload|
  {
    seq(|payload|, i requires 0 <= i < |payload| => Xor(payload[i], key[i % 4]))
  }

  lemma MaskedTwice(payload: bytes, key: MaskKey)
    ensures Masked(Masked(payload, key), key) == payload
  {
    forall i | 0 <= i < |payload|
      ensures Masked(Masked(payload, key), key)[i] == payload[i]
    {
      XorTwice(payload[i], key[i % 4]);
    }
  }

  /** Every byte is masked with the key byte of its place, bit by bit: `wire` holds the payload from
      its index k on. */
  ghost predicate MaskedOnWire(wire: bytes, k: nat, payload: bytes, key: bytes)
    requires |key| == 4
  {
    k + |payload| <= |wire| &&
    forall i, n :: 0 <= i < |payload| && 0 <= n < 8 ==>
      (wire[k + i] / BITS[n] % 2 == 1 <==> payload[i] / BITS[n] % 2 != key[i % 4] / BITS[n] % 2)
  }

  lemma MaskedBits(payload: bytes, key: MaskKey, wire: bytes, k: nat)
    requires k + |payload| <= |wire| && wire[k..k + |payload|] == Masked(payload, key)
    ensures MaskedOnWire(wire, k, payload, key)
  {
    hide Xor;
    forall i, n | 0 <= i < |payload| && 0 <= n < 8
      ensures wire[k + i] / BITS[n] % 2 == 1 <==> payload[i] / BITS[n] % 2 != key[i % 4] / BITS[n] % 2
    {
      assert wire[k + i] == wire[k..k + |payload|][i];
      XorBit(payload[i], key[i % 4], n);
    }
  }

  /** The same read the other way: the payload is what the wire bytes are unmasked to. */
  lemma UnmaskedBits(wire: bytes, k: nat, n: nat, key: MaskKey)
    requires k + n <= |wire|
    ensures MaskedOnWire(wire, k, Masked(wire[k..k + n], key), key)
  {
    hide Masked;
    MaskedTwice(wire[k..k + n], key);
    MaskedBits(Masked(wire[k..k + n], key), key, wire, k);
  }

  function FormSize(form: LengthForm): nat {
    match form case Seven => 0 case Sixteen => 2 case SixtyFour => 8
  }

  function FormOf(second: byte): LengthForm {
    if second % 128 == 126 then Sixteen else if second % 128 == 127 then SixtyFour else Seven
  }

  function EncodeHeader(h: Header): (r: bytes)
    requires h.Valid()
    ensures |r| == 2 + FormSize(h.form)
  {
    [h.FirstByte(), h.SecondByte()] + BigEndian(h.length, FormSize(h.form))
  }

  function DecodeHeader(s: bytes): Option<(Header, bytes)> {
    if |s| < 2 then None
    else
      var form := FormOf(s[1]);
      var k := 2 + FormSize(form);
      if |s| < k then None
      else
        var n := if form.Seven? then s[1] % 128 else FromBigEndian(s[2..k]);
        Some((Header(s[0] >= 0x80, s[0] / 16 % 8, s[0] % 16, s[1] >= 0x80, form, n), s[k..]))
  }

  lemma HeaderBits(h: Header)
    requires h.Valid()
    ensures var b := h.FirstByte(); (b >= 0x80) == h.fin && b / 16 % 8 == h.reserved && b % 16 == h.opcode
    ensures var b := h.SecondByte(); (b >= 0x80) == h.masked && FormOf(b) == h.form
    ensures h.form.Seven? ==> h.SecondByte() % 128 == h.length
  {
  }

  lemma HeaderRoundTrip(h: Header, tail: bytes)
    requires h.Valid()
    ensures DecodeHeader(EncodeHeader(h) + tail) == Some((h, tail))
  {
    HeaderBits(h);
    var s := EncodeHeader(h) + tail;
    var k := 2 + FormSize(h.form);
    assert s[0] == h.FirstByte() && s[1] == h.SecondByte();
    assert s[2..k] == BigEndian(h.length, FormSize(h.form));
    assert s[k..] == tail;
    if !h.form.Seven? {
      Pow256Values();
      BigEndianDecodes(h.length, FormSize(h.form));
    }
    hide FormOf, BigEndian, FromBigEndian;
  }

  lemma BitsHeader(first: byte, second: byte, n: nat)
    ensures var h := Header(first >= 0x80, first / 16 % 8, first % 16, second >= 0x80, FormOf(second), n);
            h.Valid() && (h.form.Seven? ==> n == second % 128) ==> h.FirstByte() == first && h.SecondByte() == second
  {
  }

  lemma HeaderOnlyEncoded(s: bytes)
    requires DecodeHeader(s).Some?
    ensures var (h, rest) := DecodeHeader(s).value; h.Valid() && s == EncodeHeader(h) + rest
  {
    hide FromBigEndian, BigEndian, Pow256, Header.FirstByte, Header.SecondByte;
    var (h, rest) := DecodeHeader(s).value;
    var k := 2 + FormSize(h.form);
    if !h.form.Seven? {
      Pow256Values();
      BigEndianEncodes(s[2..k]);
    }
    BitsHeader(s[0], s[1], h.length);
    assert s == s[..2] + s[2..k] + s[k..];
  }

  function EncodeBody(key: Option<MaskKey>, payload: bytes): (r: bytes)
    ensures |r| == |payload| + if key.Some? then 4 else 0
  {
    if key.Some? then key.value + Masked(payload, key.value) else payload
  }

  /** The payload after a header, if enough bytes follow it. */
  function DecodeBody(masked: bool, n: nat, s: bytes): Option<(Option<MaskKey>, bytes, bytes)> {
    if masked then
      if |s| < 4 + n then None else Some((Some(s[..4]), Masked(s[4..4 + n], s[..4]), s[4 + n..]))
    else
      if |s| < n then None else Some((None, s[..n], s[n..]))
  }

  lemma BodyRoundTrip(key: Option<MaskKey>, payload: bytes, tail: bytes)
    ensures DecodeBody(key.Some?, |payload|, EncodeBody(key, payload) + tail) == Some((key, payload, tail))
  {
    var s, n := EncodeBody(key, payload) + tail, |payload|;
    if key.Some? {
      assert s[..4] == key.value && s[4..4 + n] == Masked(payload, key.value) && s[4 + n..] == tail;
      MaskedTwice(payload, key.value);
    } else {
      assert s[..n] == payload && s[n..] == tail;
    }
  }

  lemma BodyOnlyEncoded(masked: bool, n: nat, s: bytes)
    requires DecodeBody(masked, n, s).Some?
    ensures var (key, payload, rest) := DecodeBody(masked, n, s).value;
            key.Some? == masked && |payload| == n && s == EncodeBody(key, payload) + rest
  {
    if masked {
      MaskedTwice(s[4..4 + n], s[..4]);
      assert s == s[..4] + s[4..4 + n] + s[4 + n..];
    } else {
      assert s == s[..n] + s[n..];
    }
  }

  function Encode(w: WireFrame): (r: bytes)
    requires w.Valid()
    ensures |r| >= 2
  {
    EncodeHeader(w.header) + EncodeBody(w.key, w.payload)
  }

  function ShortestForm(n: nat): LengthForm {
    if n <= 125 then Seven else if n <= 0xFFFF then Sixteen else SixtyFour
  }

  /** The frame that the client sends: final, masked, shortest length form. */
  function ClientFrame(opcode: byte, payload: bytes, key: MaskKey): (w: WireFrame)
    requires |payload| <= INT64_MAX
    ensures w.Valid()
  {
    WireFrame(Header(true, 0, opcode % 16, true, ShortestForm(|payload|), |payload|), Some(key), payload)
  }

  predicate OverLimit(n: nat, limit: int) {
    (limit > 0 && n > limit) || n > INT64_MAX
  }

  /** Reads one frame off the front of s. */
  function Decode(s: bytes, limit: int): DecodeResult {
    match DecodeHeader(s)
    case None => ShortRead
    case Some((h, body)) =>
      if OverLimit(h.length, limit) then TooLarge
      else
        match DecodeBody(h.masked, h.length, body)
        case None => ShortRead
        case Some((_, payload, rest)) => Decoded(Frame(h.fin, h.opcode, h.masked, payload), rest)
  }

  /** Round trip: an encoded frame decodes to itself and leaves exactly what followed it;
      it is refused exactly when its payload is over the limit. */
  lemma DecodeEncode(w: WireFrame, tail: bytes, limit: int)
    requires w.Valid()
    ensures Decode(Encode(w) + tail, limit) ==
            if 0 < limit < |w.payload| then TooLarge else Decoded(w.AsFrame(), tail)
  {
    hide EncodeHeader, DecodeHeader, EncodeBody, DecodeBody;
    var body := EncodeBody(w.key, w.payload);
    assert Encode(w) + tail == EncodeHeader(w.header) + (body + tail);
    HeaderRoundTrip(w.header, body + tail);
    BodyRoundTrip(w.key, w.payload, tail);
  }

  /** The decoder accepts nothing but encoded frames: with DecodeEncode, its domain is
      exactly the image of Encode within the limit, and it consumes exactly one frame. */
  lemma DecodeOnlyEncoded(s: bytes, limit: int) returns (w: WireFrame)
    requires Decode(s, limit).Decoded?
    ensures w.Valid() && !OverLimit(|w.payload|, limit) && w.AsFrame() == Decode(s, limit).frame
    ensures s == Encode(w) + Decode(s, limit).rest
  {
    hide EncodeHeader, DecodeHeader, EncodeBody, DecodeBody;
    var (h, body) := DecodeHeader(s).value;
    var (key, payload, rest) := DecodeBody(h.masked, h.length, body).value;
    HeaderOnlyEncoded(s);
    BodyOnlyEncoded(h.masked, h.length, body);
    w := WireFrame(h, key, payload);
    assert Encode(w) + rest == EncodeHeader(h) + (EncodeBody(key, payload) + rest);
  }

  /** How many bytes the second byte says that the header has. */
  function HeaderSize(s: bytes): nat
    requires |s| >= 2
  {
    if s[1] % 128 == 126 then 4 else if s[1] % 128 == 127 then 10 else 2
  }

  /** The payload length that a header states. */
  function StatedLength(s: bytes): nat
    requires |s| >= 2 && |s| >= HeaderSize(s)
  {
    if s[1] % 128 == 126 then Word(s[2], s[3])
    else if s[1] % 128 == 127 then
      Word(Word(Word(Word(Word(Word(Word(s[2], s[3]), s[4]), s[5]), s[6]), s[7]), s[8]), s[9])
    else s[1] % 128
  }

  lemma HeaderMeans(s: bytes)
    requires |s| >= 2
    ensures DecodeHeader(s).Some? <==> |s| >= HeaderSize(s)
    ensures |s| >= HeaderSize(s) ==>
              var (h, rest) := DecodeHeader(s).value;
              && h.fin == (s[0] >= 128) && h.opcode == s[0] % 16 && h.masked == (s[1] >= 128)
              && h.length == StatedLength(s) && rest == s[HeaderSize(s)..]
  {
    hide FromBigEndian;
    if |s| >= HeaderSize(s) {
      if s[1] % 128 == 126 { FromBigEndianTwo(s[2..4]); }
      if s[1] % 128 == 127 { FromBigEndianEight(s[2..10]); }
    }
  }

  lemma ShortHeader(s: bytes)
    requires |s| < 2
    ensures DecodeHeader(s).None?
  {
  }

  /** What a frame on the wire means: final if the first bit is set, the opcode in the low four bits,
      masked if the first bit of the second byte is set, the length in one of its three forms, then
      the key and the payload masked with it. It is read exactly when all of it is there and the
      length is within the limit. */
  lemma FrameMeans(s: bytes, limit: int)
    ensures var d := Decode(s, limit);
            && (d.Decoded? <==>
                && |s| >= 2 && |s| >= HeaderSize(s)
                && StatedLength(s) <= INT64_MAX && (limit <= 0 || StatedLength(s) <= limit)
                && |s| >= HeaderSize(s) + (if s[1] >= 128 then 4 else 0) + StatedLength(s))
            && (d.Decoded? ==>
                  var k, n := HeaderSize(s), StatedLength(s);
                  && d.frame.fin == (s[0] >= 128) && d.frame.opcode == s[0] % 16
                  && d.frame.masked == (s[1] >= 128) && |d.frame.payload| == n
                  && (s[1] >= 128 ==>
                        MaskedOnWire(s, k + 4, d.frame.payload, s[k..k + 4]) && d.rest == s[k + 4 + n..])
                  && (s[1] < 128 ==> d.frame.payload == s[k..k + n] && d.rest == s[k + n..]))
  {
    hide DecodeHeader, Masked, MaskedOnWire, StatedLength, HeaderSize;
    if |s| >= 2 {
      HeaderMeans(s);
      if |s| >= HeaderSize(s) {
        var k, n := HeaderSize(s), StatedLength(s);
        var body := s[k..];
        if s[1] >= 128 && |body| >= 4 + n {
          assert body[..4] == s[k..k + 4] && body[4..4 + n] == s[k + 4..k + 4 + n] && body[4 + n..] == s[k + 4 + n..];
          UnmaskedBits(s, k + 4, n, s[k..k + 4]);
        } else if s[1] < 128 && |body| >= n {
          assert body[..n] == s[k..k + n] && body[n..] == s[k + n..];
        }
      }
    } else {
      assert DecodeHeader(s).None? by { ShortHeader(s); }
    }
  }

  /** A frame that is cut anywhere is never delivered. */
  lemma DecodeCut(w: WireFrame, n: nat, limit: int)
    requires w.Valid() && n < |Encode(w)|
    ensures !Decode(Encode(w)[..n], limit).Decoded?
  {
    hide FromBigEndian, BigEndian, Masked;
    var s := Encode(w)[..n];
    var k := 2 + FormSize(w.header.form);
    if n >= k {
      hide EncodeHeader, DecodeHeader;
      assert s == EncodeHeader(w.header) + s[k..];
      HeaderRoundTrip(w.header, s[k..]);
    } else if n >= 2 {
      assert s[1] == w.header.SecondByte();
    }
  }

  ghost predicate AllValid(ws: seq<WireFrame>, limit: int) {
    forall i :: 0 <= i < |ws| ==> ws[i].Valid() && !OverLimit(|ws[i].payload|, limit)
  }

  /** Frames back to back. */
  ghost function EncodeAll(ws: seq<WireFrame>): bytes
    requires AllValid(ws, 0)
  {
    if ws == [] then [] else Encode(ws[0]) + EncodeAll(ws[1..])
  }

  function AsFrames(ws: seq<WireFrame>): (r: seq<Frame>)
    ensures |r| == |ws|
  {
    if ws == [] then [] else [ws[0].AsFrame()] + AsFrames(ws[1..])
  }

  lemma DecodeShrinks(s: bytes, limit: int)
    ensures Decode(s, limit).Decoded? ==> |Decode(s, limit).rest| + 2 <= |s|
  {
    if Decode(s, limit).Decoded? {
      var w := DecodeOnlyEncoded(s, limit);
    }
  }

  /** Reads frames until one cannot be read; gives the frames and what is left. */
  function DecodeAll(s: bytes, limit: int): (seq<Frame>, bytes)
    decreases |s|
  {
    DecodeShrinks(s, limit);
    match Decode(s, limit)
    case Decoded(f, rest) =>
      var (fs, left) := DecodeAll(rest, limit);
      ([f] + fs, left)
    case _ => ([], s)
  }

  lemma DecodeAllStep(w: WireFrame, rest: bytes, limit: int)
    requires w.Valid() && !OverLimit(|w.payload|, limit)
    ensures DecodeAll(Encode(w) + rest, limit) == ([w.AsFrame()] + DecodeAll(rest, limit).0, DecodeAll(rest, limit).1)
  {
    hide Decode, Encode;
    DecodeEncode(w, rest, limit);
  }

  /** Decoding a concatenation of frames gives the same frames in the same order, then goes
      on with whatever follows them. */
  lemma {:induction false} DecodeAllEncodeAll(ws: seq<WireFrame>, tail: bytes, limit: int)
    requires AllValid(ws, limit)
    ensures AllValid(ws, 0)
    ensures DecodeAll(EncodeAll(ws) + tail, limit).0 == AsFrames(ws) + DecodeAll(tail, limit).0
    ensures DecodeAll(EncodeAll(ws) + tail, limit).1 == DecodeAll(tail, limit).1
  {
    hide Decode, Encode;
    if ws == [] {
      assert EncodeAll(ws) + tail == tail;
    } else {
      var rest := EncodeAll(ws[1..]) + tail;
      assert EncodeAll(ws) + tail == Encode(ws[0]) + rest;
      DecodeAllStep(ws[0], rest, limit);
      DecodeAllEncodeAll(ws[1..], tail, limit);
    }
  }

  method MaskLoop(payload: bytes, key: MaskKey) returns (masked: bytes)
    ensures masked == Masked(payload, key) && MaskedOnWire(masked, 0, payload, key)
  {
    var i := 0;
    masked := payload;
    while i < |payload|
      invariant 0 <= i <= |payload| == |masked|
      invariant forall j :: 0 <= j < i ==> masked[j] == Xor(payload[j], key[j % 4])
      invariant forall j :: i <= j < |payload| ==> masked[j] == payload[j]
    {
      masked := masked[i := Xor(payload[i], key[i % 4])];
      i := i + 1;
    }
    assert masked == Masked(payload, key) == masked[0..|payload|];
    MaskedBits(payload, key, masked, 0);
  }

  /** The bytes of a client frame: final, with the low four bits of the opcode, the length in its
      shortest form, the key, and the payload masked with it. */
  ghost predicate SentBytes(r: bytes, opcode: byte, payload: bytes, key: MaskKey) {
    var n := |payload|;
    var k := if n <= 125 then 2 else if n <= 65535 then 4 else 10;
    && |r| == k + 4 + n
    && r[0] == 128 + opcode % 16
    && (n <= 125 ==> r[1] == 128 + n)
    && (125 < n <= 65535 ==> r[1] == 254 && n == Word(r[2], r[3]))
    && (n > 65535 ==>
          && r[1] == 255
          && n == Word(Word(Word(Word(Word(Word(Word(r[2], r[3]), r[4]), r[5]), r[6]), r[7]), r[8]), r[9]))
    && r[k..k + 4] == key
    && MaskedOnWire(r, k + 4, payload, key)
  }

  lemma ClientFrameBytes(opcode: byte, payload: bytes, key: MaskKey)
    requires |payload| <= INT64_MAX
    ensures SentBytes(Encode(ClientFrame(opcode, payload, key)), opcode, payload, key)
  {
    hide BigEndian, FromBigEndian, Masked, MaskedOnWire, Pow256;
    var r, n := Encode(ClientFrame(opcode, payload, key)), |payload|;
    var form := ShortestForm(n);
    var size := FormSize(form);
    var k := 2 + size;
    Pow256Values();
    assert r[2..k] == BigEndian(n, size);
    if size > 0 { BigEndianDecodes(n, size); }
    if size == 2 {
      FromBigEndianTwo(r[2..4]);
    } else if size == 8 {
      FromBigEndianEight(r[2..10]);
    }
    assert r[k..k + 4] == key;
    assert r[k + 4..k + 4 + n] == Masked(payload, key);
    MaskedBits(payload, key, r, k + 4);
  }

  lemma ClientHeaderIs(opcode: byte, payload: bytes, key: MaskKey)
    requires |payload| <= INT64_MAX
    ensures var n := |payload|;
            EncodeHeader(ClientFrame(opcode, payload, key).header) ==
            [0x80 + opcode % 16] +
            if n <= 125 then [0x80 + n]
            else if n <= 0xFFFF then [0x80 + 126] + BigEndian(n, 2)
            else [0x80 + 127] + BigEndian(n, 8)
  {
    assert BigEndian(|payload|, 0) == [];
    hide BigEndian;
  }

  /** `buildClientWebSocketFrame`; no key when the random source fails. */
  method BuildClientFrame(opcode: byte, payload: bytes, random: Option<MaskKey>) returns (r: Option<bytes>)
    requires |payload| <= INT64_MAX
    ensures r.Some? == random.Some?
    ensures r.Some? ==> r.value == Encode(ClientFrame(opcode, payload, random.value))
    ensures r.Some? ==> SentBytes(r.value, opcode, payload, random.value)
  {
    hide Masked, BigEndian, SentBytes, EncodeHeader, MaskedOnWire;
    var b := [];
    var n := |payload|;
    if n <= 125 {
      b := [0x80 + n];
    } else if n <= 0xFFFF {
      b := [0x80 + 126] + BigEndian(n, 2);
    } else {
      b := [0x80 + 127] + BigEndian(n, 8);
    }
    b := [0x80 + opcode % 16] + b;
    if random.None? {
      return None;
    }
    var key := random.value;
    ClientHeaderIs(opcode, payload, key);
    ClientFrameBytes(opcode, payload, key);
    var masked := MaskLoop(payload, key);
    Regroup(b, key, masked);
    return Some(b + key + masked);
  }

  /** The part of `readWebSocketFrameWithLimit` that reads the header. */
  method ReadHeader(r: Reader) returns (h: Option<Header>)
    modifies r
    ensures match DecodeHeader(old(r.input))
            case None => h.None?
            case Some((header, rest)) => h == Some(header) && r.input == rest
  {
    var ok, header := r.ReadFull(2);
    if !ok { return None; }
    var form, payloadLen: nat := Seven, header[1] % 128;
    if payloadLen == 126 {
      var ext;
      ok, ext := r.ReadFull(2);
      if !ok { return None; }
      assert ext == old(r.input)[2..4];
      form, payloadLen := Sixteen, FromBigEndian(ext);
    } else if payloadLen == 127 {
      var ext;
      ok, ext := r.ReadFull(8);
      if !ok { return None; }
      assert ext == old(r.input)[2..10];
      form, payloadLen := SixtyFour, FromBigEndian(ext);
    }
    return Some(Header(header[0] >= 0x80, header[0] / 16 % 8, header[0] % 16, header[1] >= 0x80, form, payloadLen));
  }

  /** `readWebSocketFrameWithLimit`. */
  method ReadFrame(r: Reader, limit: int) returns (result: Option<Frame>)
    modifies r
    ensures result.Some? == Decode(old(r.input), limit).Decoded?
    ensures result.Some? ==> Decode(old(r.input), limit) == Decoded(result.value, r.input)
  {
    var h := ReadHeader(r);
    if h.None? { return None; }
    var Header(fin, _, opcode, masked, _, payloadLen) := h.value;
    if limit > 0 && payloadLen > limit { return None; }
    if payloadLen > INT64_MAX { return None; }
    ghost var body := r.input;
    var ok, key, payload := true, [0, 0, 0, 0], [];
    if masked {
      ok, key := r.ReadFull(4);
      if !ok { return None; }
    }
    if payloadLen > 0 {
      ok, payload := r.ReadFull(payloadLen);
      if !ok { return None; }
    }
    if masked {
      assert payload == body[4..4 + payloadLen] && r.input == body[4 + payloadLen..];
      payload := MaskLoop(payload, key);
    } else {
      assert payload == body[..payloadLen] && r.input == body[payloadLen..];
    }
    return Some(Frame(fin, opcode, masked, payload));
  }
}
