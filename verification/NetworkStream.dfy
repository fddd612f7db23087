/** The growable buffer with one cursor that the typed reads and writes share. */
module NetworkStream {
  import opened Bytes
  import opened Wrappers

  const DEFAULT_SIZE: nat := 32 * 1024
  const MAX_FRAME: nat := 256 * 1024

  datatype StreamError = OutOfBounds | InvalidOrigin | InvalidSize | NotEnough | LengthOverflow

  /** What a stream is to its callers: a byte sequence and a position in it. */
  datatype Stream = Stream(data: bytes, pos: nat) {
    predicate Valid() {
      pos <= |data|
    }
  }

  // ----- values and their bytes

  datatype Value =
    | Byte(b: byte)
    | Bool(v: bool)
    | Int(size: nat, i: int)
    | Raw(raw: bytes)
    | Str(text: bytes)

  /** What a read asks for. */
  datatype Kind = AByte | ABool | AnInt(size: nat) | ARaw(n: int) | AStr

  predicate IntSize(size: nat) {
    size == 2 || size == 4 || size == 8
  }

  /** i is a signed integer of n bytes. */
  predicate Fits(i: int, n: nat) {
    0 <= 2 * i + Pow256(n) < 2 * Pow256(n)
  }

  /** The values that the typed writers take. */
  predicate Typed(v: Value) {
    v.Int? ==> IntSize(v.size) && Fits(v.i, v.size)
  }

  /** Reads are limited to MAX_FRAME bytes. */
  predicate Readable(v: Value) {
    Typed(v) && (v.Raw? ==> |v.raw| <= MAX_FRAME) && (v.Str? ==> |v.text| <= MAX_FRAME)
  }

  function KindOf(v: Value): Kind {
    match v
    case Byte(_) => AByte
    case Bool(_) => ABool
    case Int(size, _) => AnInt(size)
    case Raw(raw) => ARaw(|raw|)
    case Str(_) => AStr
  }

  /** Two's complement: the conversion of an integer to an unsigned integer of n bytes, and back. */
  function ToUnsigned(i: int, n: nat): nat {
    i % Pow256(n)
  }

  function ToSigned(u: nat, n: nat): int {
    if 2 * u < Pow256(n) then u else u - Pow256(n)
  }

  lemma SignRoundTrip(i: int, n: nat)
    requires Fits(i, n)
    ensures ToUnsigned(i, n) < Pow256(n) && ToSigned(ToUnsigned(i, n), n) == i
  {
    hide Pow256;
    var p := Pow256(n);
    if i >= 0 {
      DivModUnique(i, p, 0, i);
    } else {
      DivModUnique(i, p, -1, i + p);
    }
  }

  function IntBytes(i: int, n: nat): (r: bytes)
    ensures |r| == n
  {
    LittleEndian(ToUnsigned(i, n), n)
  }

  function BytesInt(b: bytes): int {
    ToSigned(FromLittleEndian(b), |b|)
  }

  lemma IntRoundTrip(i: int, n: nat)
    requires Fits(i, n)
    ensures BytesInt(IntBytes(i, n)) == i
  {
    hide ToSigned, ToUnsigned;
    SignRoundTrip(i, n);
    LittleEndianDecodes(ToUnsigned(i, n), n);
  }

  /** The bytes that a typed write puts into the stream; the length of a string is cut to 32 bits. */
  function Encode(v: Value): bytes {
    match v
    case Byte(b) => [b]
    case Bool(x) => [if x then 1 else 0]
    case Int(size, i) => IntBytes(i, size)
    case Raw(raw) => raw
    case Str(text) => IntBytes(|text|, 4) + text
  }

  /** The unsigned number that two, four or eight bytes stand for, the least significant byte first. */
  function Unsigned(b: bytes): nat
    requires |b| == 2 || |b| == 4 || |b| == 8
  {
    if |b| == 2 then Word(b[1], b[0])
    else if |b| == 4 then Word(Word(Word(b[3], b[2]), b[1]), b[0])
    else Word(Word(Word(Word(Word(Word(Word(b[7], b[6]), b[5]), b[4]), b[3]), b[2]), b[1]), b[0])
  }

  /** Integers are little-endian two's complement: from half of the range on a number stands for the
      one that is a whole range below it. */
  lemma IntMeans(b: bytes)
    requires |b| == 2 || |b| == 4 || |b| == 8
    ensures var range: int := if |b| == 2 then 0x1_0000 else if |b| == 4 then 0x1_0000_0000
                              else 0x1_0000_0000_0000_0000;
            BytesInt(b) == if 2 * Unsigned(b) < range then Unsigned(b) else Unsigned(b) - range
  {
    hide FromLittleEndian, Pow256;
    FromLittleEndianIs(b);
    Pow256Values();
  }

  lemma LengthBytes(n: nat)
    ensures Unsigned(IntBytes(n, 4)) == n % 0x1_0000_0000
  {
    hide LittleEndian, FromLittleEndian, Pow256;
    Pow256Values();
    LittleEndianDecodes(n % 0x1_0000_0000, 4);
    FromLittleEndianIs(IntBytes(n, 4));
  }

  /** What the typed writes put into the stream. */
  lemma ValueBytes(v: Value)
    requires Typed(v)
    ensures v.Byte? ==> Encode(v) == [v.b]
    ensures v.Bool? ==> Encode(v) == if v.v then [1] else [0]
    ensures v.Int? ==> |Encode(v)| == v.size && BytesInt(Encode(v)) == v.i
    ensures v.Raw? ==> Encode(v) == v.raw
    ensures v.Str? ==>
              && |Encode(v)| == 4 + |v.text| && Encode(v)[4..] == v.text
              && Unsigned(Encode(v)[..4]) == |v.text| % 0x1_0000_0000
  {
    hide IntBytes, BytesInt, Unsigned, Pow256;
    if v.Int? { IntRoundTrip(v.i, v.size); }
    if v.Str? {
      var head := IntBytes(|v.text|, 4);
      assert Encode(v)[..4] == head && Encode(v)[4..] == v.text;
      LengthBytes(|v.text|);
    }
  }

  // ----- the stream as a value

  /** Writes data over the stream from its position on. */
  function Overwrite(s: Stream, data: bytes): (r: Stream)
    requires s.Valid()
    ensures r.Valid() && r.pos == s.pos + |data|
  {
    var end := s.pos + |data|;
    Stream(s.data[..s.pos] + data + (if end < |s.data| then s.data[end..] else []), end)
  }

  /** Takes the next n bytes (`ReadBytes`). */
  function Take(s: Stream, n: int): (r: (Result<bytes, StreamError>, Stream))
    requires s.Valid()
    ensures r.1.Valid() && r.1.data == s.data
    ensures r.0.Ok? ==> |r.0.value| == n
  {
    if n < 0 || n > MAX_FRAME then (Err(InvalidSize), s)
    else if s.pos + n > |s.data| then (Err(NotEnough), s)
    else (Ok(s.data[s.pos..s.pos + n]), s.(pos := s.pos + n))
  }

  /** A typed read. A string whose text is missing leaves the position behind its length. */
  function Read(s: Stream, k: Kind): (r: (Result<Value, StreamError>, Stream))
    requires s.Valid()
    ensures r.1.Valid() && r.1.data == s.data
  {
    match k
    case AByte =>
      var (b, s') := Take(s, 1);
      (if b.Ok? then Ok(Byte(b.value[0])) else Err(b.error), s')
    case ABool =>
      var (b, s') := Take(s, 1);
      (if b.Ok? then Ok(Bool(b.value[0] != 0)) else Err(b.error), s')
    case AnInt(size) =>
      var (b, s') := Take(s, size);
      (if b.Ok? then Ok(Int(size, BytesInt(b.value))) else Err(b.error), s')
    case ARaw(n) =>
      var (b, s') := Take(s, n);
      (if b.Ok? then Ok(Raw(b.value)) else Err(b.error), s')
    case AStr =>
      var (b, s') := Take(s, 4);
      if b.Err? then (Err(b.error), s')
      else if BytesInt(b.value) < 0 || BytesInt(b.value) > MAX_FRAME then (Err(LengthOverflow), s')
      else
        var (text, s'') := Take(s', BytesInt(b.value));
        (if text.Ok? then Ok(Str(text.value)) else Err(text.error), s'')
  }

  /** What the typed reads take from the stream: they refuse sizes below 0 and over 256 KiB, then sizes
      beyond the end; a byte other than 0 is true; a string is preceded by its length. */
  lemma ReadMeans(s: Stream, k: Kind)
    requires s.Valid() && (k.AnInt? ==> IntSize(k.size))
    ensures var (r, s') := Read(s, k);
            var left := |s.data| - s.pos;
            && (k.AByte? ==> r == if left < 1 then Err(NotEnough) else Ok(Byte(s.data[s.pos])))
            && (k.ABool? ==> r == if left < 1 then Err(NotEnough) else Ok(Bool(s.data[s.pos] != 0)))
            && (k.AnInt? ==> r == if left < k.size then Err(NotEnough)
                                  else Ok(Int(k.size, BytesInt(s.data[s.pos..s.pos + k.size]))))
            && (k.ARaw? ==> r == if k.n < 0 || k.n > 262144 then Err(InvalidSize)
                                 else if left < k.n then Err(NotEnough) else Ok(Raw(s.data[s.pos..s.pos + k.n])))
            && (k.AStr? && left < 4 ==> r == Err(NotEnough))
            && (k.AStr? && left >= 4 ==>
                  var n := BytesInt(s.data[s.pos..s.pos + 4]);
                  r == if n < 0 || n > 262144 then Err(LengthOverflow)
                       else if left < 4 + n then Err(NotEnough)
                       else Ok(Str(s.data[s.pos + 4..s.pos + 4 + n])))
            && (r.Ok? ==> s'.pos == s.pos + match r.value
                                            case Byte(_) => 1 case Bool(_) => 1
                                            case Int(size, _) => size case Raw(raw) => |raw|
                                            case Str(text) => 4 + |text|)
  {
    hide BytesInt;
  }

  /** A read that fails leaves the stream as it was, with one exception: a string whose length could
      be read. */
  lemma FailedReadMoves(s: Stream, k: Kind)
    requires s.Valid() && Read(s, k).0.Err?
    ensures Read(s, k).1 == if k.AStr? && s.pos + 4 <= |s.data| then s.(pos := s.pos + 4) else s
  {
    hide BytesInt;
  }

  /** The bytes from the position on begin with e. */
  predicate Ahead(s: Stream, e: bytes) {
    s.pos + |e| <= |s.data| && s.data[s.pos..s.pos + |e|] == e
  }

  lemma TakeAhead(s: Stream, e: bytes)
    requires s.Valid() && Ahead(s, e) && |e| <= MAX_FRAME
    ensures Take(s, |e|) == (Ok(e), s.(pos := s.pos + |e|))
  {
  }

  lemma AheadSplits(s: Stream, a: bytes, b: bytes)
    requires s.Valid() && Ahead(s, a + b)
    ensures Ahead(s, a) && Ahead(s.(pos := s.pos + |a|), b)
  {
    var all := s.data[s.pos..s.pos + |a + b|];
    assert all[..|a|] == a && all[|a|..] == b;
  }

  /** Round trip of one value: what was written is read back and the position is behind it. */
  lemma ReadAhead(s: Stream, v: Value)
    requires s.Valid() && Ahead(s, Encode(v)) && Readable(v)
    ensures Read(s, KindOf(v)) == (Ok(v), s.(pos := s.pos + |Encode(v)|))
  {
    hide BytesInt, IntBytes, Take, Ahead, Pow256;
    Pow256Values();
    if v.Str? {
      AheadSplits(s, IntBytes(|v.text|, 4), v.text);
      TakeAhead(s, IntBytes(|v.text|, 4));
      IntRoundTrip(|v.text|, 4);
      TakeAhead(s.(pos := s.pos + 4), v.text);
    } else {
      TakeAhead(s, Encode(v));
      if v.Int? { IntRoundTrip(v.i, v.size); }
    }
  }

  function EncodeAll(vs: seq<Value>): bytes {
    if vs == [] then [] else Encode(vs[0]) + EncodeAll(vs[1..])
  }

  /** Writes the values one after the other. */
  function WriteAll(s: Stream, vs: seq<Value>): (r: Stream)
    requires s.Valid()
    ensures r.Valid()
    decreases |vs|
  {
    if vs == [] then s else WriteAll(Overwrite(s, Encode(vs[0])), vs[1..])
  }

  /** Reads values of the same kinds as vs, up to the first error. */
  function ReadAll(s: Stream, vs: seq<Value>): (Result<seq<Value>, StreamError>, Stream)
    requires s.Valid()
    decreases |vs|
  {
    if vs == [] then (Ok([]), s)
    else
      var (v, s') := Read(s, KindOf(vs[0]));
      if v.Err? then (Err(v.error), s')
      else
        var (rest, s'') := ReadAll(s', vs[1..]);
        (if rest.Ok? then Ok([v.value] + rest.value) else rest, s'')
  }

  lemma OverwriteTwice(s: Stream, a: bytes, b: bytes)
    requires s.Valid()
    ensures Overwrite(Overwrite(s, a), b) == Overwrite(s, a + b)
  {
    var s1 := Overwrite(s, a);
    assert s1.data[..s1.pos] == s.data[..s.pos] + a;
    var end := s.pos + |a| + |b|;
    if end < |s.data| {
      assert s1.data[end..] == s.data[end..];
    }
  }

  /** Writing values in turn is writing all their bytes at once. */
  lemma {:induction false} WriteAllAtOnce(s: Stream, vs: seq<Value>)
    requires s.Valid()
    ensures WriteAll(s, vs) == Overwrite(s, EncodeAll(vs))
    decreases |vs|
  {
    if vs == [] {
      assert s.data[..s.pos] + [] + s.data[s.pos..] == s.data;
    } else {
      hide Encode, Overwrite;
      WriteAllAtOnce(Overwrite(s, Encode(vs[0])), vs[1..]);
      OverwriteTwice(s, Encode(vs[0]), EncodeAll(vs[1..]));
    }
  }

  ghost predicate AllReadable(vs: seq<Value>) {
    vs == [] || (Readable(vs[0]) && AllReadable(vs[1..]))
  }

  lemma ReadAllStep(s: Stream, vs: seq<Value>, s1: Stream, s2: Stream)
    requires s.Valid() && vs != [] && Read(s, KindOf(vs[0])) == (Ok(vs[0]), s1)
    requires s1.Valid() && ReadAll(s1, vs[1..]) == (Ok(vs[1..]), s2)
    ensures ReadAll(s, vs) == (Ok(vs), s2)
  {
    hide Read, KindOf;
    assert [vs[0]] + vs[1..] == vs;
  }

  lemma {:induction false} ReadAllAhead(s: Stream, vs: seq<Value>)
    requires s.Valid() && AllReadable(vs) && Ahead(s, EncodeAll(vs))
    ensures ReadAll(s, vs) == (Ok(vs), s.(pos := s.pos + |EncodeAll(vs)|))
    decreases |vs|
  {
    hide Encode, Read, Ahead, Readable, KindOf;
    if vs != [] {
      var a, b := Encode(vs[0]), EncodeAll(vs[1..]);
      var s1 := s.(pos := s.pos + |a|);
      AheadSplits(s, a, b);
      ReadAhead(s, vs[0]);
      ReadAllAhead(s1, vs[1..]);
      ReadAllStep(s, vs, s1, s1.(pos := s1.pos + |b|));
    }
  }

  lemma OverwriteIs(s: Stream, e: bytes)
    requires s.Valid()
    ensures var s1 := Overwrite(s, e);
            && s1.pos == s.pos + |e| && Ahead(s1.(pos := s.pos), e)
            && s1.data[..s.pos] == s.data[..s.pos]
            && s1.data[s1.pos..] == if s1.pos < |s.data| then s.data[s1.pos..] else []
  {
  }

  /** Any list of values written at any position of any stream and read back from there by the same
      types gives the same values and the same final position; the bytes before and behind what was
      written are untouched. */
  lemma WrittenIsReadBack(s: Stream, vs: seq<Value>)
    requires s.Valid() && AllReadable(vs)
    ensures var s1 := WriteAll(s, vs);
            && s.pos <= s1.pos
            && ReadAll(s1.(pos := s.pos), vs) == (Ok(vs), s1)
            && s1.data[..s.pos] == s.data[..s.pos]
            && s1.data[s1.pos..] == if s1.pos < |s.data| then s.data[s1.pos..] else []
  {
    hide EncodeAll, WriteAll, ReadAll, Overwrite, Ahead, AllReadable;
    WriteAllAtOnce(s, vs);
    OverwriteIs(s, EncodeAll(vs));
    ReadAllAhead(WriteAll(s, vs).(pos := s.pos), vs);
  }

  /** A string is read back exactly when it has at most MAX_FRAME bytes; a longer one either is
      refused or, when the cut length is small again, comes back as another string. */
  lemma StringReadBackIff(s: Stream, text: bytes)
    requires s.Valid()
    ensures Read(Overwrite(s, Encode(Str(text))).(pos := s.pos), AStr).0 == Ok(Str(text)) <==> |text| <= 262144
  {
    var e := Encode(Str(text));
    var s1 := Overwrite(s, e).(pos := s.pos);
    assert Ahead(s1, e);
    if |text| <= MAX_FRAME {
      hide Encode, Read, Overwrite, Ahead;
      ReadAhead(s1, Str(text));
    } else {
      hide BytesInt, IntBytes, Overwrite, Ahead;
    }
  }

  // ----- growth

  /** The first of n, 2n, 4n, ... that is enough. */
  function Doubled(n: nat, required: nat): (r: nat)
    requires n > 0
    ensures r >= n && r >= required && (n < 2 * required ==> r < 2 * required)
    decreases required - n
  {
    if n >= required then n else Doubled(2 * n, required)
  }

  /** The capacity after `ensureCapacity`; a buffer without capacity cannot grow. */
  function CapacityFor(capacity: nat, required: nat): (r: nat)
    requires capacity > 0 || required == 0
    ensures r >= required
    ensures required > capacity ==> 2 * capacity <= r < 2 * required
  {
    if required <= capacity then capacity else Doubled(2 * capacity, required)
  }

  /** n doubled k times. */
  function Doublings(n: nat, k: nat): nat {
    if k == 0 then n else 2 * Doublings(n, k - 1)
  }

  lemma {:induction false} DoublingsExceed(n: nat, k: nat)
    ensures if n > 0 then Doublings(n, k) > k else Doublings(n, k) == 0
  {
    if k > 0 {
      DoublingsExceed(n, k - 1);
    }
  }

  /** The doubling loop of `ensureCapacity` ends exactly when the buffer is not empty: doubling
      nothing never reaches the required size. */
  lemma GrowthEndsIff(capacity: nat, required: nat)
    requires required > capacity
    ensures (exists k: nat :: Doublings(capacity, k) >= required) <==> capacity > 0
  {
    DoublingsExceed(capacity, required);
    forall k: nat | capacity == 0
      ensures Doublings(capacity, k) == 0
    {
      DoublingsExceed(capacity, k);
    }
  }

  /** The capacity and the bytes copied after a run of demands; growing copies the old buffer. */
  function Grow(capacity: nat, demands: seq<nat>): (nat, nat)
    requires capacity > 0
  {
    if demands == [] then (capacity, 0)
    else
      var front, last := demands[..|demands| - 1], demands[|demands| - 1];
      var (c, copied) := Grow(capacity, front);
      if c > 0 then (CapacityFor(c, last), copied + if last > c then c else 0) else (c, copied)
  }

  function Peak(demands: seq<nat>): nat {
    if demands == [] then 0
    else
      var p, last := Peak(demands[..|demands| - 1]), demands[|demands| - 1];
      if p < last then last else p
  }

  /** Over any run of appends and writes, all regrowth together copies fewer bytes than twice the
      greatest length that was ever needed. */
  lemma {:induction false} GrowthIsAmortised(capacity: nat, demands: seq<nat>)
    requires capacity > 0
    ensures var (c, copied) := Grow(capacity, demands);
            && c >= capacity + copied && c >= Peak(demands)
            && (copied > 0 ==> copied < c < 2 * Peak(demands))
  {
    if demands != [] {
      GrowthIsAmortised(capacity, demands[..|demands| - 1]);
    }
  }

  // ----- the stream as an object

  function Copied(was: bytes, p: nat, data: bytes): bytes
    requires p + |data| <= |was|
  {
    was[..p] + data + was[p + |data|..]
  }

  lemma CopiedAppends(was: bytes, l: nat, data: bytes)
    requires l + |data| <= |was|
    ensures Copied(was, l, data)[..l + |data|] == was[..l] + data
  {
  }

  lemma CopiedOverwrites(was: bytes, p: nat, l: nat, data: bytes)
    requires p <= l <= |was| && p + |data| <= |was|
    ensures var end := if l < p + |data| then p + |data| else l;
            Copied(was, p, data)[..end] == Overwrite(Stream(was[..l], p), data).data
  {
    assert was[..l][..p] == was[..p];
    if p + |data| < l {
      assert was[..l][p + |data|..] == was[p + |data|..][..l - p - |data|];
    }
  }

  datatype Origin = Begin | Current | End | Other

  class NetworkStream {
    var buffer: array<byte>
    var position: nat
    var length: nat
    /** History: the bytes copied by regrowth, and the greatest length that was needed. */
    ghost var copied: nat
    ghost var peak: nat

    ghost predicate Valid()
      reads this
    {
      && position <= length <= buffer.Length
      && length <= peak
      && copied <= buffer.Length
      && (copied > 0 ==> copied < buffer.Length < 2 * peak)
    }

    ghost function View(): Stream
      requires Valid()
      reads this, buffer
    {
      Stream(buffer[..length], position)
    }

    /** `NewNetworkStream`. */
    constructor WithCapacity(capacity: int)
      ensures Valid() && fresh(buffer) && View() == Stream([], 0)
      ensures buffer.Length == if capacity <= 0 then DEFAULT_SIZE else capacity
    {
      buffer := new byte[if capacity <= 0 then DEFAULT_SIZE else capacity](_ => 0);
      position, length, copied, peak := 0, 0, 0, 0;
    }

    /** `NewStreamFromBytes`: empty data gives a buffer that cannot grow. */
    constructor FromBytes(data: bytes)
      ensures Valid() && fresh(buffer) && View() == Stream(data, 0)
      ensures buffer.Length == |data|
    {
      var b := new byte[|data|](i requires 0 <= i < |data| => data[i]);
      buffer := b;
      position, length, copied, peak := 0, |data|, 0, |data|;
      new;
      assert buffer[..|data|] == data;
    }

    method Reset()
      requires Valid()
      modifies this`position, this`length
      ensures Valid() && View() == Stream([], 0)
    {
      position, length := 0, 0;
    }

    method EnsureCapacity(required: nat)
      requires Valid()
      requires buffer.Length > 0 || required == 0
      modifies this`buffer, this`copied, this`peak
      ensures Valid() && View() == old(View()) && length == old(length)
      ensures buffer.Length == CapacityFor(old(buffer.Length), required)
      ensures buffer == old(buffer) || fresh(buffer)
      ensures peak == if old(peak) < required then required else old(peak)
      ensures copied == old(copied) + if required > old(buffer.Length) then old(buffer.Length) else 0
    {
      if peak < required { peak := required; }
      if required <= buffer.Length { return; }
      var n := 2 * buffer.Length;
      while n < required
        invariant n > 0 && Doubled(n, required) == Doubled(2 * buffer.Length, required)
        decreases required - n
      {
        n := 2 * n;
      }
      var b := new byte[n](_ => 0);
      forall i | 0 <= i < buffer.Length { b[i] := buffer[i]; }
      copied := copied + buffer.Length;
      assert b[..length] == buffer[..length];
      buffer := b;
    }

    /** Go's copy of data into the buffer at index p. */
    method CopyIn(p: nat, data: bytes)
      requires p + |data| <= buffer.Length
      modifies buffer
      ensures buffer[..] == Copied(old(buffer[..]), p, data)
    {
      forall i | 0 <= i < |data| { buffer[p + i] := data[i]; }
    }

    method Append(data: bytes)
      requires Valid()
      requires buffer.Length > 0 || |data| == 0
      modifies this, buffer
      ensures Valid() && (buffer == old(buffer) || fresh(buffer))
      ensures View() == Stream(old(View()).data + data, old(position))
      ensures peak == Max(old(peak), length)
      ensures buffer.Length == CapacityFor(old(buffer.Length), old(length) + |data|)
    {
      hide Copied, CapacityFor;
      EnsureCapacity(length + |data|);
      ghost var was := buffer[..];
      assert buffer[..length] == was[..length];
      CopyIn(length, data);
      length := length + |data|;
      CopiedAppends(was, old(length), data);
      assert buffer[..length] == buffer[..][..length];
    }

    /** What every typed write does with its bytes. */
    method Put(data: bytes)
      requires Valid()
      requires buffer.Length > 0 || |data| == 0
      modifies this, buffer
      ensures Valid() && (buffer == old(buffer) || fresh(buffer))
      ensures View() == Overwrite(old(View()), data) && length >= old(length)
      ensures peak == Max(old(peak), length)
      ensures buffer.Length == CapacityFor(old(buffer.Length), old(position) + |data|)
    {
      hide Overwrite, Copied, CapacityFor;
      EnsureCapacity(position + |data|);
      ghost var was := buffer[..];
      assert buffer[..length] == was[..length];
      CopyIn(position, data);
      CopiedOverwrites(was, position, length, data);
      position := position + |data|;
      if position > length { length := position; }
      assert buffer[..length] == buffer[..][..length];
    }

    method WriteByte(b: byte)
      requires Valid() && buffer.Length > 0
      modifies this, buffer
      ensures Valid() && (buffer == old(buffer) || fresh(buffer))
      ensures View() == Overwrite(old(View()), Encode(Byte(b)))
      ensures peak == Max(old(peak), length)
    {
      Put([b]);
    }

    method WriteBool(v: bool)
      requires Valid() && buffer.Length > 0
      modifies this, buffer
      ensures Valid() && (buffer == old(buffer) || fresh(buffer))
      ensures View() == Overwrite(old(View()), Encode(Bool(v)))
      ensures peak == Max(old(peak), length)
    {
      if v { WriteByte(1); } else { WriteByte(0); }
    }

    /** `WriteInt16`, `WriteInt32` and `WriteInt64`. */
    method WriteInt(size: nat, i: int)
      requires Valid() && buffer.Length > 0 && Typed(Int(size, i))
      modifies this, buffer
      ensures Valid() && (buffer == old(buffer) || fresh(buffer))
      ensures View() == Overwrite(old(View()), Encode(Int(size, i)))
      ensures peak == Max(old(peak), length)
    {
      Put(IntBytes(i, size));
    }

    method WriteBytes(data: bytes)
      requires Valid() && (buffer.Length > 0 || |data| == 0)
      modifies this, buffer
      ensures Valid() && (buffer == old(buffer) || fresh(buffer))
      ensures View() == Overwrite(old(View()), Encode(Raw(data)))
      ensures peak == Max(old(peak), length)
      ensures buffer.Length >= old(buffer.Length)
    {
      Put(data);
    }

    method WriteString(text: bytes)
      requires Valid() && buffer.Length > 0
      modifies this, buffer
      ensures Valid() && (buffer == old(buffer) || fresh(buffer))
      ensures View() == Overwrite(old(View()), Encode(Str(text)))
      ensures peak == Max(old(peak), length)
    {
      hide Overwrite, IntBytes;
      Put(IntBytes(|text|, 4));
      Put(text);
      OverwriteTwice(old(View()), IntBytes(|text|, 4), text);
    }

    method SetPosition(pos: int) returns (err: Option<StreamError>)
      requires Valid()
      modifies this`position
      ensures Valid() && View().data == old(View()).data
      ensures err.None? <==> 0 <= pos <= length
      ensures position == if err.None? then pos else old(position)
    {
      if pos < 0 || pos > length { return Some(OutOfBounds); }
      position := pos;
      return None;
    }

    method Seek(offset: int, origin: Origin) returns (err: Option<StreamError>)
      requires Valid()
      modifies this`position
      ensures Valid() && View().data == old(View()).data
      ensures origin.Other? ==> err == Some(InvalidOrigin) && position == old(position)
      ensures !origin.Other? ==>
                var pos := offset + match origin case Current => old(position) case End => length case _ => 0;
                (err.None? <==> 0 <= pos <= length) && position == if err.None? then pos else old(position)
    {
      var pos;
      match origin {
        case Begin => pos := offset;
        case Current => pos := position + offset;
        case End => pos := length + offset;
        case Other => return Some(InvalidOrigin);
      }
      err := SetPosition(pos);
    }

    /** `ReadBytes`, and the guard and slice that every typed read makes. */
    method ReadBytes(n: int) returns (r: Result<bytes, StreamError>)
      requires Valid()
      modifies this`position
      ensures Valid() && (r, View()) == Take(old(View()), n)
    {
      if n < 0 || n > MAX_FRAME { return Err(InvalidSize); }
      if position + n > length { return Err(NotEnough); }
      var out := buffer[position..position + n];
      assert out == buffer[..length][position..position + n];
      position := position + n;
      return Ok(out);
    }

    /** The typed reads. */
    method ReadValue(k: Kind) returns (r: Result<Value, StreamError>)
      requires Valid()
      modifies this`position
      ensures Valid() && (r, View()) == Read(old(View()), k)
    {
      hide Take, BytesInt;
      match k
      case AByte =>
        var b := ReadBytes(1);
        if b.Err? { return Err(b.error); }
        return Ok(Byte(b.value[0]));
      case ABool =>
        var b := ReadBytes(1);
        if b.Err? { return Err(b.error); }
        return Ok(Bool(b.value[0] != 0));
      case AnInt(size) =>
        var b := ReadBytes(size);
        if b.Err? { return Err(b.error); }
        return Ok(Int(size, BytesInt(b.value)));
      case ARaw(n) =>
        var b := ReadBytes(n);
        if b.Err? { return Err(b.error); }
        return Ok(Raw(b.value));
      case AStr =>
        var b := ReadBytes(4);
        if b.Err? { return Err(b.error); }
        var n := BytesInt(b.value);
        if n < 0 || n > MAX_FRAME { return Err(LengthOverflow); }
        var text := ReadBytes(n);
        if text.Err? { return Err(text.error); }
        return Ok(Str(text.value));
    }
  }
}
