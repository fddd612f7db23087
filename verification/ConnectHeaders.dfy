/** The reply to an HTTP CONNECT request: finding its end and handing the rest to the tunnel
    (section 9.3.6 of RFC 9110). */
module ConnectHeaders {
  import opened Bytes
  import opened Wrappers
  import opened ByteReader
  import opened Text

  const MAX_HEADER: nat := 32 * 1024
  const READ_SIZE: nat := 1024
  const DELIMITER: bytes := Ascii("\r\n\r\n")

  /** What one read of the connection brings: at most READ_SIZE bytes, perhaps with an error. */
  datatype Segment = Segment(data: bytes, err: bool)

  ghost predicate ValidSegments(segs: seq<Segment>) {
    segs == [] || (|segs[0].data| <= READ_SIZE && ValidSegments(segs[1..]))
  }

  /** All bytes that the reads bring. */
  function Joined(segs: seq<Segment>): bytes {
    if segs == [] then [] else segs[0].data + Joined(segs[1..])
  }

  /** `bytes.Index(s, delimiter)`. */
  function FindDelimiter(s: bytes): (r: Option<nat>)
    ensures r.Some? ==> r.value + 4 <= |s|
  {
    if |s| < 4 then None
    else if s[..4] == DELIMITER then Some(0)
    else match FindDelimiter(s[1..]) case None => None case Some(i) => Some(i + 1)
  }

  predicate DelimiterAt(s: bytes, i: nat) {
    i + 4 <= |s| && s[i..i + 4] == DELIMITER
  }

  lemma DelimiterInTail(s: bytes, i: nat)
    requires s != []
    ensures DelimiterAt(s[1..], i) <==> DelimiterAt(s, i + 1)
  {
    if i + 5 <= |s| {
      assert s[1..][i..i + 4] == s[i + 1..i + 5];
    }
  }

  /** The result is the first place where the delimiter stands. */
  lemma {:induction false} FindDelimiterIsFirst(s: bytes, i: nat)
    ensures DelimiterAt(s, i) ==> FindDelimiter(s).Some? && FindDelimiter(s).value <= i
    ensures FindDelimiter(s).Some? ==> DelimiterAt(s, FindDelimiter(s).value)
  {
    if |s| >= 4 {
      assert s[0..4] == s[..4];
      hide DelimiterAt;
      assert DelimiterAt(s, 0) <==> s[..4] == DELIMITER by { DelimiterAtStart(s); }
      if s[..4] != DELIMITER {
        FindDelimiterIsFirst(s[1..], if i > 0 then i - 1 else 0);
        if i > 0 { DelimiterInTail(s, i - 1); }
        if FindDelimiter(s[1..]).Some? { DelimiterInTail(s, FindDelimiter(s[1..]).value); }
      }
    }
  }

  lemma DelimiterAtStart(s: bytes)
    requires |s| >= 4
    ensures DelimiterAt(s, 0) <==> s[..4] == DELIMITER
  {
    assert s[0..4] == s[..4];
  }

  /** Where the delimiter is found does not depend on how much follows it. */
  lemma {:induction false} FindDelimiterInPrefix(s: bytes, more: bytes)
    ensures FindDelimiter(s) ==
            match FindDelimiter(s + more)
            case None => None
            case Some(i) => if i + 4 <= |s| then Some(i) else None
  {
    if |s| >= 4 {
      assert (s + more)[..4] == s[..4] && (s + more)[1..] == s[1..] + more;
      FindDelimiterInPrefix(s[1..], more);
    }
  }

  datatype Reply =
    | Found(header: bytes, leftover: bytes, unread: seq<Segment>)
    | TooLarge
    | ReadFailed

  /** `readHeaders` with buf already read. */
  function ReadHeaders(buf: bytes, segs: seq<Segment>): Reply
    decreases |segs|
  {
    if segs == [] then ReadFailed
    else
      var Segment(data, err) := segs[0];
      var all := buf + data;
      if data != [] && |all| > MAX_HEADER then TooLarge
      else if data != [] && FindDelimiter(all).Some? then
        var end := FindDelimiter(all).value + 4;
        Found(all[..end], all[end..], segs[1..])
      else if err then ReadFailed
      else ReadHeaders(all, segs[1..])
  }

  lemma SplitsAtDelimiter(all: bytes, rest: bytes)
    requires FindDelimiter(all).Some?
    ensures var end := FindDelimiter(all).value + 4;
            all[..end] + all[end..] + rest == all + rest && FindDelimiter(all + rest) == Some(end - 4)
  {
    hide FindDelimiter;
    FindDelimiterInPrefix(all, rest);
    var end := FindDelimiter(all).value + 4;
    assert all[..end] + all[end..] == all;
  }

  /** Nothing is lost: header, leftover and unread bytes rejoin to the reply, however it was cut into
      segments, and the header ends at the first delimiter of the whole reply. */
  lemma {:induction false} HeadersRejoin(buf: bytes, segs: seq<Segment>)
    requires ReadHeaders(buf, segs).Found?
    ensures var Found(header, leftover, unread) := ReadHeaders(buf, segs);
            && header + leftover + Joined(unread) == buf + Joined(segs)
            && |header| >= 4 && FindDelimiter(buf + Joined(segs)) == Some(|header| - 4)
    decreases |segs|
  {
    var all, rest := buf + segs[0].data, Joined(segs[1..]);
    assert Joined(segs) == segs[0].data + rest;
    hide FindDelimiter, Joined;
    Regroup(buf, segs[0].data, rest);
    if segs[0].data != [] && FindDelimiter(all).Some? {
      SplitsAtDelimiter(all, rest);
    } else {
      HeadersRejoin(all, segs[1..]);
    }
  }

  /** The bytes read when at least `need` have been read, starting from `have`. */
  function Reached(have: nat, need: nat, segs: seq<Segment>): (r: nat)
    ensures r >= have
    decreases |segs|
  {
    if have >= need || segs == [] then have else Reached(have + |segs[0].data|, need, segs[1..])
  }

  /** No error comes before the read that brings the byte number `need`. */
  predicate Clean(have: nat, need: nat, segs: seq<Segment>)
    decreases |segs|
  {
    have >= need ||
    (segs != [] && (have + |segs[0].data| >= need || (!segs[0].err && Clean(have + |segs[0].data|, need, segs[1..]))))
  }

  /** A reply is accepted exactly when it has a delimiter, no error comes before the read that
      completes the header, and everything read up to and including that read is within the limit. */
  lemma {:induction false} AcceptedIff(buf: bytes, segs: seq<Segment>)
    requires FindDelimiter(buf) == None && |buf| <= MAX_HEADER
    ensures ReadHeaders(buf, segs).Found? <==>
            match FindDelimiter(buf + Joined(segs))
            case None => false
            case Some(i) => Clean(|buf|, i + 4, segs) && Reached(|buf|, i + 4, segs) <= MAX_HEADER
    decreases |segs|
  {
    hide FindDelimiter;
    FindDelimiterInPrefix(buf, Joined(segs));
    if segs == [] {
      assert buf + [] == buf;
    } else {
      var all := buf + segs[0].data;
      assert buf + Joined(segs) == all + Joined(segs[1..]);
      FindDelimiterInPrefix(all, Joined(segs[1..]));
      if FindDelimiter(all).None? && |all| <= MAX_HEADER {
        AcceptedIff(all, segs[1..]);
      }
    }
  }

  lemma {:induction false} ReachedWithinOneRead(have: nat, need: nat, segs: seq<Segment>)
    requires ValidSegments(segs) && have < need + READ_SIZE && have + |Joined(segs)| >= need
    ensures need <= Reached(have, need, segs) < need + READ_SIZE
    decreases |segs|
  {
    if have < need && segs != [] {
      ReachedWithinOneRead(have + |segs[0].data|, need, segs[1..]);
    }
  }

  /** A header of at most 31745 bytes is accepted under every segmentation, and one of more than
      32768 bytes under none, when no read error comes first. */
  lemma HeaderSizeLimits(segs: seq<Segment>)
    requires ValidSegments(segs) && FindDelimiter(Joined(segs)).Some?
    ensures var size := FindDelimiter(Joined(segs)).value + 4;
            && (size <= 31745 && Clean(0, size, segs) ==> ReadHeaders([], segs).Found?)
            && (size > 32768 ==> !ReadHeaders([], segs).Found?)
  {
    var size := FindDelimiter(Joined(segs)).value + 4;
    assert [] + Joined(segs) == Joined(segs);
    AcceptedIff([], segs);
    ReachedWithinOneRead(0, size, segs);
  }

  class Connection {
    /** The results of the reads to come; the connection ends when nothing is left. */
    var segs: seq<Segment>

    constructor (segs: seq<Segment>)
      ensures this.segs == segs
    {
      this.segs := segs;
    }

    method Read() returns (seg: Segment)
      modifies this
      ensures old(segs) == [] ==> seg == Segment([], true) && segs == []
      ensures old(segs) != [] ==> seg == old(segs)[0] && segs == old(segs)[1..]
    {
      if segs == [] { return Segment([], true); }
      seg, segs := segs[0], segs[1..];
    }
  }

  /** `readHeaders`. */
  method ReadReply(conn: Connection) returns (r: Option<(bytes, bytes)>)
    modifies conn
    ensures match ReadHeaders([], old(conn.segs))
            case Found(header, leftover, unread) => r == Some((header, leftover)) && conn.segs == unread
            case _ => r == None
  {
    var buf := [];
    while true
      invariant ReadHeaders(buf, conn.segs) == ReadHeaders([], old(conn.segs))
      decreases |conn.segs|
    {
      hide FindDelimiter;
      var seg := conn.Read();
      if |seg.data| > 0 {
        buf := buf + seg.data;
        if |buf| > MAX_HEADER { return None; }
        var idx := FindDelimiter(buf);
        if idx.Some? {
          return Some((buf[..idx.value + 4], buf[idx.value + 4..]));
        }
      } else {
        assert buf + seg.data == buf;
      }
      if seg.err { return None; }
    }
  }

  /** The text before the first CRLF. */
  function FirstLine(s: bytes): bytes {
    if |s| < 2 then s else if s[..2] == CRLF then [] else [s[0]] + FirstLine(s[1..])
  }

  /** `parseStatusCode`: the second field of the first line, or -1. */
  function StatusCode(header: bytes): int {
    match ParseInt(SecondField(FirstLine(header)), 10)
    case None => -1
    case Some(code) => code
  }

  lemma {:induction false} FirstLineIs(line: bytes, rest: bytes)
    requires CR !in line
    ensures FirstLine(line + (CRLF + rest)) == line
  {
    var s := line + (CRLF + rest);
    if line == [] {
      assert s[..2] == CRLF;
    } else {
      assert s[0] == line[0] && s[..2][0] == line[0] && line[0] != CR;
      assert s[1..] == line[1..] + (CRLF + rest);
      FirstLineIs(line[1..], rest);
    }
  }

  /** A status line states its code: version, code and reason, separated by spaces. */
  lemma StatusLineStates(version: bytes, code: nat, reason: bytes, rest: bytes)
    requires code <= INT64_MAX && version != [] && CR !in reason
    requires forall i :: 0 <= i < |version| ==> !IsSpace(version[i])
    ensures StatusCode(version + ([SPACE] + (Decimal(code) + ([SPACE] + reason))) + (CRLF + rest)) == code
  {
    var line := version + ([SPACE] + (Decimal(code) + ([SPACE] + reason)));
    DecimalParses(code);
    SecondFieldIs(version, Decimal(code), [SPACE] + reason);
    assert CR !in line by {
      assert forall i :: 0 <= i < |version| ==> version[i] != CR;
    }
    hide Decimal, SecondField, ParseInt;
    FirstLineIs(line, rest);
  }

  /** The tunnel that a caller gets: leftover bytes first, then what the connection still brings. */
  datatype Tunnel = Tunnel(pre: bytes, rest: bytes)

  /** One read of `preReadConn`: it drains the leftover bytes before it touches the connection. */
  function TunnelRead(t: Tunnel, size: nat, choice: nat): (bytes, Tunnel) {
    if |t.pre| > 0 then
      var n := if size <= |t.pre| then size else |t.pre|;
      (t.pre[..n], t.(pre := t.pre[n..]))
    else
      var n := Delivered(size, |t.rest|, choice);
      (t.rest[..n], t.(rest := t.rest[n..]))
  }

  class PreReadConn {
    var pre: bytes
    var rest: bytes

    constructor (pre: bytes, rest: bytes)
      ensures this.pre == pre && this.rest == rest
    {
      this.pre, this.rest := pre, rest;
    }

    method Read(size: nat, choice: nat) returns (data: bytes)
      modifies this
      ensures (data, Tunnel(pre, rest)) == TunnelRead(old(Tunnel(pre, rest)), size, choice)
      ensures data + (pre + rest) == old(pre + rest)
      ensures |data| <= size && (size > 0 && old(pre + rest) != [] ==> data != [])
      ensures old(pre) != [] ==> data <= old(pre) && rest == old(rest)
    {
      TunnelReadKeeps(Tunnel(pre, rest), size, choice);
      if |pre| > 0 {
        var n := if size <= |pre| then size else |pre|;
        data, pre := pre[..n], pre[n..];
        return;
      }
      var n := Delivered(size, |rest|, choice);
      data, rest := rest[..n], rest[n..];
    }
  }

  /** The data of a sequence of reads, and the tunnel after them. */
  function TunnelReadAll(t: Tunnel, schedule: seq<(nat, nat)>): (bytes, Tunnel)
    decreases |schedule|
  {
    if schedule == [] then ([], t)
    else
      var (data, t1) := TunnelRead(t, schedule[0].0, schedule[0].1);
      var (more, t2) := TunnelReadAll(t1, schedule[1..]);
      (data + more, t2)
  }

  lemma TunnelReadKeeps(t: Tunnel, size: nat, choice: nat)
    ensures var (data, t') := TunnelRead(t, size, choice); data + (t'.pre + t'.rest) == t.pre + t.rest
  {
    var (data, t') := TunnelRead(t, size, choice);
    if |t.pre| > 0 {
      assert t.pre == data + t'.pre;
    } else {
      assert t.rest == data + t'.rest;
    }
  }

  lemma {:induction false} TunnelDelivers(t: Tunnel, schedule: seq<(nat, nat)>)
    ensures var (data, t') := TunnelReadAll(t, schedule); data + (t'.pre + t'.rest) == t.pre + t.rest
    decreases |schedule|
  {
    hide TunnelRead;
    if schedule == [] {
      assert [] + (t.pre + t.rest) == t.pre + t.rest;
    } else {
      var (data, t1) := TunnelRead(t, schedule[0].0, schedule[0].1);
      TunnelReadKeeps(t, schedule[0].0, schedule[0].1);
      TunnelDelivers(t1, schedule[1..]);
      var (more, t2) := TunnelReadAll(t1, schedule[1..]);
      Regroup(data, more, t2.pre + t2.rest);
    }
  }

  /** `HttpHandlerConn` after its request: a tunnel for status 200, otherwise a refusal. */
  function Connect(segs: seq<Segment>): Option<Tunnel> {
    match ReadHeaders([], segs)
    case Found(header, leftover, unread) =>
      if StatusCode(header) == 200 then Some(Tunnel(leftover, Joined(unread))) else None
    case _ => None
  }

  lemma DelimiterIs()
    ensures DELIMITER == [13, 10, 13, 10]
  {
  }

  /** When a tunnel is given: exactly when the reply is read (AcceptedIff) and its status code is 200. It
      begins with the bytes behind the header that were read already. */
  lemma ConnectIff(segs: seq<Segment>)
    ensures Connect(segs).Some? <==>
            ReadHeaders([], segs).Found? && StatusCode(ReadHeaders([], segs).header) == 200
    ensures Connect(segs).Some? ==> Connect(segs).value.pre == ReadHeaders([], segs).leftover
  {
    hide ReadHeaders, StatusCode;
  }

  /** A proxy that answers with version, code and reason, any headers and the empty line, and is read,
      gives a tunnel exactly when the code is 200. */
  lemma ConnectByStatus(segs: seq<Segment>, version: bytes, code: nat, reason: bytes, rest: bytes)
    requires code <= INT64_MAX && version != [] && CR !in reason
    requires forall i :: 0 <= i < |version| ==> !IsSpace(version[i])
    requires ReadHeaders([], segs).Found?
    requires ReadHeaders([], segs).header ==
             version + ([SPACE] + (Decimal(code) + ([SPACE] + reason))) + (CRLF + rest)
    ensures Connect(segs).Some? <==> code == 200
  {
    hide ReadHeaders, StatusCode, Decimal;
    StatusLineStates(version, code, reason, rest);
  }

  /** A reply whose first line has no second field is refused. */
  lemma NoStatusRefused(segs: seq<Segment>)
    requires ReadHeaders([], segs).Found? && SecondField(FirstLine(ReadHeaders([], segs).header)) == []
    ensures Connect(segs).None?
  {
    hide ReadHeaders, SecondField, FirstLine;
  }

  /** For every segmentation and every later reading: the header up to the first delimiter, what has
      been read from the tunnel and what it still holds are the proxy's stream, in order. */
  lemma TunnelIsUntouched(segs: seq<Segment>, schedule: seq<(nat, nat)>)
    requires Connect(segs).Some?
    ensures var stream := Joined(segs);
            var (data, t) := TunnelReadAll(Connect(segs).value, schedule);
            && FindDelimiter(stream).Some?
            && stream == stream[..FindDelimiter(stream).value + 4] + (data + (t.pre + t.rest))
  {
    hide FindDelimiter, StatusCode, ReadHeaders, TunnelReadAll;
    HeadersRejoin([], segs);
    TunnelDelivers(Connect(segs).value, schedule);
    var Found(header, leftover, unread) := ReadHeaders([], segs);
    assert [] + Joined(segs) == Joined(segs);
    assert Joined(segs)[..|header|] == header;
    Regroup(header, leftover, Joined(unread));
  }
}
