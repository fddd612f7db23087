/** The SOCKS5 client (sections 3, 4 and 6 of RFC 1928; section 2 of RFC 1929). */
module Socks5 {
  import opened Bytes
  import opened Wrappers
  import opened ByteReader
  import opened Text

  /** A name and a password, both present. */
  datatype Credentials = Credentials(user: bytes, password: bytes) {
    predicate Valid() {
      |user| <= 255 && |password| <= 255
    }
  }

  /** Where to connect and with what: the parameters that pass the checks before any I/O. */
  datatype Target = Target(host: bytes, port: nat, credentials: Option<Credentials>) {
    predicate Valid() {
      && 1 <= |host| <= 255
      && 1 <= port <= 65535
      && (credentials.Some? ==> credentials.value.Valid())
    }
  }

  /** The checks on the parameters; the host is trimmed, and credentials count only as a pair. */
  function Accept(host: bytes, port: int, user: Option<bytes>, password: Option<bytes>): (r: Option<Target>)
    ensures r.Some? ==> r.value.Valid()
  {
    var h := TrimSpace(host);
    if h == [] || |h| > 255 || port <= 0 || port > 65535 then None
    else if user.Some? && password.Some? then
      if |user.value| > 255 || |password.value| > 255 then None
      else Some(Target(h, port, Some(Credentials(user.value, password.value))))
    else Some(Target(h, port, None))
  }

  /** When the parameters are accepted and what they become: the trimmed host of 1 to 255 bytes, the
      port, and name and password if both are given, of at most 255 bytes each. */
  lemma AcceptIff(host: bytes, port: int, user: Option<bytes>, password: Option<bytes>)
    ensures var both := user.Some? && password.Some?;
            var r := Accept(host, port, user, password);
            && (r.Some? <==>
                && 1 <= |TrimSpace(host)| <= 255 && 1 <= port <= 65535
                && (both ==> |user.value| <= 255 && |password.value| <= 255))
            && (r.Some? ==>
                  && r.value.host == TrimSpace(host) && r.value.port == port
                  && (both ==> r.value.credentials.Some?
                               && r.value.credentials.value.user == user.value
                               && r.value.credentials.value.password == password.value)
                  && (!both ==> r.value.credentials.None?))
  {
    hide TrimSpace;
  }

  // ----- the client's messages

  function Methods(t: Target): bytes {
    if t.credentials.Some? then [0x00, 0x02] else [0x00]
  }

  function Greeting(t: Target): bytes {
    [0x05, |Methods(t)|] + Methods(t)
  }

  function AuthMessage(c: Credentials): bytes
    requires c.Valid()
  {
    [0x01, |c.user|] + c.user + ([|c.password|] + c.password)
  }

  function Request(t: Target): bytes
    requires t.Valid()
  {
    [0x05, 0x01, 0x00, 0x03, |t.host|] + t.host + BigEndian(t.port, 2)
  }

  /** The client's messages byte by byte. */
  lemma MessageBytes(t: Target)
    requires t.Valid()
    ensures Greeting(t) == if t.credentials.Some? then [5, 2, 0, 2] else [5, 1, 0]
    ensures t.credentials.Some? ==>
              var u, p := t.credentials.value.user, t.credentials.value.password;
              AuthMessage(t.credentials.value) == [1, |u|] + u + [|p|] + p
    ensures |Request(t)| == 7 + |t.host| && Request(t)[..5] == [5, 1, 0, 3, |t.host|]
    ensures Request(t)[5..5 + |t.host|] == t.host
    ensures Word(Request(t)[5 + |t.host|], Request(t)[6 + |t.host|]) == t.port
  {
    if t.credentials.Some? {
      var u, p := t.credentials.value.user, t.credentials.value.password;
      assert [1, |u|] + u + [|p|] + p == [1, |u|] + u + ([|p|] + p);
    }
    hide BigEndian, FromBigEndian;
    Pow256Values();
    BigEndianDecodes(t.port, 2);
    FromBigEndianTwo(BigEndian(t.port, 2));
  }

  // ----- the handshake over the bytes that the proxy sends

  /** The rest of the input after success, if any, and the messages that were written. */
  datatype Session = Session(rest: Option<bytes>, sent: seq<bytes>)

  /** The method selection and, if selected, the sub-negotiation; gives what follows. The connection
      takes the given number of writes and fails on the next one. */
  function Negotiate(t: Target, s: bytes, writes: nat): (r: Session)
    requires t.Valid()
    ensures |r.sent| <= writes
  {
    var sent := [Greeting(t)];
    if writes == 0 then Session(None, [])
    else if |s| < 2 || s[0] != 0x05 || (s[1] != 0x00 && s[1] != 0x02) then Session(None, sent)
    else if s[1] == 0x00 then Session(Some(s[2..]), sent)
    else if t.credentials.None? || writes == 1 then Session(None, sent)
    else
      var sent' := sent + [AuthMessage(t.credentials.value)];
      if |s| < 4 || s[2] != 0x01 || s[3] != 0x00 then Session(None, sent')
      else Session(Some(s[4..]), sent')
  }

  /** What follows a reply that grants the connection. */
  function ReadReply(s: bytes): Option<bytes> {
    if |s| < 4 || s[0] != 0x05 || s[1] != 0x00 || s[2] != 0x00 then None
    else if s[3] == 0x01 then if |s| < 10 then None else Some(s[10..])
    else if s[3] == 0x04 then if |s| < 22 then None else Some(s[22..])
    else if s[3] == 0x03 then
      if |s| < 5 then None
      else
        var n: nat := s[4];
        if |s| < 7 + n then None else Some(s[7 + n..])
    else None
  }

  function Handshake(t: Target, s: bytes, writes: nat): Session
    requires t.Valid()
  {
    var n := Negotiate(t, s, writes);
    if n.rest.None? then n
    else if |n.sent| == writes then n.(rest := None)
    else Session(ReadReply(n.rest.value), n.sent + [Request(t)])
  }

  // ----- the replies that grant a connection

  datatype Bound = IPv4(address: bytes) | IPv6(address: bytes) | Domain(name: bytes)

  datatype Grant = Grant(auth: bool, bound: Bound, port: bytes) {
    predicate Valid() {
      && |port| == 2
      && match bound
         case IPv4(a) => |a| == 4
         case IPv6(a) => |a| == 16
         case Domain(n) => |n| <= 255
    }
  }

  function EncodeBound(b: Bound): bytes
    requires b.Domain? ==> |b.name| <= 255
  {
    match b
    case IPv4(a) => [0x01] + a
    case IPv6(a) => [0x04] + a
    case Domain(n) => [0x03, |n|] + n
  }

  function EncodeReply(g: Grant): bytes
    requires g.Valid()
  {
    [0x05, 0x00, 0x00] + (EncodeBound(g.bound) + g.port)
  }

  /** Everything a proxy sends in a handshake that it grants. */
  function EncodeGrant(g: Grant): bytes
    requires g.Valid()
  {
    (if g.auth then [0x05, 0x02, 0x01, 0x00] else [0x05, 0x00]) + EncodeReply(g)
  }

  /** What a proxy sends byte by byte: version and method, the answer to the credentials if they were
      asked for, and a reply with an address of 4 or 16 bytes or of a stated length, and a port. */
  lemma GrantBytes(g: Grant)
    requires g.Valid()
    ensures var head := if g.auth then [5, 2, 1, 0] else [5, 0];
            EncodeGrant(g) == head + [5, 0, 0] + (match g.bound
                                                  case IPv4(a) => [1] + a
                                                  case IPv6(a) => [4] + a
                                                  case Domain(n) => [3, |n|] + n) + g.port
  {
    var head := if g.auth then [5, 2, 1, 0] else [5, 0];
    var b := EncodeBound(g.bound);
    assert head + ([5, 0, 0] + (b + g.port)) == head + [5, 0, 0] + b + g.port;
  }

  lemma ReplyAccepted(g: Grant, tail: bytes)
    requires g.Valid()
    ensures ReadReply(EncodeReply(g) + tail) == Some(tail)
  {
    var s := EncodeReply(g) + tail;
    var n := |EncodeReply(g)|;
    assert s[n..] == tail;
    assert s[3] == EncodeBound(g.bound)[0];
    if g.bound.Domain? {
      assert s[4] == EncodeBound(g.bound)[1];
    }
  }

  /** The greeting, the credentials if they are asked for, and the request. */
  function Messages(t: Target, auth: bool): seq<bytes>
    requires t.Valid() && (auth ==> t.credentials.Some?)
  {
    [Greeting(t)] + (if auth then [AuthMessage(t.credentials.value)] else []) + [Request(t)]
  }

  /** Every granted handshake succeeds, under all three address forms, consumes exactly its own
      bytes, and draws its messages; when the connection takes fewer writes it fails, having
      written the first of them. */
  lemma GrantAccepted(t: Target, g: Grant, tail: bytes, writes: nat)
    requires t.Valid() && g.Valid() && (g.auth ==> t.credentials.Some?)
    ensures var sent := Messages(t, g.auth);
            Handshake(t, EncodeGrant(g) + tail, writes) ==
            if writes >= |sent| then Session(Some(tail), sent) else Session(None, sent[..writes])
  {
    hide EncodeReply, ReadReply, Greeting, AuthMessage, Request;
    ReplyAccepted(g, tail);
    var s := EncodeGrant(g) + tail;
    assert s[if g.auth then 4 else 2..] == EncodeReply(g) + tail;
    var sent := Messages(t, g.auth);
    assert writes == 0 ==> sent[..writes] == [];
    assert writes == 1 ==> sent[..writes] == [Greeting(t)];
    assert writes == 2 && g.auth ==> sent[..writes] == [Greeting(t)] + [AuthMessage(t.credentials.value)];
  }

  lemma ReplyOnlyGranted(s: bytes) returns (bound: Bound, port: bytes)
    requires ReadReply(s).Some?
    ensures var g := Grant(false, bound, port);
            g.Valid() && s == EncodeReply(g) + ReadReply(s).value
  {
    if s[3] == 0x01 {
      bound, port := IPv4(s[4..8]), s[8..10];
      assert s == [0x05, 0x00, 0x00] + ([0x01] + s[4..8] + s[8..10]) + s[10..];
    } else if s[3] == 0x04 {
      bound, port := IPv6(s[4..20]), s[20..22];
      assert s == [0x05, 0x00, 0x00] + ([0x04] + s[4..20] + s[20..22]) + s[22..];
    } else {
      var n: nat := s[4];
      bound, port := Domain(s[5..5 + n]), s[5 + n..7 + n];
      assert s[..3] == [0x05, 0x00, 0x00] && s[3..5] == [0x03, n];
      assert s == s[..3] + (s[3..5] + s[5..5 + n] + s[5 + n..7 + n]) + s[7 + n..];
      assert s == [0x05, 0x00, 0x00] + ([0x03, n] + s[5..5 + n] + s[5 + n..7 + n]) + s[7 + n..];
    }
  }

  lemma ReplyIgnoresAuth(g: Grant)
    requires g.Valid()
    ensures EncodeReply(g) == EncodeReply(g.(auth := false))
  {
  }

  /** Nothing else succeeds: the bytes consumed are a granted handshake, and it asks for credentials
      only if they were offered; and every message was written. With GrantAccepted, success is exactly this. */
  lemma OnlyGrantAccepted(t: Target, s: bytes, writes: nat) returns (g: Grant)
    requires t.Valid() && Handshake(t, s, writes).rest.Some?
    ensures g.Valid() && (g.auth ==> t.credentials.Some?) && writes >= |Messages(t, g.auth)|
    ensures s == EncodeGrant(g) + Handshake(t, s, writes).rest.value
  {
    hide ReadReply, Greeting, AuthMessage, Request, EncodeReply;
    var n := Negotiate(t, s, writes);
    var bound, port := ReplyOnlyGranted(n.rest.value);
    g := Grant(s[1] == 0x02, bound, port);
    assert EncodeReply(g) == EncodeReply(Grant(false, bound, port)) by { ReplyIgnoresAuth(g); }
    if g.auth {
      assert s == [0x05, 0x02, 0x01, 0x00] + s[4..];
    } else {
      assert s == [0x05, 0x00] + s[2..];
    }
  }

  /** For every byte stream, well-formed or not, and however many writes go through: nothing comes
      before the greeting, and the credentials go out if and only if they were offered, the proxy
      selected their method, and the connection takes a second write. */
  lemma CredentialsOnlyWhenSelected(t: Target, s: bytes, writes: nat)
    requires t.Valid()
    ensures var sent := Handshake(t, s, writes).sent;
            && |sent| <= writes && (writes > 0 <==> sent != []) && (sent != [] ==> sent[0] == Greeting(t))
            && ((exists i :: 0 <= i < |sent| && sent[i] != [] && sent[i][0] == 0x01) <==>
                t.credentials.Some? && |s| >= 2 && s[0] == 0x05 && s[1] == 0x02 && writes >= 2)
            && (0x02 in Methods(t) <==> t.credentials.Some?)
  {
    hide ReadReply;
    var sent := Handshake(t, s, writes).sent;
    if t.credentials.Some? && |s| >= 2 && s[0] == 0x05 && s[1] == 0x02 && writes >= 2 {
      assert sent[1] == AuthMessage(t.credentials.value) && sent[1][0] == 0x01;
    }
  }

  // ----- reading the client's messages

  /** The methods that a greeting offers, and what follows it. */
  function ParseGreeting(s: bytes): Option<(bytes, bytes)> {
    if |s| < 2 || s[0] != 0x05 then None
    else
      var n: nat := s[1];
      if |s| < 2 + n then None else Some((s[2..2 + n], s[2 + n..]))
  }

  function ParseAuth(s: bytes): Option<(Credentials, bytes)> {
    if |s| < 2 || s[0] != 0x01 then None
    else
      var p: nat := 3 + s[1] as nat;
      if |s| < p then None
      else
        var n: nat := s[p - 1];
        if |s| < p + n then None else Some((Credentials(s[2..p - 1], s[p..p + n]), s[p + n..]))
  }

  function ParseRequest(s: bytes): Option<(bytes, nat, bytes)> {
    if |s| < 5 || s[..4] != [0x05, 0x01, 0x00, 0x03] then None
    else
      var n: nat := s[4];
      if |s| < 7 + n then None else Some((s[5..5 + n], FromBigEndian(s[5 + n..7 + n]), s[7 + n..]))
  }

  lemma GreetingParses(t: Target, tail: bytes)
    ensures ParseGreeting(Greeting(t) + tail) == Some((Methods(t), tail))
  {
    var s := Greeting(t) + tail;
    var n := |Methods(t)|;
    assert s[2..2 + n] == Methods(t) && s[2 + n..] == tail;
  }

  lemma AuthParses(c: Credentials, tail: bytes)
    requires c.Valid()
    ensures ParseAuth(AuthMessage(c) + tail) == Some((c, tail))
  {
    var s, p := AuthMessage(c) + tail, 3 + |c.user|;
    assert s[2..p - 1] == c.user && s[p - 1] == |c.password|;
    assert s[p..p + |c.password|] == c.password && s[p + |c.password|..] == tail;
  }

  lemma RequestParses(t: Target, tail: bytes)
    requires t.Valid()
    ensures ParseRequest(Request(t) + tail) == Some((t.host, t.port, tail))
  {
    var s, n := Request(t) + tail, |t.host|;
    assert s[..4] == [0x05, 0x01, 0x00, 0x03] && s[4] == n && s[5..5 + n] == t.host;
    assert s[5 + n..7 + n] == BigEndian(t.port, 2) && s[7 + n..] == tail;
    Pow256Values();
    BigEndianDecodes(t.port, 2);
  }

  function Joined(sent: seq<bytes>): bytes {
    if sent == [] then [] else sent[0] + Joined(sent[1..])
  }

  /** What a proxy reads when it has selected the authentication method or not. */
  function ProxyReads(s: bytes, auth: bool): Option<(bytes, Option<Credentials>, bytes, nat, bytes)> {
    match ParseGreeting(s)
    case None => None
    case Some((methods, s1)) =>
      if auth then
        match ParseAuth(s1)
        case None => None
        case Some((c, s2)) =>
          match ParseRequest(s2)
          case None => None
          case Some((host, port, s3)) => Some((methods, Some(c), host, port, s3))
      else
        match ParseRequest(s1)
        case None => None
        case Some((host, port, s2)) => Some((methods, None, host, port, s2))
  }

  lemma JoinedTwo(a: bytes, b: bytes)
    ensures Joined([a, b]) == a + b
  {
    assert [a, b][1..] == [b] && [b][1..] == [];
    assert Joined([b]) == b + [];
  }

  lemma JoinedThree(a: bytes, b: bytes, c: bytes)
    ensures Joined([a, b, c]) == a + (b + c)
  {
    assert [a, b, c][1..] == [b, c];
    JoinedTwo(b, c);
  }

  /** The client's output decodes uniquely: a proxy that reads it gets the offered methods, the
      credentials if it asked for them, the host and the port, and nothing is left over. */
  lemma OutputDecodes(t: Target, g: Grant, tail: bytes, writes: nat)
    requires t.Valid() && g.Valid() && (g.auth ==> t.credentials.Some?)
    ensures var s := Handshake(t, EncodeGrant(g) + tail, writes);
            s.rest.Some? ==>
              ProxyReads(Joined(s.sent), g.auth) ==
              Some((Methods(t), if g.auth then t.credentials else None, t.host, t.port, []))
  {
    hide Handshake, EncodeGrant, Greeting, AuthMessage, Request, ParseGreeting, ParseAuth, ParseRequest, Methods;
    GrantAccepted(t, g, tail, writes);
    var a, r := Greeting(t), Request(t);
    RequestParses(t, []);
    assert r + [] == r;
    if g.auth {
      var c := AuthMessage(t.credentials.value);
      JoinedThree(a, c, r);
      assert [a] + [c] + [r] == [a, c, r];
      GreetingParses(t, c + r);
      AuthParses(t.credentials.value, r);
    } else {
      JoinedTwo(a, r);
      assert [a] + [] + [r] == [a, r];
      GreetingParses(t, r);
    }
  }

  /** `Socks5HandlerConn` on a connection that takes the given number of writes: the messages in the
      order in which they are written. */
  method Connect(conn: Reader, writes: nat, host: bytes, port: int, user: Option<bytes>, password: Option<bytes>)
    returns (ok: bool, sent: seq<bytes>)
    modifies conn
    ensures match Accept(host, port, user, password)
            case None => !ok && sent == [] && conn.input == old(conn.input)
            case Some(t) =>
              var s := Handshake(t, old(conn.input), writes);
              sent == s.sent && ok == s.rest.Some? && (ok ==> conn.input == s.rest.value)
  {
    ok, sent := false, [];
    var h := TrimSpace(host);
    if h == [] || |h| > 255 { return; }
    if port <= 0 || port > 65535 { return; }
    var methods := [0x00];
    if user.Some? && password.Some? {
      if |user.value| > 255 || |password.value| > 255 { return; }
      methods := methods + [0x02];
    }
    ghost var t := Accept(host, port, user, password).value;
    hide TrimSpace;
    assert methods == Methods(t);
    if |sent| == writes { return; }
    sent := sent + [[0x05, |methods|] + methods];
    assert sent == [Greeting(t)];
    var fine, resp := conn.ReadFull(2);
    if !fine { return; }
    if resp[0] != 0x05 || resp[1] == 0xFF { return; }
    if resp[1] != 0x00 && resp[1] != 0x02 { return; }
    if resp[1] == 0x02 {
      if user.None? || password.None? { return; }
      var u, p := user.value, password.value;
      if |sent| == writes { return; }
      sent := sent + [[0x01, |u|] + u + ([|p|] + p)];
      var auth;
      fine, auth := conn.ReadFull(2);
      if !fine || auth[0] != 0x01 || auth[1] != 0x00 { return; }
    }
    assert Negotiate(t, old(conn.input), writes) == Session(Some(conn.input), sent);
    hide Negotiate, Greeting, AuthMessage;
    if |sent| == writes { return; }
    sent := sent + [[0x05, 0x01, 0x00, 0x03, |h|] + h + BigEndian(port, 2)];
    ok := SkipReply(conn);
  }

  /** The part of `Socks5HandlerConn` that reads the reply to the request. */
  method SkipReply(conn: Reader) returns (ok: bool)
    modifies conn
    ensures ok == ReadReply(old(conn.input)).Some?
    ensures ok ==> conn.input == ReadReply(old(conn.input)).value
  {
    var fine, head := conn.ReadFull(4);
    if !fine { return false; }
    if head[0] != 0x05 || head[1] != 0x00 || head[2] != 0x00 { return false; }
    var skip: nat := 0;
    if head[3] == 0x01 {
      skip := 4;
    } else if head[3] == 0x04 {
      skip := 16;
    } else if head[3] == 0x03 {
      var l;
      fine, l := conn.ReadFull(1);
      if !fine { return false; }
      skip := l[0];
    } else {
      return false;
    }
    var address;
    ok, address := conn.ReadFull(skip + 2);
  }
}
