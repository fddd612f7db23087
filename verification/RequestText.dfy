/** The text of an HTTP/1.1 request and the parser of header sections (sections 3 and 5 of RFC 9112). */
module RequestText {
  import opened Bytes
  import opened Wrappers
  import opened ByteReader
  import opened Text

  /** A header line: name and value. */
  type Header = (bytes, bytes)

  // The fixed texts of the request.
  const HOST: bytes := Ascii("Host")
  const USER_AGENT: bytes := Ascii("User-Agent")
  const ACCEPT: bytes := Ascii("Accept")
  const CONNECTION: bytes := Ascii("Connection")
  const ACCEPT_ENCODING: bytes := Ascii("Accept-Encoding")
  const CONTENT_LENGTH: bytes := Ascii("Content-Length")
  const ANY_TYPE: bytes := Ascii("*/*")
  const CLOSE: bytes := Ascii("close")
  const GZIP_DEFLATE: bytes := Ascii("gzip, deflate")
  const DEFAULT_AGENT: bytes := Ascii("DesKaOne/0.0.1")
  const HTTP_1_1: bytes := Ascii(" HTTP/1.1")

  /** No line break. */
  predicate OneLine(s: bytes) {
    CR !in s && LF !in s
  }

  // ----- the parser

  /** `headers[key]` gets value, joined with a comma if it is there already. */
  function Add(headers: map<bytes, bytes>, key: bytes, value: bytes): map<bytes, bytes> {
    headers[key := if key in headers then headers[key] + Ascii(", ") + value else value]
  }

  /** What one line adds; lines without a name before a colon are skipped. */
  function AddLine(headers: map<bytes, bytes>, line: bytes): map<bytes, bytes> {
    var i := Find(line, COLON);
    if i == |line| || i == 0 then headers
    else Add(headers, TrimSpace(line[..i]), TrimSpace(line[i + 1..]))
  }

  /** `readHTTPHeaders` with some headers already read. */
  function ReadHeaders(s: bytes, headers: map<bytes, bytes>): Option<(map<bytes, bytes>, bytes)>
    decreases |s|
  {
    match Line(s)
    case None => None
    case Some((line, rest)) =>
      if line == [] then Some((headers, rest)) else ReadHeaders(rest, AddLine(headers, line))
  }

  method ReadHTTPHeaders(r: Reader) returns (result: Option<map<bytes, bytes>>)
    modifies r
    ensures match ReadHeaders(old(r.input), map[])
            case None => result == None
            case Some((headers, rest)) => result == Some(headers) && r.input == rest
  {
    hide Line, AddLine;
    var headers: map<bytes, bytes> := map[];
    while true
      invariant ReadHeaders(r.input, headers) == ReadHeaders(old(r.input), map[])
      decreases |r.input|
    {
      var line := Line(r.input);
      if line.None? {
        r.input := [];
        return None;
      }
      r.input := line.value.1;
      if line.value.0 == [] { return Some(headers); }
      headers := AddLine(headers, line.value.0);
    }
  }

  // ----- the printer

  /** `hasHeader`: some name, trimmed, is key up to case. */
  predicate HasHeader(headers: seq<Header>, key: bytes) {
    exists i :: 0 <= i < |headers| && EqualFold(TrimSpace(headers[i].0), key)
  }

  function PrintHeader(h: Header): bytes {
    h.0 + [COLON, SPACE] + h.1 + [CR] + [LF]
  }

  function Print(hs: seq<Header>): bytes {
    if hs == [] then [] else PrintHeader(hs[0]) + Print(hs[1..])
  }

  /** The headers of the caller as they are printed: trimmed, those without a name left out. */
  function Own(headers: seq<Header>): seq<Header> {
    if headers == [] then []
    else
      var name, value := TrimSpace(headers[0].0), TrimSpace(headers[0].1);
      (if name == [] then [] else [(name, value)]) + Own(headers[1..])
  }

  /** A request; headers are listed in the order in which the map happens to be walked. */
  datatype Request = Request(
    method': bytes, path: bytes, host: bytes, headers: seq<Header>, body: bytes, agent: bytes, autoDecompress: bool)

  /** The headers that are supplied when the caller has none of the name. */
  function Defaults(r: Request): seq<Header> {
    [(HOST, r.host), (USER_AGENT, if r.agent == [] then DEFAULT_AGENT else r.agent),
     (ACCEPT, ANY_TYPE), (CONNECTION, CLOSE)]
    + (if r.autoDecompress then [(ACCEPT_ENCODING, GZIP_DEFLATE)] else [])
    + (if |r.body| > 0 then [(CONTENT_LENGTH, Decimal(|r.body|))] else [])
  }

  function Missing(defaults: seq<Header>, headers: seq<Header>): seq<Header> {
    if defaults == [] then []
    else (if HasHeader(headers, defaults[0].0) then [] else [defaults[0]]) + Missing(defaults[1..], headers)
  }

  function Printed(r: Request): seq<Header> {
    Missing(Defaults(r), r.headers) + Own(r.headers)
  }

  function RequestLine(r: Request): bytes {
    r.method' + [SPACE] + r.path + HTTP_1_1
  }

  function Build(r: Request): bytes {
    RequestLine(r) + [CR] + [LF] + (Print(Printed(r)) + (CRLF + r.body))
  }

  /** The calls of `writeHeaderIfMissing`. */
  method WriteMissing(defaults: seq<Header>, headers: seq<Header>) returns (b: bytes)
    ensures b == Print(Missing(defaults, headers))
  {
    hide HasHeader, PrintHeader;
    b := [];
    for i := 0 to |defaults|
      invariant b + Print(Missing(defaults[i..], headers)) == Print(Missing(defaults, headers))
    {
      MissingStep(defaults[i..], headers);
      assert defaults[i..][1..] == defaults[i + 1..];
      if !HasHeader(headers, defaults[i].0) {
        b := b + PrintHeader(defaults[i]);
      }
    }
  }

  lemma MissingStep(ds: seq<Header>, headers: seq<Header>)
    requires ds != []
    ensures Print(Missing(ds, headers)) ==
            (if HasHeader(headers, ds[0].0) then [] else PrintHeader(ds[0])) + Print(Missing(ds[1..], headers))
  {
    hide HasHeader, PrintHeader;
    PrintJoins(if HasHeader(headers, ds[0].0) then [] else [ds[0]], Missing(ds[1..], headers));
    PrintOne(ds[0]);
  }

  /** The loop over the caller's headers. */
  method WriteOwn(headers: seq<Header>) returns (b: bytes)
    ensures b == Print(Own(headers))
  {
    hide TrimSpace, PrintHeader;
    b := [];
    for i := 0 to |headers|
      invariant b + Print(Own(headers[i..])) == Print(Own(headers))
    {
      OwnStep(headers[i..]);
      assert headers[i..][1..] == headers[i + 1..];
      var name, value := TrimSpace(headers[i].0), TrimSpace(headers[i].1);
      if name == [] { continue; }
      b := b + PrintHeader((name, value));
    }
  }

  lemma OwnStep(headers: seq<Header>)
    requires headers != []
    ensures var name, value := TrimSpace(headers[0].0), TrimSpace(headers[0].1);
            Print(Own(headers)) == (if name == [] then [] else PrintHeader((name, value))) + Print(Own(headers[1..]))
  {
    hide TrimSpace, PrintHeader;
    var name, value := TrimSpace(headers[0].0), TrimSpace(headers[0].1);
    PrintJoins(if name == [] then [] else [(name, value)], Own(headers[1..]));
    PrintOne((name, value));
  }

  /** `buildRawHTTPRequest`. */
  method BuildRawRequest(r: Request) returns (b: bytes)
    ensures b == Build(r)
  {
    hide Defaults, Missing, Own, Print, RequestLine;
    b := RequestLine(r) + [CR] + [LF];
    var defaults := WriteMissing(Defaults(r), r.headers);
    var own := WriteOwn(r.headers);
    PrintJoins(Missing(Defaults(r), r.headers), Own(r.headers));
    b := b + defaults + own + CRLF;
    if |r.body| > 0 { b := b + r.body; }
  }

  lemma {:induction false} PrintJoins(a: seq<Header>, b: seq<Header>)
    ensures Print(a + b) == Print(a) + Print(b)
  {
    hide PrintHeader;
    if a == [] {
      assert a + b == b;
    } else {
      assert (a + b)[1..] == a[1..] + b;
      PrintJoins(a[1..], b);
    }
  }

  lemma PrintOne(h: Header)
    ensures Print([h]) == PrintHeader(h)
  {
    hide PrintHeader;
    assert [h][1..] == [];
  }

  // ----- the parser reads what the printer wrote

  /** A header that is one line and whose name is trimmed and without a colon. */
  predicate Clean(h: Header) {
    h.0 != [] && Trimmed(h.0) && COLON !in h.0 && OneLine(h.0) && OneLine(h.1)
  }

  predicate AllClean(hs: seq<Header>) {
    hs == [] || (Clean(hs[0]) && AllClean(hs[1..]))
  }

  function AddAll(headers: map<bytes, bytes>, hs: seq<Header>): map<bytes, bytes>
    decreases |hs|
  {
    if hs == [] then headers else AddAll(Add(headers, hs[0].0, TrimSpace(hs[0].1)), hs[1..])
  }

  lemma HeaderText(h: Header, tail: bytes)
    requires Clean(h)
    ensures Line(PrintHeader(h) + tail) == Some((h.0 + [COLON, SPACE] + h.1, tail))
  {
    var text := h.0 + [COLON, SPACE] + h.1;
    assert text[|text| - 1] == if h.1 == [] then SPACE else h.1[|h.1| - 1];
    assert h.1 != [] ==> h.1[|h.1| - 1] in h.1;
    hide Line, TrimLineEnd;
    TrimLineEndOf(text);
    assert PrintHeader(h) + tail == (text + [CR]) + [LF] + tail;
    LineOf(text + [CR], tail);
  }

  lemma LeadingSpaceTrimmed(s: bytes)
    ensures TrimSpace([SPACE] + s) == TrimSpace(s)
  {
    assert ([SPACE] + s)[1..] == s;
    assert TrimLeft([SPACE] + s) == TrimLeft(s);
  }

  lemma HeaderAdds(h: Header, headers: map<bytes, bytes>)
    requires Clean(h)
    ensures AddLine(headers, h.0 + [COLON, SPACE] + h.1) == Add(headers, h.0, TrimSpace(h.1))
  {
    hide TrimSpace, Add;
    var line, n := h.0 + [COLON, SPACE] + h.1, |h.0|;
    assert line == h.0 + [COLON] + ([SPACE] + h.1);
    FindAt(h.0, COLON, [SPACE] + h.1);
    assert line[..n] == h.0 && line[n + 1..] == [SPACE] + h.1;
    TrimmedStays(h.0);
    LeadingSpaceTrimmed(h.1);
  }

  /** Whatever clean headers are printed, in whatever order, parsing adds exactly them and leaves
      what follows the empty line. */
  lemma {:induction false} PrintParses(hs: seq<Header>, tail: bytes, headers: map<bytes, bytes>)
    requires AllClean(hs)
    ensures ReadHeaders(Print(hs) + (CRLF + tail), headers) == Some((AddAll(headers, hs), tail))
    decreases |hs|
  {
    hide Line, AddLine, PrintHeader, Clean, Add;
    if hs == [] {
      assert Print(hs) + (CRLF + tail) == [CR] + [LF] + tail;
      LineOf([CR], tail);
      TrimLineEndOf([]);
      assert [] + [CR] + [LF] == [CR] + [LF];
    } else {
      var more := Print(hs[1..]) + (CRLF + tail);
      assert Print(hs) + (CRLF + tail) == PrintHeader(hs[0]) + more;
      HeaderText(hs[0], more);
      assert hs[0].0 + [COLON, SPACE] + hs[0].1 != [];
      HeaderAdds(hs[0], headers);
      PrintParses(hs[1..], tail, Add(headers, hs[0].0, TrimSpace(hs[0].1)));
    }
  }

  function Names(hs: seq<Header>): set<bytes> {
    if hs == [] then {} else {hs[0].0} + Names(hs[1..])
  }

  predicate Distinct(hs: seq<Header>) {
    hs == [] || (hs[0].0 !in Names(hs[1..]) && Distinct(hs[1..]))
  }

  /** The map holds these headers, with trimmed values, and nothing else. */
  ghost predicate Holds(m: map<bytes, bytes>, hs: seq<Header>) {
    m.Keys == Names(hs) && forall h <- hs :: h.0 in m && m[h.0] == TrimSpace(h.1)
  }

  lemma {:induction false} AddAllDistinct(headers: map<bytes, bytes>, hs: seq<Header>)
    requires Distinct(hs) && headers.Keys !! Names(hs)
    ensures AddAll(headers, hs).Keys == headers.Keys + Names(hs)
    ensures forall k :: k in headers ==> AddAll(headers, hs)[k] == headers[k]
    ensures forall h <- hs :: h.0 in AddAll(headers, hs) && AddAll(headers, hs)[h.0] == TrimSpace(h.1)
    decreases |hs|
  {
    hide TrimSpace;
    if hs != [] {
      AddAllDistinct(Add(headers, hs[0].0, TrimSpace(hs[0].1)), hs[1..]);
    }
  }

  lemma {:induction false} NamesJoin(a: seq<Header>, b: seq<Header>)
    ensures Names(a + b) == Names(a) + Names(b)
    ensures Distinct(a) && Distinct(b) && Names(a) !! Names(b) ==> Distinct(a + b)
    ensures AllClean(a) && AllClean(b) ==> AllClean(a + b)
  {
    hide Clean;
    if a == [] {
      assert a + b == b;
    } else {
      assert (a + b)[0] == a[0] && (a + b)[1..] == a[1..] + b;
      NamesJoin(a[1..], b);
    }
  }

  lemma SingleHeader(h: Header)
    ensures Names([h]) == {h.0} && Distinct([h]) && (AllClean([h]) <==> Clean(h))
  {
    var hs: seq<Header> := [h];
    assert hs[1..] == [];
  }

  lemma {:induction false} MissingKeeps(ds: seq<Header>, headers: seq<Header>)
    requires AllClean(ds) && Distinct(ds)
    ensures AllClean(Missing(ds, headers)) && Distinct(Missing(ds, headers))
    ensures Names(Missing(ds, headers)) <= Names(ds)
    ensures forall n <- Names(Missing(ds, headers)) :: !HasHeader(headers, n)
  {
    hide Clean, HasHeader;
    if ds != [] {
      MissingKeeps(ds[1..], headers);
      var here := if HasHeader(headers, ds[0].0) then [] else [ds[0]];
      NamesJoin(here, Missing(ds[1..], headers));
      SingleHeader(ds[0]);
    }
  }

  /** Own headers count as present under their own names. */
  lemma {:induction false} OwnIsPresent(headers: seq<Header>, all: seq<Header>)
    requires forall h <- headers :: h in all
    ensures forall n <- Names(Own(headers)) :: HasHeader(all, n)
  {
    if headers != [] {
      OwnIsPresent(headers[1..], all);
      var n := TrimSpace(headers[0].0);
      assert HasHeader(all, n) by {
        assert headers[0] in all;
        var i :| 0 <= i < |all| && all[i] == headers[0];
        assert EqualFold(TrimSpace(all[i].0), n);
      }
      hide HasHeader, TrimSpace;
      var here := if n == [] then [] else [(n, TrimSpace(headers[0].1))];
      NamesJoin(here, Own(headers[1..]));
      SingleHeader((n, TrimSpace(headers[0].1)));
    }
  }

  /** Once trimmed, the name has no colon and neither name nor value has a line break. */
  predicate Printable(h: Header) {
    COLON !in TrimSpace(h.0) && OneLine(TrimSpace(h.0)) && OneLine(TrimSpace(h.1))
  }

  /** What a caller must see to: trimmed names are distinct and without colon, and nothing that is
      printed contains a line break. */
  predicate Valid(r: Request) {
    && (forall h <- r.headers :: Printable(h)) && Distinct(Own(r.headers))
    && OneLine(r.method') && OneLine(r.path) && OneLine(r.host) && OneLine(r.agent)
  }

  lemma {:induction false} OwnIsClean(headers: seq<Header>)
    requires forall h <- headers :: Printable(h)
    ensures AllClean(Own(headers))
  {
    hide TrimSpace, Trimmed;
    if headers != [] {
      OwnIsClean(headers[1..]);
      TrimSpaceTrims(headers[0].0);
      var name, value := TrimSpace(headers[0].0), TrimSpace(headers[0].1);
      assert Printable(headers[0]);
      SingleHeader((name, value));
      NamesJoin(if name == [] then [] else [(name, value)], Own(headers[1..]));
    }
  }

  lemma FixedNamesDiffer()
    ensures HOST !in {USER_AGENT, ACCEPT, CONNECTION, ACCEPT_ENCODING, CONTENT_LENGTH}
    ensures USER_AGENT !in {ACCEPT, CONNECTION, ACCEPT_ENCODING, CONTENT_LENGTH}
    ensures ACCEPT != CONNECTION && ACCEPT != ACCEPT_ENCODING && ACCEPT != CONTENT_LENGTH
    ensures CONNECTION != ACCEPT_ENCODING && CONNECTION != CONTENT_LENGTH && ACCEPT_ENCODING != CONTENT_LENGTH
  {
    assert USER_AGENT[0] != CONNECTION[0];
  }

  lemma FixedNamesClean(value: bytes)
    requires OneLine(value)
    ensures Clean((HOST, value)) && Clean((USER_AGENT, value)) && Clean((ACCEPT, value)) && Clean((CONNECTION, value))
    ensures Clean((ACCEPT_ENCODING, value)) && Clean((CONTENT_LENGTH, value))
  {
  }

  lemma FixedValuesClean(n: nat)
    ensures OneLine(DEFAULT_AGENT) && OneLine(ANY_TYPE) && OneLine(CLOSE) && OneLine(GZIP_DEFLATE)
    ensures OneLine(Decimal(n))
  {
  }

  lemma FourHeaders(a: Header, b: Header, c: Header, d: Header)
    requires Clean(a) && Clean(b) && Clean(c) && Clean(d)
    requires a.0 != b.0 && a.0 != c.0 && a.0 != d.0 && b.0 != c.0 && b.0 != d.0 && c.0 != d.0
    ensures AllClean([a, b, c, d]) && Distinct([a, b, c, d]) && Names([a, b, c, d]) == {a.0, b.0, c.0, d.0}
  {
    hide Clean;
    var four: seq<Header> := [a, b, c, d];
    SingleHeader(d);
    assert four[3..] == [d] && four[2..][1..] == four[3..] && four[1..][1..] == four[2..];
    assert Names(four[2..]) == {c.0, d.0} && AllClean(four[2..]) && Distinct(four[2..]);
    assert Names(four[1..]) == {b.0, c.0, d.0} && AllClean(four[1..]) && Distinct(four[1..]);
  }

  lemma ThreeParts(four: seq<Header>, five: seq<Header>, six: seq<Header>)
    requires AllClean(four) && AllClean(five) && AllClean(six) && Distinct(four) && Distinct(five) && Distinct(six)
    requires Names(four) !! Names(five) && Names(four) !! Names(six) && Names(five) !! Names(six)
    ensures AllClean(four + five + six) && Distinct(four + five + six)
  {
    hide AllClean, Distinct, Names;
    NamesJoin(four, five);
    NamesJoin(four + five, six);
  }

  lemma DefaultsClean(r: Request)
    requires OneLine(r.host) && OneLine(r.agent)
    ensures AllClean(Defaults(r)) && Distinct(Defaults(r))
  {
    FixedNamesDiffer();
    FixedValuesClean(|r.body|);
    var agent := if r.agent == [] then DEFAULT_AGENT else r.agent;
    FixedNamesClean(r.host);
    FixedNamesClean(agent);
    FixedNamesClean(ANY_TYPE);
    FixedNamesClean(CLOSE);
    FixedNamesClean(GZIP_DEFLATE);
    FixedNamesClean(Decimal(|r.body|));
    hide OneLine, Decimal, Clean, AllClean, Distinct;
    DefaultsJoin(HOST, r.host, USER_AGENT, agent, ACCEPT, ANY_TYPE, CONNECTION, CLOSE,
                 ACCEPT_ENCODING, GZIP_DEFLATE, CONTENT_LENGTH, Decimal(|r.body|), r.autoDecompress, |r.body| > 0);
  }

  lemma DefaultsJoin(
    n1: bytes, v1: bytes, n2: bytes, v2: bytes, n3: bytes, v3: bytes, n4: bytes, v4: bytes,
    n5: bytes, v5: bytes, n6: bytes, v6: bytes, fifth: bool, sixth: bool)
    requires Clean((n1, v1)) && Clean((n2, v2)) && Clean((n3, v3))
    requires Clean((n4, v4)) && Clean((n5, v5)) && Clean((n6, v6))
    requires n1 != n2 && n1 != n3 && n1 != n4 && n2 != n3 && n2 != n4 && n3 != n4
    requires n5 !in {n1, n2, n3, n4} && n6 !in {n1, n2, n3, n4} && n5 != n6
    ensures var hs := [(n1, v1), (n2, v2), (n3, v3), (n4, v4)]
                      + (if fifth then [(n5, v5)] else []) + (if sixth then [(n6, v6)] else []);
            AllClean(hs) && Distinct(hs)
  {
    hide Clean;
    FourHeaders((n1, v1), (n2, v2), (n3, v3), (n4, v4));
    SingleHeader((n5, v5));
    SingleHeader((n6, v6));
    ThreeParts([(n1, v1), (n2, v2), (n3, v3), (n4, v4)],
               if fifth then [(n5, v5)] else [], if sixth then [(n6, v6)] else []);
  }

  /** Round trip. Parsing a built request gives the request line, exactly the trimmed headers of the
      caller and the missing defaults, and leaves exactly the body. */
  lemma RequestParses(r: Request) returns (rest: bytes, headers: map<bytes, bytes>)
    requires Valid(r)
    ensures Line(Build(r)) == Some((RequestLine(r), rest))
    ensures ReadHeaders(rest, map[]) == Some((headers, r.body))
    ensures Holds(headers, Printed(r))
  {
    hide Line, ReadHeaders, Print, AllClean, Distinct, Names, Defaults, Missing, Own, AddAll, TrimSpace, HasHeader;
    rest := Print(Printed(r)) + (CRLF + r.body);
    var line := RequestLine(r);
    assert line[|line| - 1] == 49;
    TrimLineEndOf(line);
    LineOf(line + [CR], rest);
    OwnIsClean(r.headers);
    DefaultsClean(r);
    MissingKeeps(Defaults(r), r.headers);
    OwnIsPresent(r.headers, r.headers);
    NamesJoin(Missing(Defaults(r), r.headers), Own(r.headers));
    PrintParses(Printed(r), r.body, map[]);
    AddAllDistinct(map[], Printed(r));
    headers := AddAll(map[], Printed(r));
  }

  lemma HasHeaderSame(a: seq<Header>, b: seq<Header>, key: bytes)
    requires forall h :: h in a ==> h in b
    ensures HasHeader(a, key) ==> HasHeader(b, key)
  {
    hide TrimSpace, EqualFold;
    if HasHeader(a, key) {
      var i :| 0 <= i < |a| && EqualFold(TrimSpace(a[i].0), key);
      assert a[i] in b;
      var j :| 0 <= j < |b| && b[j] == a[i];
      assert EqualFold(TrimSpace(b[j].0), key);
    }
  }

  lemma {:induction false} MissingSame(ds: seq<Header>, a: seq<Header>, b: seq<Header>)
    requires forall h :: h in a <==> h in b
    ensures Missing(ds, a) == Missing(ds, b)
  {
    hide HasHeader;
    if ds != [] {
      HasHeaderSame(a, b, ds[0].0);
      HasHeaderSame(b, a, ds[0].0);
      MissingSame(ds[1..], a, b);
    }
  }

  lemma {:induction false} NamesHas(hs: seq<Header>, n: bytes)
    ensures n in Names(hs) <==> exists h :: h in hs && h.0 == n
  {
    if hs != [] {
      NamesHas(hs[1..], n);
      assert forall h :: h in hs <==> h == hs[0] || h in hs[1..];
    }
  }

  /** The headers that a map holds determine it. */
  lemma HoldsUnique(m: map<bytes, bytes>, m': map<bytes, bytes>, a: seq<Header>, b: seq<Header>)
    requires Holds(m, a) && Holds(m', b) && forall h :: h in a <==> h in b
    ensures m == m'
  {
    hide TrimSpace;
    assert m.Keys == m'.Keys by {
      forall n
        ensures n in m.Keys <==> n in m'.Keys
      {
        NamesHas(a, n);
        NamesHas(b, n);
      }
    }
    forall n | n in m
      ensures m[n] == m'[n]
    {
      NamesHas(a, n);
      var h :| h in a && h.0 == n;
      assert h in b;
    }
  }

  lemma {:induction false} OwnJoins(a: seq<Header>, b: seq<Header>)
    ensures Own(a + b) == Own(a) + Own(b)
  {
    hide TrimSpace;
    if a == [] {
      assert a + b == b;
    } else {
      assert (a + b)[1..] == a[1..] + b;
      OwnJoins(a[1..], b);
    }
  }

  lemma RemoveOne(a: seq<Header>, b: seq<Header>, j: nat)
    requires multiset(a) == multiset(b) && a != [] && j < |b| && b[j] == a[0]
    ensures multiset(a[1..]) == multiset(b[..j] + b[j + 1..])
  {
    assert a == [a[0]] + a[1..];
    assert b == b[..j] + [b[j]] + b[j + 1..];
    assert multiset(b) == multiset(b[..j]) + multiset{b[j]} + multiset(b[j + 1..]);
    assert multiset(a[1..]) == multiset(a) - multiset{a[0]};
    assert multiset(b[..j] + b[j + 1..]) == multiset(b) - multiset{b[j]};
  }

  lemma OwnMoves(front: seq<Header>, h: Header, back: seq<Header>)
    ensures multiset(Own(front + [h] + back)) == multiset(Own([h])) + multiset(Own(front + back))
  {
    hide Own;
    OwnJoins(front + [h], back);
    OwnJoins(front, [h]);
    OwnJoins(front, back);
  }

  lemma OwnWithout(hs: seq<Header>, j: nat)
    requires j < |hs|
    ensures multiset(Own(hs)) == multiset(Own([hs[j]])) + multiset(Own(hs[..j] + hs[j + 1..]))
  {
    hide Own;
    assert hs[..j] + [hs[j]] + hs[j + 1..] == hs;
    OwnMoves(hs[..j], hs[j], hs[j + 1..]);
  }

  lemma PermutationFinds(a: seq<Header>, b: seq<Header>) returns (j: nat)
    requires multiset(a) == multiset(b) && a != []
    ensures j < |b| && b[j] == a[0]
  {
    assert a[0] in multiset(b);
    j :| 0 <= j < |b| && b[j] == a[0];
  }

  /** Reordering the headers reorders what is printed of them. */
  lemma {:induction false} OwnPermutes(a: seq<Header>, b: seq<Header>)
    requires multiset(a) == multiset(b)
    ensures multiset(Own(a)) == multiset(Own(b))
    decreases |a|
  {
    hide Own;
    if a == [] {
      assert |multiset(b)| == |b|;
      assert b == [];
    } else {
      var j := PermutationFinds(a, b);
      RemoveOne(a, b, j);
      OwnPermutes(a[1..], b[..j] + b[j + 1..]);
      assert a[..0] + a[1..] == a[1..];
      OwnWithout(a, 0);
      OwnWithout(b, j);
    }
  }

  lemma {:induction false} DistinctIffCount(hs: seq<Header>)
    ensures |Names(hs)| <= |hs| && (Distinct(hs) <==> |Names(hs)| == |hs|)
  {
    if hs != [] {
      DistinctIffCount(hs[1..]);
      if hs[0].0 in Names(hs[1..]) {
        assert Names(hs) == Names(hs[1..]);
      }
    }
  }

  lemma SameMembers(a: seq<Header>, b: seq<Header>)
    requires multiset(a) == multiset(b)
    ensures forall h :: h in a <==> h in b
  {
    forall h
      ensures h in a <==> h in b
    {
      assert h in a <==> h in multiset(a);
      assert h in b <==> h in multiset(b);
    }
  }

  lemma PermutationStaysDistinct(a: seq<Header>, b: seq<Header>)
    requires multiset(a) == multiset(b) && Distinct(a)
    ensures Distinct(b)
  {
    hide Distinct;
    assert |multiset(a)| == |a| && |multiset(b)| == |b|;
    SameMembers(a, b);
    forall n
      ensures n in Names(a) <==> n in Names(b)
    {
      NamesHas(a, n);
      NamesHas(b, n);
    }
    assert Names(a) == Names(b);
    DistinctIffCount(a);
    DistinctIffCount(b);
  }

  /** The order in which the header map is walked does not matter to the one who parses. */
  lemma OrderDoesNotMatter(r: Request, headers: seq<Header>)
    returns (rest: bytes, rest': bytes, parsed: map<bytes, bytes>)
    requires Valid(r) && multiset(r.headers) == multiset(headers)
    ensures Line(Build(r)) == Some((RequestLine(r), rest))
    ensures Line(Build(r.(headers := headers))) == Some((RequestLine(r), rest'))
    ensures ReadHeaders(rest, map[]) == Some((parsed, r.body)) && ReadHeaders(rest', map[]) == Some((parsed, r.body))
  {
    hide Line, Build, ReadHeaders, Holds, Own, Missing, Defaults, Printable, Distinct, OneLine;
    var r' := r.(headers := headers);
    SameMembers(r.headers, headers);
    OwnPermutes(r.headers, headers);
    PermutationStaysDistinct(Own(r.headers), Own(headers));
    var parsed';
    rest, parsed := RequestParses(r);
    rest', parsed' := RequestParses(r');
    SamePrinted(r, headers);
    HoldsUnique(parsed, parsed', Printed(r), Printed(r'));
  }

  lemma SamePrinted(r: Request, headers: seq<Header>)
    requires multiset(r.headers) == multiset(headers) && multiset(Own(r.headers)) == multiset(Own(headers))
    ensures forall h :: h in Printed(r) <==> h in Printed(r.(headers := headers))
  {
    hide Own, Missing, Defaults;
    SameMembers(r.headers, headers);
    SameMembers(Own(r.headers), Own(headers));
    DefaultsSame(r, headers);
    MissingSame(Defaults(r), r.headers, headers);
  }

  lemma DefaultsSame(r: Request, headers: seq<Header>)
    ensures Defaults(r.(headers := headers)) == Defaults(r)
  {
  }

  /** The supplied Content-Length states the length of the body. */
  lemma ContentLengthStates(r: Request)
    requires 0 < |r.body| <= INT64_MAX
    ensures (CONTENT_LENGTH, Decimal(|r.body|)) in Defaults(r) && ParseInt(Decimal(|r.body|), 10) == Some(|r.body|)
  {
    DecimalValue(|r.body|);
    var d := Defaults(r);
    assert d[|d| - 1] == (CONTENT_LENGTH, Decimal(|r.body|));
    hide Decimal, DigitsValue;
  }

  /** A header line adds its trimmed value under its trimmed name, behind a comma if the name is there
      already; a line without a name before a colon adds nothing. */
  lemma HeaderLineMeans(headers: map<bytes, bytes>, name: bytes, value: bytes)
    requires 58 !in name
    ensures AddLine(headers, name) == headers
    ensures var key, text := TrimSpace(name), TrimSpace(value);
            AddLine(headers, name + [58] + value) ==
            if name == [] then headers
            else if key in headers then headers[key := headers[key] + Ascii(", ") + text]
            else headers[key := text]
  {
    hide TrimSpace;
    var line, n := name + [58] + value, |name|;
    FindAt(name, 58, value);
    assert line[..n] == name && line[n + 1..] == value;
    assert Find(name, 58) == n;
  }

  // ----- what a server reads

  lemma HeaderOnWire(h: Header)
    ensures PrintHeader(h) == h.0 + Ascii(": ") + h.1 + Ascii("\r\n")
  {
    assert Ascii(": ") == [COLON, SPACE] && Ascii("\r\n") == [CR] + [LF];
    Regroup(h.0 + [COLON, SPACE] + h.1, [CR], [LF]);
  }

  lemma LineText(r: Request)
    ensures RequestLine(r) == r.method' + Ascii(" ") + r.path + Ascii(" HTTP/1.1")
  {
    assert Ascii(" ") == [SPACE];
  }

  lemma VersionText()
    ensures Ascii(" ") == [SPACE] && Ascii(" HTTP/1.1") == [SPACE] + Ascii("HTTP/1.1")
  {
  }

  predicate OneWord(s: bytes) {
    s != [] && forall i :: 0 <= i < |s| ==> !IsSpace(s[i])
  }

  lemma ThreeFields(first: bytes, second: bytes, third: bytes)
    requires OneWord(first) && OneWord(second)
    ensures var line := first + [SPACE] + second + ([SPACE] + third);
            && FirstWord(line) == first && SecondField(line) == second
            && line[|first| + 1 + |second| + 1..] == third
  {
    hide FirstWord, SecondField;
    var line, tail := first + [SPACE] + second + ([SPACE] + third), [SPACE] + third;
    assert line == first + ([SPACE] + (second + tail));
    FirstWordIs(first, [SPACE] + (second + tail));
    SecondFieldIs(first, second, tail);
  }

  /** The request line is made of three fields: method, path and version. */
  lemma RequestLineSplits(r: Request)
    requires OneWord(r.method') && OneWord(r.path) && Valid(r)
    ensures Line(Build(r)).Some?
    ensures var line := Line(Build(r)).value.0;
            && line == r.method' + Ascii(" ") + r.path + Ascii(" HTTP/1.1")
            && FirstWord(line) == r.method' && SecondField(line) == r.path
            && line[|r.method'| + 1 + |r.path| + 1..] == Ascii("HTTP/1.1")
  {
    hide Line, Build, FirstWord, SecondField, Valid, OneWord, RequestLine, Holds, Printed, ReadHeaders, Ascii;
    var rest, parsed := RequestParses(r);
    LineText(r);
    VersionText();
    ThreeFields(r.method', r.path, Ascii("HTTP/1.1"));
  }

  /** No header of the caller has this name, whatever its case and the space around it. */
  ghost predicate Lacks(headers: seq<Header>, name: bytes) {
    forall h <- headers :: !EqualFold(TrimSpace(h.0), name)
  }

  lemma LacksIff(headers: seq<Header>, name: bytes)
    ensures Lacks(headers, name) <==> !HasHeader(headers, name)
  {
    hide EqualFold, TrimSpace;
  }

  lemma {:induction false} MissingMembers(ds: seq<Header>, headers: seq<Header>, d: Header)
    ensures d in Missing(ds, headers) <==> d in ds && !HasHeader(headers, d.0)
  {
    hide HasHeader;
    if ds != [] {
      MissingMembers(ds[1..], headers, d);
      assert d in ds <==> d == ds[0] || d in ds[1..];
    }
  }

  lemma {:induction false} OwnMembers(headers: seq<Header>, h: Header)
    ensures h in headers && TrimSpace(h.0) != [] ==> (TrimSpace(h.0), TrimSpace(h.1)) in Own(headers)
    ensures h in Own(headers) ==> exists x <- headers :: TrimSpace(x.0) == h.0
  {
    hide TrimSpace;
    if headers != [] {
      OwnMembers(headers[1..], h);
      var x := headers[0];
      assert h in headers <==> h == x || h in headers[1..];
      assert Own(headers) ==
             (if TrimSpace(x.0) == [] then [] else [(TrimSpace(x.0), TrimSpace(x.1))]) + Own(headers[1..]);
      if h in Own(headers[1..]) {
        var y :| y in headers[1..] && TrimSpace(y.0) == h.0;
        assert y in headers;
      } else if h in Own(headers) {
        assert x in headers && TrimSpace(x.0) == h.0;
      }
    }
  }

  lemma TrimTwice(s: bytes)
    ensures TrimSpace(TrimSpace(s)) == TrimSpace(s)
  {
    hide TrimSpace;
    TrimSpaceTrims(s);
    TrimmedStays(TrimSpace(s));
  }

  /** The parsed headers hold the default, unless the caller has a header of the name. */
  ghost predicate Supplied(parsed: map<bytes, bytes>, r: Request, name: bytes, value: bytes) {
    Lacks(r.headers, name) ==> name in parsed && parsed[name] == TrimSpace(value)
  }

  lemma DefaultSupplied(r: Request, parsed: map<bytes, bytes>, d: Header)
    requires Holds(parsed, Printed(r)) && d in Defaults(r)
    ensures Supplied(parsed, r, d.0, d.1)
  {
    hide Defaults, Missing, Own, HasHeader, TrimSpace, Lacks;
    LacksIff(r.headers, d.0);
    MissingMembers(Defaults(r), r.headers, d);
    if Lacks(r.headers, d.0) { assert d in Printed(r); }
  }

  lemma OwnParsed(r: Request, parsed: map<bytes, bytes>, h: Header)
    requires Holds(parsed, Printed(r)) && h in r.headers && TrimSpace(h.0) != []
    ensures TrimSpace(h.0) in parsed && parsed[TrimSpace(h.0)] == TrimSpace(h.1)
  {
    hide Defaults, Missing, Own, TrimSpace;
    OwnMembers(r.headers, h);
    TrimTwice(h.1);
    assert (TrimSpace(h.0), TrimSpace(h.1)) in Printed(r);
  }

  /** The names of the supplied headers. */
  lemma DefaultNames(r: Request, d: Header)
    requires d in Defaults(r)
    ensures d.0 in {Ascii("Host"), Ascii("User-Agent"), Ascii("Accept"), Ascii("Connection"),
                    Ascii("Accept-Encoding"), Ascii("Content-Length")}
    ensures d.0 == Ascii("Accept-Encoding") ==> r.autoDecompress
    ensures d.0 == Ascii("Content-Length") ==> |r.body| > 0
  {
    hide Ascii, Decimal;
    FixedNamesDiffer();
  }

  lemma NothingElseParsed(r: Request, parsed: map<bytes, bytes>, name: bytes)
    requires Holds(parsed, Printed(r)) && name in parsed && !(exists h <- r.headers :: TrimSpace(h.0) == name)
    ensures Lacks(r.headers, name)
    ensures name in {Ascii("Host"), Ascii("User-Agent"), Ascii("Accept"), Ascii("Connection"),
                     Ascii("Accept-Encoding"), Ascii("Content-Length")}
    ensures name == Ascii("Accept-Encoding") ==> r.autoDecompress
    ensures name == Ascii("Content-Length") ==> |r.body| > 0
  {
    hide Defaults, Missing, Own, TrimSpace, Lacks, HasHeader, Ascii;
    NamesHas(Printed(r), name);
    var d :| d in Printed(r) && d.0 == name;
    OwnMembers(r.headers, d);
    MissingMembers(Defaults(r), r.headers, d);
    LacksIff(r.headers, name);
    DefaultNames(r, d);
  }

  lemma DefaultMembers(r: Request)
    ensures var agent := if r.agent == [] then Ascii("DesKaOne/0.0.1") else r.agent;
            && (Ascii("Host"), r.host) in Defaults(r) && (Ascii("User-Agent"), agent) in Defaults(r)
            && (Ascii("Accept"), Ascii("*/*")) in Defaults(r) && (Ascii("Connection"), Ascii("close")) in Defaults(r)
            && (r.autoDecompress ==> (Ascii("Accept-Encoding"), Ascii("gzip, deflate")) in Defaults(r))
            && (|r.body| > 0 ==> (Ascii("Content-Length"), Decimal(|r.body|)) in Defaults(r))
  {
    hide Ascii, Decimal;
    var ds := Defaults(r);
    var agent := if r.agent == [] then Ascii("DesKaOne/0.0.1") else r.agent;
    assert ds[0] == (HOST, r.host) && ds[1] == (USER_AGENT, agent);
    assert ds[2] == (ACCEPT, ANY_TYPE) && ds[3] == (CONNECTION, CLOSE);
    assert r.autoDecompress ==> ds[4] == (ACCEPT_ENCODING, GZIP_DEFLATE);
    assert |r.body| > 0 ==> ds[|ds| - 1] == (CONTENT_LENGTH, Decimal(|r.body|));
  }

  /** What a server reads from a built request: the caller's headers with their trimmed values; Host,
      User-Agent, Accept and Connection, Accept-Encoding if decompression is on and Content-Length if
      there is a body, each unless the caller has a header of the name; and no other header. */
  lemma ServerReads(r: Request) returns (rest: bytes, parsed: map<bytes, bytes>)
    requires Valid(r)
    ensures Line(Build(r)) == Some((r.method' + Ascii(" ") + r.path + Ascii(" HTTP/1.1"), rest))
    ensures ReadHeaders(rest, map[]) == Some((parsed, r.body))
    ensures forall h <- r.headers :: TrimSpace(h.0) != [] ==>
              TrimSpace(h.0) in parsed && parsed[TrimSpace(h.0)] == TrimSpace(h.1)
    ensures Supplied(parsed, r, Ascii("Host"), r.host)
    ensures Supplied(parsed, r, Ascii("User-Agent"), if r.agent == [] then Ascii("DesKaOne/0.0.1") else r.agent)
    ensures Supplied(parsed, r, Ascii("Accept"), Ascii("*/*"))
    ensures Supplied(parsed, r, Ascii("Connection"), Ascii("close"))
    ensures r.autoDecompress ==> Supplied(parsed, r, Ascii("Accept-Encoding"), Ascii("gzip, deflate"))
    ensures |r.body| > 0 ==> Supplied(parsed, r, Ascii("Content-Length"), Decimal(|r.body|))
    ensures forall name <- parsed :: !(exists h <- r.headers :: TrimSpace(h.0) == name) ==>
              && Lacks(r.headers, name)
              && name in {Ascii("Host"), Ascii("User-Agent"), Ascii("Accept"), Ascii("Connection"),
                          Ascii("Accept-Encoding"), Ascii("Content-Length")}
              && (name == Ascii("Accept-Encoding") ==> r.autoDecompress)
              && (name == Ascii("Content-Length") ==> |r.body| > 0)
  {
    hide Line, Build, ReadHeaders, Holds, Printed, Defaults, Ascii, Decimal, TrimSpace, Lacks, Supplied, Valid;
    rest, parsed := RequestParses(r);
    LineText(r);
    DefaultMembers(r);
    DefaultSupplied(r, parsed, (Ascii("Host"), r.host));
    var agent := if r.agent == [] then Ascii("DesKaOne/0.0.1") else r.agent;
    DefaultSupplied(r, parsed, (Ascii("User-Agent"), agent));
    DefaultSupplied(r, parsed, (Ascii("Accept"), Ascii("*/*")));
    DefaultSupplied(r, parsed, (Ascii("Connection"), Ascii("close")));
    if r.autoDecompress { DefaultSupplied(r, parsed, (Ascii("Accept-Encoding"), Ascii("gzip, deflate"))); }
    if |r.body| > 0 { DefaultSupplied(r, parsed, (Ascii("Content-Length"), Decimal(|r.body|))); }
    forall h | h in r.headers && TrimSpace(h.0) != []
      ensures TrimSpace(h.0) in parsed && parsed[TrimSpace(h.0)] == TrimSpace(h.1)
    {
      OwnParsed(r, parsed, h);
    }
    forall name | name in parsed && !(exists h <- r.headers :: TrimSpace(h.0) == name)
      ensures && Lacks(r.headers, name)
              && name in {Ascii("Host"), Ascii("User-Agent"), Ascii("Accept"), Ascii("Connection"),
                          Ascii("Accept-Encoding"), Ascii("Content-Length")}
              && (name == Ascii("Accept-Encoding") ==> r.autoDecompress)
              && (name == Ascii("Content-Length") ==> |r.body| > 0)
    {
      NothingElseParsed(r, parsed, name);
    }
  }
}
