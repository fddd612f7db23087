/** The writing side of the TCP client. */
module TcpClient {
  import opened Bytes
  import opened Wrappers

  /** What the connection does with one write: it takes up to n bytes, and may then fail. */
  datatype Behaviour = Behaviour(n: nat, fails: bool)

  datatype WriteError = Closed | Broken | ShortWrite

  /** The fields of the client, with what the connection will do with the writes to come (it fails
      when nothing is left) and whether it was closed. */
  datatype Tcp = Tcp(script: seq<Behaviour>, wire: bytes, isClosed: bool, connClosed: bool)

  /** One `Write`: the client after it, the number of bytes taken and the error. */
  function WriteOnce(t: Tcp, b: bytes): (r: (Tcp, nat, Option<WriteError>))
    ensures r.1 <= |b|
  {
    if t.isClosed then (t, 0, Some(Closed))
    else if t.script == [] then (t.(isClosed := true), 0, Some(Broken))
    else
      var does := t.script[0];
      var n := if does.n <= |b| then does.n else |b|;
      var t' := t.(script := t.script[1..], wire := t.wire + b[..n], isClosed := does.fails);
      (t', n, if does.fails then Some(Broken) else None)
  }

  /** `WriteFull`: the client after it and the error. */
  function WriteAll(t: Tcp, b: bytes): (Tcp, Option<WriteError>)
    decreases |b|
  {
    if b == [] then (t, None)
    else
      var (t', n, err) := WriteOnce(t, b);
      if err.Some? then (t', err)
      else if n == 0 then (t', Some(ShortWrite))
      else WriteAll(t', b[n..])
  }

  /** `Close`: the connection is closed only by the call that sets `isClosed`. */
  function CloseOnce(t: Tcp): Tcp {
    if t.isClosed then t else t.(isClosed := true, connClosed := true)
  }

  /** Either all of b is on the wire, or the part of it that got out is followed by an error; the
      client is then closed, except after a write that took nothing and reported no error. */
  lemma {:induction false} WriteAllOutcome(t: Tcp, b: bytes) returns (n: nat)
    ensures var (t', err) := WriteAll(t, b);
            && n <= |b| && t'.wire == t.wire + b[..n] && t'.connClosed == t.connClosed
            && (err.None? ==> n == |b| && t'.isClosed == t.isClosed)
            && (err.Some? ==> t'.isClosed == !err.value.ShortWrite?)
            && (err == Some(ShortWrite) ==> n < |b|)
            && (t.isClosed && b != [] ==> err == Some(Closed) && t' == t)
    decreases |b|
  {
    if b == [] {
      n := 0;
    } else {
      var (t', k, err) := WriteOnce(t, b);
      n := k;
      if err.None? && k > 0 {
        var more := WriteAllOutcome(t', b[k..]);
        assert b[..k] + b[k..][..more] == b[..k + more];
        n := k + more;
      }
    }
  }

  /** The connection takes at least one byte of every write and reports no error. */
  predicate Progresses(script: seq<Behaviour>) {
    forall i :: 0 <= i < |script| ==> script[i].n > 0 && !script[i].fails
  }

  /** On a connection that makes progress for as many writes as there are bytes, everything gets out. */
  lemma {:induction false} WriteAllSucceeds(t: Tcp, b: bytes)
    requires !t.isClosed && |t.script| >= |b| && Progresses(t.script[..|b|])
    ensures var (t', err) := WriteAll(t, b); err.None? && t'.wire == t.wire + b && !t'.isClosed
    decreases |b|
  {
    if b == [] {
      assert t.wire + b == t.wire;
    } else {
      assert t.script[..|b|][0] == t.script[0];
      var (t', n, err) := WriteOnce(t, b);
      var rest := b[n..];
      forall i | 0 <= i < |rest|
        ensures t'.script[..|rest|][i].n > 0 && !t'.script[..|rest|][i].fails
      {
        assert t'.script[i] == t.script[..|b|][i + 1];
      }
      WriteAllSucceeds(t', rest);
      assert t.wire + b[..n] + rest == t.wire + b;
    }
  }

  lemma {:induction false} OpenNotRefused(t: Tcp, b: bytes)
    requires !t.isClosed
    ensures WriteAll(t, b).1 != Some(Closed)
    decreases |b|
  {
    if b != [] {
      var (t', n, err) := WriteOnce(t, b);
      if err.None? && n > 0 { OpenNotRefused(t', b[n..]); }
    }
  }

  /** A client that is closed after a write: its connection is closed too, unless the connection
      reported an error on the write. That has set `isClosed`, and `Close` finds it set. */
  lemma CloseAfterWrite(t: Tcp, b: bytes)
    requires !t.isClosed && !t.connClosed
    ensures var (t', err) := WriteAll(t, b);
            CloseOnce(t').isClosed && (CloseOnce(t').connClosed <==> err != Some(Broken))
    decreases |b|
  {
    var n := WriteAllOutcome(t, b);
    OpenNotRefused(t, b);
  }

  class TcpClient {
    var script: seq<Behaviour>
    var wire: bytes
    var isClosed: bool
    var connClosed: bool

    constructor (script: seq<Behaviour>)
      ensures State() == Tcp(script, [], false, false)
    {
      this.script := script;
      wire, isClosed, connClosed := [], false, false;
    }

    ghost function State(): Tcp
      reads this
    {
      Tcp(script, wire, isClosed, connClosed)
    }

    /** Wire and script stay; the connection is closed by the first call only, and not at all when a
        failed write has set `isClosed` before. */
    method Close()
      modifies this`isClosed, this`connClosed
      ensures State() == CloseOnce(old(State())) && isClosed
      ensures connClosed == (old(connClosed) || !old(isClosed))
    {
      var wasClosed := isClosed;
      isClosed := true;
      if wasClosed { return; }
      connClosed := true;
    }

    method Write(b: bytes) returns (n: nat, err: Option<WriteError>)
      modifies this
      ensures (State(), n, err) == WriteOnce(old(State()), b)
      ensures n <= |b| && wire == old(wire) + b[..n] && connClosed == old(connClosed)
      ensures old(isClosed) ==> err == Some(Closed) && State() == old(State())
      ensures !old(isClosed) ==> isClosed == err.Some? && err != Some(Closed)
      ensures !old(isClosed) && old(script) == [] ==> err.Some? && n == 0
      ensures !old(isClosed) && old(script) != [] ==>
                && script == old(script)[1..] && err.Some? == old(script)[0].fails
                && n == if old(script)[0].n <= |b| then old(script)[0].n else |b|
    {
      if isClosed { return 0, Some(Closed); }
      if script == [] {
        isClosed := true;
        return 0, Some(Broken);
      }
      var does := script[0];
      script := script[1..];
      n := if does.n <= |b| then does.n else |b|;
      wire := wire + b[..n];
      if does.fails {
        isClosed := true;
        return n, Some(Broken);
      }
      return n, None;
    }

    /** The loop of `WriteFull` does what WriteAll says, and so has its outcome. */
    method WriteFull(b: bytes) returns (err: Option<WriteError>, ghost sent: nat)
      modifies this
      ensures (State(), err) == WriteAll(old(State()), b)
      ensures sent <= |b| && wire == old(wire) + b[..sent] && connClosed == old(connClosed)
      ensures err.None? ==> sent == |b| && isClosed == old(isClosed)
      ensures err.Some? ==> isClosed == !err.value.ShortWrite?
      ensures err == Some(ShortWrite) ==> sent < |b|
      ensures old(isClosed) && b != [] ==> err == Some(Closed) && sent == 0
    {
      sent := WriteAllOutcome(State(), b);
      assert old(isClosed) && b != [] ==> wire + b[..sent] == wire && |b[..sent]| == 0;
      var rest := b;
      while |rest| > 0
        invariant WriteAll(State(), rest) == WriteAll(old(State()), b)
        decreases |rest|
      {
        var n, e := Write(rest);
        if e.Some? { return e, sent; }
        if n == 0 { return Some(ShortWrite), sent; }
        rest := rest[n..];
      }
      return None, sent;
    }
  }
}
