/** The two ends as the program runs them: sequential reads and writes on a mutable stream, the server
    behind its prefetching reader. Each is the machine of module Socks5 run on the bytes it is given. */
module Socks5Impl {
  import opened Common
  import opened Socks5

  /** A connection as one end sees it: the bytes the peer will have sent, and those written so far. */
  class Stream {
    var input: seq<Byte>
    var output: seq<Byte>

    constructor (input: seq<Byte>)
      ensures this.input == input && output == []
    {
      this.input, output := input, [];
    }

    /** All n bytes, or none when the peer closes first. */
    method ReadExact(n: nat) returns (r: Option<seq<Byte>>)
      modifies this
      ensures output == old(output)
      ensures r.Some? <==> n <= |old(input)|
      ensures r.Some? ==> r.value == old(input)[..n] && input == old(input)[n..]
    {
      if n > |input| {
        input := [];
        return None;
      }
      r := Some(input[..n]);
      input := input[n..];
    }

    method WriteAll(b: seq<Byte>)
      modifies this
      ensures input == old(input) && output == old(output) + b
    {
      output := output + b;
    }
  }

  lemma Halves(a: seq<Byte>, b: seq<Byte>)
    ensures (a + b)[..|a|] == a && (a + b)[|a|..] == b
  {
  }

  lemma Across(a: seq<Byte>, b: seq<Byte>, n: nat)
    requires |a| <= n <= |a| + |b|
    ensures (a + b)[..n] == a + b[..n - |a|] && (a + b)[n..] == b[n - |a|..]
  {
  }

  /** `Io`: bytes read too early are handed out before the connection is read again. */
  class Io {
    const inner: Stream
    var buf: seq<Byte>
    var pos: nat

    ghost predicate Valid()
      reads this
    {
      pos <= |buf|
    }

    /** What reading from this yields: the unread rest of the buffer, then the connection. */
    ghost function Pending(): seq<Byte>
      reads this, inner
      requires Valid()
    {
      buf[pos..] + inner.input
    }

    constructor (inner: Stream, leftover: seq<Byte>)
      ensures this.inner == inner && Valid() && Pending() == leftover + inner.input
    {
      this.inner, buf, pos := inner, leftover, 0;
    }

    /** `read_exact`: the buffer first, the connection for what is still missing. */
    method ReadExact(n: nat) returns (r: Option<seq<Byte>>)
      requires Valid()
      modifies this, inner
      ensures Valid() && inner.output == old(inner.output)
      ensures r.Some? <==> n <= |old(Pending())|
      ensures r.Some? ==> r.value == old(Pending())[..n] && Pending() == old(Pending())[n..]
    {
      var filled := FromBuffer(n);
      Halves(filled, Pending());
      if |filled| < n {
        assert buf[pos..] + inner.input == inner.input;
        ghost var left := inner.input;
        var rest := inner.ReadExact(n - |filled|);
        assert buf[pos..] + inner.input == inner.input;
        if rest.None? {
          return None;
        }
        Across(filled, left, n);
        return Some(filled + rest.value);
      }
      return Some(filled);
    }

    /** The first loop of `read_exact`. */
    method FromBuffer(n: nat) returns (filled: seq<Byte>)
      requires Valid()
      modifies this
      ensures Valid() && |filled| <= n && (|filled| < n ==> buf[pos..] == [])
      ensures old(Pending()) == filled + Pending()
    {
      filled := [];
      ghost var from := pos;
      while |filled| < n && pos < |buf|
        invariant from <= pos <= |buf| && |filled| <= n && buf == old(buf)
        invariant filled == buf[from..pos]
      {
        filled := filled + [buf[pos]];
        pos := pos + 1;
      }
      assert buf[from..] == buf[from..pos] + buf[pos..];
      assert old(Pending()) == filled + (buf[pos..] + inner.input);
    }
  }

  // ----- The machines on a given input -----

  /** The server machine from state s to its end: the last state, what it writes, what it leaves unread. */
  function RunServer(c: Setup, s: Server, input: seq<Byte>): (Server, seq<Byte>, seq<Byte>)
    decreases ServerRank(s)
  {
    if ServerOver(s) then (s, [], input)
    else if |input| < ServerNeeds(s) then (Refused, [], input)
    else
      var n := ServerNeeds(s);
      var (s', out) := ServerFeed(c, s, input[..n]);
      var (end, more, rest) := RunServer(c, s', input[n..]);
      (end, out + more, rest)
  }

  function RunClient(c: Setup, s: Client, input: seq<Byte>): (Client, seq<Byte>, seq<Byte>)
    decreases ClientRank(s)
  {
    if ClientOver(s) then (s, [], input)
    else if |input| < ClientNeeds(s) then (GaveUp, [], input)
    else
      var n := ClientNeeds(s);
      var (s', out) := ClientFeed(c, s, input[..n]);
      var (end, more, rest) := RunClient(c, s', input[n..]);
      (end, out + more, rest)
  }

  /** Where a server run stands: the machine is in state s with `written` already written. */
  ghost predicate ServerAt(c: Setup, whole: (Server, seq<Byte>, seq<Byte>), s: Server, pending: seq<Byte>,
                           written: seq<Byte>) {
    var r := RunServer(c, s, pending);
    whole == (r.0, written + r.1, r.2)
  }

  lemma ServerMoves(c: Setup, whole: (Server, seq<Byte>, seq<Byte>), s: Server, pending: seq<Byte>, written: seq<Byte>)
    requires ServerAt(c, whole, s, pending, written) && !ServerOver(s)
    ensures |pending| < ServerNeeds(s) ==> whole.0 == Refused && whole.1 == written
    ensures |pending| >= ServerNeeds(s) ==>
              var (s', out) := ServerFeed(c, s, pending[..ServerNeeds(s)]);
              ServerAt(c, whole, s', pending[ServerNeeds(s)..], written + out)
  {
    hide ServerFeed;
    if |pending| >= ServerNeeds(s) {
      var n := ServerNeeds(s);
      var (s', out) := ServerFeed(c, s, pending[..n]);
      var r := RunServer(c, s', pending[n..]);
      assert written + (out + r.1) == (written + out) + r.1;
    } else {
      assert written + [] == written;
    }
  }

  // ----- The server end -----

  /** Where the server stands in its run: either it has given up, as the run does, or the run goes on
      from state s; `w` is what it has written. */
  ghost predicate Standing(c: Setup, whole: (Server, seq<Byte>, seq<Byte>), s: Server, pending: seq<Byte>,
                           w: seq<Byte>) {
    if s.Refused? then whole.0 == Refused && whole.1 == w else ServerAt(c, whole, s, pending, w)
  }

  /** One `read_exact` of the server, with the machine moved along; what the machine then says is
      written. */
  method Take(c: Setup, io: Io, n: nat, ghost whole: (Server, seq<Byte>, seq<Byte>), ghost s: Server,
              ghost w: seq<Byte>)
    returns (r: Option<seq<Byte>>)
    requires io.Valid() && !ServerOver(s) && n == ServerNeeds(s) && Standing(c, whole, s, io.Pending(), w)
    modifies io, io.inner
    ensures io.Valid() && io.inner.output == old(io.inner.output)
    ensures r.None? ==> Standing(c, whole, Refused, io.Pending(), w)
    ensures r.Some? ==> |r.value| == n
    ensures r.Some? ==> var (s', out) := ServerFeed(c, s, r.value); Standing(c, whole, s', io.Pending(), w + out)
    ensures r.Some? && ServerFeed(c, s, r.value).1 == [] ==>
            Standing(c, whole, ServerFeed(c, s, r.value).0, io.Pending(), w)
  {
    ServerMoves(c, whole, s, io.Pending(), w);
    r := io.ReadExact(n);
    if r.Some? {
      var (s', out) := ServerFeed(c, s, r.value);
      assert out == [] ==> w + out == w;
      AtRefused(c, whole, io.Pending(), w + out);
    }
  }

  lemma AtRefused(c: Setup, whole: (Server, seq<Byte>, seq<Byte>), pending: seq<Byte>, w: seq<Byte>)
    ensures ServerAt(c, whole, Refused, pending, w) ==> Standing(c, whole, Refused, pending, w)
  {
    assert w + [] == w;
  }

  lemma FeedVersion(c: Setup, b: seq<Byte>)
    requires |b| == 1
    ensures ServerFeed(c, Version, b) == (if b[0] == 5 then MethodCount else Refused, [])
  {
  }

  lemma FeedCount(c: Setup, b: seq<Byte>)
    requires |b| == 1
    ensures ServerFeed(c, MethodCount, b) == (MethodList(b[0]), [])
  {
  }

  lemma FeedMethods(c: Setup, b: seq<Byte>)
    ensures ServerFeed(c, MethodList(|b|), b)
            == if c.user == [] then (Head, [5, 0])
               else if 2 in b then (AuthVersion, [5, 2])
               else (Refused, [5, 255])
  {
  }

  /** The greeting: version, methods, and the answer to them. */
  method Greeting(c: Setup, io: Io, ghost whole: (Server, seq<Byte>, seq<Byte>)) returns (s: Server, ghost w: seq<Byte>)
    requires io.Valid() && Standing(c, whole, Version, io.Pending(), [])
    modifies io, io.inner
    ensures io.Valid() && io.inner.output == old(io.inner.output) + w
    ensures (s == Head || s == AuthVersion || s == Refused) && Standing(c, whole, s, io.Pending(), w)
  {
    hide RunServer, Standing, ServerFeed;
    w := [];
    var b := Take(c, io, 1, whole, Version, w);
    if b.None? { return Refused, w; }
    FeedVersion(c, b.value);
    if b.value[0] != 5 { return Refused, w; }
    b := Take(c, io, 1, whole, MethodCount, w);
    if b.None? { return Refused, w; }
    FeedCount(c, b.value);
    var nmethods: int := b.value[0];
    b := Take(c, io, nmethods, whole, MethodList(nmethods), w);
    if b.None? { return Refused, w; }
    FeedMethods(c, b.value);
    var answer: seq<Byte>;
    if c.user != [] {
      if 2 !in b.value {
        s, answer := Refused, [5, 255];
      } else {
        s, answer := AuthVersion, [5, 2];
      }
    } else {
      s, answer := Head, [5, 0];
    }
    io.inner.WriteAll(answer);
    w := w + answer;
  }

  /** The credentials, and the answer to them. */
  method Authenticate(c: Setup, io: Io, ghost whole: (Server, seq<Byte>, seq<Byte>), ghost start: seq<Byte>,
                      ghost w0: seq<Byte>)
    returns (s: Server, ghost w: seq<Byte>)
    requires io.Valid() && Standing(c, whole, AuthVersion, io.Pending(), w0) && io.inner.output == start + w0
    modifies io, io.inner
    ensures io.Valid() && io.inner.output == start + w
    ensures (s == Head || s == Refused) && Standing(c, whole, s, io.Pending(), w)
  {
    hide RunServer, Standing;
    var ok, over := ReadUserPass(c, io, whole, w0);
    if over { return Refused, w0; }
    var answer: seq<Byte> := [1, if ok then 0 else 1];
    io.inner.WriteAll(answer);
    w := w0 + answer;
    s := if ok then Head else Refused;
  }

  lemma FeedAuthVersion(c: Setup, b: seq<Byte>)
    requires |b| == 1
    ensures ServerFeed(c, AuthVersion, b) == if b[0] == 1 then (UserLen, []) else (Refused, [1, 1])
  {
  }

  lemma FeedLengths(c: Setup, b: seq<Byte>, user: seq<Byte>)
    requires |b| == 1
    ensures ServerFeed(c, UserLen, b) == (User(b[0]), []) && ServerFeed(c, PassLen(user), b) == (Pass(user, b[0]), [])
  {
  }

  lemma FeedUser(c: Setup, user: seq<Byte>)
    ensures ServerFeed(c, User(|user|), user) == (PassLen(user), [])
  {
  }

  lemma FeedPass(c: Setup, user: seq<Byte>, passwd: seq<Byte>)
    ensures ServerFeed(c, Pass(user, |passwd|), passwd)
            == if user == c.user && passwd == c.passwd then (Head, [1, 0]) else (Refused, [1, 1])
  {
  }

  /** `read_userpass`; `over` says that the connection ended first. */
  method ReadUserPass(c: Setup, io: Io, ghost whole: (Server, seq<Byte>, seq<Byte>), ghost w: seq<Byte>)
    returns (ok: bool, over: bool)
    requires io.Valid() && Standing(c, whole, AuthVersion, io.Pending(), w)
    modifies io, io.inner
    ensures io.Valid() && io.inner.output == old(io.inner.output)
    ensures if over then Standing(c, whole, Refused, io.Pending(), w)
            else Standing(c, whole, if ok then Head else Refused, io.Pending(), w + [1, if ok then 0 else 1])
  {
    hide RunServer, Standing, ServerFeed;
    var b := Take(c, io, 1, whole, AuthVersion, w);
    if b.None? { return false, true; }
    FeedAuthVersion(c, b.value);
    if b.value[0] != 1 { return false, false; }
    b := Take(c, io, 1, whole, UserLen, w);
    if b.None? { return false, true; }
    FeedLengths(c, b.value, []);
    var ulen: int := b.value[0];
    var ub := Take(c, io, ulen, whole, User(ulen), w);
    if ub.None? { return false, true; }
    FeedUser(c, ub.value);
    b := Take(c, io, 1, whole, PassLen(ub.value), w);
    if b.None? { return false, true; }
    FeedLengths(c, b.value, ub.value);
    var plen: int := b.value[0];
    var pb := Take(c, io, plen, whole, Pass(ub.value, plen), w);
    if pb.None? { return false, true; }
    FeedPass(c, ub.value, pb.value);
    return ub.value == c.user && pb.value == c.passwd, false;
  }

  /** The address in the form its type byte announces; an unknown type is refused. */
  method TakeAddress(c: Setup, io: Io, ghost whole: (Server, seq<Byte>, seq<Byte>), head: seq<Byte>, ghost w: seq<Byte>)
    returns (target: Option<Address>)
    requires io.Valid() && |head| == 4 && Standing(c, whole, ServerFeed(c, Head, head).0, io.Pending(), w)
    modifies io, io.inner
    ensures io.Valid() && io.inner.output == old(io.inner.output)
    ensures var s := if target.Some? then Port(head[0], head[1], target.value) else Refused;
            Standing(c, whole, s, io.Pending(), w)
  {
    hide RunServer, Standing;
    var ver, cmd := head[0], head[1];
    if head[3] == 1 {
      var ip := Take(c, io, 4, whole, Ip4(ver, cmd), w);
      return if ip.Some? then Some(V4(ip.value)) else None;
    } else if head[3] == 3 {
      var len := Take(c, io, 1, whole, NameLen(ver, cmd), w);
      if len.None? { return None; }
      var n: int := len.value[0];
      var name := Take(c, io, n, whole, Name(ver, cmd, n), w);
      return if name.Some? then Some(Domain(name.value)) else None;
    } else if head[3] == 4 {
      var ip := Take(c, io, 16, whole, Ip6(ver, cmd), w);
      return if ip.Some? then Some(V6(ip.value)) else None;
    } else {
      return None;
    }
  }

  lemma FeedHead(c: Setup, b: seq<Byte>)
    requires |b| == 4
    ensures ServerFeed(c, Head, b).1 == []
  {
  }

  lemma FeedPort(c: Setup, ver: Byte, cmd: Byte, target: Address, b: seq<Byte>)
    requires |b| == 2
    ensures ServerFeed(c, Port(ver, cmd, target), b)
            == if ver != 5 then (Refused, [])
               else if cmd != 1 then (Refused, REFUSED)
               else if !c.upstream then (Refused, [])
               else (Relaying(target, ReadU16(b, 0)), REPLY)
  {
  }

  /** The request: header, address, port; then the connection to the target and the reply. */
  method ServeRequest(c: Setup, io: Io, ghost whole: (Server, seq<Byte>, seq<Byte>), ghost start: seq<Byte>,
                      ghost w0: seq<Byte>)
    returns (s: Server, ghost w: seq<Byte>)
    requires io.Valid() && Standing(c, whole, Head, io.Pending(), w0) && io.inner.output == start + w0
    modifies io, io.inner
    ensures io.Valid() && io.inner.output == start + w
    ensures ServerOver(s) && Standing(c, whole, s, io.Pending(), w)
  {
    hide RunServer, Standing, ServerFeed, REPLY, REFUSED, ReadU16;
    w := w0;
    var head := Take(c, io, 4, whole, Head, w);
    if head.None? { return Refused, w; }
    FeedHead(c, head.value);
    var ver, cmd := head.value[0], head.value[1];
    var target := TakeAddress(c, io, whole, head.value, w);
    if target.None? { return Refused, w; }
    var port := Take(c, io, 2, whole, Port(ver, cmd, target.value), w);
    if port.None? { return Refused, w; }
    FeedPort(c, ver, cmd, target.value, port.value);
    if ver != 5 { return Refused, w; }
    if cmd != 1 {
      io.inner.WriteAll(REFUSED);
      return Refused, w + REFUSED;
    }
    if !c.upstream { return Refused, w; }
    io.inner.WriteAll(REPLY);
    return Relaying(target.value, ReadU16(port.value, 0)), w + REPLY;
  }

  /** `socks5::serve` up to the relaying, which starts on what is then left unread. */
  method Serve(c: Setup, io: Io) returns (end: Server)
    requires io.Valid()
    modifies io, io.inner
    ensures io.Valid() && ServerOver(end)
    ensures var whole := RunServer(c, Version, old(io.Pending()));
            end == whole.0 && io.inner.output == old(io.inner.output) + whole.1
                && (end.Relaying? ==> io.Pending() == whole.2)
  {
    hide RunServer, Standing;
    ghost var whole, start := RunServer(c, Version, io.Pending()), io.inner.output;
    AtVersion(c, io.Pending());
    ghost var w;
    end, w := Greeting(c, io, whole);
    if end == AuthVersion {
      end, w := Authenticate(c, io, whole, start, w);
    }
    if end == Head {
      end, w := ServeRequest(c, io, whole, start, w);
    }
    AtEnd(c, whole, end, io.Pending(), w);
  }

  lemma AtVersion(c: Setup, pending: seq<Byte>)
    ensures Standing(c, RunServer(c, Version, pending), Version, pending, [])
  {
    var whole := RunServer(c, Version, pending);
    assert [] + whole.1 == whole.1;
  }

  lemma AtEnd(c: Setup, whole: (Server, seq<Byte>, seq<Byte>), s: Server, pending: seq<Byte>, w: seq<Byte>)
    requires ServerOver(s) && Standing(c, whole, s, pending, w)
    ensures s == whole.0 && w == whole.1 && (s.Relaying? ==> pending == whole.2)
  {
    assert w + [] == w;
  }

  // ----- The client end -----

  ghost predicate ClientAt(c: Setup, whole: (Client, seq<Byte>, seq<Byte>), s: Client, pending: seq<Byte>,
                           w: seq<Byte>) {
    if s.GaveUp? then whole.0 == GaveUp && whole.1 == w
    else
      var r := RunClient(c, s, pending);
      whole == (r.0, w + r.1, r.2)
  }

  lemma ClientStarves(c: Setup, whole: (Client, seq<Byte>, seq<Byte>), s: Client, pending: seq<Byte>, w: seq<Byte>)
    requires ClientAt(c, whole, s, pending, w) && !ClientOver(s) && |pending| < ClientNeeds(s)
    ensures forall any :: ClientAt(c, whole, GaveUp, any, w)
  {
    assert w + [] == w;
  }

  lemma ClientMoves(c: Setup, whole: (Client, seq<Byte>, seq<Byte>), s: Client, pending: seq<Byte>, w: seq<Byte>)
    requires ClientAt(c, whole, s, pending, w) && !ClientOver(s) && |pending| >= ClientNeeds(s)
    ensures var (s', out) := ClientFeed(c, s, pending[..ClientNeeds(s)]);
            ClientAt(c, whole, s', pending[ClientNeeds(s)..], w + out)
  {
    hide ClientFeed, Request, Auth, ClientNeeds;
    var n := ClientNeeds(s);
    var (s', out) := ClientFeed(c, s, pending[..n]);
    var r := RunClient(c, s', pending[n..]);
    assert w + (out + r.1) == (w + out) + r.1;
    assert s'.GaveUp? ==> (w + out) + [] == w + out;
  }

  /** One `read_exact` of the client, with the machine moved along. */
  method ClientTake(c: Setup, stream: Stream, n: nat, ghost whole: (Client, seq<Byte>, seq<Byte>), ghost s: Client,
                    ghost w: seq<Byte>)
    returns (r: Option<seq<Byte>>)
    requires !ClientOver(s) && n == ClientNeeds(s) && ClientAt(c, whole, s, stream.input, w)
    modifies stream
    ensures stream.output == old(stream.output)
    ensures r.None? ==> ClientAt(c, whole, GaveUp, stream.input, w)
    ensures r.Some? ==> |r.value| == n
    ensures r.Some? ==> var (s', out) := ClientFeed(c, s, r.value); ClientAt(c, whole, s', stream.input, w + out)
    ensures r.Some? && ClientFeed(c, s, r.value).1 == [] ==>
            ClientAt(c, whole, ClientFeed(c, s, r.value).0, stream.input, w)
  {
    hide ClientAt, ClientFeed;
    if |stream.input| < n {
      ClientStarves(c, whole, s, stream.input, w);
    } else {
      ClientMoves(c, whole, s, stream.input, w);
    }
    r := stream.ReadExact(n);
    assert w + [] == w;
  }

  /** The CONNECT request, unless the host name is too long. */
  method SendConnect(c: Setup, stream: Stream) returns (end: Client, ghost out: seq<Byte>)
    modifies stream
    ensures (end, out) == SendRequest(c) && stream.output == old(stream.output) + out
            && stream.input == old(stream.input)
  {
    var req: seq<Byte> := [5, 1, 0];
    match c.target {
      case V4(ip) => req := req + [1] + ip;
      case V6(ip) => req := req + [4] + ip;
      case Domain(name) =>
        if |name| > 255 {
          return GaveUp, [];
        }
        req := req + [3] + [|name| % 256] + name;
    }
    req := req + U16(c.port);
    assert req == Request(c);
    stream.WriteAll(req);
    return AwaitHead, req;
  }

  /** The server's choice of method, the credentials if it asks for them, then the request. */
  method ChooseMethod(c: Setup, stream: Stream, ghost whole: (Client, seq<Byte>, seq<Byte>))
    returns (end: Client, ghost w: seq<Byte>)
    requires ClientAt(c, whole, AwaitMethod, stream.input, [])
    modifies stream
    ensures stream.output == old(stream.output) + w
    ensures (end == AwaitHead || end == GaveUp) && ClientAt(c, whole, end, stream.input, w)
  {
    hide RunClient, ClientAt, Request, HostFits;
    ghost var start := stream.output;
    w := [];
    var rep := ClientTake(c, stream, 2, whole, AwaitMethod, w);
    if rep.None? || rep.value[0] != 5 { return GaveUp, w; }
    if rep.value[1] == 2 {
      if c.userinfo.None? { return GaveUp, w; }
      var (u, p) := c.userinfo.value;
      var auth: seq<Byte> := [1, |u| % 256] + u + [|p| % 256] + p;
      stream.WriteAll(auth);
      w := w + auth;
      var ar := ClientTake(c, stream, 2, whole, AwaitAuth, w);
      if ar.None? || ar.value[1] != 0 { return GaveUp, w; }
    } else if rep.value[1] != 0 {
      return GaveUp, w;
    }
    ghost var out;
    end, out := SendConnect(c, stream);
    assert stream.output == start + (w + out);
    w := w + out;
  }

  /** The reply, with the bound address read away by its type. */
  method ReadReply(c: Setup, stream: Stream, ghost whole: (Client, seq<Byte>, seq<Byte>), ghost w: seq<Byte>)
    returns (end: Client)
    requires ClientAt(c, whole, AwaitHead, stream.input, w)
    modifies stream
    ensures stream.output == old(stream.output) && ClientOver(end) && ClientAt(c, whole, end, stream.input, w)
  {
    hide RunClient, ClientAt, Request, HostFits;
    var head := ClientTake(c, stream, 4, whole, AwaitHead, w);
    if head.None? || head.value[0] != 5 || head.value[1] != 0 { return GaveUp; }
    var restLen: nat;
    if head.value[3] == 1 {
      restLen := 4 + 2;
    } else if head.value[3] == 4 {
      restLen := 16 + 2;
    } else if head.value[3] == 3 {
      var l := ClientTake(c, stream, 1, whole, AwaitDomainLen, w);
      if l.None? { return GaveUp; }
      var len: int := l.value[0];
      restLen := len + 2;
    } else {
      return GaveUp;
    }
    var rest := ClientTake(c, stream, restLen, whole, AwaitRest(restLen), w);
    return if rest.Some? then Connected else GaveUp;
  }

  lemma ClientAtStart(c: Setup, pending: seq<Byte>)
    ensures ClientAt(c, RunClient(c, AwaitMethod, pending), AwaitMethod, pending, [])
  {
    var whole := RunClient(c, AwaitMethod, pending);
    assert [] + whole.1 == whole.1;
  }

  lemma ClientAtEnd(c: Setup, whole: (Client, seq<Byte>, seq<Byte>), s: Client, pending: seq<Byte>, w: seq<Byte>)
    requires ClientOver(s) && ClientAt(c, whole, s, pending, w)
    ensures s == whole.0 && w == whole.1 && (s.Connected? ==> pending == whole.2)
  {
    assert w + [] == w;
  }

  /** `socks5_connect`: greeting, credentials when asked for, request, reply. */
  method Connect(c: Setup, stream: Stream) returns (end: Client)
    modifies stream
    ensures ClientOver(end)
    ensures var whole := RunClient(c, AwaitMethod, old(stream.input));
            end == whole.0 && stream.output == old(stream.output) + Hello(c) + whole.1
            && (end.Connected? ==> stream.input == whole.2)
  {
    hide RunClient, ClientAt, Request, Auth;
    ghost var whole := RunClient(c, AwaitMethod, stream.input);
    ClientAtStart(c, stream.input);
    var methods: seq<Byte> := if c.userinfo.Some? then [0, 2] else [0];
    stream.WriteAll([5, |methods|] + methods);
    ghost var w;
    end, w := ChooseMethod(c, stream, whole);
    if end == AwaitHead {
      end := ReadReply(c, stream, whole, w);
    }
    ClientAtEnd(c, whole, end, stream.input, w);
  }

  // ----- The two ends against each other -----

  /** Everything the client writes after its greeting, and everything the server writes. */
  function ClientSays(c: Setup): seq<Byte> {
    (if c.user != [] && c.userinfo.Some? then Auth(c) else [])
    + (if (c.user == [] || AuthSucceeds(c)) && HostFits(c.target) then Request(c) else [])
  }

  function ServerSays(c: Setup): seq<Byte> {
    AfterHello(c).1
    + (if c.user != [] && c.userinfo.Some? then AfterAuth(c).1 else [])
    + (if ShouldSucceed(c) then REPLY else [])
  }

  lemma {:induction false} ThroughHello(c: Setup, server: Server, cs: seq<Byte>, rest: seq<Byte>)
    requires InHello(c, server, cs)
    ensures var (s', out) := AfterHello(c); var r := RunServer(c, s', rest);
            RunServer(c, server, cs + rest) == (r.0, out + r.1, r.2)
    decreases ServerRank(server)
  {
    var n := ServerNeeds(server);
    ServerReadsHello(c, server, cs);
    assert (cs + rest)[..n] == cs[..n] && (cs + rest)[n..] == cs[n..] + rest;
    var (s', out) := ServerFeed(c, server, cs[..n]);
    if cs[n..] != [] {
      ThroughHello(c, s', cs[n..], rest);
      assert [] + RunServer(c, s', cs[n..] + rest).1 == RunServer(c, s', cs[n..] + rest).1;
    } else {
      assert [] + rest == rest;
    }
  }

  lemma {:induction false} ThroughAuth(c: Setup, server: Server, cs: seq<Byte>, rest: seq<Byte>)
    requires Sensible(c) && c.userinfo.Some? && InAuth(c, server, cs)
    ensures var (s', out) := AfterAuth(c); var r := RunServer(c, s', rest);
            RunServer(c, server, cs + rest) == (r.0, out + r.1, r.2)
    decreases ServerRank(server)
  {
    var n := ServerNeeds(server);
    ServerReadsAuth(c, server, cs);
    assert (cs + rest)[..n] == cs[..n] && (cs + rest)[n..] == cs[n..] + rest;
    var (s', out) := ServerFeed(c, server, cs[..n]);
    if !server.Pass? {
      ThroughAuth(c, s', cs[n..], rest);
      assert [] + RunServer(c, s', cs[n..] + rest).1 == RunServer(c, s', cs[n..] + rest).1;
    } else {
      assert [] + rest == rest;
    }
  }

  lemma {:induction false} ThroughRequest(c: Setup, server: Server, cs: seq<Byte>)
    requires Sensible(c) && HostFits(c.target) && InRequest(c, server, cs)
    ensures RunServer(c, server, cs)
            == if c.upstream then (Relaying(c.target, c.port), REPLY, []) else (Refused, [], [])
    decreases ServerRank(server)
  {
    var n := ServerNeeds(server);
    ServerReadsRequest(c, server, cs);
    var (s', out) := ServerFeed(c, server, cs[..n]);
    if !server.Port? {
      ThroughRequest(c, s', cs[n..]);
      assert [] + RunServer(c, s', cs[n..]).1 == RunServer(c, s', cs[n..]).1;
    } else {
      assert out + [] == out;
    }
  }

  function RequestBytes(c: Setup): seq<Byte> {
    if (c.user == [] || AuthSucceeds(c)) && HostFits(c.target) then Request(c) else []
  }

  function FinalReply(c: Setup): seq<Byte> {
    if ShouldSucceed(c) then REPLY else []
  }

  function Outcome(c: Setup): Server {
    if ShouldSucceed(c) then Relaying(c.target, c.port) else Refused
  }

  /** The server waiting for the request, with none coming when the host name is too long. */
  lemma FromHead(c: Setup)
    requires Sensible(c) && (c.user == [] || AuthSucceeds(c))
    ensures RunServer(c, Head, RequestBytes(c)) == (Outcome(c), FinalReply(c), [])
  {
    if HostFits(c.target) {
      ThroughRequest(c, Head, Request(c));
    }
  }

  lemma FromAuth(c: Setup)
    requires Sensible(c) && c.user != [] && c.userinfo.Some?
    ensures RunServer(c, AuthVersion, Auth(c) + RequestBytes(c)) == (Outcome(c), AfterAuth(c).1 + FinalReply(c), [])
  {
    ThroughAuth(c, AuthVersion, Auth(c), RequestBytes(c));
    if AuthSucceeds(c) {
      FromHead(c);
    }
  }

  lemma AfterGreeting(c: Setup, rest: seq<Byte>, end: Server, more: seq<Byte>)
    requires RunServer(c, AfterHello(c).0, rest) == (end, more, [])
    ensures RunServer(c, Version, Hello(c) + rest) == (end, AfterHello(c).1 + more, [])
  {
    ThroughHello(c, Version, Hello(c), rest);
  }

  /** `serve`, given the client's bytes, says exactly what the client needs, and nothing is left over. */
  lemma ServerAgainstClient(c: Setup)
    requires Sensible(c)
    ensures RunServer(c, Version, Hello(c) + ClientSays(c)) == (Outcome(c), ServerSays(c), [])
  {
    hide Hello, RunServer, RequestBytes, ClientSays, ServerSays, FinalReply, AfterAuth, Outcome, Sensible;
    if c.user == [] {
      FromHead(c);
      PlainSays(c);
      AfterGreeting(c, RequestBytes(c), Outcome(c), FinalReply(c));
    } else if c.userinfo.Some? {
      FromAuth(c);
      AuthSays(c);
      AfterGreeting(c, Auth(c) + RequestBytes(c), Outcome(c), AfterAuth(c).1 + FinalReply(c));
    } else {
      RefusedSays(c);
      AfterGreeting(c, [], Refused, []);
    }
  }

  /** A client without credentials, at a server that asks for some. */
  lemma RefusedSays(c: Setup)
    requires c.user != [] && c.userinfo.None?
    ensures ClientSays(c) == [] && ServerSays(c) == AfterHello(c).1 + [] && Outcome(c) == Refused
    ensures RunServer(c, Refused, []) == (Refused, [], [])
  {
    hide Hello, Auth, Request;
    assert AfterHello(c).1 + [] + [] == AfterHello(c).1 + [];
  }

  /** The client machine reads one message and goes on. */
  lemma ClientTakes(c: Setup, s: Client, b: seq<Byte>, rest: seq<Byte>)
    requires !ClientOver(s) && |b| == ClientNeeds(s)
    ensures var (s', out) := ClientFeed(c, s, b); var r := RunClient(c, s', rest);
            && RunClient(c, s, b + rest) == (r.0, out + r.1, r.2)
            && (out == [] ==> RunClient(c, s, b + rest) == r)
            && (r.1 == [] ==> RunClient(c, s, b + rest) == (r.0, out, r.2))
  {
    hide ClientFeed;
    assert (b + rest)[..|b|] == b && (b + rest)[|b|..] == rest;
    var (s', out) := ClientFeed(c, s, b);
    NothingAdded(out, RunClient(c, s', rest).1);
  }

  lemma NothingAdded(a: seq<Byte>, b: seq<Byte>)
    ensures (a == [] ==> a + b == b) && (b == [] ==> a + b == a)
  {
  }

  lemma ReplyRead(c: Setup)
    requires Sensible(c) && HostFits(c.target) && (c.user == [] || AuthSucceeds(c))
    ensures RunClient(c, AwaitHead, FinalReply(c)) == (if ShouldSucceed(c) then Connected else GaveUp, [], [])
  {
    if ShouldSucceed(c) {
      ClientTakes(c, AwaitHead, REPLY[..4], REPLY[4..]);
      ClientTakes(c, AwaitRest(6), REPLY[4..], []);
      assert REPLY[..4] + REPLY[4..] == REPLY && REPLY[4..] + [] == REPLY[4..];
    }
  }

  /** The request goes out, or the client gives up over a host name that is too long. */
  lemma RequestSent(c: Setup)
    requires Sensible(c) && (c.user == [] || AuthSucceeds(c))
    ensures var (s, out) := SendRequest(c); var r := RunClient(c, s, FinalReply(c));
            (r.0, out + r.1, r.2) == (if ShouldSucceed(c) then Connected else GaveUp, RequestBytes(c), [])
  {
    hide Request;
    if HostFits(c.target) {
      ReplyRead(c);
      assert SendRequest(c).1 + [] == RequestBytes(c);
    } else {
      ClientDone(c, FinalReply(c));
      assert SendRequest(c).1 + [] == RequestBytes(c);
    }
  }

  lemma CredentialsAnswered(c: Setup)
    requires Sensible(c) && c.user != [] && c.userinfo.Some?
    ensures RunClient(c, AwaitAuth, AfterAuth(c).1 + FinalReply(c))
            == (if ShouldSucceed(c) then Connected else GaveUp, RequestBytes(c), [])
  {
    hide Request, SendRequest;
    ClientTakes(c, AwaitAuth, AfterAuth(c).1, FinalReply(c));
    var (s, out) := ClientFeed(c, AwaitAuth, AfterAuth(c).1);
    if AuthSucceeds(c) {
      RequestSent(c);
      assert (s, out) == SendRequest(c);
    } else {
      ClientDone(c, FinalReply(c));
      assert out + [] == RequestBytes(c);
    }
  }

  /** `socks5_connect`, given what `serve` says, says exactly what `serve` was given: the two results fit
      together, and the client has read up to the last byte of the reply and no further. */
  lemma ClientAgainstServer(c: Setup)
    requires Sensible(c)
    ensures RunClient(c, AwaitMethod, ServerSays(c))
            == (if ShouldSucceed(c) then Connected else GaveUp, ClientSays(c), [])
  {
    hide Request, Auth, SendRequest, RunClient, RequestBytes;
    if c.user == [] {
      PlainSays(c);
      ClientTakes(c, AwaitMethod, AfterHello(c).1, FinalReply(c));
      RequestSent(c);
    } else if c.userinfo.Some? {
      AuthSays(c);
      ClientTakes(c, AwaitMethod, AfterHello(c).1, AfterAuth(c).1 + FinalReply(c));
      CredentialsAnswered(c);
    } else {
      RefusedSays(c);
      ClientTakes(c, AwaitMethod, AfterHello(c).1, []);
      ClientDone(c, []);
    }
  }

  lemma ClientDone(c: Setup, rest: seq<Byte>)
    ensures RunClient(c, GaveUp, rest) == (GaveUp, [], rest)
  {
  }

  lemma PlainSays(c: Setup)
    requires c.user == []
    ensures ClientSays(c) == RequestBytes(c) && ServerSays(c) == AfterHello(c).1 + FinalReply(c)
  {
    hide Request;
    assert AfterHello(c).1 + [] + FinalReply(c) == AfterHello(c).1 + FinalReply(c);
  }

  lemma AuthSays(c: Setup)
    requires c.user != [] && c.userinfo.Some?
    ensures ClientSays(c) == Auth(c) + RequestBytes(c)
    ensures ServerSays(c) == AfterHello(c).1 + (AfterAuth(c).1 + FinalReply(c))
  {
    hide Request, Auth;
    Regroup(AfterHello(c).1, AfterAuth(c).1, FinalReply(c));
  }

  lemma Regroup(a: seq<Byte>, b: seq<Byte>, d: seq<Byte>)
    ensures a + (b + d) == a + b + d
  {
  }
}
