/** What each end of the SOCKS5 handshake does with every message it can be sent, by its peer in this repository or by
    any other (RFC 1928 sections 3 to 6, RFC 1929 section 2). The messages are written out byte by byte. */
module Socks5Exact {
  import opened Common
  import opened Socks5
  import opened Socks5Impl

  predicate HeaderOk(a: Address) {
    AddressOk(a) && HostFits(a)
  }

  /** An address with its type byte in front, as requests and replies carry it. */
  function Typed(a: Address): seq<Byte>
    requires HeaderOk(a)
  {
    match a
    case V4(ip) => [1] + ip
    case V6(ip) => [4] + ip
    case Domain(name) => [3, |name|] + name
  }

  /** A request or a reply: three bytes, the address, the port in network order. */
  function Packet(ver: Byte, code: Byte, rsv: Byte, a: Address, port: nat): seq<Byte>
    requires HeaderOk(a) && port < 65536
  {
    [ver, code, rsv] + Typed(a) + [port / 256, port % 256]
  }

  // ----- What the client sends -----

  lemma GreetingSent(c: Setup)
    ensures Hello(c) == if c.userinfo.Some? then [5, 2, 0, 2] else [5, 1, 0]
  {
  }

  lemma CredentialsSent(c: Setup, user: seq<Byte>, passwd: seq<Byte>)
    requires Sensible(c) && c.userinfo == Some((user, passwd))
    ensures Auth(c) == [1, |user|] + user + [|passwd|] + passwd
  {
  }

  lemma RequestSentAs(c: Setup)
    requires Sensible(c) && HostFits(c.target)
    ensures Request(c) == Packet(5, 1, 0, c.target, c.port)
  {
    match c.target
    case V4(ip) => assert [5, 1, 0, 1] == [5, 1, 0] + [1];
    case V6(ip) => assert [5, 1, 0, 4] == [5, 1, 0] + [4];
    case Domain(name) => assert [3] + [|name|] == [3, |name|] && [5, 1, 0, 3] == [5, 1, 0] + [3];
  }

  // ----- The client reading -----

  /** The tail of a packet after its first four bytes: address and port. */
  function TailOf(a: Address, port: nat): seq<Byte>
    requires HeaderOk(a) && port < 65536
  {
    (match a case V4(ip) => ip case V6(ip) => ip case Domain(name) => [|name|] + name) + [port / 256, port % 256]
  }

  function TypeOf(a: Address): Byte {
    match a case V4(_) => 1 case V6(_) => 4 case Domain(_) => 3
  }

  lemma PacketParts(ver: Byte, code: Byte, rsv: Byte, a: Address, port: nat)
    requires HeaderOk(a) && port < 65536
    ensures Packet(ver, code, rsv, a, port) == [ver, code, rsv, TypeOf(a)] + TailOf(a, port)
  {
  }

  /** Byte conservation for every reply of RFC 1928 section 6: the client reads exactly the reply, whatever kind of
      address it carries, and what follows is left for the tunnel. */
  lemma ReplyConsumed(c: Setup, rsv: Byte, a: Address, port: nat, rest: seq<Byte>)
    requires HeaderOk(a) && port < 65536
    ensures RunClient(c, AwaitHead, Packet(5, 0, rsv, a, port) + rest) == (Connected, [], rest)
  {
    PacketParts(5, 0, rsv, a, port);
    hide RunClient, Packet, TailOf;
    var head, tail := [5, 0, rsv, TypeOf(a)], TailOf(a, port);
    Joined(head, tail, rest);
    ClientTakes(c, AwaitHead, head, tail + rest);
    BindingConsumed(c, a, port, rest);
  }

  lemma BindingConsumed(c: Setup, a: Address, port: nat, rest: seq<Byte>)
    requires HeaderOk(a) && port < 65536
    ensures var s := match a case V4(_) => AwaitRest(6) case V6(_) => AwaitRest(18) case Domain(_) => AwaitDomainLen;
            RunClient(c, s, TailOf(a, port) + rest) == (Connected, [], rest)
  {
    hide RunClient, ClientFeed;
    var p: seq<Byte> := [port / 256, port % 256];
    match a
    case V4(ip) => RestConsumed(c, ip + p, rest);
    case V6(ip) => RestConsumed(c, ip + p, rest);
    case Domain(name) =>
      LengthRead(c, |name|, (name + p) + rest);
      RestConsumed(c, name + p, rest);
      assert TailOf(a, port) + rest == [|name|] + ((name + p) + rest);
  }

  lemma RestConsumed(c: Setup, b: seq<Byte>, rest: seq<Byte>)
    ensures RunClient(c, AwaitRest(|b|), b + rest) == (Connected, [], rest)
  {
    ClientTakes(c, AwaitRest(|b|), b, rest);
    ConnectedIsOver(c, rest);
  }

  lemma LengthRead(c: Setup, n: Byte, more: seq<Byte>)
    ensures RunClient(c, AwaitDomainLen, [n] + more) == RunClient(c, AwaitRest(n + 2), more)
  {
    ClientTakes(c, AwaitDomainLen, [n], more);
  }

  lemma Joined(a: seq<Byte>, b: seq<Byte>, d: seq<Byte>)
    ensures (a + b) + d == a + (b + d)
  {
  }

  lemma ConnectedIsOver(c: Setup, rest: seq<Byte>)
    ensures RunClient(c, Connected, rest) == (Connected, [], rest) && RunClient(c, GaveUp, rest) == (GaveUp, [], rest)
  {
  }

  /** Every reply with another version, a code other than 0, or an unknown address type makes the client give up. */
  lemma ReplyRefused(c: Setup, head: seq<Byte>, rest: seq<Byte>)
    requires |head| == 4
    requires head[0] != 5 || head[1] != 0 || (head[3] != 1 && head[3] != 3 && head[3] != 4)
    ensures RunClient(c, AwaitHead, head + rest) == (GaveUp, [], rest)
  {
    ClientTakes(c, AwaitHead, head, rest);
    ConnectedIsOver(c, rest);
  }

  /** And the client connects on no other bytes than a whole successful reply. */
  lemma ConnectedOnReply(c: Setup, input: seq<Byte>)
    requires RunClient(c, AwaitHead, input).0 == Connected
    ensures exists rsv: Byte, a, port: nat, rest ::
              HeaderOk(a) && port < 65536 && input == Packet(5, 0, rsv, a, port) + rest
  {
    hide RunClient, Packet, HeaderOk;
    Starving(c, AwaitHead, input);
    var head, more := input[..4], input[4..];
    assert input == head + more;
    if head[0] != 5 || head[1] != 0 || (head[3] != 1 && head[3] != 3 && head[3] != 4) {
      ReplyRefused(c, head, more);
    } else {
      assert head == [5, 0, head[2], head[3]];
      ClientTakes(c, AwaitHead, head, more);
      var a, port, rest := ReadBinding(c, head[3], more);
      PacketParts(5, 0, head[2], a, port);
      hide TypeOf, TailOf;
      Joined(head, TailOf(a, port), rest);
    }
  }

  lemma Starving(c: Setup, s: Client, input: seq<Byte>)
    requires !ClientOver(s) && RunClient(c, s, input).0 == Connected
    ensures |input| >= ClientNeeds(s)
  {
  }

  lemma ReadBinding(c: Setup, atyp: Byte, input: seq<Byte>) returns (a: Address, port: nat, rest: seq<Byte>)
    requires atyp == 1 || atyp == 3 || atyp == 4
    requires var s := if atyp == 1 then AwaitRest(6) else if atyp == 4 then AwaitRest(18) else AwaitDomainLen;
             RunClient(c, s, input).0 == Connected
    ensures HeaderOk(a) && port < 65536 && TypeOf(a) == atyp && input == TailOf(a, port) + rest
  {
    hide RunClient;
    if atyp == 3 {
      Starving(c, AwaitDomainLen, input);
      var n: int, more := input[0], input[1..];
      assert input == [input[0]] + more;
      ClientTakes(c, AwaitDomainLen, [input[0]], more);
      Starving(c, AwaitRest(n + 2), more);
      a, port, rest := Domain(more[..n]), ReadU16(more, n), more[n + 2..];
      PortBack(more, n);
      assert input == ([n] + more[..n] + [port / 256, port % 256]) + rest;
    } else {
      var n := if atyp == 1 then 4 else 16;
      Starving(c, AwaitRest(n + 2), input);
      a := if atyp == 1 then V4(input[..n]) else V6(input[..n]);
      port, rest := ReadU16(input, n), input[n + 2..];
      PortBack(input, n);
    }
  }

  lemma PortBack(buf: seq<Byte>, pos: nat)
    requires pos + 2 <= |buf|
    ensures var port := ReadU16(buf, pos); buf[pos..pos + 2] == [port / 256, port % 256]
    ensures buf == buf[..pos] + [ReadU16(buf, pos) / 256, ReadU16(buf, pos) % 256] + buf[pos + 2..]
  {
    var high: int, low: int := buf[pos], buf[pos + 1];
    assert (256 * high + low) / 256 == high && (256 * high + low) % 256 == low;
    assert buf[pos..pos + 2] == [buf[pos], buf[pos + 1]];
  }

  /** The choice of a method, for every answer to the greeting: no authentication, credentials if there are any, or
      giving up. */
  lemma MethodAnswered(c: Setup, ver: Byte, choice: Byte, rest: seq<Byte>)
    ensures var r := RunClient(c, AwaitMethod, [ver, choice] + rest);
            if ver == 5 && choice == 0 then r == AfterRequest(c, rest)
            else if ver == 5 && choice == 2 && c.userinfo.Some? then
              var next := RunClient(c, AwaitAuth, rest); r == (next.0, Auth(c) + next.1, next.2)
            else r == (GaveUp, [], rest)
  {
    hide Request, Auth;
    ClientTakes(c, AwaitMethod, [ver, choice], rest);
    ConnectedIsOver(c, rest);
  }

  /** What follows once the request may be sent: it is sent and the reply read, unless the host name is too long. */
  function AfterRequest(c: Setup, rest: seq<Byte>): (Client, seq<Byte>, seq<Byte>) {
    if c.target.Domain? && |c.target.name| > 255 then (GaveUp, [], rest)
    else var reply := RunClient(c, AwaitHead, rest); (reply.0, Request(c) + reply.1, reply.2)
  }

  /** The answer to the credentials: accepted exactly when its second byte is 0. */
  lemma CredentialsAnsweredBy(c: Setup, ver: Byte, status: Byte, rest: seq<Byte>)
    ensures RunClient(c, AwaitAuth, [ver, status] + rest)
            == if status == 0 then AfterRequest(c, rest) else (GaveUp, [], rest)
  {
    hide Request;
    ClientTakes(c, AwaitAuth, [ver, status], rest);
    ConnectedIsOver(c, rest);
  }

  // ----- The server -----

  lemma ServerTakes(c: Setup, s: Server, b: seq<Byte>, rest: seq<Byte>)
    requires !ServerOver(s) && |b| == ServerNeeds(s)
    ensures var (s', out) := ServerFeed(c, s, b); var r := RunServer(c, s', rest);
            && RunServer(c, s, b + rest) == (r.0, out + r.1, r.2)
            && (out == [] ==> RunServer(c, s, b + rest) == r)
            && (r.1 == [] ==> RunServer(c, s, b + rest) == (r.0, out, r.2))
  {
    hide ServerFeed;
    assert (b + rest)[..|b|] == b && (b + rest)[|b|..] == rest;
    var (s', out) := ServerFeed(c, s, b);
    NothingAdded(out, RunServer(c, s', rest).1);
  }

  lemma RefusedIsOver(c: Setup, rest: seq<Byte>)
    ensures RunServer(c, Refused, rest) == (Refused, [], rest)
  {
  }

  /** Cut off anywhere, the server refuses and says nothing more. */
  lemma CutOff(c: Setup, s: Server, input: seq<Byte>)
    requires !ServerOver(s) && |input| < ServerNeeds(s)
    ensures RunServer(c, s, input) == (Refused, [], input)
  {
  }

  /** The greeting, for every version and every list of methods. */
  lemma GreetingRead(c: Setup, ver: Byte, methods: seq<Byte>, rest: seq<Byte>)
    requires |methods| <= 255
    ensures ver != 5 ==> RunServer(c, Version, [ver] + rest) == (Refused, [], rest)
    ensures var r := RunServer(c, Version, [5, |methods|] + methods + rest);
            if c.user == [] then
              var next := RunServer(c, Head, rest); r == (next.0, [5, 0] + next.1, next.2)
            else if 2 in methods then
              var next := RunServer(c, AuthVersion, rest); r == (next.0, [5, 2] + next.1, next.2)
            else r == (Refused, [5, 255], rest)
  {
    hide RunServer;
    ServerTakes(c, Version, [ver], rest);
    RefusedIsOver(c, rest);
    assert [5, |methods|] + methods + rest == [5] + ([|methods|] + (methods + rest));
    ServerTakes(c, Version, [5], [|methods|] + (methods + rest));
    ServerTakes(c, MethodCount, [|methods|], methods + rest);
    ServerTakes(c, MethodList(|methods|), methods, rest);
  }

  /** The credentials, for every version, user and password: accepted exactly when both are the configured ones. */
  lemma CredentialsRead(c: Setup, ver: Byte, user: seq<Byte>, passwd: seq<Byte>, rest: seq<Byte>)
    requires |user| <= 255 && |passwd| <= 255
    ensures ver != 1 ==> RunServer(c, AuthVersion, [ver] + rest) == (Refused, [1, 1], rest)
    ensures var r := RunServer(c, AuthVersion, [1, |user|] + user + [|passwd|] + passwd + rest);
            if user == c.user && passwd == c.passwd then
              var next := RunServer(c, Head, rest); r == (next.0, [1, 0] + next.1, next.2)
            else r == (Refused, [1, 1], rest)
  {
    hide RunServer;
    ServerTakes(c, AuthVersion, [ver], rest);
    RefusedIsOver(c, rest);
    var after := [|passwd|] + (passwd + rest);
    ServerTakes(c, AuthVersion, [1], [|user|] + (user + after));
    UserAndPassword(c, user, passwd, rest);
    hide ServerFeed;
    Flattened(user, passwd, rest);
  }

  lemma Flattened(user: seq<Byte>, passwd: seq<Byte>, rest: seq<Byte>)
    requires |user| <= 255 && |passwd| <= 255
    ensures [1, |user|] + user + [|passwd|] + passwd + rest
            == [1] + ([|user|] + (user + ([|passwd|] + (passwd + rest))))
  {
  }

  lemma UserAndPassword(c: Setup, user: seq<Byte>, passwd: seq<Byte>, rest: seq<Byte>)
    requires |user| <= 255 && |passwd| <= 255
    ensures var r := RunServer(c, UserLen, [|user|] + (user + ([|passwd|] + (passwd + rest))));
            if user == c.user && passwd == c.passwd then
              var next := RunServer(c, Head, rest); r == (next.0, [1, 0] + next.1, next.2)
            else r == (Refused, [1, 1], rest)
  {
    hide RunServer, ServerFeed;
    var after := [|passwd|] + (passwd + rest);
    FeedLengths(c, [|user|], []);
    ServerTakes(c, UserLen, [|user|], user + after);
    FeedUser(c, user);
    ServerTakes(c, User(|user|), user, after);
    FeedLengths(c, [|passwd|], user);
    ServerTakes(c, PassLen(user), [|passwd|], passwd + rest);
    FeedPass(c, user, passwd);
    ServerTakes(c, Pass(user, |passwd|), passwd, rest);
    RefusedIsOver(c, rest);
  }

  /** The request, for every version, command, reserved byte, address and port. */
  lemma RequestRead(c: Setup, ver: Byte, cmd: Byte, rsv: Byte, a: Address, port: nat, rest: seq<Byte>)
    requires HeaderOk(a) && port < 65536
    ensures RunServer(c, Head, Packet(ver, cmd, rsv, a, port) + rest)
            == if ver != 5 then (Refused, [], rest)
               else if cmd != 1 then (Refused, [5, 7, 0, 1, 0, 0, 0, 0, 0, 0], rest)
               else if c.upstream then (Relaying(a, port), [5, 0, 0, 1, 0, 0, 0, 0, 0, 0], rest)
               else (Refused, [], rest)
  {
    PacketParts(ver, cmd, rsv, a, port);
    hide RunServer, Packet, TailOf;
    var head, tail := [ver, cmd, rsv, TypeOf(a)], TailOf(a, port);
    Joined(head, tail, rest);
    ServerTakes(c, Head, head, tail + rest);
    AddressRead(c, ver, cmd, a, port, rest);
    hide ServerFeed;
    PortRead(c, ver, cmd, a, port, rest);
  }

  /** The address, in whichever form, and then the port. */
  lemma AddressRead(c: Setup, ver: Byte, cmd: Byte, a: Address, port: nat, rest: seq<Byte>)
    requires HeaderOk(a) && port < 65536
    ensures var s := match a
                     case V4(_) => Ip4(ver, cmd)
                     case V6(_) => Ip6(ver, cmd)
                     case Domain(_) => NameLen(ver, cmd);
            RunServer(c, s, TailOf(a, port) + rest)
            == RunServer(c, Port(ver, cmd, a), [port / 256, port % 256] + rest)
  {
    hide RunServer, ServerFeed;
    var p: seq<Byte> := [port / 256, port % 256];
    match a
    case V4(ip) =>
      Joined(ip, p, rest);
      FixedRead(c, ver, cmd, ip, p + rest);
    case V6(ip) =>
      Joined(ip, p, rest);
      FixedRead(c, ver, cmd, ip, p + rest);
    case Domain(name) =>
      NameRead(c, ver, cmd, name, p + rest);
      assert TailOf(a, port) + rest == [|name|] + (name + (p + rest));
  }

  lemma FixedRead(c: Setup, ver: Byte, cmd: Byte, ip: seq<Byte>, more: seq<Byte>)
    ensures |ip| == 4 ==> RunServer(c, Ip4(ver, cmd), ip + more) == RunServer(c, Port(ver, cmd, V4(ip)), more)
    ensures |ip| == 16 ==> RunServer(c, Ip6(ver, cmd), ip + more) == RunServer(c, Port(ver, cmd, V6(ip)), more)
  {
    hide RunServer;
    if |ip| == 4 {
      ServerTakes(c, Ip4(ver, cmd), ip, more);
    }
    if |ip| == 16 {
      ServerTakes(c, Ip6(ver, cmd), ip, more);
    }
  }

  lemma NameRead(c: Setup, ver: Byte, cmd: Byte, name: seq<Byte>, more: seq<Byte>)
    requires |name| <= 255
    ensures RunServer(c, NameLen(ver, cmd), [|name|] + (name + more))
            == RunServer(c, Port(ver, cmd, Domain(name)), more)
  {
    hide RunServer;
    ServerTakes(c, NameLen(ver, cmd), [|name|], name + more);
    ServerTakes(c, Name(ver, cmd, |name|), name, more);
  }

  lemma PortRead(c: Setup, ver: Byte, cmd: Byte, a: Address, port: nat, rest: seq<Byte>)
    requires port < 65536
    ensures RunServer(c, Port(ver, cmd, a), [port / 256, port % 256] + rest)
            == if ver != 5 then (Refused, [], rest)
               else if cmd != 1 then (Refused, [5, 7, 0, 1, 0, 0, 0, 0, 0, 0], rest)
               else if c.upstream then (Relaying(a, port), [5, 0, 0, 1, 0, 0, 0, 0, 0, 0], rest)
               else (Refused, [], rest)
  {
    var p: seq<Byte> := [port / 256, port % 256];
    ServerTakes(c, Port(ver, cmd, a), p, rest);
    assert ReadU16(p, 0) == port;
    RefusedIsOver(c, rest);
    RelayingIsOver(c, a, port, rest);
  }

  lemma RelayingIsOver(c: Setup, a: Address, port: nat, rest: seq<Byte>)
    ensures RunServer(c, Relaying(a, port), rest) == (Relaying(a, port), [], rest)
  {
  }

  /** A request with an unknown address type is refused without a reply. */
  lemma UnknownAddress(c: Setup, head: seq<Byte>, rest: seq<Byte>)
    requires |head| == 4 && head[3] != 1 && head[3] != 3 && head[3] != 4
    ensures RunServer(c, Head, head + rest) == (Refused, [], rest)
  {
    ServerTakes(c, Head, head, rest);
    RefusedIsOver(c, rest);
  }
}
