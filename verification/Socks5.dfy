/** The SOCKS5 handshake (RFC 1928 sections 3 to 6, RFC 1929 section 2) between the client side of the
    outbound proxy connection and the server side of the socks5 plugin, as two machines that read
    exact numbers of bytes from streams cut into arbitrary fragments. */
module Socks5 {
  import opened Common

  datatype Address = V4(ip: seq<Byte>) | V6(ip: seq<Byte>) | Domain(name: seq<Byte>)

  /** Both ends: what the client was given, what the server was configured with, and whether the
      server's own connection to the target succeeds. */
  datatype Setup = Setup(userinfo: Option<(seq<Byte>, seq<Byte>)>, target: Address, port: nat,
                         user: seq<Byte>, passwd: seq<Byte>, upstream: bool)

  predicate AddressOk(a: Address) {
    match a
    case V4(ip) => |ip| == 4
    case V6(ip) => |ip| == 16
    case Domain(_) => true
  }

  /** The preconditions of the handshake: RFC 1929 lengths, and a port number. */
  predicate Sensible(c: Setup) {
    && AddressOk(c.target) && c.port < 65536
    && (c.userinfo.Some? ==> |c.userinfo.value.0| <= 255 && |c.userinfo.value.1| <= 255)
  }

  // ----- What is sent -----

  function Methods(c: Setup): seq<Byte> {
    if c.userinfo.Some? then [0, 2] else [0]
  }

  function Hello(c: Setup): seq<Byte> {
    [5, |Methods(c)|] + Methods(c)
  }

  function Auth(c: Setup): seq<Byte>
    requires c.userinfo.Some?
  {
    var (u, p) := c.userinfo.value;
    [1, |u| % 256] + u + [|p| % 256] + p
  }

  function AddressBytes(a: Address): seq<Byte> {
    match a
    case V4(ip) => ip
    case V6(ip) => ip
    case Domain(name) => [|name| % 256] + name
  }

  function AddressType(a: Address): Byte {
    match a
    case V4(_) => 1
    case V6(_) => 4
    case Domain(_) => 3
  }

  function Request(c: Setup): seq<Byte> {
    [5, 1, 0, AddressType(c.target)] + AddressBytes(c.target) + U16(c.port)
  }

  predicate HostFits(a: Address) {
    a.Domain? ==> |a.name| <= 255
  }

  const REPLY: seq<Byte> := [5, 0, 0, 1, 0, 0, 0, 0, 0, 0]
  const REFUSED: seq<Byte> := [5, 7, 0, 1, 0, 0, 0, 0, 0, 0]

  // ----- The client machine -----

  datatype Client = AwaitMethod | AwaitAuth | AwaitHead | AwaitDomainLen | AwaitRest(n: nat) | Connected | GaveUp

  function ClientNeeds(s: Client): nat {
    match s
    case AwaitMethod => 2
    case AwaitAuth => 2
    case AwaitHead => 4
    case AwaitDomainLen => 1
    case AwaitRest(n) => n
    case _ => 0
  }

  predicate ClientOver(s: Client) {
    s.Connected? || s.GaveUp?
  }

  /** The CONNECT request, unless the host name is too long to be sent. */
  function SendRequest(c: Setup): (Client, seq<Byte>) {
    if HostFits(c.target) then (AwaitHead, Request(c)) else (GaveUp, [])
  }

  /** What `socks5_connect` does with the bytes it was waiting for, and what it sends next. */
  function ClientFeed(c: Setup, s: Client, b: seq<Byte>): (Client, seq<Byte>)
    requires !ClientOver(s) && |b| == ClientNeeds(s)
  {
    match s
    case AwaitMethod =>
      if b[0] != 5 then (GaveUp, [])
      else if b[1] == 0 then SendRequest(c)
      else if b[1] == 2 && c.userinfo.Some? then (AwaitAuth, Auth(c))
      else (GaveUp, [])
    case AwaitAuth => if b[1] != 0 then (GaveUp, []) else SendRequest(c)
    case AwaitHead =>
      if b[0] != 5 || b[1] != 0 then (GaveUp, [])
      else if b[3] == 1 then (AwaitRest(6), [])
      else if b[3] == 4 then (AwaitRest(18), [])
      else if b[3] == 3 then (AwaitDomainLen, [])
      else (GaveUp, [])
    case AwaitDomainLen => var len: int := b[0]; (AwaitRest(len + 2), [])
    case AwaitRest(_) => (Connected, [])
  }

  // ----- The server machine -----

  datatype Server =
    | Version | MethodCount | MethodList(n: nat)
    | AuthVersion | UserLen | User(n: nat) | PassLen(user: seq<Byte>) | Pass(user: seq<Byte>, n: nat)
    | Head | Ip4(ver: Byte, cmd: Byte) | Ip6(ver: Byte, cmd: Byte)
    | NameLen(ver: Byte, cmd: Byte) | Name(ver: Byte, cmd: Byte, n: nat)
    | Port(ver: Byte, cmd: Byte, target: Address)
    | Relaying(target: Address, port: nat) | Refused

  function ServerNeeds(s: Server): nat {
    match s
    case MethodList(n) => n
    case User(n) => n
    case Pass(_, n) => n
    case Head => 4
    case Ip4(_, _) => 4
    case Ip6(_, _) => 16
    case Name(_, _, n) => n
    case Port(_, _, _) => 2
    case Relaying(_, _) => 0
    case Refused => 0
    case _ => 1
  }

  predicate ServerOver(s: Server) {
    s.Relaying? || s.Refused?
  }

  /** What `socks5::serve` and `read_userpass` do with the bytes they were waiting for, and what the
      server sends next. */
  function ServerFeed(c: Setup, s: Server, b: seq<Byte>): (Server, seq<Byte>)
    requires !ServerOver(s) && |b| == ServerNeeds(s)
  {
    match s
    case Version => if b[0] != 5 then (Refused, []) else (MethodCount, [])
    case MethodCount => (MethodList(b[0]), [])
    case MethodList(_) =>
      if c.user == [] then (Head, [5, 0])
      else if 2 in b then (AuthVersion, [5, 2])
      else (Refused, [5, 255])
    case AuthVersion => if b[0] != 1 then (Refused, [1, 1]) else (UserLen, [])
    case UserLen => (User(b[0]), [])
    case User(_) => (PassLen(b), [])
    case PassLen(user) => (Pass(user, b[0]), [])
    case Pass(user, _) => if user == c.user && b == c.passwd then (Head, [1, 0]) else (Refused, [1, 1])
    case Head =>
      if b[3] == 1 then (Ip4(b[0], b[1]), [])
      else if b[3] == 3 then (NameLen(b[0], b[1]), [])
      else if b[3] == 4 then (Ip6(b[0], b[1]), [])
      else (Refused, [])
    case Ip4(ver, cmd) => (Port(ver, cmd, V4(b)), [])
    case Ip6(ver, cmd) => (Port(ver, cmd, V6(b)), [])
    case NameLen(ver, cmd) => (Name(ver, cmd, b[0]), [])
    case Name(ver, cmd, _) => (Port(ver, cmd, Domain(b)), [])
    case Port(ver, cmd, target) =>
      if ver != 5 then (Refused, [])
      else if cmd != 1 then (Refused, REFUSED)
      else if c.upstream then (Relaying(target, ReadU16(b, 0)), REPLY)
      else (Refused, [])
  }

  // ----- The two ends and the network -----

  /** Bytes arrived at an end but not read yet, and bytes still on the way there. The first include what
      the server had prefetched before the plugin started. `down` and `up` record the tunnelled bytes
      each end has sent since its own handshake was over. */
  datatype System = System(client: Client, server: Server,
                           atServer: seq<Byte>, toServer: seq<Byte>, atClient: seq<Byte>, toClient: seq<Byte>,
                           down: seq<Byte>, up: seq<Byte>)

  datatype Action =
    | DeliverToServer(k: nat) | DeliverToClient(k: nat)
    | ServerReads | ClientReads | ServerSeesEnd | ClientSeesEnd
    | TunnelDown(data: seq<Byte>) | TunnelUp(data: seq<Byte>)

  predicate Start(c: Setup, s: System) {
    && s.client == AwaitMethod && s.server == Version && s.atServer + s.toServer == Hello(c)
    && s.atClient == s.toClient == s.down == s.up == []
  }

  predicate Enabled(s: System, a: Action) {
    match a
    case DeliverToServer(k) => 0 < k <= |s.toServer|
    case DeliverToClient(k) => 0 < k <= |s.toClient|
    case ServerReads => !ServerOver(s.server) && |s.atServer| >= ServerNeeds(s.server)
    case ClientReads => !ClientOver(s.client) && |s.atClient| >= ClientNeeds(s.client)
    case ServerSeesEnd => !ServerOver(s.server) && s.client.GaveUp? && s.toServer == []
        && |s.atServer| < ServerNeeds(s.server)
    case ClientSeesEnd => !ClientOver(s.client) && s.server.Refused? && s.toClient == []
        && |s.atClient| < ClientNeeds(s.client)
    case TunnelDown(_) => s.server.Relaying?
    case TunnelUp(_) => s.client.Connected?
  }

  function Next(c: Setup, s: System, a: Action): System
    requires Enabled(s, a)
  {
    match a
    case DeliverToServer(k) => s.(atServer := s.atServer + s.toServer[..k], toServer := s.toServer[k..])
    case DeliverToClient(k) => s.(atClient := s.atClient + s.toClient[..k], toClient := s.toClient[k..])
    case ServerReads =>
      var n := ServerNeeds(s.server);
      var (server, out) := ServerFeed(c, s.server, s.atServer[..n]);
      s.(server := server, atServer := s.atServer[n..], toClient := s.toClient + out)
    case ClientReads =>
      var n := ClientNeeds(s.client);
      var (client, out) := ClientFeed(c, s.client, s.atClient[..n]);
      s.(client := client, atClient := s.atClient[n..], toServer := s.toServer + out)
    case ServerSeesEnd => s.(server := Refused)
    case ClientSeesEnd => s.(client := GaveUp)
    case TunnelDown(data) => s.(toClient := s.toClient + data, down := s.down + data)
    case TunnelUp(data) => s.(toServer := s.toServer + data, up := s.up + data)
  }

  // ----- What is owed at each point -----

  /** The handshake should succeed: no user is required or the credentials are equal, the host name
      can be sent, and the target can be reached. */
  predicate ShouldSucceed(c: Setup) {
    && (c.user == [] || c.userinfo == Some((c.user, c.passwd)))
    && HostFits(c.target) && c.upstream
  }

  predicate AuthSucceeds(c: Setup) {
    c.userinfo == Some((c.user, c.passwd))
  }

  /** Server states while it reads the greeting, with what is left of it to read. */
  predicate InHello(c: Setup, server: Server, rest: seq<Byte>) {
    match server
    case Version => rest == Hello(c)
    case MethodCount => rest == [|Methods(c)|] + Methods(c)
    case MethodList(n) => rest == Methods(c) && n == |rest|
    case _ => false
  }

  /** ... while it reads the credentials ... */
  predicate InAuth(c: Setup, server: Server, rest: seq<Byte>)
    requires c.userinfo.Some?
  {
    var (u, p) := c.userinfo.value;
    match server
    case AuthVersion => rest == Auth(c)
    case UserLen => rest == [|u| % 256] + u + [|p| % 256] + p
    case User(n) => rest == u + [|p| % 256] + p && n == |u|
    case PassLen(user) => rest == [|p| % 256] + p && user == u
    case Pass(user, n) => rest == p && user == u && n == |p|
    case _ => false
  }

  /** ... and while it reads the request. */
  predicate InRequest(c: Setup, server: Server, rest: seq<Byte>) {
    match server
    case Head => rest == Request(c)
    case Ip4(ver, cmd) => c.target.V4? && ver == 5 && cmd == 1 && rest == AddressBytes(c.target) + U16(c.port)
    case Ip6(ver, cmd) => c.target.V6? && ver == 5 && cmd == 1 && rest == AddressBytes(c.target) + U16(c.port)
    case NameLen(ver, cmd) => c.target.Domain? && ver == 5 && cmd == 1
        && rest == AddressBytes(c.target) + U16(c.port)
    case Name(ver, cmd, n) =>
      c.target.Domain? && ver == 5 && cmd == 1 && rest == c.target.name + U16(c.port) && n == |c.target.name|
    case Port(ver, cmd, target) => target == c.target && ver == 5 && cmd == 1 && rest == U16(c.port)
    case _ => false
  }

  /** The server's answer to the greeting, with its state after it. */
  function AfterHello(c: Setup): (Server, seq<Byte>) {
    if c.user == [] then (Head, [5, 0])
    else if c.userinfo.Some? then (AuthVersion, [5, 2])
    else (Refused, [5, 255])
  }

  function AfterAuth(c: Setup): (Server, seq<Byte>) {
    if AuthSucceeds(c) then (Head, [1, 0]) else (Refused, [1, 1])
  }

  /** The joint states the two ends can be in; `cs` and `sc` are the unread bytes in each direction. */
  predicate Joint(c: Setup, client: Client, server: Server, cs: seq<Byte>, sc: seq<Byte>, down: seq<Byte>,
                  up: seq<Byte>) {
    match client
    case AwaitMethod =>
      down == up == [] && if cs == [] then (server, sc) == AfterHello(c) else sc == [] && InHello(c, server, cs)
    case AwaitAuth =>
      && c.user != [] && c.userinfo.Some? && down == up == []
      && if !server.Head? && !server.Refused? then sc == [] && InAuth(c, server, cs)
         else cs == [] && (server, sc) == AfterAuth(c)
    case AwaitHead =>
      && (c.user == [] || AuthSucceeds(c)) && HostFits(c.target) && up == []
      && if cs != [] then sc == down == [] && InRequest(c, server, cs)
         else if c.upstream then server == Relaying(c.target, c.port) && sc == REPLY + down
         else server == Refused && sc == down == []
    case AwaitRest(n) =>
      && ShouldSucceed(c) && n == 6 && up == [] && cs == []
      && server == Relaying(c.target, c.port) && sc == REPLY[4..] + down
    case Connected => ShouldSucceed(c) && server == Relaying(c.target, c.port) && cs == up && sc == down
    case GaveUp => !ShouldSucceed(c) && (server.Head? || server.Refused?) && cs == sc == down == up == []
    case AwaitDomainLen => false
  }

  predicate Inv(c: Setup, s: System) {
    Joint(c, s.client, s.server, s.atServer + s.toServer, s.atClient + s.toClient, s.down, s.up)
  }

  // ----- Every step keeps the joint state -----

  lemma StartInv(c: Setup, s: System)
    requires Sensible(c) && Start(c, s)
    ensures Inv(c, s)
  {
    assert s.atClient + s.toClient == [];
  }

  lemma ServerReadsHello(c: Setup, server: Server, cs: seq<Byte>)
    requires InHello(c, server, cs)
    ensures |cs| >= ServerNeeds(server)
    ensures var (server', out) := ServerFeed(c, server, cs[..ServerNeeds(server)]);
            var cs' := cs[ServerNeeds(server)..];
            if cs' == [] then (server', out) == AfterHello(c) else out == [] && InHello(c, server', cs')
  {
    if server.MethodList? {
      assert cs[..server.n] == cs;
      assert c.userinfo.Some? ==> cs[1] == 2;
    }
  }

  lemma ServerReadsAuth(c: Setup, server: Server, cs: seq<Byte>)
    requires Sensible(c) && c.userinfo.Some? && InAuth(c, server, cs)
    ensures |cs| >= ServerNeeds(server)
    ensures var (server', out) := ServerFeed(c, server, cs[..ServerNeeds(server)]);
            var cs' := cs[ServerNeeds(server)..];
            if server.Pass? then cs' == [] && (server', out) == AfterAuth(c) else out == [] && InAuth(c, server', cs')
  {
    match server
    case User(n) => assert cs[..n] == c.userinfo.value.0;
    case Pass(_, n) => assert cs[..n] == cs;
    case _ =>
  }

  lemma ServerReadsRequest(c: Setup, server: Server, cs: seq<Byte>)
    requires Sensible(c) && HostFits(c.target) && InRequest(c, server, cs)
    ensures |cs| >= ServerNeeds(server)
    ensures var (server', out) := ServerFeed(c, server, cs[..ServerNeeds(server)]);
            var cs' := cs[ServerNeeds(server)..];
            if server.Port? then
              cs' == [] && (server', out) == if c.upstream then (Relaying(c.target, c.port), REPLY) else (Refused, [])
            else out == [] && cs' != [] && InRequest(c, server', cs')
  {
  }

  lemma ServerStepJoint(c: Setup, client: Client, server: Server, cs: seq<Byte>, sc: seq<Byte>, down: seq<Byte>,
                        up: seq<Byte>)
    requires Sensible(c) && Joint(c, client, server, cs, sc, down, up)
    requires !ServerOver(server) && |cs| >= ServerNeeds(server)
    ensures var (server', out) := ServerFeed(c, server, cs[..ServerNeeds(server)]);
            Joint(c, client, server', cs[ServerNeeds(server)..], sc + out, down, up)
  {
    var (server', out) := ServerFeed(c, server, cs[..ServerNeeds(server)]);
    assert sc == [] ==> sc + out == out;
    match client
    case AwaitMethod => ServerReadsHello(c, server, cs);
    case AwaitAuth => ServerReadsAuth(c, server, cs);
    case AwaitHead => ServerReadsRequest(c, server, cs);
    case _ =>
  }

  /** A server read keeps the joint state. */
  lemma ServerStep(c: Setup, s: System)
    requires Sensible(c) && Inv(c, s) && Enabled(s, ServerReads)
    ensures Inv(c, Next(c, s, ServerReads))
  {
    hide Joint, Sensible, ServerFeed;
    var n := ServerNeeds(s.server);
    var (server', out) := ServerFeed(c, s.server, s.atServer[..n]);
    Arrived(s.atServer, s.toServer, n);
    assert s.atClient + (s.toClient + out) == (s.atClient + s.toClient) + out;
    ServerStepJoint(c, s.client, s.server, s.atServer + s.toServer, s.atClient + s.toClient, s.down, s.up);
  }

  /** Reading what has arrived is reading a prefix of all that is unread. */
  lemma Arrived(at: seq<Byte>, to: seq<Byte>, n: nat)
    requires n <= |at|
    ensures (at + to)[..n] == at[..n] && (at + to)[n..] == at[n..] + to
  {
  }

  /** The client's read of the method, of the answer to its credentials, of the head and of the rest of the
      reply, on what is unread in its direction. */
  lemma ClientStepJoint(c: Setup, client: Client, server: Server, cs: seq<Byte>, sc: seq<Byte>, down: seq<Byte>,
                        up: seq<Byte>)
    requires Sensible(c) && Joint(c, client, server, cs, sc, down, up)
    requires !ClientOver(client) && |sc| >= ClientNeeds(client)
    ensures var (client', out) := ClientFeed(c, client, sc[..ClientNeeds(client)]);
            Joint(c, client', server, cs + out, sc[ClientNeeds(client)..], down, up)
  {
    match client
    case AwaitMethod => ClientReadsMethod(c, server, cs, sc, down, up);
    case AwaitAuth => ClientReadsAuth(c, server, cs, sc, down, up);
    case AwaitHead => ClientReadsHead(c, server, cs, sc, down, up);
    case AwaitRest(n) => ClientReadsRest(c, server, cs, sc, down, up);
  }

  lemma RequestIsOut(c: Setup, server: Server, out: seq<Byte>)
    requires Sensible(c) && server == Head && (c.user == [] || AuthSucceeds(c)) && out == SendRequest(c).1
    ensures Joint(c, SendRequest(c).0, server, [] + out, [], [], [])
  {
    hide AddressBytes, AddressType, U16;
    assert [] + out == out;
  }

  lemma ClientReadsMethod(c: Setup, server: Server, cs: seq<Byte>, sc: seq<Byte>, down: seq<Byte>, up: seq<Byte>)
    requires Sensible(c) && Joint(c, AwaitMethod, server, cs, sc, down, up) && |sc| >= 2
    ensures var (client', out) := ClientFeed(c, AwaitMethod, sc[..2]);
            Joint(c, client', server, cs + out, sc[2..], down, up)
  {
    hide Hello, Request, AddressBytes, Auth;
    assert sc[2..] == [] && sc[..2] == sc;
    if c.user == [] {
      RequestIsOut(c, server, SendRequest(c).1);
    } else if c.userinfo.Some? {
      assert [] + Auth(c) == Auth(c);
    }
  }

  lemma ClientReadsAuth(c: Setup, server: Server, cs: seq<Byte>, sc: seq<Byte>, down: seq<Byte>, up: seq<Byte>)
    requires Sensible(c) && Joint(c, AwaitAuth, server, cs, sc, down, up) && |sc| >= 2
    ensures var (client', out) := ClientFeed(c, AwaitAuth, sc[..2]);
            Joint(c, client', server, cs + out, sc[2..], down, up)
  {
    hide Request, AddressBytes, Auth;
    assert sc[2..] == [] && sc[..2] == sc;
    if AuthSucceeds(c) {
      RequestIsOut(c, server, SendRequest(c).1);
    }
  }

  lemma ClientReadsHead(c: Setup, server: Server, cs: seq<Byte>, sc: seq<Byte>, down: seq<Byte>, up: seq<Byte>)
    requires Sensible(c) && Joint(c, AwaitHead, server, cs, sc, down, up) && |sc| >= 4
    ensures var (client', out) := ClientFeed(c, AwaitHead, sc[..4]);
            Joint(c, client', server, cs + out, sc[4..], down, up)
  {
    hide Request, AddressBytes;
    assert sc[..4] == REPLY[..4] && sc[4..] == REPLY[4..] + down && cs + [] == cs;
  }

  lemma ClientReadsRest(c: Setup, server: Server, cs: seq<Byte>, sc: seq<Byte>, down: seq<Byte>, up: seq<Byte>)
    requires Sensible(c) && Joint(c, AwaitRest(6), server, cs, sc, down, up) && |sc| >= 6
    ensures var (client', out) := ClientFeed(c, AwaitRest(6), sc[..6]);
            Joint(c, client', server, cs + out, sc[6..], down, up)
  {
    hide Request, AddressBytes;
    assert sc[6..] == down && cs + [] == cs;
  }

  /** A client read keeps the joint state. */
  lemma ClientStep(c: Setup, s: System)
    requires Sensible(c) && Inv(c, s) && Enabled(s, ClientReads)
    ensures Inv(c, Next(c, s, ClientReads))
  {
    hide Joint, Sensible, ClientFeed;
    var n := ClientNeeds(s.client);
    var (client', out) := ClientFeed(c, s.client, s.atClient[..n]);
    Arrived(s.atClient, s.toClient, n);
    assert s.atServer + (s.toServer + out) == (s.atServer + s.toServer) + out;
    ClientStepJoint(c, s.client, s.server, s.atServer + s.toServer, s.atClient + s.toClient, s.down, s.up);
  }

  /** Every step of every party and of the network keeps the joint state. */
  lemma StepInv(c: Setup, s: System, a: Action)
    requires Sensible(c) && Inv(c, s) && Enabled(s, a)
    ensures Inv(c, Next(c, s, a))
  {
    hide Joint, ServerFeed, ClientFeed;
    match a
    case DeliverToServer(k) => assert s.atServer + s.toServer == (s.atServer + s.toServer[..k]) + s.toServer[k..];
    case DeliverToClient(k) => assert s.atClient + s.toClient == (s.atClient + s.toClient[..k]) + s.toClient[k..];
    case ServerReads => ServerStep(c, s);
    case ClientReads => ClientStep(c, s);
    case TunnelDown(data) => TunnelDownStep(c, s, data);
    case TunnelUp(data) => TunnelUpStep(c, s, data);
    case ServerSeesEnd => EndStep(c, s, a);
    case ClientSeesEnd => EndStep(c, s, a);
  }

  lemma EndStep(c: Setup, s: System, a: Action)
    requires Sensible(c) && Inv(c, s) && Enabled(s, a) && (a.ServerSeesEnd? || a.ClientSeesEnd?)
    ensures Inv(c, Next(c, s, a))
  {
  }

  lemma TunnelUpStep(c: Setup, s: System, data: seq<Byte>)
    requires Sensible(c) && Inv(c, s) && Enabled(s, TunnelUp(data))
    ensures Inv(c, Next(c, s, TunnelUp(data)))
  {
    assert s.atServer + (s.toServer + data) == (s.atServer + s.toServer) + data;
  }

  lemma TunnelDownStep(c: Setup, s: System, data: seq<Byte>)
    requires Sensible(c) && Inv(c, s) && Enabled(s, TunnelDown(data))
    ensures Inv(c, Next(c, s, TunnelDown(data)))
  {
    assert s.atClient + (s.toClient + data) == (s.atClient + s.toClient) + data;
    assert (REPLY + s.down) + data == REPLY + (s.down + data);
    assert (REPLY[4..] + s.down) + data == REPLY[4..] + (s.down + data);
  }

  // ----- Runs: safety, progress, termination -----

  /** A run: its states, each reached from the one before by the action between them. */
  predicate IsRun(c: Setup, states: seq<System>, actions: seq<Action>) {
    && |states| == |actions| + 1 && Start(c, states[0])
    && forall i | 0 <= i < |actions| :: Enabled(states[i], actions[i])
        && states[i + 1] == Next(c, states[i], actions[i])
  }

  lemma {:induction false} RunInv(c: Setup, states: seq<System>, actions: seq<Action>)
    requires Sensible(c) && IsRun(c, states, actions)
    ensures Inv(c, states[|actions|])
    decreases |actions|
  {
    var n := |actions|;
    if n == 0 {
      StartInv(c, states[0]);
    } else {
      RunInv(c, states[..n], actions[..n - 1]);
      StepInv(c, states[n - 1], actions[n - 1]);
    }
  }

  predicate Over(s: System) {
    ClientOver(s.client) && ServerOver(s.server)
  }

  /** No deadlock: until both ends are through, some end or the network can make a step of the handshake. */
  lemma Progress(c: Setup, s: System)
    requires Sensible(c) && Inv(c, s) && !Over(s)
    ensures Enabled(s, ServerReads) || Enabled(s, ClientReads) || Enabled(s, ServerSeesEnd) || Enabled(s, ClientSeesEnd)
            || Enabled(s, DeliverToServer(|s.toServer|)) || Enabled(s, DeliverToClient(|s.toClient|))
  {
    hide Request, ServerFeed, AddressBytes, Sensible;
    var cs, sc := s.atServer + s.toServer, s.atClient + s.toClient;
    if s.toServer == [] && s.toClient == [] {
      assert cs == s.atServer && sc == s.atClient;
      if cs != [] && !s.client.GaveUp? && !s.client.Connected? {
        match s.client
        case AwaitMethod => ServerReadsHello(c, s.server, cs);
        case AwaitAuth => ServerReadsAuth(c, s.server, cs);
        case AwaitHead => ServerReadsRequest(c, s.server, cs);
        case _ =>
      }
    }
  }

  /** The handshake answers rightly: once both ends are through, the client is connected exactly when it
      should be, and the server then holds the address and port the client asked for. */
  lemma Verdict(c: Setup, s: System)
    requires Sensible(c) && Inv(c, s) && Over(s)
    ensures s.client.Connected? <==> ShouldSucceed(c)
    ensures s.client.Connected? ==> s.server == Relaying(c.target, c.port)
  {
  }

  /** No tunnel byte is lost or swallowed: what is unread at the end of the handshake is, in each
      direction, exactly what has been sent into the tunnel; in particular when the server starts to
      relay, nothing of the client's is left in the prefetch buffer. */
  lemma TunnelBytesKept(c: Setup, s: System)
    requires Sensible(c) && Inv(c, s)
    ensures s.client.Connected? ==> s.atServer + s.toServer == s.up && s.atClient + s.toClient == s.down
    ensures s.server.Relaying? && !s.client.Connected? ==> s.atServer == s.toServer == []
  {
  }

  /** Both, over every run and every fragmentation, tunnel traffic included: each end holds, unread or on
      its way, exactly the tunnel bytes the other has sent, and when both are through the answer is right. */
  lemma TunnelConserved(c: Setup, states: seq<System>, actions: seq<Action>)
    requires Sensible(c) && IsRun(c, states, actions)
    ensures var last := states[|actions|];
            && (Over(last) ==> (last.client.Connected? <==> ShouldSucceed(c)))
            && (last.client.Connected? ==> last.server == Relaying(c.target, c.port))
            && (last.client.Connected? ==>
                  last.atServer + last.toServer == last.up && last.atClient + last.toClient == last.down)
            && (last.server.Relaying? && !last.client.Connected? ==> last.atServer == last.toServer == [])
  {
    RunInv(c, states, actions);
    var last := states[|actions|];
    hide IsRun, Enabled;
    TunnelBytesKept(c, last);
    if Over(last) {
      Verdict(c, last);
    }
  }

  /** How far each end is from its end. */
  function ServerRank(s: Server): nat {
    match s
    case Version => 13 case MethodCount => 12 case MethodList(_) => 11
    case AuthVersion => 10 case UserLen => 9 case User(_) => 8 case PassLen(_) => 7 case Pass(_, _) => 6
    case Head => 5 case NameLen(_, _) => 4 case Name(_, _, _) => 3 case Ip4(_, _) => 3 case Ip6(_, _) => 3
    case Port(_, _, _) => 2
    case _ => 0
  }

  function ClientRank(s: Client): nat {
    match s
    case AwaitMethod => 5 case AwaitAuth => 4 case AwaitHead => 3 case AwaitDomainLen => 2 case AwaitRest(_) => 1
    case _ => 0
  }

  function Measure(s: System): nat {
    1000 * (ServerRank(s.server) + ClientRank(s.client)) + |s.toServer| + |s.toClient|
  }

  predicate Tunnelling(a: Action) {
    a.TunnelDown? || a.TunnelUp?
  }

  lemma ClientMessageBound(c: Setup)
    requires Sensible(c)
    ensures c.userinfo.Some? ==> |Auth(c)| <= 600
    ensures HostFits(c.target) ==> |Request(c)| <= 600
  {
  }

  /** Every step of the handshake brings it closer to its end, so none goes on for ever. */
  lemma StepDecreases(c: Setup, s: System, a: Action)
    requires Sensible(c) && Enabled(s, a) && !Tunnelling(a)
    ensures Measure(Next(c, s, a)) < Measure(s)
  {
    match a
    case ServerReads => ServerReadDecreases(c, s);
    case ClientReads => ClientReadDecreases(c, s);
    case _ =>
  }

  lemma ServerReadDecreases(c: Setup, s: System)
    requires Enabled(s, ServerReads)
    ensures Measure(Next(c, s, ServerReads)) < Measure(s)
  {
    hide Auth, Request, Hello;
  }

  lemma ClientReadDecreases(c: Setup, s: System)
    requires Sensible(c) && Enabled(s, ClientReads)
    ensures Measure(Next(c, s, ClientReads)) < Measure(s)
  {
    ClientMessageBound(c);
    hide Auth, Request, Hello;
  }

  predicate Stuck(s: System) {
    && !Enabled(s, ServerReads) && !Enabled(s, ClientReads) && !Enabled(s, ServerSeesEnd) && !Enabled(s, ClientSeesEnd)
    && !Enabled(s, DeliverToServer(|s.toServer|)) && !Enabled(s, DeliverToClient(|s.toClient|))
  }

  /** All runs of the handshake, over any fragmentation: a run without tunnel traffic has at most as
      many steps as the measure of its start ... */
  lemma {:induction false} HandshakeTerminates(c: Setup, states: seq<System>, actions: seq<Action>)
    requires Sensible(c) && IsRun(c, states, actions) && forall a :: a in actions ==> !Tunnelling(a)
    ensures |actions| + Measure(states[|actions|]) <= Measure(states[0])
    decreases |actions|
  {
    hide Measure, Tunnelling, Sensible, Start;
    var n := |actions|;
    if n > 0 {
      HandshakeTerminates(c, states[..n], actions[..n - 1]);
      assert actions[n - 1] in actions;
      StepDecreases(c, states[n - 1], actions[n - 1]);
    }
  }

  /** ... and one that cannot go on has ended with the right answer and nothing unread. */
  lemma HandshakeEnds(c: Setup, states: seq<System>, actions: seq<Action>)
    requires Sensible(c) && IsRun(c, states, actions) && forall a :: a in actions ==> !Tunnelling(a)
    requires Stuck(states[|actions|])
    ensures var last := states[|actions|];
            Over(last) && (last.client.Connected? <==> ShouldSucceed(c)) &&
            (last.client.Connected? ==>
               last.server == Relaying(c.target, c.port)
                   && last.atServer == last.toServer == last.atClient == last.toClient == [])
  {
    var last := states[|actions|];
    RunInv(c, states, actions);
    NothingTunnelled(c, states, actions);
    hide Joint, Enabled, IsRun;
    if !Over(last) {
      Progress(c, last);
    }
    Verdict(c, last);
    TunnelBytesKept(c, last);
  }

  lemma NotTunnelled(c: Setup, s: System, a: Action)
    requires Enabled(s, a) && !Tunnelling(a)
    ensures Next(c, s, a).down == s.down && Next(c, s, a).up == s.up
  {
  }

  lemma {:induction false} NothingTunnelled(c: Setup, states: seq<System>, actions: seq<Action>)
    requires IsRun(c, states, actions) && forall a :: a in actions ==> !Tunnelling(a)
    ensures states[|actions|].down == states[|actions|].up == []
    decreases |actions|
  {
    var n := |actions|;
    if n > 0 {
      hide Next, Tunnelling, Enabled;
      NothingTunnelled(c, states[..n], actions[..n - 1]);
      assert actions[n - 1] in actions;
      NotTunnelled(c, states[n - 1], actions[n - 1]);
    }
  }
}
