/** The device manager's channels: which socket serves which host address and port. */
module DeviceRegistry {
  import opened Basics
  import opened Decimals

  type Key = Bytes
  type Socket = int
  type Handle = nat

  const LOG_PORT: nat := 0
  const DETECTION_PORT: nat := 56000
  const PA_HOST_FAULT_PORT: nat := 42867
  const TYPE_MID360: nat := 9
  const TYPE_PA: nat := 16

  datatype HostNetInfo = HostNetInfo(
    hostIp: Bytes, cmdDataPort: nat, pushMsgPort: nat, pointDataPort: nat, imuDataPort: nat, logDataPort: nat)

  datatype LidarCfg = LidarCfg(deviceType: nat, host: HostNetInfo)

  // How the SDK was set up: whether it sends commands itself, and whether it logs.
  datatype Mode = Mode(masterSdk: bool, logEnable: bool)

  // What a socket is opened on.
  datatype Place = Place(address: Bytes, port: nat)

  // The two maps, and the results of all sockets asked for so far, with what each was to be opened on.
  datatype Registry = Registry(channelInfo: map<Key, Socket>, customCommandChannel: map<Key, Socket>,
      asked: seq<Option<Socket>>, places: seq<Place>)

  // Who creates sockets: each request either fails or yields a socket that no request yielded before.
  type Kernel = seq<Option<Socket>> -> Option<Socket>

  ghost predicate YieldsFresh(kernel: Kernel) {
    forall asked :: kernel(asked).Some? ==> kernel(asked) !in asked
  }

  datatype Outcome = Outcome(r: Registry, ok: bool)

  // ----- Keys -----

  function KeyOf(hostIp: Bytes, port: nat): Key {
    hostIp + [0x3A] + Numeral(port)
  }

  lemma {:induction false} ColonIsLast(hostIp: Bytes, port: nat)
    ensures KeyOf(hostIp, port)[|hostIp|] == 0x3A
    ensures forall i | |hostIp| < i < |KeyOf(hostIp, port)| :: KeyOf(hostIp, port)[i] != 0x3A
  {
    NumeralIsDigits(port);
    forall i | |hostIp| < i < |KeyOf(hostIp, port)| ensures KeyOf(hostIp, port)[i] != 0x3A {
      assert KeyOf(hostIp, port)[i] == Numeral(port)[i - |hostIp| - 1];
    }
  }

  /** Whatever an address is written like, two channels have the same key only if they have the same
      address and port. */
  lemma {:induction false} KeyIsInjective(a: Bytes, m: nat, b: Bytes, n: nat)
    requires KeyOf(a, m) == KeyOf(b, n)
    ensures a == b && m == n
  {
    var key := KeyOf(a, m);
    ColonIsLast(a, m);
    ColonIsLast(b, n);
    assert |a| == |b|;
    assert a == key[..|a|] == b;
    assert Numeral(m) == key[|a| + 1..] == Numeral(n);
    NumeralIsInjective(m, n);
  }

  // ----- Creating channels -----

  /** The local address and the limited broadcast address, as they are written. */
  const LOCAL: Bytes := [0x6C, 0x6F, 0x63, 0x61, 0x6C]
  const EVERYONE: Bytes := [0x32, 0x35, 0x35, 0x2E, 0x32, 0x35, 0x35, 0x2E, 0x32, 0x35, 0x35, 0x2E, 0x32, 0x35, 0x35]

  function Open(kernel: Kernel, r: Registry, place: Place): (Registry, Option<Socket>) {
    var sock := kernel(r.asked);
    (r.(asked := r.asked + [sock], places := r.places + [place]), sock)
  }

  /** A channel of the local host listens on any address. */
  function PlaceOf(hostIp: Bytes, port: nat): Place {
    Place(if hostIp == LOCAL then [] else hostIp, port)
  }

  predicate WantsCommand(hostIp: Bytes, port: nat) {
    !(|hostIp| == 0 || port == 0 || port == LOG_PORT)
  }

  predicate WantsData(hostIp: Bytes, port: nat) {
    !(|hostIp| == 0 || port == 0 || port == LOG_PORT || port == DETECTION_PORT)
  }

  function CreateCmd(kernel: Kernel, r: Registry, hostIp: Bytes, port: nat): Outcome {
    var key := KeyOf(hostIp, port);
    if !WantsCommand(hostIp, port) then Outcome(r, true)
    else if key in r.channelInfo then
      if key in r.customCommandChannel then Outcome(r, true)
      else Outcome(r.(customCommandChannel := r.customCommandChannel[key := r.channelInfo[key]]), true)
    else
      var (t, sock) := Open(kernel, r, PlaceOf(hostIp, port));
      if sock.None? then Outcome(t, false)
      else Outcome(t.(channelInfo := t.channelInfo[key := sock.value],
                      customCommandChannel := t.customCommandChannel[key := sock.value]), true)
  }

  function CreateData(kernel: Kernel, r: Registry, hostIp: Bytes, port: nat): Outcome {
    var key := KeyOf(hostIp, port);
    if !WantsData(hostIp, port) || key in r.channelInfo then Outcome(r, true)
    else
      var (t, sock) := Open(kernel, r, PlaceOf(hostIp, port));
      if sock.None? then Outcome(t, false) else Outcome(t.(channelInfo := t.channelInfo[key := sock.value]), true)
  }

  /** The socket that broadcasts for a Mid360 is in neither map, and is opened on every pass. */
  function CreateBroadcast(kernel: Kernel, r: Registry, port: nat): Outcome {
    var (t, sock) := Open(kernel, r, Place(EVERYONE, port));
    Outcome(t, sock.Some?)
  }

  // What is to be created for one lidar, in order.
  datatype Request = Data(port: nat) | Command(port: nat) | Broadcast(port: nat)

  function Requests(mode: Mode, c: LidarCfg): seq<Request> {
    [Data(c.host.pointDataPort), Data(c.host.imuDataPort)]
    + (if mode.masterSdk then [Command(c.host.cmdDataPort)] else [])
    + [Command(c.host.pushMsgPort)]
    + (if c.deviceType == TYPE_PA then [Command(PA_HOST_FAULT_PORT)] else [])
    + (if c.deviceType == TYPE_MID360 then [Broadcast(c.host.pushMsgPort)] else [])
    + (if mode.logEnable then [Command(c.host.logDataPort)] else [])
  }

  function Serve(kernel: Kernel, r: Registry, hostIp: Bytes, request: Request): Outcome {
    match request
    case Data(port) => CreateData(kernel, r, hostIp, port)
    case Command(port) => CreateCmd(kernel, r, hostIp, port)
    case Broadcast(port) => CreateBroadcast(kernel, r, port)
  }

  /** One after the other, until one fails. */
  function ServeAll(kernel: Kernel, r: Registry, hostIp: Bytes, requests: seq<Request>): Outcome
    decreases requests
  {
    if |requests| == 0 then Outcome(r, true)
    else
      var first := Serve(kernel, r, hostIp, requests[0]);
      if !first.ok then first else ServeAll(kernel, first.r, hostIp, requests[1..])
  }

  function Pass(kernel: Kernel, r: Registry, mode: Mode, cfgs: seq<LidarCfg>): Outcome
    decreases cfgs
  {
    if |cfgs| == 0 then Outcome(r, true)
    else
      var first := ServeAll(kernel, r, cfgs[0].host.hostIp, Requests(mode, cfgs[0]));
      if !first.ok then first else Pass(kernel, first.r, mode, cfgs[1..])
  }

  /** The detection sockets. The second one is bound to its key whatever stood there. */
  function CreateDetection(kernel: Kernel, r: Registry, hostIp: Bytes): Outcome {
    var (t, broadcast) := Open(kernel, r, Place(EVERYONE, DETECTION_PORT));
    if broadcast.None? then Outcome(t, false)
    else
      var (u, sock) := Open(kernel, t, Place(hostIp, DETECTION_PORT));
      if sock.None? then Outcome(u, false)
      else
        var key := KeyOf(hostIp, DETECTION_PORT);
        Outcome(u.(channelInfo := u.channelInfo[key := sock.value],
                   customCommandChannel := if key in u.customCommandChannel then u.customCommandChannel
                                           else u.customCommandChannel[key := sock.value]), true)
  }

  // ----- What every operation keeps -----

  /** The command channels are channels with the same socket; no two keys share a socket; and every
      socket in use was yielded by the kernel. */
  ghost predicate Inv(r: Registry) {
    && (forall k | k in r.customCommandChannel :: k in r.channelInfo && r.customCommandChannel[k] == r.channelInfo[k])
    && (forall j, k | j in r.channelInfo && k in r.channelInfo && j != k :: r.channelInfo[j] != r.channelInfo[k])
    && (forall k | k in r.channelInfo :: Some(r.channelInfo[k]) in r.asked)
  }

  /** No key is bound anew. */
  ghost predicate Extends(r: Registry, t: Registry) {
    && (forall k | k in r.channelInfo :: k in t.channelInfo && t.channelInfo[k] == r.channelInfo[k])
    && (forall k | k in r.customCommandChannel :: k in t.customCommandChannel && t.customCommandChannel[k] == r.customCommandChannel[k])
  }

  lemma {:induction false} ExtendsOn(r: Registry, t: Registry, u: Registry)
    requires Extends(r, t) && Extends(t, u)
    ensures Extends(r, u)
  {}

  lemma {:induction false} OpenKeeps(kernel: Kernel, r: Registry, place: Place)
    requires Inv(r) && YieldsFresh(kernel)
    ensures
      var (t, sock) := Open(kernel, r, place);
      && Inv(t) && t.channelInfo == r.channelInfo && t.customCommandChannel == r.customCommandChannel
      && (sock.Some? ==> sock in t.asked && forall k | k in r.channelInfo :: r.channelInfo[k] != sock.value)
  {
    var sock := kernel(r.asked);
    var t := r.(asked := r.asked + [sock], places := r.places + [place]);
    assert t.asked[|r.asked|] == sock;
    forall k | k in t.channelInfo ensures Some(t.channelInfo[k]) in t.asked {
      assert Some(r.channelInfo[k]) in r.asked;
    }
    if sock.Some? {
      forall k | k in r.channelInfo ensures r.channelInfo[k] != sock.value {
        assert Some(r.channelInfo[k]) in r.asked;
      }
    }
  }

  lemma {:induction false} ServeKeeps(kernel: Kernel, r: Registry, hostIp: Bytes, request: Request)
    requires Inv(r) && YieldsFresh(kernel)
    ensures Inv(Serve(kernel, r, hostIp, request).r) && Extends(r, Serve(kernel, r, hostIp, request).r)
  {
    var place := match request case Broadcast(port) => Place(EVERYONE, port) case _ => PlaceOf(hostIp, request.port);
    OpenKeeps(kernel, r, place);
    var (t, sock) := Open(kernel, r, place);
    match request
    case Data(port) =>
      if sock.Some? && KeyOf(hostIp, port) !in r.channelInfo {
        BindKeeps(r, t, KeyOf(hostIp, port), sock.value, false);
      }
    case Command(port) =>
      if sock.Some? && KeyOf(hostIp, port) !in r.channelInfo {
        BindKeeps(r, t, KeyOf(hostIp, port), sock.value, true);
      }
    case Broadcast(_) =>
  }

  /** A new key is bound to a socket that no key had before. */
  lemma {:induction false} BindKeeps(r: Registry, t: Registry, key: Key, sock: Socket, command: bool)
    requires Inv(t) && SameMaps(r, t) && key !in r.channelInfo
    requires Some(sock) in t.asked && forall k | k in r.channelInfo :: r.channelInfo[k] != sock
    ensures
      var u := t.(channelInfo := t.channelInfo[key := sock],
                  customCommandChannel := if command then t.customCommandChannel[key := sock] else t.customCommandChannel);
      Inv(u) && Extends(r, u)
  {}

  lemma {:induction false} ServeAllKeeps(kernel: Kernel, r: Registry, hostIp: Bytes, requests: seq<Request>)
    requires Inv(r) && YieldsFresh(kernel)
    ensures Inv(ServeAll(kernel, r, hostIp, requests).r) && Extends(r, ServeAll(kernel, r, hostIp, requests).r)
    decreases requests
  {
    if |requests| > 0 {
      var first := Serve(kernel, r, hostIp, requests[0]);
      ServeKeeps(kernel, r, hostIp, requests[0]);
      if first.ok {
        ServeAllKeeps(kernel, first.r, hostIp, requests[1..]);
        ExtendsOn(r, first.r, ServeAll(kernel, first.r, hostIp, requests[1..]).r);
      }
    }
  }

  /** A pass keeps the invariant and binds no key anew, whether or not it succeeds. */
  lemma {:induction false} PassKeeps(kernel: Kernel, r: Registry, mode: Mode, cfgs: seq<LidarCfg>)
    requires Inv(r) && YieldsFresh(kernel)
    ensures Inv(Pass(kernel, r, mode, cfgs).r) && Extends(r, Pass(kernel, r, mode, cfgs).r)
    decreases cfgs
  {
    if |cfgs| > 0 {
      var requests := Requests(mode, cfgs[0]);
      var first := ServeAll(kernel, r, cfgs[0].host.hostIp, requests);
      ServeAllKeeps(kernel, r, cfgs[0].host.hostIp, requests);
      if first.ok {
        PassKeeps(kernel, first.r, mode, cfgs[1..]);
        ExtendsOn(r, first.r, Pass(kernel, first.r, mode, cfgs[1..]).r);
      }
    }
  }

  // ----- What a successful pass achieves, and that a second one adds nothing -----

  predicate Served(r: Registry, hostIp: Bytes, request: Request) {
    match request
    case Data(port) => WantsData(hostIp, port) ==> KeyOf(hostIp, port) in r.channelInfo
    case Command(port) =>
      WantsCommand(hostIp, port) ==> KeyOf(hostIp, port) in r.channelInfo && KeyOf(hostIp, port) in r.customCommandChannel
    case Broadcast(_) => true
  }

  ghost predicate AllServed(r: Registry, hostIp: Bytes, requests: seq<Request>) {
    forall i | 0 <= i < |requests| :: Served(r, hostIp, requests[i])
  }

  ghost predicate PassServed(r: Registry, mode: Mode, cfgs: seq<LidarCfg>) {
    forall i | 0 <= i < |cfgs| :: AllServed(r, cfgs[i].host.hostIp, Requests(mode, cfgs[i]))
  }

  lemma {:induction false} ServedStays(r: Registry, t: Registry, hostIp: Bytes, request: Request)
    requires Served(r, hostIp, request) && Extends(r, t)
    ensures Served(t, hostIp, request)
  {}

  lemma {:induction false} ServeServes(kernel: Kernel, r: Registry, hostIp: Bytes, request: Request)
    requires Inv(r) && Serve(kernel, r, hostIp, request).ok
    ensures Served(Serve(kernel, r, hostIp, request).r, hostIp, request)
  {}

  lemma {:induction false} ServeAllServes(kernel: Kernel, r: Registry, hostIp: Bytes, requests: seq<Request>)
    requires Inv(r) && YieldsFresh(kernel) && ServeAll(kernel, r, hostIp, requests).ok
    ensures AllServed(ServeAll(kernel, r, hostIp, requests).r, hostIp, requests)
    decreases requests
  {
    if |requests| > 0 {
      var first := Serve(kernel, r, hostIp, requests[0]);
      var last := ServeAll(kernel, first.r, hostIp, requests[1..]);
      ServeKeeps(kernel, r, hostIp, requests[0]);
      ServeServes(kernel, r, hostIp, requests[0]);
      ServeAllServes(kernel, first.r, hostIp, requests[1..]);
      ServeAllKeeps(kernel, first.r, hostIp, requests[1..]);
      ServedStays(first.r, last.r, hostIp, requests[0]);
      forall i | 0 <= i < |requests| ensures Served(last.r, hostIp, requests[i]) {
        if i > 0 {
          assert requests[i] == requests[1..][i - 1];
        }
      }
    }
  }

  lemma {:induction false} ServeAllPromises(kernel: Kernel, r: Registry, hostIp: Bytes, requests: seq<Request>)
    requires Inv(r) && YieldsFresh(kernel)
    ensures
      var served := ServeAll(kernel, r, hostIp, requests);
      Inv(served.r) && Extends(r, served.r) && (served.ok ==> AllServed(served.r, hostIp, requests))
  {
    ServeAllKeeps(kernel, r, hostIp, requests);
    if ServeAll(kernel, r, hostIp, requests).ok {
      ServeAllServes(kernel, r, hostIp, requests);
    }
  }

  lemma {:induction false} PassServes(kernel: Kernel, r: Registry, mode: Mode, cfgs: seq<LidarCfg>)
    requires Inv(r) && YieldsFresh(kernel) && Pass(kernel, r, mode, cfgs).ok
    ensures PassServed(Pass(kernel, r, mode, cfgs).r, mode, cfgs)
    decreases cfgs
  {
    if |cfgs| > 0 {
      var hostIp, requests := cfgs[0].host.hostIp, Requests(mode, cfgs[0]);
      var first := ServeAll(kernel, r, hostIp, requests);
      var last := Pass(kernel, first.r, mode, cfgs[1..]);
      ServeAllKeeps(kernel, r, hostIp, requests);
      ServeAllServes(kernel, r, hostIp, requests);
      PassServes(kernel, first.r, mode, cfgs[1..]);
      PassKeeps(kernel, first.r, mode, cfgs[1..]);
      forall i | 0 <= i < |requests| ensures Served(last.r, hostIp, requests[i]) {
        ServedStays(first.r, last.r, hostIp, requests[i]);
      }
      forall i | 0 <= i < |cfgs| ensures AllServed(last.r, cfgs[i].host.hostIp, Requests(mode, cfgs[i])) {
        if i > 0 {
          assert cfgs[i] == cfgs[1..][i - 1];
        }
      }
    }
  }

  predicate SameMaps(r: Registry, t: Registry) {
    t.channelInfo == r.channelInfo && t.customCommandChannel == r.customCommandChannel
  }

  lemma {:induction false} ServeAgain(kernel: Kernel, r: Registry, hostIp: Bytes, request: Request)
    requires Served(r, hostIp, request)
    ensures SameMaps(r, Serve(kernel, r, hostIp, request).r)
    ensures !request.Broadcast? ==> Serve(kernel, r, hostIp, request) == Outcome(r, true)
  {}

  lemma {:induction false} ServeAllAgain(kernel: Kernel, r: Registry, hostIp: Bytes, requests: seq<Request>)
    requires AllServed(r, hostIp, requests)
    ensures SameMaps(r, ServeAll(kernel, r, hostIp, requests).r)
    decreases requests
  {
    if |requests| > 0 {
      var first := Serve(kernel, r, hostIp, requests[0]);
      ServeAgain(kernel, r, hostIp, requests[0]);
      forall i | 0 <= i < |requests[1..]| ensures Served(first.r, hostIp, requests[1..][i]) {
        assert Served(r, hostIp, requests[i + 1]);
      }
      ServeAllAgain(kernel, first.r, hostIp, requests[1..]);
    }
  }

  lemma {:induction false} PassServedStays(r: Registry, t: Registry, mode: Mode, cfgs: seq<LidarCfg>)
    requires PassServed(r, mode, cfgs) && Extends(r, t)
    ensures PassServed(t, mode, cfgs)
  {
    forall i | 0 <= i < |cfgs| ensures AllServed(t, cfgs[i].host.hostIp, Requests(mode, cfgs[i])) {
      assert AllServed(r, cfgs[i].host.hostIp, Requests(mode, cfgs[i]));
      forall j | 0 <= j < |Requests(mode, cfgs[i])| ensures Served(t, cfgs[i].host.hostIp, Requests(mode, cfgs[i])[j]) {
        ServedStays(r, t, cfgs[i].host.hostIp, Requests(mode, cfgs[i])[j]);
      }
    }
  }

  lemma {:induction false} PassOnServed(kernel: Kernel, r: Registry, mode: Mode, cfgs: seq<LidarCfg>)
    requires PassServed(r, mode, cfgs)
    ensures SameMaps(r, Pass(kernel, r, mode, cfgs).r)
    decreases cfgs
  {
    if |cfgs| > 0 {
      var first := ServeAll(kernel, r, cfgs[0].host.hostIp, Requests(mode, cfgs[0]));
      assert AllServed(r, cfgs[0].host.hostIp, Requests(mode, cfgs[0]));
      ServeAllAgain(kernel, r, cfgs[0].host.hostIp, Requests(mode, cfgs[0]));
      PassServedStays(r, first.r, mode, cfgs);
      assert PassServed(first.r, mode, cfgs[1..]) by {
        assert forall i | 0 <= i < |cfgs[1..]| :: cfgs[1..][i] == cfgs[i + 1];
      }
      PassOnServed(kernel, first.r, mode, cfgs[1..]);
    }
  }

  /** Repeating a pass that succeeded leaves both maps as they are, even if it fails this time. */
  lemma {:induction false} PassIsIdempotent(kernel: Kernel, r: Registry, mode: Mode, cfgs: seq<LidarCfg>)
    requires Inv(r) && YieldsFresh(kernel) && Pass(kernel, r, mode, cfgs).ok
    ensures
      var once := Pass(kernel, r, mode, cfgs).r;
      SameMaps(once, Pass(kernel, once, mode, cfgs).r)
  {
    PassServes(kernel, r, mode, cfgs);
    PassOnServed(kernel, Pass(kernel, r, mode, cfgs).r, mode, cfgs);
  }

  /** All that a pass promises. */
  lemma {:induction false} PassPromises(kernel: Kernel, r: Registry, mode: Mode, cfgs: seq<LidarCfg>)
    requires Inv(r) && YieldsFresh(kernel)
    ensures
      var pass := Pass(kernel, r, mode, cfgs);
      Inv(pass.r) && Extends(r, pass.r) && (pass.ok ==> PassServed(pass.r, mode, cfgs))
  {
    PassKeeps(kernel, r, mode, cfgs);
    if Pass(kernel, r, mode, cfgs).ok {
      PassServes(kernel, r, mode, cfgs);
    }
  }

  // ----- Which channels there are, by the ports of the configurations -----

  /** The ports of a configuration that commands and messages go through. */
  predicate IsCommandPort(mode: Mode, c: LidarCfg, port: nat) {
    || (mode.masterSdk && port == c.host.cmdDataPort)
    || port == c.host.pushMsgPort
    || (c.deviceType == 16 && port == 42867)
    || (mode.logEnable && port == c.host.logDataPort)
  }

  predicate IsDataPort(c: LidarCfg, port: nat) {
    port != 56000 && (port == c.host.pointDataPort || port == c.host.imuDataPort)
  }

  /** A port that a configuration asks for, on an address that it names. */
  predicate Asked(c: LidarCfg, port: nat) {
    |c.host.hostIp| > 0 && port > 0
  }

  /** Every port that is asked for has its channel. */
  ghost predicate PortsStand(r: Registry, mode: Mode, c: LidarCfg) {
    forall port | Asked(c, port) ::
      var key := c.host.hostIp + [0x3A] + Numeral(port);
      && (IsCommandPort(mode, c, port) ==>
            key in r.channelInfo && key in r.customCommandChannel)
      && (IsDataPort(c, port) ==> key in r.channelInfo)
  }

  lemma {:induction false} ServedPortsStand(r: Registry, mode: Mode, c: LidarCfg)
    requires AllServed(r, c.host.hostIp, Requests(mode, c))
    ensures PortsStand(r, mode, c)
  {
    forall port | Asked(c, port)
      ensures IsCommandPort(mode, c, port) ==>
                KeyOf(c.host.hostIp, port) in r.channelInfo && KeyOf(c.host.hostIp, port) in r.customCommandChannel
      ensures IsDataPort(c, port) ==> KeyOf(c.host.hostIp, port) in r.channelInfo
    {
      if IsCommandPort(mode, c, port) {
        assert Command(port) in Requests(mode, c);
        assert Served(r, c.host.hostIp, Command(port));
      }
      if IsDataPort(c, port) {
        assert Requests(mode, c)[0] == Data(c.host.pointDataPort) && Requests(mode, c)[1] == Data(c.host.imuDataPort);
        assert Served(r, c.host.hostIp, Data(port));
      }
    }
  }

  /** A key is that of a port that some configuration asks for. */
  ghost predicate IsPortKey(mode: Mode, c: LidarCfg, key: Key, command: bool) {
    exists port: nat ::
      && Asked(c, port) && key == KeyOf(c.host.hostIp, port)
      && (IsCommandPort(mode, c, port) || (!command && IsDataPort(c, port)))
  }

  lemma {:induction false} ServeOpens(kernel: Kernel, r: Registry, mode: Mode, c: LidarCfg, request: Request, key: Key)
    requires request in Requests(mode, c)
    ensures
      var t := Serve(kernel, r, c.host.hostIp, request).r;
      && (key in t.channelInfo ==> key in r.channelInfo || IsPortKey(mode, c, key, false))
      && (key in t.customCommandChannel ==> key in r.customCommandChannel || IsPortKey(mode, c, key, true))
  {
    match request
    case Data(port) =>
      if WantsData(c.host.hostIp, port) {
        assert Asked(c, port) && IsDataPort(c, port);
      }
    case Command(port) =>
      if WantsCommand(c.host.hostIp, port) {
        assert Asked(c, port) && IsCommandPort(mode, c, port);
      }
    case Broadcast(_) =>
  }

  lemma {:induction false} ServeAllOpens(kernel: Kernel, r: Registry, mode: Mode, c: LidarCfg, requests: seq<Request>,
        key: Key)
    requires forall i | 0 <= i < |requests| :: requests[i] in Requests(mode, c)
    ensures
      var t := ServeAll(kernel, r, c.host.hostIp, requests).r;
      && (key in t.channelInfo ==> key in r.channelInfo || IsPortKey(mode, c, key, false))
      && (key in t.customCommandChannel ==> key in r.customCommandChannel || IsPortKey(mode, c, key, true))
    decreases requests
  {
    if |requests| > 0 {
      var first := Serve(kernel, r, c.host.hostIp, requests[0]);
      ServeOpens(kernel, r, mode, c, requests[0], key);
      if first.ok {
        ServeAllOpens(kernel, first.r, mode, c, requests[1..], key);
      }
    }
  }

  /** Only the ports that the configurations ask for come to have channels. */
  lemma {:induction false} PassOpens(kernel: Kernel, r: Registry, mode: Mode, cfgs: seq<LidarCfg>, key: Key)
    ensures
      var t := Pass(kernel, r, mode, cfgs).r;
      && (key in t.channelInfo ==> key in r.channelInfo || exists c | c in cfgs :: IsPortKey(mode, c, key, false))
      && (key in t.customCommandChannel ==>
            key in r.customCommandChannel || exists c | c in cfgs :: IsPortKey(mode, c, key, true))
    decreases cfgs
  {
    if |cfgs| > 0 {
      var first := ServeAll(kernel, r, cfgs[0].host.hostIp, Requests(mode, cfgs[0]));
      ServeAllOpens(kernel, r, mode, cfgs[0], Requests(mode, cfgs[0]), key);
      if first.ok {
        PassOpens(kernel, first.r, mode, cfgs[1..], key);
      }
    }
  }

  /** After a pass that succeeds, every port that some configuration asks for has its channel, and no
      other port has come to have one. */
  lemma {:induction false} PassOpensPorts(kernel: Kernel, r: Registry, mode: Mode, cfgs: seq<LidarCfg>)
    requires Inv(r) && YieldsFresh(kernel) && Pass(kernel, r, mode, cfgs).ok
    ensures
      var t := Pass(kernel, r, mode, cfgs).r;
      && (forall i | 0 <= i < |cfgs| :: PortsStand(t, mode, cfgs[i]))
      && (forall key | key in t.channelInfo ::
            key in r.channelInfo || exists c | c in cfgs :: IsPortKey(mode, c, key, false))
      && (forall key | key in t.customCommandChannel ::
            key in r.customCommandChannel || exists c | c in cfgs :: IsPortKey(mode, c, key, true))
  {
    var t := Pass(kernel, r, mode, cfgs).r;
    PassServes(kernel, r, mode, cfgs);
    forall i | 0 <= i < |cfgs| ensures PortsStand(t, mode, cfgs[i]) {
      assert AllServed(t, cfgs[i].host.hostIp, Requests(mode, cfgs[i]));
      ServedPortsStand(t, mode, cfgs[i]);
    }
    forall key: Key
      ensures key in t.channelInfo ==> key in r.channelInfo || exists c | c in cfgs :: IsPortKey(mode, c, key, false)
      ensures key in t.customCommandChannel ==>
                key in r.customCommandChannel || exists c | c in cfgs :: IsPortKey(mode, c, key, true)
    {
      PassOpens(kernel, r, mode, cfgs, key);
    }
  }

  // ----- Failing -----

  /** From one registry to another, sockets were asked for, and a failure is the refusal of one. */
  ghost predicate FailsByRefusal(r: Registry, o: Outcome) {
    && r.asked <= o.r.asked
    && (o.ok <==> forall i | |r.asked| <= i < |o.r.asked| :: o.r.asked[i].Some?)
  }

  lemma {:induction false} ServeFails(kernel: Kernel, r: Registry, hostIp: Bytes, request: Request)
    ensures FailsByRefusal(r, Serve(kernel, r, hostIp, request))
  {
    var sock := kernel(r.asked);
    assert (r.asked + [sock])[|r.asked|] == sock;
  }

  lemma {:induction false} ServeAllFails(kernel: Kernel, r: Registry, hostIp: Bytes, requests: seq<Request>)
    ensures FailsByRefusal(r, ServeAll(kernel, r, hostIp, requests))
    decreases requests
  {
    if |requests| > 0 {
      var first := Serve(kernel, r, hostIp, requests[0]);
      ServeFails(kernel, r, hostIp, requests[0]);
      if first.ok {
        ServeAllFails(kernel, first.r, hostIp, requests[1..]);
      }
    }
  }

  /** A pass fails if and only if a socket that it asks for is refused. */
  lemma {:induction false} PassFails(kernel: Kernel, r: Registry, mode: Mode, cfgs: seq<LidarCfg>)
    ensures FailsByRefusal(r, Pass(kernel, r, mode, cfgs))
    decreases cfgs
  {
    if |cfgs| > 0 {
      var first := ServeAll(kernel, r, cfgs[0].host.hostIp, Requests(mode, cfgs[0]));
      ServeAllFails(kernel, r, cfgs[0].host.hostIp, Requests(mode, cfgs[0]));
      if first.ok {
        PassFails(kernel, first.r, mode, cfgs[1..]);
      }
    }
  }

  // ----- The detection sockets -----

  /** Creating them keeps the invariant exactly when the detection key is no command channel yet: such
      a channel would be rebound in one map and not in the other. No key is rebound exactly when the
      detection key is no channel at all. */
  lemma {:induction false} DetectionKeeps(kernel: Kernel, r: Registry, hostIp: Bytes)
    requires Inv(r) && YieldsFresh(kernel) && CreateDetection(kernel, r, hostIp).ok
    ensures Inv(CreateDetection(kernel, r, hostIp).r) <==> KeyOf(hostIp, DETECTION_PORT) !in r.customCommandChannel
    ensures Extends(r, CreateDetection(kernel, r, hostIp).r) <==> KeyOf(hostIp, DETECTION_PORT) !in r.channelInfo
    ensures
      var t, key := CreateDetection(kernel, r, hostIp).r, hostIp + [0x3A] + Numeral(56000);
      && key in t.channelInfo && Some(t.channelInfo[key]) == t.asked[|t.asked| - 1]
      && key in t.customCommandChannel
  {
    var everyone, here := Place(EVERYONE, DETECTION_PORT), Place(hostIp, DETECTION_PORT);
    OpenKeeps(kernel, r, everyone);
    var (t, broadcast) := Open(kernel, r, everyone);
    OpenKeeps(kernel, t, here);
    var (u, sock) := Open(kernel, t, here);
    RebindKeeps(t, u, KeyOf(hostIp, DETECTION_PORT), sock.value);
  }

  /** A key is bound to a fresh socket whatever it was bound to before. */
  lemma {:induction false} RebindKeeps(r: Registry, t: Registry, key: Key, sock: Socket)
    requires Inv(r) && Inv(t) && SameMaps(r, t)
    requires Some(sock) in t.asked && forall k | k in r.channelInfo :: r.channelInfo[k] != sock
    ensures
      var command := t.customCommandChannel;
      var u := t.(channelInfo := t.channelInfo[key := sock],
                  customCommandChannel := if key in command then command else command[key := sock]);
      && (Inv(u) <==> key !in r.customCommandChannel)
      && (Extends(r, u) <==> key !in r.channelInfo)
  {
    if key in r.customCommandChannel {
      assert r.customCommandChannel[key] == r.channelInfo[key] != sock;
    }
  }

  // ----- Runs of the manager -----

  // The registry; the configurations that a pass goes through; which lidar has which; and the one
  // that each type of lidar is given when it is discovered.
  datatype Manager = Manager(registry: Registry, cfgs: seq<LidarCfg>, lidars: map<Handle, LidarCfg>,
      types: map<nat, LidarCfg>)

  /** A lidar that announces itself for the first time is given the configuration of its type, and
      all configurations are passed through once more. */
  function Discover(kernel: Kernel, mode: Mode, m: Manager, handle: Handle, deviceType: nat): (Manager, bool) {
    if handle in m.lidars || deviceType !in m.types then (m, true)
    else
      var cfg := m.types[deviceType];
      var cfgs := m.cfgs + [cfg];
      var outcome := Pass(kernel, m.registry, mode, cfgs);
      (Manager(outcome.r, cfgs, m.lidars[handle := cfg], m.types), outcome.ok)
  }

  /** The start: detection sockets, then a first pass. */
  function Start(kernel: Kernel, mode: Mode, hostIp: Bytes, cfgs: seq<LidarCfg>, lidars: map<Handle, LidarCfg>,
                 types: map<nat, LidarCfg>): (Manager, bool) {
    var detection := CreateDetection(kernel, Registry(map[], map[], [], []), hostIp);
    if !detection.ok then (Manager(detection.r, cfgs, lidars, types), false)
    else
      var outcome := Pass(kernel, detection.r, mode, cfgs);
      (Manager(outcome.r, cfgs, lidars, types), outcome.ok)
  }

  datatype Discovery = Discovery(handle: Handle, deviceType: nat)

  function RunDiscoveries(kernel: Kernel, mode: Mode, m: Manager, ds: seq<Discovery>): Manager
    decreases ds
  {
    if |ds| == 0 then m else RunDiscoveries(kernel, mode, Discover(kernel, mode, m, ds[0].handle,
        ds[0].deviceType).0, ds[1..])
  }

  ghost predicate ManagerInv(m: Manager) {
    Inv(m.registry) && forall h | h in m.lidars :: m.lidars[h] in m.cfgs
  }

  lemma {:induction false} StartKeeps(kernel: Kernel, mode: Mode, hostIp: Bytes, cfgs: seq<LidarCfg>,
        lidars: map<Handle, LidarCfg>,
                                      types: map<nat, LidarCfg>)
    requires YieldsFresh(kernel) && forall h | h in lidars :: lidars[h] in cfgs
    ensures ManagerInv(Start(kernel, mode, hostIp, cfgs, lidars, types).0)
  {
    var empty := Registry(map[], map[], [], []);
    var detection := CreateDetection(kernel, empty, hostIp);
    var everyone := Place(EVERYONE, DETECTION_PORT);
    OpenKeeps(kernel, empty, everyone);
    OpenKeeps(kernel, Open(kernel, empty, everyone).0, Place(hostIp, DETECTION_PORT));
    if detection.ok {
      DetectionKeeps(kernel, empty, hostIp);
      PassKeeps(kernel, detection.r, mode, cfgs);
    }
  }

  lemma {:induction false} DiscoverKeeps(kernel: Kernel, mode: Mode, m: Manager, handle: Handle, deviceType: nat)
    requires ManagerInv(m) && YieldsFresh(kernel)
    ensures
      var t := Discover(kernel, mode, m, handle, deviceType).0;
      ManagerInv(t) && Extends(m.registry, t.registry)
  {
    if handle !in m.lidars && deviceType in m.types {
      PassKeeps(kernel, m.registry, mode, m.cfgs + [m.types[deviceType]]);
    }
  }

  /** A lidar that announces itself for the first time, and whose type is configured, is registered with
      that configuration, to which the channels of the pass belong; nothing else about any lidar
      changes. */
  lemma {:induction false} DiscoverRegisters(kernel: Kernel, mode: Mode, m: Manager, handle: Handle, deviceType: nat)
    ensures
      var t := Discover(kernel, mode, m, handle, deviceType).0;
      && t.types == m.types
      && (handle !in m.lidars && deviceType in m.types ==>
            && handle in t.lidars && t.lidars[handle] == m.types[deviceType]
            && t.cfgs == m.cfgs + [m.types[deviceType]] && m.types[deviceType] in t.cfgs)
      && (handle in m.lidars || deviceType !in m.types ==> t == m)
      && forall h | h != handle ::
           (h in t.lidars <==> h in m.lidars) && (h in t.lidars ==> t.lidars[h] == m.lidars[h])
  {
    if handle !in m.lidars && deviceType in m.types {
      var cfgs := m.cfgs + [m.types[deviceType]];
      assert cfgs[|m.cfgs|] == m.types[deviceType];
    }
  }

  /** What the start promises of what it leaves served. */
  lemma {:induction false} StartPromises(kernel: Kernel, mode: Mode, hostIp: Bytes, cfgs: seq<LidarCfg>,
        lidars: map<Handle, LidarCfg>, types: map<nat, LidarCfg>)
    requires YieldsFresh(kernel)
    ensures
      var (started, ok) := Start(kernel, mode, hostIp, cfgs, lidars, types);
      Inv(started.registry) && (ok ==> PassServed(started.registry, mode, cfgs))
  {
    StartKeeps(kernel, mode, hostIp, cfgs, map[], types);
    var empty := Registry(map[], map[], [], []);
    var detection := CreateDetection(kernel, empty, hostIp);
    OpenKeeps(kernel, empty, Place(EVERYONE, DETECTION_PORT));
    if detection.ok {
      DetectionKeeps(kernel, empty, hostIp);
      PassPromises(kernel, detection.r, mode, cfgs);
    }
  }

  /** A discovery that succeeds leaves everything served, if everything was before. */
  lemma {:induction false} DiscoverPromises(kernel: Kernel, mode: Mode, m: Manager, handle: Handle, deviceType: nat)
    requires ManagerInv(m) && YieldsFresh(kernel)
    ensures
      var (t, ok) := Discover(kernel, mode, m, handle, deviceType);
      && ManagerInv(t) && Extends(m.registry, t.registry)
      && (PassServed(m.registry, mode, m.cfgs) && ok ==> PassServed(t.registry, mode, t.cfgs))
  {
    DiscoverKeeps(kernel, mode, m, handle, deviceType);
    if handle !in m.lidars && deviceType in m.types {
      PassPromises(kernel, m.registry, mode, m.cfgs + [m.types[deviceType]]);
    }
  }

  /** In every state that is reached, the command channels are channels, no two keys share a socket,
      and what was bound at any time before is still bound to the same socket. */
  lemma {:induction false} RunKeeps(kernel: Kernel, mode: Mode, m: Manager, ds: seq<Discovery>)
    requires ManagerInv(m) && YieldsFresh(kernel)
    ensures ManagerInv(RunDiscoveries(kernel, mode, m, ds)) && Extends(m.registry, RunDiscoveries(kernel, mode, m,
               ds).registry)
    decreases ds
  {
    if |ds| > 0 {
      var next := Discover(kernel, mode, m, ds[0].handle, ds[0].deviceType).0;
      DiscoverKeeps(kernel, mode, m, ds[0].handle, ds[0].deviceType);
      RunKeeps(kernel, mode, next, ds[1..]);
      ExtendsOn(m.registry, next.registry, RunDiscoveries(kernel, mode, next, ds[1..]).registry);
    }
  }

  /** The same of every state that is reached from the start, whatever sockets failed on the way. */
  lemma {:induction false} ReachableKeeps(kernel: Kernel, mode: Mode, hostIp: Bytes, cfgs: seq<LidarCfg>,
        lidars: map<Handle, LidarCfg>, types: map<nat, LidarCfg>, ds: seq<Discovery>)
    requires YieldsFresh(kernel) && forall h | h in lidars :: lidars[h] in cfgs
    ensures
      var started := Start(kernel, mode, hostIp, cfgs, lidars, types).0;
      var reached := RunDiscoveries(kernel, mode, started, ds);
      ManagerInv(reached) && Extends(started.registry, reached.registry)
  {
    StartKeeps(kernel, mode, hostIp, cfgs, lidars, types);
    RunKeeps(kernel, mode, Start(kernel, mode, hostIp, cfgs, lidars, types).0, ds);
  }

  /** The channel a command to a lidar goes out on. */
  function CmdChannel(m: Manager, handle: Handle): Option<Socket> {
    if handle !in m.lidars then None
    else
      var key := KeyOf(m.lidars[handle].host.hostIp, m.lidars[handle].host.cmdDataPort);
      if key in m.registry.customCommandChannel then Some(m.registry.customCommandChannel[key]) else None
  }

  lemma {:induction false} CommandIsRequested(mode: Mode, c: LidarCfg) returns (i: nat)
    requires mode.masterSdk
    ensures i < |Requests(mode, c)| && Requests(mode, c)[i] == Command(c.host.cmdDataPort)
  {
    i := 2;
  }

  /** Where everything was served that a master asks for, every lidar whose configuration names a host
      and a command port has a command channel. */
  lemma {:induction false} ServedLidarHasChannel(mode: Mode, m: Manager, handle: Handle)
    requires mode.masterSdk && PassServed(m.registry, mode, m.cfgs)
    requires handle in m.lidars && m.lidars[handle] in m.cfgs
    requires WantsCommand(m.lidars[handle].host.hostIp, m.lidars[handle].host.cmdDataPort)
    ensures CmdChannel(m, handle).Some?
  {
    var c := m.lidars[handle];
    var k :| 0 <= k < |m.cfgs| && m.cfgs[k] == c;
    var i := CommandIsRequested(mode, c);
    assert Served(m.registry, c.host.hostIp, Requests(mode, m.cfgs[k])[i]);
  }

  /** After a pass that succeeded as the master, every lidar whose configuration names a host and a
      command port has a command channel, whatever passes may follow. */
  lemma {:induction false} EveryLidarHasChannel(kernel: Kernel, mode: Mode, r: Registry, m: Manager, handle: Handle)
    requires mode.masterSdk && Inv(r) && YieldsFresh(kernel)
    requires Pass(kernel, r, mode, m.cfgs).ok && Extends(Pass(kernel, r, mode, m.cfgs).r, m.registry)
    requires handle in m.lidars && m.lidars[handle] in m.cfgs
    requires WantsCommand(m.lidars[handle].host.hostIp, m.lidars[handle].host.cmdDataPort)
    ensures CmdChannel(m, handle).Some?
  {
    PassServes(kernel, r, mode, m.cfgs);
    PassServedStays(Pass(kernel, r, mode, m.cfgs).r, m.registry, mode, m.cfgs);
    ServedLidarHasChannel(mode, m, handle);
  }

  /** From a discovery to a command: after it has succeeded as the master, commands to the lidar go out
      on the socket that is bound to the host address and command port of the lidar's own type. */
  lemma {:induction false} DiscoveredLidarIsReached(kernel: Kernel, mode: Mode, m: Manager, handle: Handle, deviceType: nat)
    requires mode.masterSdk && ManagerInv(m) && YieldsFresh(kernel)
    requires handle !in m.lidars && deviceType in m.types && Discover(kernel, mode, m, handle, deviceType).1
    requires |m.types[deviceType].host.hostIp| > 0 && m.types[deviceType].host.cmdDataPort > 0
    ensures
      var t, host := Discover(kernel, mode, m, handle, deviceType).0, m.types[deviceType].host;
      var key := host.hostIp + [0x3A] + Numeral(host.cmdDataPort);
      && key in t.registry.channelInfo && CmdChannel(t, handle) == Some(t.registry.channelInfo[key])
      && forall k | k in t.registry.channelInfo && k != key :: t.registry.channelInfo[k] != t.registry.channelInfo[key]
  {
    var t, cfg := Discover(kernel, mode, m, handle, deviceType).0, m.types[deviceType];
    DiscoverRegisters(kernel, mode, m, handle, deviceType);
    DiscoverKeeps(kernel, mode, m, handle, deviceType);
    PassOpensPorts(kernel, m.registry, mode, t.cfgs);
    assert PortsStand(t.registry, mode, t.cfgs[|m.cfgs|]);
    assert Asked(cfg, cfg.host.cmdDataPort) && IsCommandPort(mode, cfg, cfg.host.cmdDataPort);
  }
}
