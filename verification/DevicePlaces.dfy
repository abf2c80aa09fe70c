/** Where the device manager's channels listen: the socket of every channel was opened on the address and
    port that its key names. */
module DevicePlaces {
  import opened Basics
  import opened Decimals
  import opened DeviceRegistry

  /** A key names its address and port; that of the local host is for any address. */
  predicate Names(key: Key, place: Place) {
    || key == place.address + [0x3A] + Numeral(place.port)
    || (place.address == [] && key == [0x6C, 0x6F, 0x63, 0x61, 0x6C, 0x3A] + Numeral(place.port))
  }

  /** A socket was yielded for a place that a key names. */
  predicate OpenOn(r: Registry, key: Key, sock: Socket, i: nat) {
    i < |r.asked| && i < |r.places| && r.asked[i] == Some(sock) && Names(key, r.places[i])
  }

  ghost predicate Listens(r: Registry, key: Key, sock: Socket) {
    exists i: nat :: OpenOn(r, key, sock, i)
  }

  ghost predicate AllListen(r: Registry) {
    && |r.places| == |r.asked|
    && forall key | key in r.channelInfo :: Listens(r, key, r.channelInfo[key])
  }

  /** Sockets were asked for, and nothing else has happened to those from before. */
  predicate Later(r: Registry, t: Registry) {
    r.asked <= t.asked && r.places <= t.places
  }

  lemma {:induction false} StillListens(r: Registry, t: Registry, key: Key, sock: Socket)
    requires Listens(r, key, sock) && Later(r, t)
    ensures Listens(t, key, sock)
  {
    var i: nat :| OpenOn(r, key, sock, i);
    assert OpenOn(t, key, sock, i);
  }

  lemma {:induction false} KeyNamesPlace(hostIp: Bytes, port: nat)
    ensures Names(KeyOf(hostIp, port), PlaceOf(hostIp, port))
  {
    if hostIp == LOCAL {
      assert LOCAL + [0x3A] == [0x6C, 0x6F, 0x63, 0x61, 0x6C, 0x3A];
    }
  }

  /** One more socket; none, or the one yielded, is bound to a key that names its place. */
  lemma {:induction false} OneMoreListens(kernel: Kernel, r: Registry, place: Place, u: Registry, bound: Option<Key>)
    requires AllListen(r) && var (t, sock) := Open(kernel, r, place);
                             && u.asked == t.asked && u.places == t.places
                             && (if bound.None? then u.channelInfo == r.channelInfo
                                 else sock.Some? && Names(bound.value, place)
                                      && u.channelInfo == r.channelInfo[bound.value := sock.value])
    ensures AllListen(u) && Later(r, u)
  {
    var (t, sock) := Open(kernel, r, place);
    forall key | key in u.channelInfo ensures Listens(u, key, u.channelInfo[key]) {
      if bound == Some(key) {
        assert OpenOn(u, key, sock.value, |r.asked|);
      } else {
        StillListens(r, u, key, r.channelInfo[key]);
      }
    }
  }

  lemma {:induction false} ServeListens(kernel: Kernel, r: Registry, hostIp: Bytes, request: Request)
    requires AllListen(r)
    ensures AllListen(Serve(kernel, r, hostIp, request).r)
  {
    var u := Serve(kernel, r, hostIp, request).r;
    match request
    case Broadcast(port) =>
      OneMoreListens(kernel, r, Place(EVERYONE, port), u, None);
    case _ =>
      var key, place := KeyOf(hostIp, request.port), PlaceOf(hostIp, request.port);
      KeyNamesPlace(hostIp, request.port);
      if u.asked != r.asked {
        OneMoreListens(kernel, r, place, u, if Open(kernel, r, place).1.None? then None else Some(key));
      } else {
        SameListen(r, u);
      }
  }

  lemma {:induction false} SameListen(r: Registry, u: Registry)
    requires AllListen(r) && u.asked == r.asked && u.places == r.places && u.channelInfo == r.channelInfo
    ensures AllListen(u)
  {
    forall key | key in u.channelInfo ensures Listens(u, key, u.channelInfo[key]) {
      StillListens(r, u, key, r.channelInfo[key]);
    }
  }

  lemma {:induction false} ServeAllListens(kernel: Kernel, r: Registry, hostIp: Bytes, requests: seq<Request>)
    requires AllListen(r)
    ensures AllListen(ServeAll(kernel, r, hostIp, requests).r)
    decreases requests
  {
    if |requests| > 0 {
      ServeListens(kernel, r, hostIp, requests[0]);
      var first := Serve(kernel, r, hostIp, requests[0]);
      if first.ok {
        ServeAllListens(kernel, first.r, hostIp, requests[1..]);
      }
    }
  }

  lemma {:induction false} PassListens(kernel: Kernel, r: Registry, mode: Mode, cfgs: seq<LidarCfg>)
    requires AllListen(r)
    ensures AllListen(Pass(kernel, r, mode, cfgs).r)
    decreases cfgs
  {
    if |cfgs| > 0 {
      var first := ServeAll(kernel, r, cfgs[0].host.hostIp, Requests(mode, cfgs[0]));
      ServeAllListens(kernel, r, cfgs[0].host.hostIp, Requests(mode, cfgs[0]));
      if first.ok {
        PassListens(kernel, first.r, mode, cfgs[1..]);
      }
    }
  }

  lemma {:induction false} DetectionListens(kernel: Kernel, r: Registry, hostIp: Bytes)
    requires AllListen(r)
    ensures AllListen(CreateDetection(kernel, r, hostIp).r)
  {
    var everyone, here, u := Place(EVERYONE, DETECTION_PORT), Place(hostIp, DETECTION_PORT), CreateDetection(kernel, r, hostIp).r;
    var (t, broadcast) := Open(kernel, r, everyone);
    OneMoreListens(kernel, r, everyone, t, None);
    if broadcast.Some? {
      var (_, sock) := Open(kernel, t, here);
      OneMoreListens(kernel, t, here, u, if sock.None? then None else Some(KeyOf(hostIp, DETECTION_PORT)));
    }
  }

  lemma {:induction false} DiscoveriesListen(kernel: Kernel, mode: Mode, m: Manager, ds: seq<Discovery>)
    requires AllListen(m.registry)
    ensures AllListen(RunDiscoveries(kernel, mode, m, ds).registry)
    decreases ds
  {
    if |ds| > 0 {
      var next := Discover(kernel, mode, m, ds[0].handle, ds[0].deviceType).0;
      if ds[0].handle !in m.lidars && ds[0].deviceType in m.types {
        PassListens(kernel, m.registry, mode, m.cfgs + [m.types[ds[0].deviceType]]);
      }
      DiscoveriesListen(kernel, mode, next, ds[1..]);
    }
  }

  /** In every state that is reached from the start, the socket of every channel was opened on the place its
      key names; whatever kernel yields the sockets. */
  lemma {:induction false} ReachableListen(kernel: Kernel, mode: Mode, hostIp: Bytes, cfgs: seq<LidarCfg>,
        lidars: map<Handle, LidarCfg>, types: map<nat, LidarCfg>, ds: seq<Discovery>)
    ensures AllListen(RunDiscoveries(kernel, mode, Start(kernel, mode, hostIp, cfgs, lidars, types).0, ds).registry)
  {
    var empty := Registry(map[], map[], [], []);
    var detection := CreateDetection(kernel, empty, hostIp);
    DetectionListens(kernel, empty, hostIp);
    PassListens(kernel, detection.r, mode, cfgs);
    DiscoveriesListen(kernel, mode, Start(kernel, mode, hostIp, cfgs, lidars, types).0, ds);
  }

  /** Commands to a lidar go out on a socket that was opened on its host's address and its command port. */
  lemma {:induction false} CommandsGoOut(m: Manager, handle: Handle)
    requires ManagerInv(m) && AllListen(m.registry) && CmdChannel(m, handle).Some?
    ensures
      var host, r := m.lidars[handle].host, m.registry;
      exists i: nat :: i < |r.asked| && i < |r.places| && r.asked[i] == CmdChannel(m, handle)
        && r.places[i].port == host.cmdDataPort
        && (r.places[i].address == host.hostIp
            || (r.places[i].address == [] && host.hostIp == [0x6C, 0x6F, 0x63, 0x61, 0x6C]))
  {
    var host, r := m.lidars[handle].host, m.registry;
    var key := KeyOf(host.hostIp, host.cmdDataPort);
    assert Listens(r, key, r.channelInfo[key]);
    var i: nat :| OpenOn(r, key, r.channelInfo[key], i);
    NamedPlace(host.hostIp, host.cmdDataPort, r.places[i]);
  }

  lemma {:induction false} NamedPlace(hostIp: Bytes, port: nat, place: Place)
    requires Names(KeyOf(hostIp, port), place)
    ensures place.port == port && (place.address == hostIp || (place.address == [] && hostIp == LOCAL))
  {
    var key := KeyOf(hostIp, port);
    if key == KeyOf(place.address, place.port) {
      KeyIsInjective(hostIp, port, place.address, place.port);
    } else {
      assert LOCAL + [0x3A] == [0x6C, 0x6F, 0x63, 0x61, 0x6C, 0x3A];
      KeyIsInjective(hostIp, port, LOCAL, place.port);
    }
  }

  // ----- Broadcasts -----

  /** 255.255.255.255. */
  predicate IsEveryone(address: Bytes) {
    var n := [0x32, 0x35, 0x35];
    address == n + [0x2E] + n + [0x2E] + n + [0x2E] + n
  }

  /** From one registry to another, a socket has been opened for broadcasts on a port. */
  ghost predicate BroadcastsOn(r: Registry, t: Registry, port: nat) {
    exists i: nat :: BroadcastAt(r, t, port, i)
  }

  predicate BroadcastAt(r: Registry, t: Registry, port: nat, i: nat) {
    && |r.asked| <= i < |t.asked| && i < |t.places|
    && t.asked[i].Some? && IsEveryone(t.places[i].address) && t.places[i].port == port
  }

  predicate Matched(r: Registry) { |r.places| == |r.asked| }

  lemma {:induction false} ServeIsLater(kernel: Kernel, r: Registry, hostIp: Bytes, request: Request)
    requires Matched(r)
    ensures Matched(Serve(kernel, r, hostIp, request).r) && Later(r, Serve(kernel, r, hostIp, request).r)
  {}

  lemma {:induction false} StillBroadcasts(r: Registry, s: Registry, t: Registry, u: Registry, port: nat)
    requires BroadcastsOn(s, t, port) && Later(r, s) && Later(t, u)
    ensures BroadcastsOn(r, u, port)
  {
    var i: nat :| BroadcastAt(s, t, port, i);
    assert BroadcastAt(r, u, port, i);
  }

  lemma {:induction false} ServeAllBroadcasts(kernel: Kernel, r: Registry, hostIp: Bytes, requests: seq<Request>)
    requires Matched(r)
    ensures
      var all := ServeAll(kernel, r, hostIp, requests);
      && Matched(all.r) && Later(r, all.r)
      && (all.ok ==> forall port | Broadcast(port) in requests :: BroadcastsOn(r, all.r, port))
    decreases requests
  {
    if |requests| > 0 {
      var first := Serve(kernel, r, hostIp, requests[0]);
      ServeIsLater(kernel, r, hostIp, requests[0]);
      if first.ok {
        var all := ServeAll(kernel, first.r, hostIp, requests[1..]);
        ServeAllBroadcasts(kernel, first.r, hostIp, requests[1..]);
        forall port | all.ok && Broadcast(port) in requests ensures BroadcastsOn(r, all.r, port) {
          if requests[0] == Broadcast(port) {
            assert BroadcastAt(r, first.r, port, |r.asked|);
            StillBroadcasts(r, r, first.r, all.r, port);
          } else {
            assert requests == [requests[0]] + requests[1..];
            StillBroadcasts(r, first.r, all.r, all.r, port);
          }
        }
      }
    }
  }

  /** A pass that succeeds has opened, for every Mid360, a socket for broadcasts on its push port. */
  lemma {:induction false} PassBroadcasts(kernel: Kernel, r: Registry, mode: Mode, cfgs: seq<LidarCfg>)
    requires Matched(r)
    ensures
      var pass := Pass(kernel, r, mode, cfgs);
      && Matched(pass.r) && Later(r, pass.r)
      && (pass.ok ==> forall c | c in cfgs && c.deviceType == 9 :: BroadcastsOn(r, pass.r, c.host.pushMsgPort))
    decreases cfgs
  {
    if |cfgs| > 0 {
      var first := ServeAll(kernel, r, cfgs[0].host.hostIp, Requests(mode, cfgs[0]));
      ServeAllBroadcasts(kernel, r, cfgs[0].host.hostIp, Requests(mode, cfgs[0]));
      if first.ok {
        var pass := Pass(kernel, first.r, mode, cfgs[1..]);
        PassBroadcasts(kernel, first.r, mode, cfgs[1..]);
        forall c | pass.ok && c in cfgs && c.deviceType == 9 ensures BroadcastsOn(r, pass.r, c.host.pushMsgPort) {
          if c == cfgs[0] {
            MidBroadcasts(mode, c);
            StillBroadcasts(r, r, first.r, pass.r, c.host.pushMsgPort);
          } else {
            assert cfgs == [cfgs[0]] + cfgs[1..];
            StillBroadcasts(r, first.r, pass.r, pass.r, c.host.pushMsgPort);
          }
        }
      }
    }
  }

  lemma {:induction false} MidBroadcasts(mode: Mode, c: LidarCfg)
    requires c.deviceType == 9
    ensures Broadcast(c.host.pushMsgPort) in Requests(mode, c)
  {}

  /** The detection sockets: one for broadcasts and one on the host's own address, both on port 56000. */
  lemma {:induction false} DetectionOpens(kernel: Kernel, r: Registry, hostIp: Bytes)
    requires CreateDetection(kernel, r, hostIp).ok
    ensures
      var opens := CreateDetection(kernel, r, hostIp).r.places;
      && |opens| == |r.places| + 2 && r.places <= opens
      && IsEveryone(opens[|r.places|].address) && opens[|r.places|].port == 56000
      && opens[|r.places| + 1] == Place(hostIp, 56000)
  {}
}
