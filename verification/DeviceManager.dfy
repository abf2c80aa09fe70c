/** DeviceManager, as far as its channels go. */
module DeviceManager {
  import opened Basics
  import R = DeviceRegistry

  class DeviceManager {
    const kernel: R.Kernel
    const mode: R.Mode
    var channelInfo: map<R.Key, R.Socket>
    var customCommandChannel: map<R.Key, R.Socket>
    var asked: seq<Option<R.Socket>>
    ghost var places: seq<R.Place>
    var customLidarsCfg: seq<R.LidarCfg>
    var customLidarsCfgMap: map<R.Handle, R.LidarCfg>
    var typeLidarsCfgMap: map<nat, R.LidarCfg>

    ghost function Registry(): R.Registry
      reads this
    {
      R.Registry(channelInfo, customCommandChannel, asked, places)
    }

    ghost function State(): R.Manager
      reads this
    {
      R.Manager(Registry(), customLidarsCfg, customLidarsCfgMap, typeLidarsCfgMap)
    }

    /** Every configuration has the channels it asks for. */
    ghost predicate Settled()
      reads this
    {
      R.PassServed(Registry(), mode, customLidarsCfg)
    }

    constructor (kernel: R.Kernel, mode: R.Mode, cfgs: seq<R.LidarCfg>, lidars: map<R.Handle, R.LidarCfg>,
          types: map<nat, R.LidarCfg>)
      ensures this.kernel == kernel && this.mode == mode
      ensures State() == R.Manager(R.Registry(map[], map[], [], []), cfgs, lidars, types)
    {
      this.kernel, this.mode := kernel, mode;
      channelInfo, customCommandChannel, asked, places := map[], map[], [], [];
      customLidarsCfg, customLidarsCfgMap, typeLidarsCfgMap := cfgs, lidars, types;
    }

    /** util::CreateSocket, on an address and a port. */
    method CreateSocket(address: Bytes, port: nat) returns (sock: Option<R.Socket>)
      modifies this`asked, this`places
      ensures (Registry(), sock) == R.Open(kernel, old(Registry()), R.Place(address, port))
    {
      sock := kernel(asked);
      asked, places := asked + [sock], places + [R.Place(address, port)];
    }

    /** What serving a request promises, when sockets are fresh. */
    lemma {:induction false} Promises(r: R.Registry, hostIp: Bytes, request: R.Request)
      ensures R.YieldsFresh(kernel) && R.Inv(r) ==>
                var served := R.Serve(kernel, r, hostIp, request);
                && R.Inv(served.r) && R.Extends(r, served.r)
                && (served.ok ==> R.Served(served.r, hostIp, request))
    {
      if R.YieldsFresh(kernel) && R.Inv(r) {
        R.ServeKeeps(kernel, r, hostIp, request);
        if R.Serve(kernel, r, hostIp, request).ok {
          R.ServeServes(kernel, r, hostIp, request);
        }
      }
    }

    method CreateCmdSocketAndAddDelegate(hostIp: Bytes, port: nat) returns (ok: bool)
      modifies this`asked, this`places, this`channelInfo, this`customCommandChannel
      ensures R.Outcome(Registry(), ok) == R.CreateCmd(kernel, old(Registry()), hostIp, port)
      ensures R.YieldsFresh(kernel) && R.Inv(old(Registry())) ==>
                && R.Inv(Registry()) && R.Extends(old(Registry()), Registry())
                && (ok ==> R.Served(Registry(), hostIp, R.Command(port)))
    {
      Promises(Registry(), hostIp, R.Command(port));
      if |hostIp| == 0 || port == 0 || port == R.LOG_PORT {
        return true;
      }
      var key := R.KeyOf(hostIp, port);
      if key in channelInfo {
        if key !in customCommandChannel {
          customCommandChannel := customCommandChannel[key := channelInfo[key]];
        }
        return true;
      }
      var sock;
      if hostIp == R.LOCAL {
        sock := CreateSocket([], port);
      } else {
        sock := CreateSocket(hostIp, port);
      }
      if sock.None? {
        return false;
      }
      channelInfo := channelInfo[key := sock.value];
      customCommandChannel := customCommandChannel[key := sock.value];
      ok := true;
    }

    method CreateDataSocketAndAddDelegate(hostIp: Bytes, port: nat) returns (ok: bool)
      modifies this`asked, this`places, this`channelInfo
      ensures R.Outcome(Registry(), ok) == R.CreateData(kernel, old(Registry()), hostIp, port)
      ensures R.YieldsFresh(kernel) && R.Inv(old(Registry())) ==>
                && R.Inv(Registry()) && R.Extends(old(Registry()), Registry())
                && (ok ==> R.Served(Registry(), hostIp, R.Data(port)))
    {
      Promises(Registry(), hostIp, R.Data(port));
      if |hostIp| == 0 || port == 0 || port == R.LOG_PORT || port == R.DETECTION_PORT {
        return true;
      }
      var key := R.KeyOf(hostIp, port);
      if key in channelInfo {
        return true;
      }
      var sock;
      if hostIp == R.LOCAL {
        sock := CreateSocket([], port);
      } else {
        sock := CreateSocket(hostIp, port);
      }
      if sock.None? {
        return false;
      }
      channelInfo := channelInfo[key := sock.value];
      ok := true;
    }

    method CreateDataChannel(host: R.HostNetInfo) returns (ok: bool)
      modifies this`asked, this`places, this`channelInfo
      ensures R.Outcome(Registry(), ok)
           == R.ServeAll(kernel, old(Registry()), host.hostIp, [R.Data(host.pointDataPort), R.Data(host.imuDataPort)])
    {
      ServeTwo(kernel, Registry(), host.hostIp, R.Data(host.pointDataPort), R.Data(host.imuDataPort));
      ok := CreateDataSocketAndAddDelegate(host.hostIp, host.pointDataPort);
      if ok {
        ok := CreateDataSocketAndAddDelegate(host.hostIp, host.imuDataPort);
      }
    }

    /** One command channel more, unless there has been a failure or it is not called for. */
    method AlsoCommand(ghost before: R.Registry, ghost done: seq<R.Request>, wanted: bool, hostIp: Bytes,
          port: nat, ok: bool)
      returns (ok': bool)
      requires R.Outcome(Registry(), ok) == R.ServeAll(kernel, before, hostIp, done)
      modifies this`asked, this`places, this`channelInfo, this`customCommandChannel
      ensures R.Outcome(Registry(), ok') == R.ServeAll(kernel, before, hostIp, done
                 + if wanted then [R.Command(port)] else [])
    {
      ok' := ok;
      if wanted {
        ServeOneMore(kernel, before, hostIp, done, R.Command(port));
        if ok {
          ok' := CreateCmdSocketAndAddDelegate(hostIp, port);
        }
      } else {
        assert done + [] == done;
      }
    }

    method AlsoBroadcast(ghost before: R.Registry, ghost done: seq<R.Request>, wanted: bool, hostIp: Bytes,
          port: nat, ok: bool) returns (ok': bool)
      requires R.Outcome(Registry(), ok) == R.ServeAll(kernel, before, hostIp, done)
      modifies this`asked, this`places
      ensures R.Outcome(Registry(), ok') == R.ServeAll(kernel, before, hostIp, done + if wanted then [R.Broadcast(port)] else [])
    {
      ok' := ok;
      if wanted {
        ServeOneMore(kernel, before, hostIp, done, R.Broadcast(port));
        if ok {
          var sock := CreateSocket(R.EVERYONE, port);
          ok' := sock.Some?;
        }
      } else {
        assert done + [] == done;
      }
    }

    /** The data channels and then the command channels of one lidar. */
    method CreateChannels(cfg: R.LidarCfg) returns (ok: bool)
      modifies this`asked, this`places, this`channelInfo, this`customCommandChannel
      ensures R.Outcome(Registry(), ok) == R.ServeAll(kernel, old(Registry()), cfg.host.hostIp, R.Requests(mode, cfg))
      ensures R.YieldsFresh(kernel) && R.Inv(old(Registry())) ==>
                && R.Inv(Registry()) && R.Extends(old(Registry()), Registry())
                && (ok ==> R.AllServed(Registry(), cfg.host.hostIp, R.Requests(mode, cfg)))
    {
      if R.YieldsFresh(kernel) && R.Inv(Registry()) {
        R.ServeAllPromises(kernel, Registry(), cfg.host.hostIp, R.Requests(mode, cfg));
      }
      var host := cfg.host;
      ghost var before := Registry();
      ghost var r0 := [R.Data(host.pointDataPort), R.Data(host.imuDataPort)];
      ghost var r1 := r0 + if mode.masterSdk then [R.Command(host.cmdDataPort)] else [];
      ghost var r2 := r1 + [R.Command(host.pushMsgPort)];
      ghost var r3 := r2 + if cfg.deviceType == R.TYPE_PA then [R.Command(R.PA_HOST_FAULT_PORT)] else [];
      ghost var r4 := r3 + if cfg.deviceType == R.TYPE_MID360 then [R.Broadcast(host.pushMsgPort)] else [];
      ok := CreateDataChannel(host);
      ok := AlsoCommand(before, r0, mode.masterSdk, host.hostIp, host.cmdDataPort, ok);
      ok := AlsoCommand(before, r1, true, host.hostIp, host.pushMsgPort, ok);
      ok := AlsoCommand(before, r2, cfg.deviceType == R.TYPE_PA, host.hostIp, R.PA_HOST_FAULT_PORT, ok);
      ok := AlsoBroadcast(before, r3, cfg.deviceType == R.TYPE_MID360, host.hostIp, host.pushMsgPort, ok);
      ok := AlsoCommand(before, r4, mode.logEnable, host.hostIp, host.logDataPort, ok);
    }

    /** The loop over all configurations, at the start and after every discovery. */
    method CreateAllChannels() returns (ok: bool)
      modifies this`asked, this`places, this`channelInfo, this`customCommandChannel
      ensures R.Outcome(Registry(), ok) == R.Pass(kernel, old(Registry()), mode, customLidarsCfg)
      ensures R.YieldsFresh(kernel) && R.Inv(old(Registry())) ==>
                && R.Inv(Registry()) && R.Extends(old(Registry()), Registry())
                && (ok ==> R.PassServed(Registry(), mode, customLidarsCfg))
                && (ok ==> forall i | 0 <= i < |customLidarsCfg| :: R.PortsStand(Registry(), mode, customLidarsCfg[i]))
    {
      if R.YieldsFresh(kernel) && R.Inv(Registry()) {
        R.PassPromises(kernel, Registry(), mode, customLidarsCfg);
        if R.Pass(kernel, Registry(), mode, customLidarsCfg).ok {
          R.PassOpensPorts(kernel, Registry(), mode, customLidarsCfg);
        }
      }
      ghost var all := R.Pass(kernel, Registry(), mode, customLidarsCfg);
      assert customLidarsCfg[0..] == customLidarsCfg;
      for k := 0 to |customLidarsCfg|
        invariant R.Pass(kernel, Registry(), mode, customLidarsCfg[k..]) == all
      {
        assert customLidarsCfg[k..][1..] == customLidarsCfg[k + 1..];
        ok := CreateChannels(customLidarsCfg[k]);
        if !ok {
          return;
        }
      }
      ok := true;
    }

    method CreateDetectionChannel(detectionHostIp: Bytes) returns (ok: bool)
      modifies this`asked, this`places, this`channelInfo, this`customCommandChannel
      ensures R.Outcome(Registry(), ok) == R.CreateDetection(kernel, old(Registry()), detectionHostIp)
      ensures R.YieldsFresh(kernel) && R.Inv(old(Registry())) && ok ==>
                var key := R.KeyOf(detectionHostIp, R.DETECTION_PORT);
                && (R.Inv(Registry()) <==> key !in old(customCommandChannel))
                && (R.Extends(old(Registry()), Registry()) <==> key !in old(channelInfo))
    {
      if R.YieldsFresh(kernel) && R.Inv(Registry()) && R.CreateDetection(kernel, Registry(), detectionHostIp).ok {
        R.DetectionKeeps(kernel, Registry(), detectionHostIp);
      }
      var broadcast := CreateSocket(R.EVERYONE, R.DETECTION_PORT);
      if broadcast.None? {
        return false;
      }
      var key := R.KeyOf(detectionHostIp, R.DETECTION_PORT);
      var sock := CreateSocket(detectionHostIp, R.DETECTION_PORT);
      if sock.None? {
        return false;
      }
      channelInfo := channelInfo[key := sock.value];
      if key !in customCommandChannel {
        customCommandChannel := customCommandChannel[key := sock.value];
      }
      ok := true;
    }

    /** CreateChannel of a manager that has none yet. */
    method CreateChannel(detectionHostIp: Bytes) returns (ok: bool)
      requires Registry() == R.Registry(map[], map[], [], [])
      modifies this`asked, this`places, this`channelInfo, this`customCommandChannel
      ensures (State(), ok)
           == R.Start(kernel, mode, detectionHostIp, customLidarsCfg, customLidarsCfgMap, typeLidarsCfgMap)
      ensures R.YieldsFresh(kernel) && R.ManagerInv(old(State())) ==> R.ManagerInv(State())
      ensures R.YieldsFresh(kernel) && ok ==> Settled()
    {
      if R.YieldsFresh(kernel) {
        R.StartPromises(kernel, mode, detectionHostIp, customLidarsCfg, customLidarsCfgMap, typeLidarsCfgMap);
      }
      ok := CreateDetectionChannel(detectionHostIp);
      if ok {
        ok := CreateAllChannels();
      }
    }

    /** A detection answer of a lidar, well formed and without an error code. */
    method OnDetection(handle: R.Handle, deviceType: nat) returns (ok: bool)
      modifies this
      ensures (State(), ok) == R.Discover(kernel, mode, old(State()), handle, deviceType)
      ensures R.YieldsFresh(kernel) && R.ManagerInv(old(State())) ==>
                && R.ManagerInv(State()) && R.Extends(old(Registry()), Registry())
                && (old(Settled()) && ok ==> Settled())
      ensures handle !in old(customLidarsCfgMap) && deviceType in old(typeLidarsCfgMap) ==>
                && customLidarsCfgMap == old(customLidarsCfgMap)[handle := old(typeLidarsCfgMap)[deviceType]]
                && customLidarsCfg == old(customLidarsCfg) + [old(typeLidarsCfgMap)[deviceType]]
      ensures handle in old(customLidarsCfgMap) || deviceType !in old(typeLidarsCfgMap) ==> State() == old(State())
      ensures typeLidarsCfgMap == old(typeLidarsCfgMap)
    {
      if R.YieldsFresh(kernel) && R.ManagerInv(State()) {
        R.DiscoverPromises(kernel, mode, State(), handle, deviceType);
      }
      if handle in customLidarsCfgMap || deviceType !in typeLidarsCfgMap {
        return true;
      }
      var cfg := typeLidarsCfgMap[deviceType];
      customLidarsCfgMap := customLidarsCfgMap[handle := cfg];
      customLidarsCfg := customLidarsCfg + [cfg];
      ok := CreateAllChannels();
    }

    method GetCmdChannel(handle: R.Handle) returns (sock: Option<R.Socket>)
      ensures sock == R.CmdChannel(State(), handle)
      ensures R.ManagerInv(State()) && Settled() && mode.masterSdk && handle in customLidarsCfgMap
              && R.WantsCommand(customLidarsCfgMap[handle].host.hostIp, customLidarsCfgMap[handle].host.cmdDataPort)
              ==> sock.Some?
    {
      if && R.ManagerInv(State()) && Settled() && mode.masterSdk && handle in customLidarsCfgMap
         && R.WantsCommand(customLidarsCfgMap[handle].host.hostIp, customLidarsCfgMap[handle].host.cmdDataPort) {
        R.ServedLidarHasChannel(mode, State(), handle);
      }
      if handle !in customLidarsCfgMap {
        return None;
      }
      var host := customLidarsCfgMap[handle].host;
      var key := R.KeyOf(host.hostIp, host.cmdDataPort);
      sock := if key in customCommandChannel then Some(customCommandChannel[key]) else None;
    }
  }

  lemma {:induction false} ServeOneMore(kernel: R.Kernel, r: R.Registry, hostIp: Bytes, requests: seq<R.Request>,
        last: R.Request)
    ensures
      var before := R.ServeAll(kernel, r, hostIp, requests);
      R.ServeAll(kernel, r, hostIp, requests + [last]) == if before.ok then R.Serve(kernel, before.r, hostIp,
          last) else before
    decreases requests
  {
    if |requests| == 0 {
      assert requests + [last] == [last] && [last][1..] == [];
    } else {
      assert (requests + [last])[1..] == requests[1..] + [last];
      var first := R.Serve(kernel, r, hostIp, requests[0]);
      if first.ok {
        ServeOneMore(kernel, first.r, hostIp, requests[1..], last);
      }
    }
  }

  lemma {:induction false} ServeTwo(kernel: R.Kernel, r: R.Registry, hostIp: Bytes, a: R.Request, b: R.Request)
    ensures
      var first := R.Serve(kernel, r, hostIp, a);
      R.ServeAll(kernel, r, hostIp, [a, b]) == if first.ok then R.Serve(kernel, first.r, hostIp, b) else first
  {
    ServeOneMore(kernel, r, hostIp, [], a);
    ServeOneMore(kernel, r, hostIp, [a], b);
    assert [] + [a] == [a] && [a] + [b] == [a, b];
  }
}
