/** The download library: its handle table and its three calls. */
module LibDfu {
  import opened DfuMachine
  import opened DfuDevices
  import opened Downloads
  import opened DownloadLoops
  import opened Outcomes
  import opened Recovery
  import opened Responses

  type ErrorResult = r: int | r < 0 witness -1

  /** What looking for a device and opening it comes to: an error, an open without
      error that gives no device handle, or an open device. */
  datatype Probe<+D> = NotOpened(error: ErrorResult) | NullHandle | Found(dev: D)

  class Library {
    var gHandle: nat
    var deviceMap: map<int, DfuDevice>

    constructor ()
      ensures gHandle == 0 && deviceMap == map[]
    {
      gHandle, deviceMap := 0, map[];
    }

    method OpenDevice(probe: Probe<DfuDevice>) returns (ret: int)
      modifies this
      ensures match probe
              case NotOpened(error) => ret == error && gHandle == old(gHandle) && deviceMap == old(deviceMap)
              case NullHandle => ret == 0 && gHandle == old(gHandle) && deviceMap == old(deviceMap)
              case Found(dev) =>
                ret == gHandle == old(gHandle) + 1 && deviceMap == old(deviceMap)[gHandle := dev]
    {
      match probe
      case NotOpened(error) =>
        ret := error;
      case NullHandle =>
        ret := 0;
      case Found(dev) =>
        gHandle := gHandle + 1;
        deviceMap := deviceMap[gHandle := dev];
        ret := gHandle;
    }

    method CloseDevice(handle: int) returns (ret: int)
      modifies this
      ensures gHandle == old(gHandle)
      ensures deviceMap == old(deviceMap) - {handle}
      ensures ret == if handle in old(deviceMap) then 0 else -1
    {
      if handle !in deviceMap {
        return -1;
      }
      deviceMap := deviceMap - {handle};
      return 0;
    }

    /** The call on a handle; `claim` and `setAlt` are what claiming the interface
        and setting its alternate setting return. */
    method Download(handle: int, din: seq<bv8>, claim: int, setAlt: int, cb: Callback?) returns (r: Outcome<int>)
      requires handle in deviceMap && cb != null ==> cb.Valid()
      modifies if handle in deviceMap then {deviceMap[handle]} else {}
      modifies if handle in deviceMap && cb != null then {cb, cb.channel} else {}
      ensures handle in old(deviceMap) && claim >= 0 && setAlt >= 0 ==>
                var dev := old(deviceMap)[handle];
                var (n, result, reported) := LibraryRun(old(dev.m), din);
                && dev.m == n && r == result
                && Told(cb, if cb != null then old(cb.heard) else [], handle, reported, |din|)
      ensures handle !in old(deviceMap) || claim < 0 || setAlt < 0 ==>
                && r == Return(if handle !in old(deviceMap) then -1 else if claim < 0 then claim else setAlt)
                && (handle in old(deviceMap) ==> old(deviceMap)[handle].m == old(deviceMap[handle].m))
                && (handle in old(deviceMap) ==> Told(cb, if cb != null then old(cb.heard) else [], handle, [], |din|))
    {
      hide Recover, Transmit, Told;
      if handle !in deviceMap {
        return Return(-1);
      }
      NothingTold(cb, if cb != null then cb.heard else [], handle, |din|);
      var dev := deviceMap[handle];
      if claim < 0 {
        return Return(claim);
      }
      if setAlt < 0 {
        return Return(setAlt);
      }
      var gaveUp, ret := StatusAgain(dev);
      if gaveUp {
        return Return(ret);
      }
      var sent := LibdfuUtilDownload(dev, handle, BLOCK_SIZE, din, cb);
      r := if sent.Return? then Return(sent.value) else Exit(sent.code);
    }
  }

  /** Brings the device into dfuIDLE before a download. */
  method StatusAgain(dev: DfuDevice) returns (gaveUp: bool, ret: int)
    modifies dev
    ensures Recover(old(dev.m)) == if gaveUp then GiveUp(dev.m, ret) else GoOn(dev.m)
  {
    while true
      invariant Recover(dev.m) == Recover(old(dev.m))
      decreases dev.m.state != DfuIdle
    {
      hide Machine.ReadStatus, Machine.ClearStatus, Machine.AbortTransfer, Machine.Elapse, Recover;
      RecoverPass(dev.m);
      var status;
      ret, status := dev.ReadStatus();
      dev.MilliSleep(status.bwPollTimeout);
      if status.bState == Error {
        ret := dev.ClearStatus();
        if ret < 0 {
          return true, ret;
        }
        continue;
      }
      if status.bState == DnloadIdle || status.bState == UploadIdle {
        ret := dev.Abort();
        if ret < 0 {
          return true, ret;
        }
        continue;
      }
      if status.bStatus != STATUS_OK {
        ret := dev.ClearStatus();
        ret, status := dev.ReadStatus();
        dev.MilliSleep(status.bwPollTimeout);
      }
      return false, 0;
    }
  }

  /** One pass of the recovery loop. */
  lemma RecoverPass(m: Machine)
    ensures var (n, _, dst) := m.ReadStatus();
            var k := n.Elapse(dst.bwPollTimeout);
            if dst.bState == Error then
              var (c, ret) := k.ClearStatus();
              if ret < 0 then Recover(m) == GiveUp(c, ret)
              else Recover(m) == Recover(c) && m.state != DfuIdle && c.state == DfuIdle
            else if dst.bState == DnloadIdle || dst.bState == UploadIdle then
              var (c, ret) := k.AbortTransfer();
              if ret < 0 then Recover(m) == GiveUp(c, ret)
              else Recover(m) == Recover(c) && m.state != DfuIdle && c.state == DfuIdle
            else if dst.bStatus != STATUS_OK then
              var c := k.ClearStatus().0;
              var (d, _, again) := c.ReadStatus();
              Recover(m) == GoOn(d.Elapse(again.bwPollTimeout))
            else Recover(m) == GoOn(k)
  {
  }
}
