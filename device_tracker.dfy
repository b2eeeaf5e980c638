/**
 * The device scanner: it keeps the last non-empty host map the router
 * returned and, on every update, registers each host with the tracking
 * platform. Registrations are recorded in the ghost sequence `seen`.
 */
module DeviceTracker {
  import opened Wrappers
  import opened Records
  import R470GP

  /** One call of the platform's `async_see`: hardware address, device id,
      host name and extra attributes (the source type is always "router"). */
  datatype Sighting = Sighting(mac: string, devId: string, hostName: string, attributes: Record)

  /** The hardware addresses registered by `batch`, in order. */
  function Macs(batch: seq<Sighting>): (macs: seq<string>)
    ensures |macs| == |batch| && forall i :: 0 <= i < |batch| ==> macs[i] == batch[i].mac
  {
    seq(|batch|, i requires 0 <= i < |batch| => batch[i].mac)
  }

  /** No hardware address is registered twice by `batch`. */
  predicate Distinct(batch: seq<Sighting>) {
    forall i, j :: 0 <= i < j < |batch| ==> batch[i].mac != batch[j].mac
  }

  class Scanner {
    const router: R470GP.Router
    var clientInfos: HostMap
    ghost var seen: seq<Sighting>

    /** Every cached record reads its text fields as strings, as the router
        client produces them. */
    ghost predicate Valid()
      reads this
    {
      forall m :: m in clientInfos ==> TextFields(clientInfos[m])
    }

    constructor (router: R470GP.Router)
      ensures this.router == router
      ensures Valid() && clientInfos == map[] && seen == []
    {
      this.router := router;
      clientInfos := map[];
      seen := [];
    }

    /** `get_extra_attributes`: the cached record of `device`, or `{}` for
        an unknown device. */
    function ExtraAttributes(device: string): (attrs: Record)
      reads this
      ensures device in clientInfos ==> attrs == clientInfos[device]
      ensures device !in clientInfos ==> attrs == map[]
    {
      var results := if device in clientInfos then clientInfos[device] else map[];
      if results == map[] then map[] else results
    }

    /** `get_device_name`: the cached `hostname` of `device`, or `""` when the
        device is unknown or has no name. */
    function DeviceName(device: string): (name: string)
      requires Valid()
      reads this
      ensures device in clientInfos && HostnameKey in clientInfos[device] ==>
        clientInfos[device][HostnameKey] == Text(name)
      ensures device !in clientInfos || HostnameKey !in clientInfos[device] ==> name == ""
    {
      var client := if device in clientInfos then clientInfos[device] else map[];
      GetText(client, HostnameKey)
    }

    /** The registration an update makes for the cached host `mac`. */
    function SightingOf(mac: string): Sighting
      requires Valid()
      reads this
    {
      Sighting(mac, RemoveDashes(mac), DeviceName(mac), ExtraAttributes(mac))
    }

    /** `batch` registers every cached host exactly once, each as `SightingOf`. */
    ghost predicate RegistersAll(batch: seq<Sighting>)
      requires Valid()
      reads this
    {
      && Distinct(batch)
      && (forall m :: m in Macs(batch) <==> m in clientInfos)
      && forall i :: 0 <= i < |batch| ==> batch[i] == SightingOf(batch[i].mac)
    }

    /**
     * `async_update`: fetch the host map; keep the cache when the fetch
     * gives `{}`, otherwise replace it and register every host. A malformed
     * date propagates out as the returned error, with the cache untouched.
     */
    method Update(login: R470GP.LoginReply, reply: R470GP.TableReply,
                  unquote: string -> string, now: int)
      returns (raised: Option<R470GP.Error>)
      requires Valid() && R470GP.TableText(R470GP.HostTable(reply))
      modifies this, router
      ensures Valid()
      ensures router.stok == if old(router.stok) == "" then R470GP.TokenAfterLogin("", login) else old(router.stok)
      ensures var fetched := R470GP.HostInfo(old(router.stok), login, reply, unquote, now);
        && (raised.Some? <==> fetched.Err?)
        && (fetched.Err? ==> raised.value == fetched.error)
        && if fetched.Ok? && fetched.value != map[] then
             && clientInfos == fetched.value
             && |seen| >= |old(seen)| && seen[..|old(seen)|] == old(seen)
             && RegistersAll(seen[|old(seen)|..])
           else
             clientInfos == old(clientInfos) && seen == old(seen)
    {
      var fetched := router.GetHostInfo(login, reply, unquote, now);
      if fetched.Err? {
        return Some(fetched.error);
      }
      if fetched.value == map[] {
        return None;
      }
      Register(fetched.value);
      return None;
    }

    /** The second half of `async_update`: cache a non-empty host map and
        register each of its hosts with the platform. */
    method Register(infos: HostMap)
      requires forall m :: m in infos ==> TextFields(infos[m])
      modifies this
      ensures Valid() && clientInfos == infos
      ensures |seen| >= |old(seen)| && seen[..|old(seen)|] == old(seen)
      ensures RegistersAll(seen[|old(seen)|..])
    {
      clientInfos := infos;
      var remaining := clientInfos.Keys;
      ghost var batch: seq<Sighting> := [];
      while remaining != {}
        invariant Valid() && clientInfos == infos
        invariant remaining <= clientInfos.Keys
        invariant Distinct(batch)
        invariant forall m :: m in Macs(batch) <==> m in clientInfos && m !in remaining
        invariant forall i :: 0 <= i < |batch| ==> batch[i] == SightingOf(batch[i].mac)
        invariant seen == old(seen) + batch
        decreases remaining
      {
        var mac :| mac in remaining;
        var devId := RemoveDashes(mac);
        var hostname := GetText(clientInfos[mac], HostnameKey);
        var s := Sighting(mac, devId, hostname, ExtraAttributes(mac));
        assert Macs(batch + [s]) == Macs(batch) + [mac];
        batch, seen := batch + [s], seen + [s];
        remaining := remaining - {mac};
      }
      assert seen[|old(seen)|..] == batch;
    }

    /** `async_scan_devices`: update, then list the cached hardware addresses;
        after a failed fetch these are the previous ones. */
    method ScanDevices(login: R470GP.LoginReply, reply: R470GP.TableReply,
                       unquote: string -> string, now: int)
      returns (devices: seq<string>, raised: Option<R470GP.Error>)
      requires Valid() && R470GP.TableText(R470GP.HostTable(reply))
      modifies this, router
      ensures Valid()
      ensures router.stok == if old(router.stok) == "" then R470GP.TokenAfterLogin("", login) else old(router.stok)
      ensures var fetched := R470GP.HostInfo(old(router.stok), login, reply, unquote, now);
        && (raised.Some? <==> fetched.Err?)
        && (fetched.Err? ==> raised.value == fetched.error)
        && if fetched.Ok? && fetched.value != map[] then
             && clientInfos == fetched.value
             && |seen| >= |old(seen)| && seen[..|old(seen)|] == old(seen)
             && RegistersAll(seen[|old(seen)|..])
           else
             clientInfos == old(clientInfos) && seen == old(seen)
      ensures raised.None? ==> ListsKeys(devices, clientInfos)
    {
      raised := Update(login, reply, unquote, now);
      if raised.Some? {
        return [], raised;
      }
      devices := Keys(clientInfos);
    }
  }

  /** `devices` names each key of `m` exactly once. */
  ghost predicate ListsKeys(devices: seq<string>, m: HostMap) {
    && (forall i, j :: 0 <= i < j < |devices| ==> devices[i] != devices[j])
    && (forall d :: d in devices <==> d in m)
  }

  /** `list(m.keys())`. */
  method Keys(m: HostMap) returns (devices: seq<string>)
    ensures ListsKeys(devices, m) && |devices| == |m|
  {
    devices := [];
    var remaining := m.Keys;
    while remaining != {}
      invariant remaining <= m.Keys
      invariant forall i, j :: 0 <= i < j < |devices| ==> devices[i] != devices[j]
      invariant forall d :: d in devices <==> d in m && d !in remaining
      invariant |devices| + |remaining| == |m|
      decreases remaining
    {
      var d :| d in remaining;
      devices := devices + [d];
      remaining := remaining - {d};
    }
  }
}
