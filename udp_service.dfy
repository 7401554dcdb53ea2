/**
 * The discovery-and-dispatch service (udp-service.js, class UDPService).
 *
 * The fields are those the source updates in place. Sockets and timers are
 * flags (does the object hold one?), the clock and `toLocaleTimeString` are
 * parameters, and the callbacks the runtime would invoke later are methods
 * the environment calls: OnBound for the bind callback, Sweep for each tick
 * of the cleanup interval, HandleBeaconPacket for each received datagram.
 */
module UdpService {
  import opened Beacon
  import opened Registry
  import opened Dispatch

  class UDPService {
    var availableDevices: Devices
    /** `discoverySocket !== null`. */
    var discoverySocket: bool
    /** `cleanupInterval !== null`. */
    var cleanupInterval: bool
    var isDiscovering: bool

    /** The registry only ever holds entries written for accepted beacons. */
    ghost predicate Valid()
      reads this
    {
      WellFormed(availableDevices)
    }

    constructor ()
      ensures Valid()
      ensures availableDevices == map[] && !discoverySocket && !cleanupInterval && !isDiscovering
    {
      availableDevices := map[];
      discoverySocket := false;
      cleanupInterval := false;
      isDiscovering := false;
    }

    /**
     * Does nothing while discovering; otherwise opens the listening socket and
     * arms the cleanup interval. `isDiscovering` is only set later, by OnBound.
     */
    method StartDeviceDiscovery()
      requires Valid()
      modifies this
      ensures Valid()
      ensures old(isDiscovering) ==> unchanged(this)
      ensures !old(isDiscovering) ==>
        && discoverySocket && cleanupInterval && !isDiscovering
        && availableDevices == old(availableDevices)
    {
      if isDiscovering {
        return;
      }
      discoverySocket := true;
      cleanupInterval := true;
    }

    /** The bind callback: the socket is listening. */
    method OnBound()
      requires Valid()
      modifies this`isDiscovering
      ensures Valid() && isDiscovering
    {
      isDiscovering := true;
    }

    /** Closes the socket, clears the interval, resets the flag and empties the registry. */
    method StopDeviceDiscovery()
      requires Valid()
      modifies this
      ensures Valid()
      ensures availableDevices == map[] && !discoverySocket && !cleanupInterval && !isDiscovering
    {
      if discoverySocket {
        discoverySocket := false;
      }
      if cleanupInterval {
        cleanupInterval := false;
      }
      isDiscovering := false;
      availableDevices := map[];
    }

    /**
     * One received datagram from `remoteAddress` at clock reading `now`; the
     * registry becomes the upsert of the old one.
     */
    method HandleBeaconPacket(data: seq<byte>, remoteAddress: string, now: int, lastSeen: string)
      requires Valid()
      modifies this`availableDevices
      ensures Valid()
      ensures availableDevices == Upsert(old(availableDevices), data, remoteAddress, now, lastSeen)
    {
      var content := Content(data);
      if MacLength <= |content| <= DecodedLength {
        var mac := content[..MacLength];
        var series := if |content| > MacLength then content[MacLength..] else "";
        if IsValidMac(mac) {
          availableDevices := availableDevices[mac := Device(remoteAddress, now, SeriesOrUnknown(series), lastSeen)];
        }
      }
      UpsertKeepsWellFormed(old(availableDevices), data, remoteAddress, now, lastSeen);
    }

    /**
     * The body of the cleanup interval at clock reading `now`: visits the keys
     * present when it starts and deletes each entry aged over the timeout.
     */
    method Sweep(now: int)
      requires Valid()
      modifies this`availableDevices
      ensures Valid()
      ensures availableDevices == Evict(old(availableDevices), now)
    {
      ghost var before := availableDevices;
      var keys := availableDevices.Keys;
      while keys != {}
        invariant keys <= before.Keys
        invariant availableDevices.Keys <= before.Keys
        invariant forall mac :: mac in before ==>
          (mac in availableDevices <==> mac in keys || !IsExpired(before[mac], now))
        invariant forall mac :: mac in availableDevices ==> availableDevices[mac] == before[mac]
        decreases keys
      {
        var mac :| mac in keys;
        var device := availableDevices[mac];
        var age := now - device.timestamp;
        if age > TimeoutMs {
          availableDevices := availableDevices - {mac};
        }
        keys := keys - {mac};
      }
      assert availableDevices.Keys == Evict(before, now).Keys;
      EvictKeepsWellFormed(before, now);
    }

    /** A copy of the registry: the same keys with the same entries, every key a valid MAC. */
    method GetAvailableDevices() returns (snapshot: Devices)
      requires Valid()
      ensures WellFormed(snapshot)
      ensures snapshot.Keys == availableDevices.Keys
      ensures forall mac :: mac in snapshot ==> snapshot[mac] == availableDevices[mac]
    {
      snapshot := map mac | mac in availableDevices :: availableDevices[mac];
    }

    /** Refresh only logs the registry; it changes nothing. */
    method RefreshDevices()
      ensures availableDevices == old(availableDevices)
    {
    }

    /**
     * Sends `command` to the device registered under `mac`, with `events`
     * the callbacks that fire afterwards, in order. An unknown MAC is rejected
     * before any socket exists. Otherwise one socket is opened and one datagram
     * sent to the device's address on the command port; the first event
     * settles the promise and closes the socket, and later events are ignored.
     */
    method SendCommand<M>(mac: string, command: M, events: seq<SendEvent>)
      returns (promise: Promise, socketsOpened: nat, socketsClosed: nat, settled: nat, sent: seq<Datagram<M>>)
      ensures mac !in availableDevices ==>
        promise == Rejected(DeviceNotFound) && socketsOpened == 0 && socketsClosed == 0 && settled == 1 && sent == []
      ensures mac in availableDevices ==>
        && promise == Settlement(events)
        && socketsOpened == 1
        && sent == [Datagram(availableDevices[mac].ip, CommandPort, command)]
        && socketsClosed == settled == (if events == [] then 0 else 1)
    {
      if mac !in availableDevices {
        return Rejected(DeviceNotFound), 0, 0, 1, [];
      }
      var device := availableDevices[mac];
      var socket := new PendingCommand();
      socketsOpened := 1;
      sent := [Datagram(device.ip, CommandPort, command)];
      var i := 0;
      while i < |events|
        invariant 0 <= i <= |events|
        invariant socket.Valid()
        invariant socket.promise == Settlement(events[..i])
        invariant socket.isResolved <==> i > 0
        modifies socket
      {
        match events[i] {
          case SendCallback(error) => socket.OnSendCallback(error);
          case TimeoutFired => socket.OnTimeout();
        }
        i := i + 1;
      }
      promise, socketsClosed, settled := socket.promise, socket.closeCount, socket.settleCount;
    }
  }
}
