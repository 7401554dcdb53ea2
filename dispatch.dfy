/**
 * Command dispatch (udp-service.js, sendCommand): one datagram on a
 * short-lived socket, and a promise settled by whichever of the send
 * callback and the 5-second timeout fires first.
 *
 * Sockets, timers and JSON are not modelled as I/O: the callbacks that can
 * fire after the datagram is handed to the socket are an explicit sequence
 * of events, and closing the socket is a counter.
 */
module Dispatch {
  import opened Wrappers
  import opened Registry

  /** `UDP_COMMAND_PORT`. */
  const CommandPort := 5600
  /** Why a command's promise is rejected. */
  datatype Error =
    | DeviceNotFound            // "Device not found or not available"
    | CommandTimeout            // "Command timeout"
    | SendFailed(cause: string) // the error the send callback reports

  /** The state of the promise sendCommand returns. */
  datatype Promise = Pending | Fulfilled(value: bool) | Rejected(reason: Error)

  /** A callback that can fire once the datagram has been handed to the socket. */
  datatype SendEvent =
    | SendCallback(error: Option<string>) // the send completed, with or without an error
    | TimeoutFired                        // the 5-second timer expired

  /** A datagram handed to a socket: destination address, port and the command object it carries. */
  datatype Datagram<M> = Datagram(address: string, port: int, command: M)

  /** What a single event settles the promise to, if it is the first. */
  function Outcome(e: SendEvent): (p: Promise)
    ensures p != Pending
    ensures p.Fulfilled? <==> e == SendCallback(None)
    ensures e == SendCallback(None) ==> p == Fulfilled(true)
    ensures e.SendCallback? && e.error.Some? ==> p == Rejected(SendFailed(e.error.value))
    ensures p == Rejected(CommandTimeout) <==> e.TimeoutFired?
  {
    match e
    case SendCallback(None) => Fulfilled(true)
    case SendCallback(Some(cause)) => Rejected(SendFailed(cause))
    case TimeoutFired => Rejected(CommandTimeout)
  }

  /**
   * The specification of the resolve-once guard: the promise is settled by
   * the first event, and stays pending while no event has fired.
   */
  function Settlement(events: seq<SendEvent>): Promise {
    if events == [] then Pending else Outcome(events[0])
  }

  /** Later events are ignored: once one event has fired, nothing after it changes the outcome. */
  lemma LaterEventsIgnored(events: seq<SendEvent>, later: seq<SendEvent>)
    requires events != []
    ensures Settlement(events + later) == Settlement(events)
  {
    assert (events + later)[0] == events[0];
  }

  /**
   * The two races that actually happen: the send callback and the timer both
   * fire (the timer is never cleared), in one order or the other.
   */
  lemma RaceOutcomes(error: Option<string>)
    ensures Settlement([SendCallback(error), TimeoutFired]) ==
      if error.None? then Fulfilled(true) else Rejected(SendFailed(error.value))
    ensures Settlement([TimeoutFired, SendCallback(error)]) == Rejected(CommandTimeout)
  {
  }

  /**
   * The state one sendCommand call shares between its two callbacks: the
   * `isResolved` flag, the promise, and how often the socket was closed and
   * the promise settled.
   */
  class PendingCommand {
    var isResolved: bool
    var promise: Promise
    var closeCount: nat
    var settleCount: nat

    /** The guard keeps the books: once resolved, the socket has been closed once and the promise settled once. */
    ghost predicate Valid()
      reads this
    {
      && (isResolved <==> promise != Pending)
      && closeCount == settleCount == (if isResolved then 1 else 0)
    }

    /** A socket whose datagram has been handed over, with nothing fired yet. */
    constructor ()
      ensures Valid() && !isResolved && promise == Pending && closeCount == 0 && settleCount == 0
    {
      isResolved := false;
      promise := Pending;
      closeCount := 0;
      settleCount := 0;
    }

    /** The send callback: ignored once resolved; otherwise closes the socket and settles. */
    method OnSendCallback(error: Option<string>)
      requires Valid()
      modifies this
      ensures Valid()
      ensures old(isResolved) ==> unchanged(this)
      ensures !old(isResolved) ==> promise == Outcome(SendCallback(error)) && closeCount == 1 && settleCount == 1
    {
      if isResolved {
        return;
      }
      isResolved := true;
      closeCount := closeCount + 1;
      if error.Some? {
        promise := Rejected(SendFailed(error.value));
      } else {
        promise := Fulfilled(true);
      }
      settleCount := settleCount + 1;
    }

    /** The timeout: ignored once resolved; otherwise closes the socket and rejects. */
    method OnTimeout()
      requires Valid()
      modifies this
      ensures Valid()
      ensures old(isResolved) ==> unchanged(this)
      ensures !old(isResolved) ==> promise == Rejected(CommandTimeout) && closeCount == 1 && settleCount == 1
    {
      if isResolved {
        return;
      }
      isResolved := true;
      closeCount := closeCount + 1;
      promise := Rejected(CommandTimeout);
      settleCount := settleCount + 1;
    }
  }

  /** Property names every plain JavaScript object inherits from `Object.prototype`; each names a truthy value. */
  const ObjectPrototypeNames: set<string> := {
    "constructor", "__proto__", "hasOwnProperty", "isPrototypeOf", "propertyIsEnumerable",
    "toString", "toLocaleString", "valueOf",
    "__defineGetter__", "__defineSetter__", "__lookupGetter__", "__lookupSetter__"
  }

  /**
   * The device check as written, `!this.availableDevices[deviceMAC]` on a
   * plain object: the lookup also sees inherited properties, so an inherited
   * name passes the check although no device is registered under it.
   */
  predicate PassesLookupAsWritten(devices: Devices, mac: string) {
    mac in devices || mac in ObjectPrototypeNames
  }

  /** The check evidently intended: only a registered device passes. */
  predicate PassesLookup(devices: Devices, mac: string) {
    mac in devices
  }

  /** "constructor" passes the written check on an empty registry, so that call is not rejected as DeviceNotFound. */
  lemma InheritedNamePassesLookup()
    ensures PassesLookupAsWritten(map[], "constructor") && !PassesLookup(map[], "constructor")
  {
  }

  /**
   * The two checks differ only on inherited names, and never for a MAC: no
   * inherited name is twelve characters long, so a well-formed registry and
   * any valid MAC are unaffected.
   */
  lemma {:induction false} LookupsAgreeOnMacs(devices: Devices, mac: string)
    ensures mac !in ObjectPrototypeNames ==> PassesLookupAsWritten(devices, mac) == PassesLookup(devices, mac)
    ensures Beacon.IsValidMac(mac) ==> mac !in ObjectPrototypeNames
  {
    if Beacon.IsValidMac(mac) {
      assert forall name :: name in ObjectPrototypeNames ==> |name| != Beacon.MacLength;
    }
  }
}
