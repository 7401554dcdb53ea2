# Atomberg fan discovery and command service, in Dafny

This project models `UDPService` from `udp-service.js`, the core of a desktop
remote control for smart fans and lights on a local network. The service:

- listens for UDP beacons, in which each device announces its MAC and series;
- keeps a registry of the devices it has heard from, and sweeps out any device
  that has been silent for more than five seconds;
- sends one-shot JSON commands to a chosen device, settling each command's
  promise exactly once: on send success, on send error, or on timeout;
- publishes a fixed catalog of the commands the device understands.

Modules, one per part of the service:

- `Wrappers` (wrappers.dfy): `Option`.
- `Beacon` (beacon.dfy): datagram bytes, how they are decoded, the MAC check
  (`isValidMAC`) and the beacon parser.
- `Registry` (registry.dfy): the device record and, as values, what one beacon
  does to the registry (`Upsert`) and what one sweep does (`Evict`). It also
  has a theorem about whole sequences of beacons and sweeps.
- `Catalog` (catalog.dfy): `getCommands`, one function per group of commands,
  plus the brightness builders that clamp their argument.
- `Dispatch` (dispatch.dfy): the state that `sendCommand`'s two callbacks share
  (the `isResolved` guard) as a class, and `Settlement`, a function that says
  which event settles the promise.
- `UdpService` (udp_service.dfy): the class `UDPService` with the source's
  fields and methods. `HandleBeaconPacket` and `Sweep` are proved against
  `Upsert` and `Evict`; the other methods state their whole new state
  directly. `SendCommand` drives a fresh `PendingCommand` through
  the events that fire after the datagram is handed over, and is proved
  against `Settlement`.

Time, sockets and timers are inputs, not I/O:

- `now` (what `Date.now()` returns) is a parameter.
- `lastSeen` (what `toLocaleTimeString()` returns) is an opaque string parameter.
- A socket or timer is a flag that records whether the object holds one.
- Closing a command socket is a counter.
- The callbacks that fire after a send form an explicit sequence of events.
- The bind callback is the `OnBound` method.
- Each tick of the one-second cleanup interval is a `Sweep(now)` call.

Three behaviours of the code worth knowing:

- A MAC is stored exactly as received, with no case normalisation: two
  different MAC texts always make two entries (`Registry.MacCaseIsKept`).
- A datagram longer than 15 bytes is truncated to its first 15 bytes and then
  judged, so a long datagram with a hex prefix is accepted
  (`Beacon.LongDatagramIsTruncated`).
- A bind failure is only logged; it never reaches the caller (see Left out).

## Model

| member | source | states |
|---|---|---|
| `Beacon.Content` | udp-service.js:68 | The inspected text has min(len,15) characters, and each is the decoding of the datagram byte at the same position. |
| `Beacon.IsValidMac` | udp-service.js:95-98 | Defines `/^[0-9A-Fa-f]{12}$/`: exactly twelve characters, each a hex digit in either case. |
| `Beacon.Parse` | udp-service.js:66-89 | An accepted datagram's decoded first min(len,15) bytes are a valid MAC followed by a series of at most 3 characters. A datagram is dropped exactly when that text is shorter than 12 characters or its first 12 characters are not all hex digits. |
| `Beacon.AcceptedIffHexPrefix` | udp-service.js:68-76 | Acceptance stated on the raw bytes: a datagram is accepted iff it has at least 12 bytes and the first 12 are ASCII codes of `[0-9A-Fa-f]`. |
| `Beacon.LongDatagramIsTruncated` | udp-service.js:68-73 | A datagram longer than 15 bytes gets the same verdict as its first 15 bytes. If accepted, its series is the decoded bytes 12 to 14. |
| `Beacon.ParseEncodedBeacon` | udp-service.js:68-76 | Round trip: a valid MAC followed by an ASCII series of up to 3 characters, sent as bytes, parses back to that MAC and that series. |
| `Beacon.DecodeByteIsHex` | udp-service.js:95-98 | A decoded byte is a hex digit character exactly when the byte is the ASCII code of one. |
| `Registry.SeriesOrUnknown` | udp-service.js:80 | `series \|\| 'Unknown'`: the result is never empty; it is the series itself, or "Unknown" exactly when the series is empty. |
| `Registry.Upsert` | udp-service.js:71-82 | For a dropped datagram, the registry is unchanged. For an accepted one, the key set gains the MAC, the MAC's entry is (remote address, now, series or "Unknown", lastSeen), and every other entry is unchanged. |
| `Registry.UpsertSize` | udp-service.js:77-82 | Re-beaconing never duplicates: the registry grows by one entry for a new MAC and keeps its size for a known MAC. |
| `Registry.UpsertKeepsWellFormed` | udp-service.js:71-82 | After an upsert, every key is still a valid MAC and every series is still a 1–3 character code or "Unknown". |
| `Registry.BeaconExamples` | udp-service.js:68-82 | "AABBCCDDEEFFI1" records series "I1". "AABBCCDDEEFF" records "Unknown". A 10-byte datagram leaves the registry empty. |
| `Registry.MacCaseIsKept` | udp-service.js:72-77 | Beacons for any two different valid MAC texts, such as one MAC in lower and in upper case, make two separate entries in an empty registry. |
| `Registry.Evict` | udp-service.js:100-113 | One sweep keeps exactly the entries with `now - timestamp <= 5000` and leaves them untouched. An entry aged exactly 5000 ms is kept. |
| `Registry.EvictKeepsWellFormed` | udp-service.js:105-112 | A sweep keeps the registry well formed. |
| `Registry.EvictTwice` | udp-service.js:101-113 | Two sweeps at times t1 <= t2 leave the same registry as one sweep at t2. |
| `Registry.ReplayInvariant` | udp-service.js:66-113 | Over any sequence of datagrams and sweeps with a monotone clock, starting from an empty registry: a present MAC holds the entry of its latest accepted beacon, and that entry was not stale at the last sweep. An absent MAC that was ever accepted had its latest beacon stale at the last sweep. Together: a MAC is present iff it was ever accepted and its latest beacon was within the timeout at the last sweep. |
| `Registry.RegistryReflectsRecentBeacons` | udp-service.js:66-113 | Starting from an empty registry, right after a sweep at `now`, a MAC is present iff its latest accepted beacon is at most 5000 ms old, and then it holds that beacon's entry. |
| `Catalog.PowerGroup` | udp-service.js:187-190 | `power` has exactly "on" → `{power: true}` and "off" → `{power: false}`. |
| `Catalog.SpeedGroup` | udp-service.js:191-200 | `speed[n]` is `{speed: n}` for n in 1..6. "increase" and "decrease" are `{speedDelta: ±1}`. There are no other keys. |
| `Catalog.SleepGroup` | udp-service.js:201-204 | `sleep` is the on/off switch `{sleep: true/false}`. |
| `Catalog.TimerGroup` | udp-service.js:205-211 | The keys are off, 1, 2, 3 and 6. "off" is `{timer: 0}`, n in 1..3 is `{timer: n}`, and "6" is `{timer: 4}`. |
| `Catalog.TimerCodesDistinct` | udp-service.js:205-211 | Every timer entry is a `timer` property with a code in 0..4, and distinct entries send distinct codes. |
| `Catalog.LightGroup` | udp-service.js:212-215 | `light` is the on/off switch `{led: true/false}`. |
| `Catalog.ColorGroup` | udp-service.js:221-225 | The keys are warm, cool and daylight, and each entry sends its own name as `light_mode`. |
| `Catalog.GetCommands` | udp-service.js:185-227 | Power, sleep and light are on/off switches sending `true`/`false` under `power`, `sleep` and `led`. Speed has exactly the keys 1..6, increase and decrease: `{speed: n}` for n in 1..6 and `{speedDelta: ±1}`. Timer has exactly the keys off, 1, 2, 3 and 6: off is `{timer: 0}`, n in 1..3 is `{timer: n}`, and 6 is `{timer: 4}`. Colour has exactly warm, cool and daylight, each sending its own name as `light_mode`. |
| `Catalog.BrightnessSet` | udp-service.js:217 | The level is in [10,100]. It equals the value when 10 <= value <= 100, is 10 below that range and 100 above it. |
| `Catalog.BrightnessIncrease` | udp-service.js:218 | The step is in [-90,90]. It equals delta when in range and saturates at ±90 outside it. Delta defaults to 10. |
| `Catalog.BrightnessDecrease` | udp-service.js:219 | The step is in [-90,90]. It equals -delta when in range and saturates at ∓90 outside it. Delta defaults to 10. |
| `Catalog.DecreaseMirrorsIncrease` | udp-service.js:218-219 | `decrease(d)` is the negation of `increase(d)`, and equals `increase(-d)`. |
| `Catalog.BrightnessDefaults` | udp-service.js:218-219 | Called without an argument, the builders give `{brightnessDelta: 10}` and `{brightnessDelta: -10}`. |
| `Catalog.BrightnessSetIdempotent` | udp-service.js:217 | Setting an already clamped level gives the same command. |
| `Dispatch.Outcome` | udp-service.js:145-175 | The first event settles the promise as follows: a callback without an error resolves `true`, a callback with an error rejects with that same error, and the timeout rejects with "Command timeout". No event leaves it pending. |
| `Dispatch.Settlement` | udp-service.js:142-175 | Defines the reference for the resolve-once guard: pending while no event has fired, otherwise the `Outcome` of the first event. |
| `Dispatch.LaterEventsIgnored` | udp-service.js:146-147 | Once one event has fired, no later event changes the outcome. |
| `Dispatch.RaceOutcomes` | udp-service.js:142-175 | Callback then timeout settles as the callback says. Timeout then callback rejects with timeout. |
| `Dispatch.PendingCommand.constructor` | udp-service.js:136-142 | A fresh command socket: not resolved, promise pending, no close and no settlement yet. |
| `Dispatch.PendingCommand.OnSendCallback` | udp-service.js:145-162 | Once resolved, the callback changes nothing. Otherwise it closes the socket once and settles once, to true or to the error. |
| `Dispatch.PendingCommand.OnTimeout` | udp-service.js:165-175 | Once resolved, the timeout changes nothing. Otherwise it closes the socket once and rejects once with "Command timeout". |
| `Dispatch.PassesLookupAsWritten` | udp-service.js:128-129 | Defines the device check as written: a MAC passes when it is a registry key or a property name inherited from `Object.prototype`. |
| `Dispatch.InheritedNamePassesLookup` | udp-service.js:128-132 | On an empty registry, "constructor" passes the check as written but fails the corrected one. |
| `Dispatch.LookupsAgreeOnMacs` | udp-service.js:128-132 | The two checks differ only on inherited property names, and no valid MAC is one of them. |
| `UdpService.UDPService.constructor` | udp-service.js:4-14 | A new service has an empty registry, no socket, no interval, and is not discovering. |
| `UdpService.UDPService.StartDeviceDiscovery` | udp-service.js:16-45 | If already discovering, nothing changes. Otherwise it opens the listening socket and arms the cleanup interval, and the registry and `isDiscovering` are unchanged. |
| `UdpService.UDPService.OnBound` | udp-service.js:34-37 | The bind callback sets `isDiscovering`. |
| `UdpService.UDPService.StopDeviceDiscovery` | udp-service.js:47-64 | Afterwards there is no socket and no interval, `isDiscovering` is false, and the registry is empty. |
| `UdpService.UDPService.HandleBeaconPacket` | udp-service.js:66-93 | The new registry is `Upsert` of the old one with the datagram, remote address, now and lastSeen, and it stays well formed. |
| `UdpService.UDPService.Sweep` | udp-service.js:100-113 | The loop that deletes while visiting the keys leaves exactly `Evict(old registry, now)`. |
| `UdpService.UDPService.GetAvailableDevices` | udp-service.js:116-118 | The snapshot has the same keys and the same entries as the registry, and every key in it is a valid MAC. |
| `UdpService.UDPService.RefreshDevices` | udp-service.js:120-124 | Refresh leaves the registry as it was. |
| `UdpService.UDPService.SendCommand` | udp-service.js:126-182 | For an unknown MAC: rejected with DeviceNotFound, no socket opened, nothing sent. For a known MAC: one socket opened and one datagram carrying the command sent to the device's address on port 5600. The promise is `Settlement(events)`, and the socket is closed and the promise settled exactly once if any event fired, otherwise not at all. |

## Left out

- Sockets (`dgram` creation, bind, send, close) are not modelled as I/O. They are flags and counters, and the send and timeout callbacks are explicit events.
- Bind failures and the discovery socket's `'error'` handler (udp-service.js:29-31) are left out: the source only logs them.
- Real timers and the clock are left out: `setInterval`, `setTimeout` and `Date.now()` become `Sweep(now)` calls, timeout events and `now` parameters.
- The sweep visits keys in no particular order, whereas `forEach` over `Object.keys` uses insertion order. The result does not depend on the order.
- `toLocaleTimeString()` is locale-dependent, so `lastSeen` is an opaque string parameter.
- UTF-8 decoding is simplified: each non-ASCII byte decodes to one replacement character. Node decodes a valid multi-byte sequence to fewer characters, so the series text can differ for non-ASCII series bytes. Acceptance cannot differ: a hex digit can only come from an ASCII byte.
- `JSON.stringify` and `Buffer.from` are left out: a datagram carries the command object itself, not its JSON bytes. `SendCommand` takes the command as a value of any type, because dispatch never inspects it.
- GetAvailableDevices: `{ ...this.availableDevices }` is a shallow copy, so in the source the snapshot shares its entry objects with the registry. `Device` is a value here, so that sharing is not modelled. No caller in this repository can observe the sharing: the only one (main.js:60-64) returns the snapshot over IPC, which copies it. A same-process caller that mutated an entry of the snapshot, say its `ip`, would change the registry's entry and so redirect later `sendCommand` calls for that MAC.
- Console logging is left out, and with it everything `RefreshDevices` does.
- The `catch` branches (udp-service.js:42-44, 51-53, 90-92, 151-153, 171-173, 177-180) are left out. They handle exceptions from socket creation, socket closing or serialisation, which the model has no counterpart for. On the dispatch side this matters: if `JSON.stringify`, `Buffer.from` (udp-service.js:139-140) or a synchronous throw from `send` (line 145) reaches the catch at lines 177-180, the promise is rejected, but the socket opened at line 136 is never closed and no timeout has been armed. SendCommand: "closed exactly once" holds only on the paths the model has; the source leaks the socket on that exception path.
- StartDeviceDiscovery: calling it twice before the bind callback fires creates a second socket and a second interval in the source. Flags cannot show this overwrite and the resulting leak.
- A `sendCommand` still in flight is not tied to later changes of the registry. The source reads the device's address once, at the call, and so does the model.
- SendCommand: the `events` parameter may be any sequence. In the runtime it is the send callback and the timeout, in some order; `Dispatch.RaceOutcomes` covers those two orders.
- Catalog: arguments to the brightness builders are integers. JavaScript numbers can also be fractional or `NaN`.
- `BUFFER_SIZE` (udp-service.js:7) is never used by the source, so it is left out.
- The listen port 5625, the one-second sweep period and the 5000 ms send delay (udp-service.js:5, 113, 175) are left out as numbers. The model has no ports for listening and no timers: binding is the `OnBound` call, each tick is a `Sweep` call and the timeout is a `TimeoutFired` event.
- main.js, preload.js, renderer.js and tailwind.config.js are not part of this model. They hold the window, the IPC bridge, the UI and the styling. The UI's own timer buttons send 4 and 8 (renderer.js:110-118), which is UI behaviour, not the catalog's.

## Findings

| source | as written | input that shows it | evidently intended | confidence | as-written member | corrected member |
|---|---|---|---|---|---|---|
| udp-service.js:128-132 | `this.availableDevices[deviceMAC]` on a plain object also finds properties inherited from `Object.prototype`, and all of them are truthy. | `sendCommand("constructor", c)` on an empty registry is not rejected with "Device not found or not available". It goes on to open a socket and send with an `undefined` address, which Node's `dgram` replaces with `127.0.0.1`, so the command goes to localhost:5600. | Only a registered device passes the check (an own-property test). | medium, not executed | `Dispatch.InheritedNamePassesLookup` | `UdpService.UDPService.SendCommand` |

Beacon handling is not affected by this finding: every registry key is a valid
MAC, and no inherited name is twelve characters long
(`Dispatch.LookupsAgreeOnMacs`). `UDPService.SendCommand` rejects exactly the
MACs that are not registry keys, which is the corrected check.
