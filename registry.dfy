/**
 * The device registry (udp-service.js, `availableDevices` with the upsert of
 * handleBeaconPacket and the sweep of startCleanupService), as values.
 *
 * The class in udp_service.dfy updates its registry field in place; the
 * functions here say what each update produces, and the lemmas here say what
 * a whole sequence of beacons and sweeps leaves behind.
 */
module Registry {
  import opened Wrappers
  import opened Beacon

  /** `TIMEOUT`, in seconds, and the eviction age `TIMEOUT * 1000` in milliseconds. */
  const TimeoutSeconds := 5
  const TimeoutMs := TimeoutSeconds * 1000
  /** The series recorded for a beacon that carries none. */
  const UnknownSeries := "Unknown"

  /**
   * One registry entry: the sender's address, `Date.now()` at receipt, the
   * series, and `lastSeen`, the locale-formatted time (an opaque string here).
   */
  datatype Device = Device(ip: string, timestamp: int, series: string, lastSeen: string)

  /** `availableDevices`: MAC, exactly as received, to its entry. */
  type Devices = map<string, Device>

  /** `series || 'Unknown'`: the empty string is the only falsy string. */
  function SeriesOrUnknown(series: string): (s: string)
    ensures s == series || (series == "" && s == UnknownSeries)
    ensures s != ""
  {
    if series == "" then UnknownSeries else series
  }

  /** A series as the registry keeps it: a one- to three-character code or "Unknown". */
  predicate IsRecordedSeries(s: string) {
    s == UnknownSeries || 1 <= |s| <= DecodedLength - MacLength
  }

  /** What a well-formed registry satisfies: every key is a MAC and every series is recorded as above. */
  ghost predicate WellFormed(devices: Devices) {
    forall mac :: mac in devices ==> IsValidMac(mac) && IsRecordedSeries(devices[mac].series)
  }

  /** The entry an accepted beacon writes. */
  function Entry(b: Beacon, address: string, now: int, lastSeen: string): Device {
    Device(address, now, SeriesOrUnknown(b.series), lastSeen)
  }

  /**
   * The registry after one datagram from `address` received at `now`: a
   * dropped datagram changes nothing; an accepted one sets the entry of its
   * MAC and leaves every other entry as it was.
   */
  function Upsert(devices: Devices, data: seq<byte>, address: string, now: int, lastSeen: string): (r: Devices)
    ensures Parse(data).None? ==> r == devices
    ensures Parse(data).Some? ==>
      var mac := Parse(data).value.mac;
      && r.Keys == devices.Keys + {mac}
      && r[mac] == Device(address, now, SeriesOrUnknown(Parse(data).value.series), lastSeen)
    ensures forall k :: k in devices && (Parse(data).None? || k != Parse(data).value.mac) ==> k in r && r[k] == devices[k]
  {
    match Parse(data)
    case None => devices
    case Some(b) => devices[b.mac := Entry(b, address, now, lastSeen)]
  }

  /**
   * Re-beaconing never duplicates: the registry grows by at most one entry,
   * and not at all when the MAC is already present.
   */
  lemma UpsertSize(devices: Devices, data: seq<byte>, address: string, now: int, lastSeen: string)
    ensures var r := Upsert(devices, data, address, now, lastSeen);
      && |r| <= |devices| + 1
      && (Parse(data).Some? && Parse(data).value.mac in devices ==> |r| == |devices|)
      && (Parse(data).Some? && Parse(data).value.mac !in devices ==> |r| == |devices| + 1)
  {
    var r := Upsert(devices, data, address, now, lastSeen);
    if Parse(data).Some? {
      var mac := Parse(data).value.mac;
      if mac in devices {
        assert r.Keys == devices.Keys;
      } else {
        assert |devices.Keys + {mac}| == |devices.Keys| + 1;
      }
    }
  }

  lemma UpsertKeepsWellFormed(devices: Devices, data: seq<byte>, address: string, now: int, lastSeen: string)
    requires WellFormed(devices)
    ensures WellFormed(Upsert(devices, data, address, now, lastSeen))
  {
  }

  /**
   * Worked beacons: a 14-byte beacon records its two-character series, a
   * 12-byte beacon records "Unknown", and a 10-byte datagram is dropped.
   */
  lemma {:induction false} BeaconExamples(address: string, now: int, lastSeen: string)
    ensures Upsert(map[], Encode("AABBCCDDEEFFI1"), address, now, lastSeen) == map["AABBCCDDEEFF" := Device(address, now, "I1", lastSeen)]
    ensures Upsert(map[], Encode("AABBCCDDEEFF"), address, now, lastSeen) == map["AABBCCDDEEFF" := Device(address, now, UnknownSeries, lastSeen)]
    ensures Upsert(map[], Encode("AABBCCDDEE"), address, now, lastSeen) == map[]
  {
    ParseEncodedBeacon("AABBCCDDEEFF", "I1");
    assert "AABBCCDDEEFF" + "I1" == "AABBCCDDEEFFI1";
    ParseEncodedBeacon("AABBCCDDEEFF", "");
    assert "AABBCCDDEEFF" + "" == "AABBCCDDEEFF";
    assert |Content(Encode("AABBCCDDEE"))| == 10;
  }

  /**
   * The MAC is kept exactly as received: beacons for two different MAC texts,
   * such as the same MAC in lower and in upper case, make two entries.
   */
  lemma {:induction false} MacCaseIsKept(m1: string, m2: string, address: string, now: int, lastSeen: string)
    requires IsValidMac(m1) && IsValidMac(m2) && m1 != m2
    ensures IsAscii(m1) && IsAscii(m2)
    ensures |Upsert(Upsert(map[], Encode(m1), address, now, lastSeen), Encode(m2), address, now, lastSeen)| == 2
  {
    ParseEncodedBeacon(m1, "");
    assert m1 + "" == m1;
    ParseEncodedBeacon(m2, "");
    assert m2 + "" == m2;
    var once := Upsert(map[], Encode(m1), address, now, lastSeen);
    assert m2 !in once;
    UpsertSize(once, Encode(m2), address, now, lastSeen);
  }

  /** An entry is stale at `now` when its age is strictly greater than the timeout. */
  predicate IsExpired(d: Device, now: int) {
    now - d.timestamp > TimeoutMs
  }

  /**
   * One sweep at `now`: exactly the entries aged more than 5000 ms go, and
   * every other entry stays untouched; an entry aged exactly 5000 ms stays,
   * so right after a sweep no entry is older than the timeout.
   */
  function Evict(devices: Devices, now: int): (r: Devices)
    ensures r.Keys <= devices.Keys
    ensures forall k :: k in devices ==> (k in r <==> now - devices[k].timestamp <= TimeoutMs)
    ensures forall k :: k in r ==> r[k] == devices[k]
  {
    map k | k in devices && !IsExpired(devices[k], now) :: devices[k]
  }

  lemma EvictKeepsWellFormed(devices: Devices, now: int)
    requires WellFormed(devices)
    ensures WellFormed(Evict(devices, now))
  {
  }

  /** A later sweep subsumes an earlier one: sweeping twice is sweeping once at the later time. */
  lemma EvictTwice(devices: Devices, earlier: int, later: int)
    requires earlier <= later
    ensures Evict(Evict(devices, earlier), later) == Evict(devices, later)
  {
    var once, twice := Evict(devices, later), Evict(Evict(devices, earlier), later);
    assert twice.Keys == once.Keys;
  }

  /** What reaches the registry: a datagram, or a tick of the sweep timer, each at a clock reading. */
  datatype Input =
    | Received(data: seq<byte>, address: string, now: int, lastSeen: string)
    | SweepTick(now: int)

  function Step(devices: Devices, input: Input): Devices {
    match input
    case Received(data, address, now, lastSeen) => Upsert(devices, data, address, now, lastSeen)
    case SweepTick(now) => Evict(devices, now)
  }

  /** The registry after a sequence of inputs, oldest first. */
  function Replay(devices: Devices, inputs: seq<Input>): Devices
    decreases |inputs|
  {
    if inputs == [] then devices else Step(Replay(devices, inputs[..|inputs| - 1]), inputs[|inputs| - 1])
  }

  /** The entry the most recent accepted beacon for `mac` wrote, if any beacon for it was accepted. */
  function LatestEntry(inputs: seq<Input>, mac: string): Option<Device>
    decreases |inputs|
  {
    if inputs == [] then None
    else
      var last := inputs[|inputs| - 1];
      if last.Received? && Parse(last.data).Some? && Parse(last.data).value.mac == mac then
        Some(Entry(Parse(last.data).value, last.address, last.now, last.lastSeen))
      else
        LatestEntry(inputs[..|inputs| - 1], mac)
  }

  /** The time of the most recent sweep, if any. */
  function LastSweep(inputs: seq<Input>): Option<int>
    decreases |inputs|
  {
    if inputs == [] then None
    else if inputs[|inputs| - 1].SweepTick? then Some(inputs[|inputs| - 1].now)
    else LastSweep(inputs[..|inputs| - 1])
  }

  /** `Date.now()` never runs backwards across the inputs. */
  predicate ClockMonotone(inputs: seq<Input>) {
    forall i, j :: 0 <= i < j < |inputs| ==> inputs[i].now <= inputs[j].now
  }

  /**
   * What replaying from an empty registry keeps true: a present MAC holds the
   * entry of its latest accepted beacon and was not stale at the last sweep,
   * and an absent MAC that was ever accepted was evicted by a sweep at which
   * that latest beacon was stale.
   */
  lemma {:induction false} ReplayInvariant(inputs: seq<Input>, mac: string)
    requires ClockMonotone(inputs)
    ensures var r := Replay(map[], inputs);
      && (mac in r ==> LatestEntry(inputs, mac) == Some(r[mac]))
      && (mac !in r && LatestEntry(inputs, mac).Some? ==>
            LastSweep(inputs).Some? && IsExpired(LatestEntry(inputs, mac).value, LastSweep(inputs).value))
      && (mac in r && LastSweep(inputs).Some? ==> !IsExpired(r[mac], LastSweep(inputs).value))
  {
    if inputs != [] {
      var init, last := inputs[..|inputs| - 1], inputs[|inputs| - 1];
      assert ClockMonotone(init);
      ReplayInvariant(init, mac);
      if LastSweep(init).Some? && (last.SweepTick? || last.Received?) {
        LastSweepIsEarlier(init);
        var i :| 0 <= i < |init| && init[i].now == LastSweep(init).value;
        assert inputs[i] == init[i] && inputs[|init|] == last;
      }
    }
  }

  lemma {:induction false} LastSweepIsEarlier(inputs: seq<Input>)
    requires LastSweep(inputs).Some?
    ensures exists i :: 0 <= i < |inputs| && inputs[i].now == LastSweep(inputs).value
  {
    var init := inputs[..|inputs| - 1];
    if !inputs[|inputs| - 1].SweepTick? {
      LastSweepIsEarlier(init);
      var i :| 0 <= i < |init| && init[i].now == LastSweep(init).value;
      assert inputs[i] == init[i];
    }
  }

  /**
   * The registry reflects recent beacons: starting from an empty registry,
   * with a monotone clock, right after a sweep at `now` a MAC is present
   * exactly when its latest accepted beacon is at most 5000 ms old, and then
   * it holds that beacon's entry.
   */
  lemma RegistryReflectsRecentBeacons(inputs: seq<Input>, now: int)
    requires ClockMonotone(inputs)
    requires inputs != [] && inputs[|inputs| - 1] == SweepTick(now)
    ensures forall mac :: mac in Replay(map[], inputs) <==>
      LatestEntry(inputs, mac).Some? && !IsExpired(LatestEntry(inputs, mac).value, now)
    ensures forall mac :: mac in Replay(map[], inputs) ==> Replay(map[], inputs)[mac] == LatestEntry(inputs, mac).value
  {
    forall mac ensures var r := Replay(map[], inputs);
      && (mac in r <==> LatestEntry(inputs, mac).Some? && !IsExpired(LatestEntry(inputs, mac).value, now))
      && (mac in r ==> r[mac] == LatestEntry(inputs, mac).value)
    {
      ReplayInvariant(inputs, mac);
    }
  }
}
