/**
 * The command catalog (udp-service.js, `static getCommands`): a fixed table
 * from intents to wire commands, plus the three brightness builders, which
 * clamp their argument when the command is built.
 */
module Catalog {

  /**
   * A wire command: a JSON object with a single property. Each constructor is
   * one property name; JSON serialisation itself is not modelled.
   */
  datatype Command =
    | Power(power: bool)
    | Speed(speed: int)
    | SpeedDelta(speedDelta: int)
    | Sleep(sleep: bool)
    | Timer(timer: int)
    | Led(led: bool)
    | Brightness(brightness: int)
    | BrightnessDelta(brightnessDelta: int)
    | LightMode(lightMode: string)

  /** The JSON property name a command is sent under. */
  function Key(c: Command): string {
    match c
    case Power(_) => "power"
    case Speed(_) => "speed"
    case SpeedDelta(_) => "speedDelta"
    case Sleep(_) => "sleep"
    case Timer(_) => "timer"
    case Led(_) => "led"
    case Brightness(_) => "brightness"
    case BrightnessDelta(_) => "brightnessDelta"
    case LightMode(_) => "light_mode"
  }

  /** One group of the catalog: JavaScript property name (numeric keys as their digits) to command. */
  type Group = map<string, Command>

  /** The constant groups of the object getCommands returns; brightness is below. */
  datatype Catalog = Catalog(power: Group, speed: Group, sleep: Group, timer: Group, light: Group, color: Group)

  /** The property name JavaScript gives a one-digit numeric key. */
  function Digit(n: int): (s: string)
    requires 0 <= n <= 9
    ensures |s| == 1 && '0' <= s[0] <= '9'
  {
    [(('0' as int) + n) as char]
  }

  /** An on/off group: "on" carries `true` and "off" carries `false`. */
  predicate IsSwitch(g: Group, on: Command, off: Command) {
    g.Keys == {"on", "off"} && g["on"] == on && g["off"] == off
  }

  function PowerGroup(): (g: Group)
    ensures IsSwitch(g, Power(true), Power(false))
  {
    map["on" := Power(true), "off" := Power(false)]
  }

  /** Speed levels 1 to 6 are sent verbatim; "increase" and "decrease" step by one. */
  function SpeedGroup(): (g: Group)
    ensures g.Keys == {"1", "2", "3", "4", "5", "6", "increase", "decrease"}
    ensures forall n :: 1 <= n <= 6 ==> Digit(n) in g && g[Digit(n)] == Speed(n)
    ensures g["increase"] == SpeedDelta(1) && g["decrease"] == SpeedDelta(-1)
  {
    map["1" := Speed(1), "2" := Speed(2), "3" := Speed(3), "4" := Speed(4), "5" := Speed(5), "6" := Speed(6),
        "increase" := SpeedDelta(1), "decrease" := SpeedDelta(-1)]
  }

  function SleepGroup(): (g: Group)
    ensures IsSwitch(g, Sleep(true), Sleep(false))
  {
    map["on" := Sleep(true), "off" := Sleep(false)]
  }

  /**
   * The timer entries are "off" and 1, 2, 3 and 6 hours. Off is code 0, the
   * hour entries 1 to 3 carry their own number, and the six-hour entry is
   * sent as code 4, the device's convention.
   */
  function TimerGroup(): (g: Group)
    ensures g.Keys == {"off", "1", "2", "3", "6"}
    ensures g["off"] == Timer(0) && g["6"] == Timer(4)
    ensures forall n :: 1 <= n <= 3 ==> Digit(n) in g && g[Digit(n)] == Timer(n)
  {
    map["off" := Timer(0), "1" := Timer(1), "2" := Timer(2), "3" := Timer(3), "6" := Timer(4)]
  }

  function LightGroup(): (g: Group)
    ensures IsSwitch(g, Led(true), Led(false))
  {
    map["on" := Led(true), "off" := Led(false)]
  }

  /** A colour entry sends its own name as the light mode. */
  function ColorGroup(): (g: Group)
    ensures g.Keys == {"warm", "cool", "daylight"}
    ensures forall k :: k in g ==> g[k] == LightMode(k)
  {
    map["warm" := LightMode("warm"), "cool" := LightMode("cool"), "daylight" := LightMode("daylight")]
  }

  /** The constant part of the object getCommands returns. */
  function GetCommands(): (c: Catalog)
    // power, sleep and light are on/off switches, each under its own property
    ensures IsSwitch(c.power, Power(true), Power(false))
    ensures IsSwitch(c.sleep, Sleep(true), Sleep(false))
    ensures IsSwitch(c.light, Led(true), Led(false))
    // speed levels 1..6 are sent verbatim; increase and decrease step by one
    ensures c.speed.Keys == {"1", "2", "3", "4", "5", "6", "increase", "decrease"}
    ensures forall n :: 1 <= n <= 6 ==> Digit(n) in c.speed && c.speed[Digit(n)] == Speed(n)
    ensures c.speed["increase"] == SpeedDelta(1) && c.speed["decrease"] == SpeedDelta(-1)
    // the timer is off, 1, 2, 3 or 6 hours; the six-hour entry is sent as 4
    ensures c.timer.Keys == {"off", "1", "2", "3", "6"} && c.timer["off"] == Timer(0) && c.timer["6"] == Timer(4)
    ensures forall n :: 1 <= n <= 3 ==> Digit(n) in c.timer && c.timer[Digit(n)] == Timer(n)
    // a colour entry sends its own name as the light mode
    ensures c.color.Keys == {"warm", "cool", "daylight"} && forall k :: k in c.color ==> c.color[k] == LightMode(k)
  {
    Catalog(PowerGroup(), SpeedGroup(), SleepGroup(), TimerGroup(), LightGroup(), ColorGroup())
  }

  /**
   * The timer group is unambiguous: distinct entries send distinct wire
   * values, every one a single "timer" property with a code from 0 to 4.
   */
  lemma TimerCodesDistinct()
    ensures forall k :: k in TimerGroup() ==> Key(TimerGroup()[k]) == "timer" && 0 <= TimerGroup()[k].timer <= 4
    ensures forall k, k' :: k in TimerGroup() && k' in TimerGroup() && k != k' ==>
      TimerGroup()[k] != TimerGroup()[k']
  {
    var t := TimerGroup();
    assert forall k :: k in t ==> k == "off" || k == "1" || k == "2" || k == "3" || k == "6";
  }

  /** `Math.max(lo, Math.min(hi, v))`. */
  function Clamp(lo: int, hi: int, v: int): int {
    if v > hi then (if lo > hi then lo else hi) else if v < lo then lo else v
  }

  /** Brightness builder `set(value)`: a level in [10, 100], equal to `value` when `value` is already in range. */
  function BrightnessSet(value: int): (c: Command)
    ensures c.Brightness? && 10 <= c.brightness <= 100
    ensures 10 <= value <= 100 ==> c.brightness == value
    ensures value < 10 ==> c.brightness == 10
    ensures value > 100 ==> c.brightness == 100
  {
    Brightness(Clamp(10, 100, value))
  }

  /** Brightness builder `increase(delta = 10)`: a step in [-90, 90], equal to `delta` when in range. */
  function BrightnessIncrease(delta: int := 10): (c: Command)
    ensures c.BrightnessDelta? && -90 <= c.brightnessDelta <= 90
    ensures -90 <= delta <= 90 ==> c.brightnessDelta == delta
    ensures delta > 90 ==> c.brightnessDelta == 90
    ensures delta < -90 ==> c.brightnessDelta == -90
  {
    BrightnessDelta(Clamp(-90, 90, delta))
  }

  /** Brightness builder `decrease(delta = 10)`: the clamped negation of `delta`. */
  function BrightnessDecrease(delta: int := 10): (c: Command)
    ensures c.BrightnessDelta? && -90 <= c.brightnessDelta <= 90
    ensures -90 <= delta <= 90 ==> c.brightnessDelta == -delta
    ensures delta > 90 ==> c.brightnessDelta == -90
    ensures delta < -90 ==> c.brightnessDelta == 90
  {
    BrightnessDelta(Clamp(-90, 90, -delta))
  }

  /** Decreasing by `delta` is increasing by `-delta`'s clamp: the two builders are mirror images. */
  lemma DecreaseMirrorsIncrease(delta: int)
    ensures BrightnessDecrease(delta).brightnessDelta == -BrightnessIncrease(delta).brightnessDelta
    ensures BrightnessDecrease(delta) == BrightnessIncrease(-delta)
  {
  }

  /** Called without an argument, both builders step by ten. */
  lemma BrightnessDefaults()
    ensures BrightnessIncrease() == BrightnessDelta(10)
    ensures BrightnessDecrease() == BrightnessDelta(-10)
  {
  }

  /** Clamping is idempotent: a command built from an already clamped level is the same command. */
  lemma BrightnessSetIdempotent(value: int)
    ensures BrightnessSet(BrightnessSet(value).brightness) == BrightnessSet(value)
  {
  }
}
