/** What a set request asks of a light, the commands it becomes, and what a light does with them. */
module Lights {
  import opened Bytes

  datatype Power = On | Off | Toggle

  /** A validated value of one of the four settable properties. */
  datatype Setting =
    | Switch(power: Power)
    | Brightness(level: real)
    | ColorTemp(mireds: real)
    | HueSat(hue: real, sat: real)
    | Xy(x: real, y: real)

  datatype Name = StateName | BrightnessName | ColorTempName | ColorName

  function NameOf(s: Setting): Name {
    match s
    case Switch(_) => StateName
    case Brightness(_) => BrightnessName
    case ColorTemp(_) => ColorTempName
    case HueSat(_, _) => ColorName
    case Xy(_, _) => ColorName
  }

  datatype Write = Write(ep: nat, setting: Setting)

  /** transition in tenths of a second, and whether brightness also switches on. */
  datatype Opts = Opts(transition: nat, withOnOff: bool)

  datatype Command =
    | SetPower(power: Power)
    | MoveToLevel(level: int, withOnOff: bool, transition: nat)
    | MoveToColorTemperature(mireds: int, transition: nat)
    | MoveToHueAndSaturation(hue: int, sat: int, transition: nat)
    | MoveToColor(x: int, y: int, transition: nat)

  /** Round half to even. */
  function Round(r: real): int {
    var f := r.Floor;
    var d := r - f as real;
    if d < 0.5 || (d == 0.5 && f % 2 == 0) then f else f + 1
  }

  /** Rounding never leaves a range with whole bounds. */
  lemma RoundWithin(r: real, lo: int, hi: int)
    requires lo as real <= r <= hi as real
    ensures lo <= Round(r) <= hi
  {
    var f := r.Floor;
    assert f as real <= r < f as real + 1.0;
    if hi <= f {
      assert r == f as real;
    }
  }

  /** Rounding moves a number by at most a half. */
  lemma RoundNearest(r: real)
    ensures -0.5 <= Round(r) as real - r <= 0.5
  {
  }

  /** To the nearest whole number, and of two equally near to the even one. */
  lemma RoundHalfEven(r: real)
    ensures -0.5 <= Round(r) as real - r <= 0.5
    ensures Round(r) as real - r == 0.5 || Round(r) as real - r == -0.5 ==> Round(r) % 2 == 0
  {
  }

  const XY_MAX: int := 0xFEFF

  function Min(a: int, b: int): int {
    if a < b then a else b
  }

  /** The command a setting is sent as. */
  function Build(s: Setting, o: Opts): Command {
    match s
    case Switch(p) => SetPower(p)
    case Brightness(v) => MoveToLevel(Round(v), o.withOnOff, o.transition)
    case ColorTemp(v) => MoveToColorTemperature(Round(v), o.transition)
    case HueSat(h, t) => MoveToHueAndSaturation(Round(h * 254.0 / 360.0), Round(t * 254.0 / 100.0), o.transition)
    case Xy(x, y) => MoveToColor(Min(Round(x * 65536.0), XY_MAX), Min(Round(y * 65536.0), XY_MAX), o.transition)
  }

  lemma XyScaled(r: real)
    ensures if r <= 65279.0 then Round(r) <= 65279 else Round(r) >= 65279
  {
    if r <= 65279.0 {
      RoundWithin(r, r.Floor, 65279);
    } else {
      RoundWithin(r, 65279, r.Floor + 1);
    }
  }

  /** Every command carries the number asked for in the device's own scale, to the nearest whole one;
      65279 (0xFEFF) stands for every larger x or y. */
  lemma BuildNearest(s: Setting, o: Opts)
    ensures var c := Build(s, o);
            match s
            case Switch(p) => c == SetPower(p)
            case Brightness(v) => c.MoveToLevel? && Near(c.level, v)
            case ColorTemp(v) => c.MoveToColorTemperature? && Near(c.mireds, v)
            case HueSat(h, t) =>
              c.MoveToHueAndSaturation? && Near(c.hue, h * 254.0 / 360.0) && Near(c.sat, t * 254.0 / 100.0)
            case Xy(x, y) => c.MoveToColor? && NearCapped(c.x, x * 65536.0) && NearCapped(c.y, y * 65536.0)
  {
    match s
    case Switch(_) =>
    case Brightness(v) => RoundNearest(v);
    case ColorTemp(v) => RoundNearest(v);
    case HueSat(h, t) =>
      RoundNearest(h * 254.0 / 360.0);
      RoundNearest(t * 254.0 / 100.0);
    case Xy(x, y) =>
      XyScaled(x * 65536.0);
      XyScaled(y * 65536.0);
      RoundNearest(x * 65536.0);
      RoundNearest(y * 65536.0);
    hide Round;
  }

  predicate Near(n: int, r: real) {
    -0.5 <= n as real - r <= 0.5
  }

  predicate NearCapped(n: int, r: real) {
    if r <= 65279.0 then Near(n, r) else n == 65279
  }

  /** ColorCap.read of a raw hue and saturation. */
  function ReadHue(raw: int): int {
    Round(raw as real * 360.0 / 254.0)
  }

  function ReadSat(raw: int): int {
    Round(raw as real * 100.0 / 254.0)
  }

  /** What a colour command sets reads back as what was asked for: a whole saturation exactly, a
      whole hue to within one degree, and x and y to within half a unit of the device's scale, where
      65279 (0xFEFF) stands for all that is over it. */
  lemma ColorReadsBack(hue: int, sat: int, x: real, y: real, o: Opts)
    ensures var c := Build(HueSat(hue as real, sat as real), o);
            ReadSat(c.sat) == sat && -1 <= ReadHue(c.hue) - hue <= 1
    ensures var c := Build(Xy(x, y), o);
            && (if x * 65536.0 <= 65279.0 then -0.5 <= c.x as real - x * 65536.0 <= 0.5 else c.x == 65279)
            && (if y * 65536.0 <= 65279.0 then -0.5 <= c.y as real - y * 65536.0 <= 0.5 else c.y == 65279)
  {
    RoundNearest(hue as real * 254.0 / 360.0);
    RoundNearest(sat as real * 254.0 / 100.0);
    var c := Build(HueSat(hue as real, sat as real), o);
    RoundNearest(c.hue as real * 360.0 / 254.0);
    RoundNearest(c.sat as real * 100.0 / 254.0);
    RoundNearest(x * 65536.0);
    RoundNearest(y * 65536.0);
    XyScaled(x * 65536.0);
    XyScaled(y * 65536.0);
    hide Round;
  }

  // ---- the light ----------------------------------------------------------------------------

  datatype Light = Light(on: bool, level: int, color: Option<Command>)

  /** Off drops level and colour commands; a level command with on/off switches on, or off at 0. */
  function Obey(l: Light, c: Command): Light {
    match c
    case SetPower(On) => l.(on := true)
    case SetPower(Off) => l.(on := false)
    case SetPower(Toggle) => l.(on := !l.on)
    case MoveToLevel(n, withOnOff, _) =>
      if withOnOff then l.(on := n != 0, level := n) else if l.on then l.(level := n) else l
    case _ => if l.on then l.(color := Some(c)) else l
  }

  function ObeyAll(l: Light, ws: seq<Write>, o: Opts): Light
    decreases |ws|
  {
    if ws == [] then l else ObeyAll(Obey(l, Build(ws[0].setting, o)), ws[1..], o)
  }

  /** A whole device: each command reaches the light at its endpoint. */
  function Execute(lights: map<nat, Light>, ws: seq<Write>, o: Opts): (r: map<nat, Light>)
    ensures r.Keys == lights.Keys
    decreases |ws|
  {
    if ws == [] then lights
    else
      var ep := ws[0].ep;
      Execute(if ep in lights then lights[ep := Obey(lights[ep], Build(ws[0].setting, o))] else lights, ws[1..], o)
  }

  /** The writes for one endpoint, in order. */
  function At(ws: seq<Write>, ep: nat): seq<Write> {
    if ws == [] then [] else (if ws[0].ep == ep then [ws[0]] else []) + At(ws[1..], ep)
  }

  lemma {:induction false} AtAppend(a: seq<Write>, b: seq<Write>, ep: nat)
    ensures At(a + b, ep) == At(a, ep) + At(b, ep)
  {
    if a == [] {
      assert a + b == b;
    } else {
      assert (a + b)[1..] == a[1..] + b;
      AtAppend(a[1..], b, ep);
      Assoc(if a[0].ep == ep then [a[0]] else [], At(a[1..], ep), At(b, ep));
    }
  }

  /** Endpoints do not influence each other. */
  lemma {:induction false} EndpointsIndependent(lights: map<nat, Light>, ws: seq<Write>, o: Opts, ep: nat)
    requires ep in lights
    ensures Execute(lights, ws, o)[ep] == ObeyAll(lights[ep], At(ws, ep), o)
    decreases |ws|
  {
    if ws != [] {
      var e := ws[0].ep;
      var next := if e in lights then lights[e := Obey(lights[e], Build(ws[0].setting, o))] else lights;
      EndpointsIndependent(next, ws[1..], o, ep);
      if e == ep {
        assert At(ws, ep)[1..] == At(ws[1..], ep);
      } else {
        assert At(ws, ep) == At(ws[1..], ep);
      }
    }
  }
}
