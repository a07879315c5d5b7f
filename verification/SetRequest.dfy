/** Bridge.set and the validation half of the settable capabilities. Values arrive after as_number,
    and strings as OnOffCap.coerce leaves them: stripped and upper-cased. */
module SetRequest {
  import opened Bytes
  import opened Lights
  import opened WriteOrder
  import Naming

  datatype Json =
    | Null
    | Bool(b: bool)
    | Int(n: int)
    | Float(r: real)
    | Str(s: string)
    | Obj(fields: map<string, Json>)
    | Arr(items: seq<Json>)

  /** A capability, with what the device reports of its bounds. */
  datatype Cap =
    | OnOffCap(ep: nat)
    | LevelCap(ep: nat, minLevel: Option<nat>, maxLevel: Option<nat>)
    | ColorTempCap(ep: nat, tmin: Option<int>, tmax: Option<int>)
    | ColorCap(ep: nat, hs: bool, xy: bool)
    | ReadOnlyCap(ep: nat, name: string)
  {
    function Name(): string {
      match this
      case OnOffCap(_) => "state"
      case LevelCap(_, _, _) => "brightness"
      case ColorTempCap(_, _, _) => "color_temp"
      case ColorCap(_, _, _) => "color"
      case ReadOnlyCap(_, name) => name
    }
  }

  /** The bounds of a level capability: a reported 0 counts as not reported. */
  function OrElse(reported: Option<nat>, other: nat): nat {
    if reported.None? || reported.value == 0 then other else reported.value
  }

  function LevelMin(c: Cap): nat
    requires c.LevelCap?
  {
    OrElse(c.minLevel, 1)
  }

  function LevelMax(c: Cap): nat
    requires c.LevelCap?
  {
    OrElse(c.maxLevel, 254)
  }

  /** A number that is not a bool. */
  function Number(v: Json): Option<real> {
    match v
    case Int(n) => Some(n as real)
    case Float(r) => Some(r)
    case _ => None
  }

  predicate Within(x: real, lo: Option<int>, hi: Option<int>) {
    (lo.Some? ==> lo.value as real <= x) && (hi.Some? ==> x <= hi.value as real)
  }

  /** check_number, returning the number. */
  function CheckNumber(v: Json, lo: Option<int>, hi: Option<int>): Option<real> {
    match Number(v)
    case Some(x) => if Within(x, lo, hi) then Some(x) else None
    case None => None
  }

  function AcceptPower(v: Json): Option<Setting> {
    match v
    case Bool(b) => Some(Switch(if b then On else Off))
    case Int(n) => if n == 1 then Some(Switch(On)) else if n == 0 then Some(Switch(Off)) else None
    case Str(s) =>
      if s == "ON" || s == "TRUE" then Some(Switch(On))
      else if s == "OFF" || s == "FALSE" then Some(Switch(Off))
      else if s == "TOGGLE" then Some(Switch(Toggle))
      else None
    case _ => None
  }

  function Pair(v: Json, a: string, b: string, hi: (int, int)): Option<(real, real)>
    requires v.Obj? && a in v.fields && b in v.fields
  {
    var x, y := CheckNumber(v.fields[a], Some(0), Some(hi.0)), CheckNumber(v.fields[b], Some(0), Some(hi.1));
    if x.Some? && y.Some? then Some((x.value, y.value)) else None
  }

  /** coerce and validate: the setting a value stands for, None if it is refused. */
  function Accept(c: Cap, v: Json): Option<Setting> {
    match c
    case OnOffCap(_) => AcceptPower(v)
    case LevelCap(_, _, _) =>
      (match CheckNumber(v, Some(LevelMin(c)), Some(LevelMax(c))) case Some(x) => Some(Brightness(x)) case None => None)
    case ColorTempCap(_, lo, hi) =>
      (match CheckNumber(v, lo, hi) case Some(x) => Some(ColorTemp(x)) case None => None)
    case ColorCap(_, hs, xy) =>
      if v.Obj? && hs && "hue" in v.fields && "saturation" in v.fields then
        (match Pair(v, "hue", "saturation", (360, 100)) case Some(p) => Some(HueSat(p.0, p.1)) case None => None)
      else if v.Obj? && xy && "x" in v.fields && "y" in v.fields then
        (match Pair(v, "x", "y", (1, 1)) case Some(p) => Some(Xy(p.0, p.1)) case None => None)
      else None
    case ReadOnlyCap(_, _) => None
  }

  // ---- what each value means ----------------------------------------------------------------

  /** Booleans, 1 and 0, and the words switch; only the word TOGGLE toggles; nothing else is accepted. */
  lemma PowerMeaning(ep: nat, v: Json)
    ensures Accept(OnOffCap(ep), v) == Some(Switch(On)) <==>
            v == Bool(true) || v == Int(1) || v == Str("ON") || v == Str("TRUE")
    ensures Accept(OnOffCap(ep), v) == Some(Switch(Off)) <==>
            v == Bool(false) || v == Int(0) || v == Str("OFF") || v == Str("FALSE")
    ensures Accept(OnOffCap(ep), v) == Some(Switch(Toggle)) <==> v == Str("TOGGLE")
    ensures Accept(OnOffCap(ep), v).Some? ==> Accept(OnOffCap(ep), v).value.Switch?
  {
    assert "ON"[0] == 'O' && "OFF"[1] == 'F' && "TRUE"[0] == 'T' && "FALSE"[0] == 'F' && "TOGGLE"[1] == 'O';
  }

  /** A brightness is a number within what the device reports, 1 and 254 standing in for a bound that
      is 0 or not reported. */
  lemma LevelMeaning(ep: nat, minLevel: Option<nat>, maxLevel: Option<nat>, v: Json)
    ensures var lo := if minLevel.Some? && minLevel.value > 0 then minLevel.value else 1;
            var hi := if maxLevel.Some? && maxLevel.value > 0 then maxLevel.value else 254;
            Accept(LevelCap(ep, minLevel, maxLevel), v) ==
            if v.Int? && lo <= v.n <= hi then Some(Brightness(v.n as real))
            else if v.Float? && lo as real <= v.r <= hi as real then Some(Brightness(v.r))
            else None
  {
  }

  /** A colour temperature is a number within such bounds as are reported. */
  lemma ColorTempMeaning(ep: nat, lo: Option<int>, hi: Option<int>, v: Json)
    ensures var c := ColorTempCap(ep, lo, hi);
            && (v.Int? && (lo.Some? ==> lo.value <= v.n) && (hi.Some? ==> v.n <= hi.value) ==>
                Accept(c, v) == Some(ColorTemp(v.n as real)))
            && (v.Float? && (lo.Some? ==> lo.value as real <= v.r) && (hi.Some? ==> v.r <= hi.value as real) ==>
                Accept(c, v) == Some(ColorTemp(v.r)))
            && (Accept(c, v).Some? ==> v.Int? || v.Float?)
            && (v.Int? && Accept(c, v).Some? ==> (lo.Some? ==> lo.value <= v.n) && (hi.Some? ==> v.n <= hi.value))
            && (v.Float? && Accept(c, v).Some? ==>
                (lo.Some? ==> lo.value as real <= v.r) && (hi.Some? ==> v.r <= hi.value as real))
  {
  }

  /** v is a number from 0 to hi, namely x. */
  predicate NumberUpTo(v: Json, hi: int, x: real) {
    (v == Float(x) || (v.Int? && x == v.n as real)) && 0.0 <= x <= hi as real
  }

  /** A colour is an object with both hue and saturation, which go first, or both x and y, each within
      its range, as far as the device supports it. */
  lemma ColorMeaning(ep: nat, hs: bool, xy: bool, v: Json, s: Setting)
    ensures var hasHs := v.Obj? && hs && "hue" in v.fields && "saturation" in v.fields;
            var hasXy := v.Obj? && xy && "x" in v.fields && "y" in v.fields;
            Accept(ColorCap(ep, hs, xy), v) == Some(s) <==>
            || (hasHs && s.HueSat? && NumberUpTo(v.fields["hue"], 360, s.hue)
                && NumberUpTo(v.fields["saturation"], 100, s.sat))
            || (!hasHs && hasXy && s.Xy? && NumberUpTo(v.fields["x"], 1, s.x) && NumberUpTo(v.fields["y"], 1, s.y))
  {
  }

  /** What the cluster command's arguments may be. */
  predicate InRange(c: Cap, cmd: Command) {
    match cmd
    case SetPower(_) => c.OnOffCap?
    case MoveToLevel(n, _, _) => c.LevelCap? && LevelMin(c) <= n <= LevelMax(c)
    case MoveToColorTemperature(n, _) =>
      c.ColorTempCap? && (c.tmin.Some? ==> c.tmin.value <= n) && (c.tmax.Some? ==> n <= c.tmax.value)
    case MoveToHueAndSaturation(h, s, _) => c.ColorCap? && 0 <= h <= 254 && 0 <= s <= 254
    case MoveToColor(x, y, _) => c.ColorCap? && 0 <= x <= XY_MAX && 0 <= y <= XY_MAX
  }

  lemma RoundAtLeast(r: real, lo: int)
    requires lo as real <= r
    ensures lo <= Round(r)
  {
    RoundWithin(r, lo, r.Floor + 1);
  }

  lemma RoundAtMost(r: real, hi: int)
    requires r <= hi as real
    ensures Round(r) <= hi
  {
    RoundWithin(r, r.Floor, hi);
  }

  /** Every accepted value can be sent, and its rounded arguments stay in range. */
  lemma AcceptedInRange(c: Cap, v: Json, o: Opts)
    ensures Accept(c, v).Some? ==> InRange(c, Build(Accept(c, v).value, o))
  {
    match Accept(c, v)
    case None =>
    case Some(Switch(_)) =>
    case Some(Brightness(x)) => RoundWithin(x, LevelMin(c), LevelMax(c));
    case Some(ColorTemp(x)) =>
      if c.tmin.Some? {
        RoundAtLeast(x, c.tmin.value);
      }
      if c.tmax.Some? {
        RoundAtMost(x, c.tmax.value);
      }
    case Some(HueSat(h, s)) =>
      RoundWithin(h * 254.0 / 360.0, 0, 254);
      RoundWithin(s * 254.0 / 100.0, 0, 254);
    case Some(Xy(x, y)) =>
      RoundAtLeast(x * 65536.0, 0);
      RoundAtLeast(y * 65536.0, 0);
  }

  /** Contrary to a remark in LevelCap.write, brightness 0 is refused whatever the device reports as
      its minimum, so the command that would switch a light off by level is never sent. */
  lemma BrightnessAtLeastOne(c: Cap, v: Json, o: Opts)
    requires c.LevelCap? && Accept(c, v).Some?
    ensures Build(Accept(c, v).value, o).level >= 1
  {
    AcceptedInRange(c, v, o);
  }

  // ---- what is published --------------------------------------------------------------------

  /** What OnOffCap.read and ColorCap.read publish for raw attribute values. */
  function PublishedPower(on: bool): Json {
    Str(if on then "ON" else "OFF")
  }

  /** round(raw / 65536, 4) */
  function ReadXy(raw: int): real {
    Round(raw as real * 10000.0 / 65536.0) as real / 10000.0
  }

  function PublishedColor(c: Cap, hue: int, sat: int, x: int, y: int): Json
    requires c.ColorCap?
  {
    Obj((if c.hs then map["hue" := Int(ReadHue(hue)), "saturation" := Int(ReadSat(sat))] else map[])
        + (if c.xy then map["x" := Float(ReadXy(x)), "y" := Float(ReadXy(y))] else map[]))
  }

  lemma HueSatBack(hue: int, sat: int)
    requires 0 <= hue <= 254 && 0 <= sat <= 254
    ensures 0 <= ReadHue(hue) <= 360 && 0 <= ReadSat(sat) <= 100
    ensures Round(ReadHue(hue) as real * 254.0 / 360.0) == hue
    ensures -1 <= Round(ReadSat(sat) as real * 254.0 / 100.0) - sat <= 1
  {
    var h, t := hue as real * 360.0 / 254.0, sat as real * 100.0 / 254.0;
    RoundWithin(h, 0, 360);
    RoundWithin(t, 0, 100);
    RoundNearest(h);
    RoundNearest(t);
    RoundNearest(ReadHue(hue) as real * 254.0 / 360.0);
    RoundNearest(ReadSat(sat) as real * 254.0 / 100.0);
    hide Round;
  }

  lemma XyBack(raw: int)
    requires 0 <= raw <= XY_MAX
    ensures 0.0 <= ReadXy(raw) <= 1.0
    ensures -3 <= Min(Round(ReadXy(raw) * 65536.0), XY_MAX) - raw <= 3
  {
    var x := raw as real * 10000.0 / 65536.0;
    RoundWithin(x, 0, 10000);
    RoundNearest(x);
    RoundNearest(ReadXy(raw) * 65536.0);
    hide Round;
  }

  /** What a device publishes of one property can be sent back. Power, level, colour temperature and
      raw hue are then commanded as they were; the raw saturation to within one, and x and y, which
      are rounded to four digits, to within three. A level or colour temperature can be sent back
      exactly when it is within the bounds the bridge goes by. */
  lemma PublishedCanBeSet(c: Cap, o: Opts, on: bool, raw: int, hue: int, sat: int, x: int, y: int)
    requires 0 <= hue <= 254 && 0 <= sat <= 254 && 0 <= x <= XY_MAX && 0 <= y <= XY_MAX
    ensures c.OnOffCap? ==> Accept(c, PublishedPower(on)) == Some(Switch(if on then On else Off))
    ensures c.LevelCap? ==> (Accept(c, Int(raw)).Some? <==> LevelMin(c) <= raw <= LevelMax(c))
    ensures c.LevelCap? && Accept(c, Int(raw)).Some? ==>
              Build(Accept(c, Int(raw)).value, o) == MoveToLevel(raw, o.withOnOff, o.transition)
    ensures c.ColorTempCap? ==> (Accept(c, Int(raw)).Some? <==> Within(raw as real, c.tmin, c.tmax))
    ensures c.ColorTempCap? && Accept(c, Int(raw)).Some? ==>
              Build(Accept(c, Int(raw)).value, o) == MoveToColorTemperature(raw, o.transition)
    ensures c.ColorCap? && (c.hs || c.xy) ==>
              && Accept(c, PublishedColor(c, hue, sat, x, y)).Some?
              && SameColor(Build(Accept(c, PublishedColor(c, hue, sat, x, y)).value, o), c.hs, hue, sat, x, y)
  {
    assert Round(raw as real) == raw;
    if c.ColorCap? && (c.hs || c.xy) {
      PublishedColorCanBeSet(c, o, hue, sat, x, y);
    }
    hide Round;
    hide PublishedColor;
    hide SameColor;
    hide Pair;
  }

  predicate SameColor(m: Command, hs: bool, hue: int, sat: int, x: int, y: int) {
    if hs then m.MoveToHueAndSaturation? && m.hue == hue && -1 <= m.sat - sat <= 1
    else m.MoveToColor? && -3 <= m.x - x <= 3 && -3 <= m.y - y <= 3
  }

  lemma PublishedColorCanBeSet(c: Cap, o: Opts, hue: int, sat: int, x: int, y: int)
    requires c.ColorCap? && (c.hs || c.xy)
    requires 0 <= hue <= 254 && 0 <= sat <= 254 && 0 <= x <= XY_MAX && 0 <= y <= XY_MAX
    ensures Accept(c, PublishedColor(c, hue, sat, x, y)).Some?
    ensures SameColor(Build(Accept(c, PublishedColor(c, hue, sat, x, y)).value, o), c.hs, hue, sat, x, y)
  {
    HueSatBack(hue, sat);
    XyBack(x);
    XyBack(y);
    hide Round;
    hide ReadHue;
    hide ReadSat;
    hide ReadXy;
    var v := PublishedColor(c, hue, sat, x, y);
    if c.hs {
      assert v.fields["hue"] == Int(ReadHue(hue)) && v.fields["saturation"] == Int(ReadSat(sat));
    } else {
      assert "hue" !in v.fields && v.fields["x"] == Float(ReadXy(x)) && v.fields["y"] == Float(ReadXy(y));
    }
  }

  // ---- the request --------------------------------------------------------------------------

  datatype Error =
    | BadTransition | BadWithOnOff
    | Unknown(prop: string) | ReadOnly(prop: string) | Invalid(prop: string)
    | Conflicting

  predicate Acceptable(props: map<string, Cap>, entry: (string, Json)) {
    entry.0 in props && Accept(props[entry.0], entry.1).Some?
  }

  ghost predicate AllAcceptable(props: map<string, Cap>, payload: seq<(string, Json)>) {
    forall i :: 0 <= i < |payload| ==> Acceptable(props, payload[i])
  }

  /** The writes a payload asks for, in payload order. */
  function Requested(props: map<string, Cap>, payload: seq<(string, Json)>): seq<Write>
    requires AllAcceptable(props, payload)
  {
    seq(|payload|, i requires 0 <= i < |payload| =>
      Write(props[payload[i].0].ep, Accept(props[payload[i].0], payload[i].1).value))
  }

  /** The writes asked for are the payload's, in its order. */
  lemma RequestedAre(props: map<string, Cap>, payload: seq<(string, Json)>, ep: nat)
    requires AllAcceptable(props, payload)
    ensures var ws := Requested(props, payload);
            && |ws| == |payload|
            && forall i :: 0 <= i < |ws| ==>
                 ws[i].ep == props[payload[i].0].ep && Accept(props[payload[i].0], payload[i].1) == Some(ws[i].setting)
    ensures forall s :: Write(ep, s) in At(Requested(props, payload), ep) <==> Says(props, payload, ep, s)
  {
    var ws := Requested(props, payload);
    AtMembers(ws, ep);
    forall s ensures Write(ep, s) in ws <==> Says(props, payload, ep, s) {
      if Write(ep, s) in ws {
        var i :| 0 <= i < |ws| && ws[i] == Write(ep, s);
        assert Acceptable(props, payload[i]);
      }
      if Says(props, payload, ep, s) {
        var i :| 0 <= i < |payload| && Acceptable(props, payload[i]) && props[payload[i].0].ep == ep
                 && Accept(props[payload[i].0], payload[i].1) == Some(s);
        assert ws[i] == Write(ep, s);
      }
    }
    hide Accept;
    hide At;
  }

  /** Some entry of the payload means s for endpoint ep. */
  ghost predicate Says(props: map<string, Cap>, payload: seq<(string, Json)>, ep: nat, s: Setting) {
    exists i :: 0 <= i < |payload| && Acceptable(props, payload[i]) && props[payload[i].0].ep == ep
                && Accept(props[payload[i].0], payload[i].1) == Some(s)
  }

  /** The options of an accepted request: with_on_off as given, transition in whole tenths. */
  ghost predicate OptsOf(transition: Json, withOnOff: Json, o: Opts) {
    && (transition.Int? || transition.Float?) && withOnOff.Bool?
    && o.withOnOff == withOnOff.b
    && var seconds := if transition.Int? then transition.n as real else transition.r;
       -0.5 <= o.transition as real - 10.0 * seconds <= 0.5
  }

  /** sent is the commands for the writes ordered, with options o. */
  ghost predicate Sent(sent: seq<(nat, Command)>, ordered: seq<Write>, o: Opts) {
    |sent| == |ordered|
    && forall i :: 0 <= i < |sent| ==> sent[i] == (ordered[i].ep, Build(ordered[i].setting, o))
  }

  function TransitionOf(c: Command): nat
    requires !c.SetPower?
  {
    c.transition
  }

  /** All or nothing. A request is refused, and no command sent, exactly if transition is no number or
      negative, with_on_off no boolean, some property unknown, read-only or invalid, or some endpoint
      gets both colour modes or a toggle and something else; the error says which. Otherwise each
      endpoint is sent exactly what is planned for it, every brightness with on/off or without as
      asked, and every fade over the time asked, to the nearest tenth. */
  method Set(props: map<string, Cap>, payload: seq<(string, Json)>, transition: Json, withOnOff: Json)
      returns (error: Option<Error>, sent: seq<(nat, Command)>, ghost ordered: seq<Write>, ghost o: Opts)
    ensures error == None <==>
            && ((transition.Int? && 0 <= transition.n) || (transition.Float? && 0.0 <= transition.r))
            && withOnOff.Bool?
            && AllAcceptable(props, payload)
            && !TwoColorModes(Requested(props, payload)) && !ToggleAndMore(Requested(props, payload))
    ensures error.Some? ==> sent == [] && Explained(props, payload, transition, withOnOff, error.value)
    ensures error == None ==>
            && OptsOf(transition, withOnOff, o) && Sent(sent, ordered, o)
            && forall ep :: At(ordered, ep) == Plan(At(Requested(props, payload), ep))
    ensures error == None ==>
            forall i :: 0 <= i < |sent| && sent[i].1.MoveToLevel? ==> sent[i].1.withOnOff == withOnOff.b
    ensures error == None ==>
            var seconds := if transition.Int? then transition.n as real else transition.r;
            forall i :: 0 <= i < |sent| && !sent[i].1.SetPower? ==>
              -0.5 <= TransitionOf(sent[i].1) as real - 10.0 * seconds <= 0.5
  {
    hide FirstSwitch;
    sent, ordered, o := [], [], Opts(0, true);
    var t := Number(transition);
    if t == None || t.value < 0.0 {
      return Some(BadTransition), [], [], o;
    }
    if !withOnOff.Bool? {
      return Some(BadWithOnOff), [], [], o;
    }
    RoundAtLeast(t.value * 10.0, 0);
    RoundNearest(t.value * 10.0);
    var opts := Opts(Round(t.value * 10.0), withOnOff.b);
    o := opts;
    assert OptsOf(transition, withOnOff, o);
    hide Round;
    var writes: seq<Write> := [];
    for i := 0 to |payload|
      invariant AllAcceptable(props, payload[..i])
      invariant writes == Requested(props, payload[..i])
    {
      var (prop, value) := payload[i];
      if prop !in props {
        return Some(Unknown(prop)), [], [], o;
      }
      var cap := props[prop];
      if cap.ReadOnlyCap? {
        return Some(ReadOnly(prop)), [], [], o;
      }
      var setting := Accept(cap, value);
      if setting == None {
        return Some(Invalid(prop)), [], [], o;
      }
      assert payload[..i + 1] == payload[..i] + [payload[i]];
      writes := writes + [Write(cap.ep, setting.value)];
    }
    assert payload[..|payload|] == payload;
    hide Accept;
    RefusedExactly(writes);
    var plan := OrderWrites(writes);
    if plan == None {
      return Some(Conflicting), [], [], o;
    }
    error, ordered := None, plan.value;
    sent := Send(plan.value, opts);
    OptionsCarried(sent, ordered, o);
    hide Plan;
    hide At;
  }

  /** cap.write, one after the other. */
  method Send(ordered: seq<Write>, o: Opts) returns (sent: seq<(nat, Command)>)
    ensures Sent(sent, ordered, o)
  {
    sent := [];
    for i := 0 to |ordered|
      invariant |sent| == i
      invariant forall j :: 0 <= j < i ==> sent[j] == (ordered[j].ep, Build(ordered[j].setting, o))
    {
      sent := sent + [(ordered[i].ep, Build(ordered[i].setting, o))];
    }
  }

  lemma OptionsCarried(sent: seq<(nat, Command)>, ordered: seq<Write>, o: Opts)
    requires Sent(sent, ordered, o)
    ensures forall i :: 0 <= i < |sent| && sent[i].1.MoveToLevel? ==> sent[i].1.withOnOff == o.withOnOff
    ensures forall i :: 0 <= i < |sent| && !sent[i].1.SetPower? ==> TransitionOf(sent[i].1) == o.transition
  {
    hide Round;
  }

  /** Why a request is refused: the first thing that is wrong with it. */
  ghost predicate Explained(props: map<string, Cap>, payload: seq<(string, Json)>, transition: Json, withOnOff: Json,
                            e: Error) {
    match e
    case BadTransition => (transition.Int? ==> transition.n < 0) && (transition.Float? ==> transition.r < 0.0)
    case BadWithOnOff => !withOnOff.Bool?
    case Unknown(p) => exists i: nat :: FirstBad(props, payload, i) && payload[i].0 == p && p !in props
    case ReadOnly(p) =>
      exists i: nat :: FirstBad(props, payload, i) && payload[i].0 == p && p in props && props[p].ReadOnlyCap?
    case Invalid(p) =>
      exists i: nat :: FirstBad(props, payload, i) && payload[i].0 == p && p in props
                       && Accept(props[p], payload[i].1) == None
    case Conflicting =>
      && AllAcceptable(props, payload)
      && (TwoColorModes(Requested(props, payload)) || ToggleAndMore(Requested(props, payload)))
  }

  ghost predicate FirstBad(props: map<string, Cap>, payload: seq<(string, Json)>, i: nat) {
    i < |payload| && AllAcceptable(props, payload[..i]) && !Acceptable(props, payload[i])
  }

  /** ON or OFF goes with anything, and so does a payload without a state, as long as no endpoint is
      asked for both colour modes. */
  lemma AcceptedTogether(props: map<string, Cap>, payload: seq<(string, Json)>)
    requires AllAcceptable(props, payload)
    requires forall i :: 0 <= i < |payload| ==>
               props[payload[i].0].OnOffCap? ==> payload[i].1 != Str("TOGGLE")
    requires forall i, j :: 0 <= i < |payload| && 0 <= j < |payload| ==>
               props[payload[i].0].ColorTempCap? && props[payload[j].0].ColorCap? ==>
               props[payload[i].0].ep != props[payload[j].0].ep
    ensures !TwoColorModes(Requested(props, payload)) && !ToggleAndMore(Requested(props, payload))
  {
    var ws := Requested(props, payload);
    forall i | 0 <= i < |ws|
      ensures ws[i].setting != Switch(Toggle)
      ensures ws[i].setting.ColorTemp? ==> props[payload[i].0].ColorTempCap?
      ensures ws[i].setting.HueSat? || ws[i].setting.Xy? ==> props[payload[i].0].ColorCap?
    {
      assert Acceptable(props, payload[i]);
      NameAccepted(props[payload[i].0], payload[i].1);
      if props[payload[i].0].OnOffCap? {
        PowerMeaning(props[payload[i].0].ep, payload[i].1);
      }
    }
    hide Accept;
    hide FirstSwitch;
    forall i, j | 0 <= i < |ws| && 0 <= j < |ws| && ws[i].setting.ColorTemp?
               && (ws[j].setting.HueSat? || ws[j].setting.Xy?)
      ensures ws[i].ep != ws[j].ep
    {
    }
    assert forall v :: v in ws ==> exists i :: 0 <= i < |ws| && ws[i] == v;
  }

  /** props is (part of) the dict of a device with these endpoints: each of its capabilities is
      there under the property name the device gives it. */
  ghost predicate OfDevice(props: map<string, Cap>, es: seq<Naming.Endpoint>) {
    && Naming.DistinctEndpoints(es)
    && forall p :: p in props ==>
         exists c :: c in Naming.AllCaps(es) && c.ep == props[p].ep && c.name == props[p].Name()
                     && p == Naming.Prop(Naming.AllCaps(es), c)
  }

  /** A device has each capability of each endpoint once. */
  lemma DeviceHasEachOnce(props: map<string, Cap>, es: seq<Naming.Endpoint>)
    requires OfDevice(props, es)
    ensures OneCapPerName(props)
  {
    hide Naming.AllCaps;
    hide Naming.Prop;
    hide Settable;
    forall p, q | p in props && q in props && props[p].ep == props[q].ep
               && Settable(props[p]).Some? && Settable(props[p]) == Settable(props[q])
      ensures p == q
    {
      SameSettable(props[p], props[q]);
      var caps := Naming.AllCaps(es);
      var c :| c in caps && c.ep == props[p].ep && c.name == props[p].Name() && p == Naming.Prop(caps, c);
      var d :| d in caps && d.ep == props[q].ep && d.name == props[q].Name() && q == Naming.Prop(caps, d);
      Naming.SameCap(es, c, d);
    }
  }

  lemma SameSettable(c: Cap, d: Cap)
    requires Settable(c).Some? && Settable(c) == Settable(d)
    ensures c.Name() == d.Name()
  {
  }

  /** No two properties of a device are the same capability of the same endpoint. */
  predicate OneCapPerName(props: map<string, Cap>) {
    forall p, q :: p in props && q in props && p != q && props[p].ep == props[q].ep ==>
      Settable(props[p]) != Settable(props[q]) || Settable(props[p]).None?
  }

  function Settable(c: Cap): Option<Name> {
    match c
    case OnOffCap(_) => Some(StateName)
    case LevelCap(_, _, _) => Some(BrightnessName)
    case ColorTempCap(_, _, _) => Some(ColorTempName)
    case ColorCap(_, _, _) => Some(ColorName)
    case ReadOnlyCap(_, _) => None
  }

  ghost predicate KeysDistinct(payload: seq<(string, Json)>) {
    forall i, j :: 0 <= i < j < |payload| ==> payload[i].0 != payload[j].0
  }

  /** Some entry of the payload names this capability of this endpoint. */
  ghost predicate Asked(props: map<string, Cap>, payload: seq<(string, Json)>, ep: nat, n: Name) {
    exists i :: 0 <= i < |payload| && payload[i].0 in props && props[payload[i].0].ep == ep
             && Settable(props[payload[i].0]) == Some(n)
  }

  lemma AskedLater(props: map<string, Cap>, payload: seq<(string, Json)>, ep: nat, n: Name)
    requires OneCapPerName(props) && KeysDistinct(payload) && payload != [] && Acceptable(props, payload[0])
    requires Asked(props, payload[1..], ep, n)
    ensures Asked(props, payload, ep, n)
    ensures props[payload[0].0].ep == ep ==> Settable(props[payload[0].0]) != Some(n)
  {
    var t := payload[1..];
    var i :| 0 <= i < |t| && t[i].0 in props && props[t[i].0].ep == ep && Settable(props[t[i].0]) == Some(n);
    assert payload[i + 1] == t[i];
  }

  lemma {:induction false} GroupNamesDistinct(props: map<string, Cap>, payload: seq<(string, Json)>, ep: nat)
    requires OneCapPerName(props) && KeysDistinct(payload) && AllAcceptable(props, payload)
    ensures NamesDistinct(At(Requested(props, payload), ep))
    ensures forall w :: w in At(Requested(props, payload), ep) ==> Asked(props, payload, ep, NameOf(w.setting))
  {
    if payload != [] {
      var ws, wt := Requested(props, payload), Requested(props, payload[1..]);
      assert ws[1..] == wt;
      GroupNamesDistinct(props, payload[1..], ep);
      NameAccepted(props[payload[0].0], payload[0].1);
      assert ws[0].ep == ep ==> Asked(props, payload, ep, NameOf(ws[0].setting));
      hide Accept;
      hide Settable;
      hide OneCapPerName;
      forall w | w in At(wt, ep)
        ensures Asked(props, payload, ep, NameOf(w.setting))
        ensures ws[0].ep == ep ==> NameOf(w.setting) != NameOf(ws[0].setting)
      {
        AskedLater(props, payload, ep, NameOf(w.setting));
      }
      hide Asked;
    }
  }

  lemma NameAccepted(c: Cap, v: Json)
    requires Accept(c, v).Some?
    ensures Settable(c) == Some(NameOf(Accept(c, v).value))
    ensures c.LevelCap? <==> Accept(c, v).value.Brightness?
  {
  }

  lemma {:induction false} RequestedLit(props: map<string, Cap>, payload: seq<(string, Json)>, ep: nat, o: Opts)
    requires AllAcceptable(props, payload)
    ensures Lit(At(Requested(props, payload), ep))
  {
    if payload != [] {
      var (p, v) := payload[0];
      assert Requested(props, payload)[1..] == Requested(props, payload[1..]);
      RequestedLit(props, payload[1..], ep, o);
      NameAccepted(props[p], v);
      if props[p].LevelCap? {
        BrightnessAtLeastOne(props[p], v, o);
      }
      hide Accept;
    }
  }

  // ---- from payload to light ----------------------------------------------------------------

  /** Each command reaches the light at its endpoint. */
  function Deliver(lights: map<nat, Light>, sent: seq<(nat, Command)>): (r: map<nat, Light>)
    ensures r.Keys == lights.Keys
    decreases |sent|
  {
    if sent == [] then lights
    else
      var (ep, c) := sent[0];
      Deliver(if ep in lights then lights[ep := Obey(lights[ep], c)] else lights, sent[1..])
  }

  lemma {:induction false} DeliverIsExecute(lights: map<nat, Light>, sent: seq<(nat, Command)>,
                                            ordered: seq<Write>, o: Opts)
    requires Sent(sent, ordered, o)
    ensures Deliver(lights, sent) == Execute(lights, ordered, o)
    decreases |sent|
  {
    hide Build;
    hide Obey;
    if sent != [] {
      var (ep, c) := sent[0];
      var next := if ep in lights then lights[ep := Obey(lights[ep], c)] else lights;
      DeliverIsExecute(next, sent[1..], ordered[1..], o);
    }
  }

  lemma OneSwitch(g: seq<Write>, i: nat)
    requires NamesDistinct(g) && i < |g| && g[0].setting.Switch? && g[i].setting.Switch?
    ensures i == 0
  {
    assert NameOf(g[i].setting) == NameOf(g[0].setting);
  }

  /** With distinct names, the state of a group is whatever switch is in it. */
  lemma {:induction false} StateIn(g: seq<Write>, w: Write)
    requires NamesDistinct(g) && w in g && w.setting.Switch?
    ensures StateOf(g) == Some(w.setting.power)
  {
    if g[0].setting.Switch? {
      var i :| 0 <= i < |g| && g[i] == w;
      OneSwitch(g, i);
    } else {
      StateIn(g[1..], w);
    }
  }

  lemma GroupStates(g: seq<Write>, ep: nat)
    requires NamesDistinct(g) && AllAt(g, ep)
    ensures forall p :: Write(ep, Switch(p)) in g <==> StateOf(g) == Some(p)
  {
    forall p ensures Write(ep, Switch(p)) in g <==> StateOf(g) == Some(p) {
      if Write(ep, Switch(p)) in g {
        StateIn(g, Write(ep, Switch(p)));
      }
      if StateOf(g) == Some(p) {
        OneState(g);
        PartsOf(g);
        assert States(g)[0] in g;
      }
    }
  }

  /** Main theorem, from payload to light, per endpoint, for a request Set accepts with with_on_off b.
      What the payload says for the endpoint is what its group holds. OFF: the light ends off and is
      otherwise untouched. ON: it ends on, at the level and colour asked for. TOGGLE: it toggles.
      Neither: what its power, b and the payload's order allow. */
  lemma SetMeaning(es: seq<Naming.Endpoint>, props: map<string, Cap>, payload: seq<(string, Json)>,
                   transition: Json, b: bool, sent: seq<(nat, Command)>, ordered: seq<Write>, o: Opts,
                   lights: map<nat, Light>, ep: nat)
    requires OfDevice(props, es) && KeysDistinct(payload) && AllAcceptable(props, payload) && ep in lights
    requires !TwoColorModes(Requested(props, payload)) && !ToggleAndMore(Requested(props, payload))
    requires OptsOf(transition, Bool(b), o) && Sent(sent, ordered, o)
    requires forall e :: At(ordered, e) == Plan(At(Requested(props, payload), e))
    ensures var g, l, l' := At(Requested(props, payload), ep), lights[ep], Deliver(lights, sent)[ep];
            && o.withOnOff == b
            && (forall s :: Write(ep, s) in g <==> Says(props, payload, ep, s))
            && (Says(props, payload, ep, Switch(Off)) ==> l' == l.(on := false))
            && (Says(props, payload, ep, Switch(On)) ==> Applied(l, g, o, l'))
            && (Says(props, payload, ep, Switch(Toggle)) ==> l' == l.(on := !l.on))
            && ((forall p :: !Says(props, payload, ep, Switch(p))) ==> AsPowerAllows(l, g, o, l'))
  {
    hide *;
    RefusedExactly(Requested(props, payload));
    DeliverIsExecute(lights, sent, ordered, o);
    DeviceHasEachOnce(props, es);
    GroupNamesDistinct(props, payload, ep);
    RequestedLit(props, payload, ep, o);
    RequestedAre(props, payload, ep);
    AtIsAt(Requested(props, payload), ep);
    GroupStates(At(Requested(props, payload), ep), ep);
    SomeState(At(Requested(props, payload), ep));
    NotConflict(Requested(props, payload), ep);
    OnOffAsGiven(transition, b, o);
    PlanMeaning(lights, Requested(props, payload), ordered, o, ep);
  }

  lemma OnOffAsGiven(transition: Json, b: bool, o: Opts)
    requires OptsOf(transition, Bool(b), o)
    ensures o.withOnOff == b
  {
  }

  lemma SomeState(g: seq<Write>)
    ensures StateOf(g) == None || exists p :: StateOf(g) == Some(p)
  {
    hide *;
    if StateOf(g).Some? {
      assert StateOf(g) == Some(StateOf(g).value);
    }
  }

  lemma NotConflict(ws: seq<Write>, ep: nat)
    requires !Refused(ws)
    ensures !Conflict(At(ws, ep))
  {
    if Conflict(At(ws, ep)) {
      RefusedAt(ws, ep);
    }
    hide *;
  }

  // ---- the order of a payload without a state ------------------------------------------------

  const LIGHT_PROPS: map<string, Cap> :=
    map["brightness" := LevelCap(1, None, None), "color" := ColorCap(1, true, false)]
  const DARK := Light(false, 0, None)
  const RED := Obj(map["hue" := Int(0), "saturation" := Int(100)])
  const COLOR_FIRST: seq<(string, Json)> := [("color", RED), ("brightness", Int(100))]
  const BRIGHTNESS_FIRST: seq<(string, Json)> := [("brightness", Int(100)), ("color", RED)]

  lemma RequestedColor()
    ensures AllAcceptable(LIGHT_PROPS, COLOR_FIRST) && AllAcceptable(LIGHT_PROPS, BRIGHTNESS_FIRST)
    ensures var c, b := Write(1, HueSat(0.0, 100.0)), Write(1, Brightness(100.0));
            && Requested(LIGHT_PROPS, COLOR_FIRST) == [c, b]
            && Requested(LIGHT_PROPS, BRIGHTNESS_FIRST) == [b, c]
            && !Refused([c, b]) && !Refused([b, c])
  {
    NoConflict(Write(1, HueSat(0.0, 100.0)), Write(1, Brightness(100.0)));
    NoConflict(Write(1, Brightness(100.0)), Write(1, HueSat(0.0, 100.0)));
    hide Refused;
    assert Accept(ColorCap(1, true, false), RED) == Some(HueSat(0.0, 100.0));
    assert Accept(LevelCap(1, None, None), Int(100)) == Some(Brightness(100.0));
    hide Accept;
  }

  lemma NoConflict(v: Write, w: Write)
    requires v.ep == w.ep && !v.setting.Switch? && !w.setting.Switch? && !v.setting.ColorTemp? && !w.setting.ColorTemp?
    ensures !Refused([v, w])
  {
    var ws := [v, w];
    TwoWrites(v, w, DARK, Opts(0, true));
    assert !Has(ws, ColorTempName);
    forall ep: nat ensures !Conflict(At(ws, ep)) {
      AtOf(ws, v.ep, ep);
    }
  }

  /** The same payload in two orders, sent to a light that is off: both are accepted and switch it on
      at the level asked for, but it becomes red only if the brightness comes first. */
  lemma PayloadOrderMatters(ordered: seq<Write>, ordered': seq<Write>, o: Opts)
    requires o.withOnOff
    requires AllAcceptable(LIGHT_PROPS, COLOR_FIRST) && AllAcceptable(LIGHT_PROPS, BRIGHTNESS_FIRST)
    requires forall e :: At(ordered, e) == Plan(At(Requested(LIGHT_PROPS, COLOR_FIRST), e))
    requires forall e :: At(ordered', e) == Plan(At(Requested(LIGHT_PROPS, BRIGHTNESS_FIRST), e))
    ensures !Refused(Requested(LIGHT_PROPS, COLOR_FIRST)) && !Refused(Requested(LIGHT_PROPS, BRIGHTNESS_FIRST))
    ensures Execute(map[1 := DARK], ordered, o)[1] == Light(true, 100, None)
    ensures Execute(map[1 := DARK], ordered', o)[1] ==
            Light(true, 100, Some(MoveToHueAndSaturation(0, 254, o.transition)))
  {
    RequestedColor();
    hide AllAcceptable;
    hide Accept;
    hide Requested;
    hide Refused;
    var c, b := Write(1, HueSat(0.0, 100.0)), Write(1, Brightness(100.0));
    DarkLight(o);
    hide Build;
    hide Obey;
    TwoWrites(c, b, DARK, o);
    TwoWrites(b, c, DARK, o);
    hide ObeyAll;
    hide At;
    hide Plan;
    hide Execute;
    EndpointsIndependent(map[1 := DARK], ordered, o, 1);
    EndpointsIndependent(map[1 := DARK], ordered', o, 1);
  }

  lemma DarkLight(o: Opts)
    requires o.withOnOff
    ensures var c, b := Build(HueSat(0.0, 100.0), o), Build(Brightness(100.0), o);
            && Obey(Obey(DARK, c), b) == Light(true, 100, None)
            && Obey(Obey(DARK, b), c) == Light(true, 100, Some(MoveToHueAndSaturation(0, 254, o.transition)))
  {
    assert 100.0 * 254.0 / 100.0 == 254.0;
  }

  lemma TwoWrites(v: Write, w: Write, l: Light, o: Opts)
    requires v.ep == w.ep && !v.setting.Switch? && !w.setting.Switch?
    ensures At([v, w], v.ep) == [v, w] && StateOf([v, w]) == None && Plan([v, w]) == [v, w]
    ensures ObeyAll(l, [v, w], o) == Obey(Obey(l, Build(v.setting, o)), Build(w.setting, o))
  {
    hide Build;
    hide Obey;
    var ws, t := [v, w], [w];
    assert ws[1..] == t && t[1..] == [];
    assert At(t, v.ep) == [w];
    assert StateOf(t) == None;
    OneByOne(Obey(l, Build(v.setting, o)), t, o);
  }
}
