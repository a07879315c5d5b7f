/** How a device names the properties of its capabilities, and what it publishes about them. */
module Naming {
  import opened Bytes

  /** One capability: its name, its endpoint, and whether it goes into the endpoint's light/switch
      group. pairs: for a colour, how many of {hue, saturation} and {x, y} it supports. */
  datatype Cap = Cap(name: string, ep: nat, actuator: bool, pairs: nat)

  /** What an endpoint's clusters say: on/off, level, colour with its capability bits, a switch, and
      which sensor attributes are reported. */
  datatype Endpoint = Endpoint(ep: nat, onOff: bool, level: bool, color: Option<ColorBits>,
                               button: bool, sensors: set<string>)
  datatype ColorBits = ColorBits(temperature: bool, hueSat: bool, xy: bool)

  const SENSORS: seq<string> :=
    ["temperature", "humidity", "pressure", "illuminance", "occupancy", "contact", "battery", "battery_low"]
  const ACTUATORS: seq<string> := ["state", "brightness", "color_temp", "color", "color_mode"]
  const BATTERY: set<string> := {"battery", "battery_low"}
  const ACTION: string := "action"

  /** Of a fixed list of names, those that are present, in the list's order. */
  function Present(names: seq<string>, present: set<string>, ep: nat, actuator: bool, pairs: nat): (caps: seq<Cap>)
    ensures forall c :: c in caps ==> c.name in names && c.name in present && c.ep == ep && c.actuator == actuator
    ensures forall c :: c in caps ==> c.pairs == if c.name == "color" then pairs else 1
  {
    if names == [] then []
    else
      (if names[0] in present then [Cap(names[0], ep, actuator, if names[0] == "color" then pairs else 1)] else [])
      + Present(names[1..], present, ep, actuator, pairs)
  }

  function ActuatorNames(e: Endpoint): set<string> {
    if !e.onOff then {}
    else
      {"state"}
      + (if e.level then {"brightness"} else {})
      + (if e.color.None? then {}
         else {"color_mode"}
              + (if e.color.value.temperature then {"color_temp"} else {})
              + (if e.color.value.hueSat || e.color.value.xy then {"color"} else {}))
  }

  function Pairs(e: Endpoint): nat {
    if e.color.None? then 0
    else (if e.color.value.hueSat then 1 else 0) + (if e.color.value.xy then 1 else 0)
  }

  /** endpoint_caps, and for the root endpoint just the battery. */
  function CapsOf(e: Endpoint): seq<Cap> {
    if e.ep == 0 then Present(SENSORS, e.sensors * BATTERY, 0, false, 0)
    else
      Present(ACTUATORS, ActuatorNames(e), e.ep, true, Pairs(e))
      + Present(SENSORS, e.sensors, e.ep, false, 0)
      + (if e.button then [Cap(ACTION, e.ep, false, 1)] else [])
  }

  function AllCaps(es: seq<Endpoint>): seq<Cap> {
    if es == [] then [] else CapsOf(es[0]) + AllCaps(es[1..])
  }

  lemma {:induction false} PresentNames(names: seq<string>, present: set<string>,
                                        ep: nat, actuator: bool, pairs: nat, n: string)
    ensures (exists c :: c in Present(names, present, ep, actuator, pairs) && c.name == n)
            <==> n in names && n in present
  {
    if names != [] {
      PresentNames(names[1..], present, ep, actuator, pairs, n);
      var c := Cap(names[0], ep, actuator, if names[0] == "color" then pairs else 1);
      assert names[0] in present ==> c in Present(names, present, ep, actuator, pairs);
    }
  }

  lemma NamesListed(n: string)
    ensures n in SENSORS <==>
            || n == "temperature" || n == "humidity" || n == "pressure" || n == "illuminance"
            || n == "occupancy" || n == "contact" || n == "battery" || n == "battery_low"
    ensures n in ACTUATORS <==>
            n == "state" || n == "brightness" || n == "color_temp" || n == "color" || n == "color_mode"
  {
  }

  /** The capabilities of an endpoint other than the root. A light has a level and colours only where
      it can be switched; the rest is what is reported. */
  lemma EndpointHas(e: Endpoint, n: string)
    requires e.ep != 0
    ensures (exists c :: c in CapsOf(e) && c.name == n) <==>
            || (n == "state" && e.onOff)
            || (n == "brightness" && e.onOff && e.level)
            || (n == "color_temp" && e.onOff && e.color.Some? && e.color.value.temperature)
            || (n == "color" && e.onOff && e.color.Some? && (e.color.value.hueSat || e.color.value.xy))
            || (n == "color_mode" && e.onOff && e.color.Some?)
            || (n in SENSORS && n in e.sensors)
            || (n == "action" && e.button)
  {
    PresentNames(ACTUATORS, ActuatorNames(e), e.ep, true, Pairs(e), n);
    PresentNames(SENSORS, e.sensors, e.ep, false, 0, n);
    NamesListed(n);
    ActuatorsAre(e, n);
    var a := Present(ACTUATORS, ActuatorNames(e), e.ep, true, Pairs(e));
    var s := Present(SENSORS, e.sensors, e.ep, false, 0);
    var b := if e.button then [Cap(ACTION, e.ep, false, 1)] else [];
    assert CapsOf(e) == a + s + b;
    hide *;
    InParts(a, s, b, n);
    ActionPart(e, b, n);
  }

  lemma InParts(a: seq<Cap>, b: seq<Cap>, c: seq<Cap>, n: string)
    ensures (exists x :: x in a + b + c && x.name == n) <==>
            || (exists x :: x in a && x.name == n)
            || (exists x :: x in b && x.name == n)
            || (exists x :: x in c && x.name == n)
  {
    assert forall x :: x in a + b + c <==> x in a || x in b || x in c;
  }

  lemma ActionPart(e: Endpoint, b: seq<Cap>, n: string)
    requires b == if e.button then [Cap("action", e.ep, false, 1)] else []
    ensures (exists x :: x in b && x.name == n) <==> e.button && n == "action"
  {
    assert e.button ==> b[0] in b;
  }

  lemma ActuatorsAre(e: Endpoint, n: string)
    ensures n in ACTUATORS && n in ActuatorNames(e) <==>
            || (n == "state" && e.onOff)
            || (n == "brightness" && e.onOff && e.level)
            || (n == "color_temp" && e.onOff && e.color.Some? && e.color.value.temperature)
            || (n == "color" && e.onOff && e.color.Some? && (e.color.value.hueSat || e.color.value.xy))
            || (n == "color_mode" && e.onOff && e.color.Some?)
  {
    NamesListed(n);
    hide ACTUATORS;
  }

  /** The root endpoint gives the battery and nothing else. */
  lemma RootHas(e: Endpoint, n: string)
    requires e.ep == 0
    ensures (exists c :: c in CapsOf(e) && c.name == n) <==> (n == "battery" || n == "battery_low") && n in e.sensors
  {
    PresentNames(SENSORS, e.sensors * BATTERY, 0, false, 0, n);
    NamesListed(n);
    hide Present;
    hide SENSORS;
  }

  // ---- one capability per name and endpoint -------------------------------------------------

  predicate NoRepeat(caps: seq<Cap>) {
    forall i, j :: 0 <= i < j < |caps| ==> caps[i].name != caps[j].name || caps[i].ep != caps[j].ep
  }

  predicate NoRepeats(names: seq<string>) {
    forall i, j :: 0 <= i < j < |names| ==> names[i] != names[j]
  }

  lemma {:induction false} PresentNoRepeat(names: seq<string>, present: set<string>,
                                           ep: nat, actuator: bool, pairs: nat)
    requires NoRepeats(names)
    ensures NoRepeat(Present(names, present, ep, actuator, pairs))
  {
    if names != [] {
      PresentNoRepeat(names[1..], present, ep, actuator, pairs);
      var t := Present(names[1..], present, ep, actuator, pairs);
      forall j | 0 <= j < |t| ensures t[j].name != names[0] {
        assert t[j] in t;
      }
    }
  }

  lemma NoRepeatAppend(a: seq<Cap>, b: seq<Cap>)
    requires NoRepeat(a) && NoRepeat(b)
    requires forall c, d :: c in a && d in b ==> c.name != d.name || c.ep != d.ep
    ensures NoRepeat(a + b)
  {
    forall i, j | 0 <= i < j < |a + b| ensures (a + b)[i].name != (a + b)[j].name || (a + b)[i].ep != (a + b)[j].ep {
      if i < |a| <= j {
        assert (a + b)[i] in a && (a + b)[j] in b;
      }
    }
  }

  /** A name the device can give to a capability. */
  predicate BaseName(n: string) {
    n in ACTUATORS || n in SENSORS || n == ACTION
  }

  lemma NamesApart()
    ensures forall n :: n in ACTUATORS ==> n !in SENSORS && n != ACTION
    ensures ACTION !in SENSORS && ACTION != "color" && "color" !in SENSORS
    ensures NoRepeats(ACTUATORS) && NoRepeats(SENSORS)
  {
  }

  lemma ColorHasPairs(e: Endpoint)
    ensures "color" in ActuatorNames(e) ==> Pairs(e) > 0
  {
  }

  lemma CapsOfEndpoint(e: Endpoint)
    ensures NoRepeat(CapsOf(e)) && forall c :: c in CapsOf(e) ==> c.ep == e.ep && BaseName(c.name) && c.pairs > 0
  {
    NamesApart();
    ColorHasPairs(e);
    hide ActuatorNames;
    hide Pairs;
    PresentNoRepeat(SENSORS, e.sensors * BATTERY, 0, false, 0);
    PresentNoRepeat(ACTUATORS, ActuatorNames(e), e.ep, true, Pairs(e));
    PresentNoRepeat(SENSORS, e.sensors, e.ep, false, 0);
    hide Present;
    hide SENSORS;
    hide ACTUATORS;
    if e.ep != 0 {
      var a := Present(ACTUATORS, ActuatorNames(e), e.ep, true, Pairs(e));
      var s := Present(SENSORS, e.sensors, e.ep, false, 0);
      NoRepeatAppend(a, s);
      NoRepeatAppend(a + s, if e.button then [Cap(ACTION, e.ep, false, 1)] else []);
    }
  }

  /** The endpoints of a node are distinct: they are the keys of a dict. */
  predicate DistinctEndpoints(es: seq<Endpoint>) {
    forall i, j :: 0 <= i < j < |es| ==> es[i].ep != es[j].ep
  }

  lemma {:induction false} AllCapsNoRepeat(es: seq<Endpoint>)
    requires DistinctEndpoints(es)
    ensures NoRepeat(AllCaps(es))
    ensures forall c :: c in AllCaps(es) ==> BaseName(c.name) && c.pairs > 0 && exists e :: e in es && e.ep == c.ep
  {
    if es != [] {
      CapsOfEndpoint(es[0]);
      AllCapsNoRepeat(es[1..]);
      forall c, d | c in CapsOf(es[0]) && d in AllCaps(es[1..]) ensures c.ep != d.ep {
        var e :| e in es[1..] && e.ep == d.ep;
      }
      NoRepeatAppend(CapsOf(es[0]), AllCaps(es[1..]));
      assert es[0] in es && forall e :: e in es[1..] ==> e in es;
    }
  }

  lemma SameCap(es: seq<Endpoint>, c: Cap, d: Cap)
    requires DistinctEndpoints(es) && c in AllCaps(es) && d in AllCaps(es) && c.name == d.name && c.ep == d.ep
    ensures c == d
  {
    AllCapsNoRepeat(es);
    var caps := AllCaps(es);
    var i, j :| 0 <= i < |caps| && 0 <= j < |caps| && caps[i] == c && caps[j] == d;
  }

  // ---- the suffixing rule -------------------------------------------------------------------

  function Digit(n: nat): char
    requires n < 10
  {
    "0123456789"[n]
  }

  predicate IsDigit(c: char) {
    '0' <= c <= '9'
  }

  /** str(n) */
  function Decimal(n: nat): (s: string)
    ensures s != [] && forall i :: 0 <= i < |s| ==> IsDigit(s[i])
  {
    if n < 10 then [Digit(n)] else Decimal(n / 10) + [Digit(n % 10)]
  }

  lemma {:induction false} DecimalInjective(m: nat, n: nat)
    requires Decimal(m) == Decimal(n)
    ensures m == n
  {
    var s := Decimal(m);
    assert s[|s| - 1] == Digit(m % 10) == Digit(n % 10);
    if m < 10 || n < 10 {
      assert |Decimal(m)| == 1 && |Decimal(n)| == 1;
    } else {
      assert s[..|s| - 1] == Decimal(m / 10) == Decimal(n / 10);
      DecimalInjective(m / 10, n / 10);
    }
  }

  /** int(s) */
  function Value(s: string): int {
    if s == "" then 0 else 10 * Value(s[..|s| - 1]) + (s[|s| - 1] as int - '0' as int)
  }

  lemma {:induction false} DecimalValue(n: nat)
    ensures Value(Decimal(n)) == n
  {
    var s := Decimal(n);
    if n < 10 {
      assert s[..0] == "";
    } else {
      DecimalValue(n / 10);
      assert s[..|s| - 1] == Decimal(n / 10);
    }
  }

  function Suffixed(c: Cap): string {
    c.name + "_" + Decimal(c.ep)
  }

  /** Names and endpoints can be read back from suffixed names. */
  lemma SuffixedInjective(c: Cap, d: Cap)
    requires Suffixed(c) == Suffixed(d)
    ensures c.name == d.name && c.ep == d.ep
  {
    var s, x, y := Suffixed(c), Decimal(c.ep), Decimal(d.ep);
    assert s[|c.name|] == '_' == s[|d.name|];
    assert forall i :: |c.name| < i < |s| ==> s[i] == x[i - |c.name| - 1];
    assert forall i :: |d.name| < i < |s| ==> s[i] == y[i - |d.name| - 1];
    assert c.name == s[..|c.name|] == d.name;
    assert x == s[|c.name| + 1..] == y;
    DecimalInjective(c.ep, d.ep);
  }

  /** No capability's name looks like a suffixed one. */
  lemma BaseNotSuffixed(n: string, c: Cap)
    requires BaseName(n)
    ensures n != Suffixed(c)
  {
    var s, x := Suffixed(c), Decimal(c.ep);
    assert s[|s| - 1] == x[|x| - 1];
    assert !IsDigit(n[|n| - 1]);
  }

  function Count(caps: seq<Cap>, name: string): nat {
    if caps == [] then 0 else (if caps[0].name == name then 1 else 0) + Count(caps[1..], name)
  }

  /** The property name of c among caps. */
  function Prop(caps: seq<Cap>, c: Cap): string {
    if Count(caps, c.name) > 1 then Suffixed(c) else c.name
  }

  lemma {:induction false} CountTwo(caps: seq<Cap>, i: nat, j: nat)
    requires i < j < |caps| && caps[i].name == caps[j].name
    ensures Count(caps, caps[i].name) > 1
  {
    if i == 0 {
      CountOne(caps[1..], j - 1);
    } else {
      CountTwo(caps[1..], i - 1, j - 1);
    }
  }

  lemma {:induction false} CountOne(caps: seq<Cap>, j: nat)
    requires j < |caps|
    ensures Count(caps, caps[j].name) > 0
  {
    if j > 0 {
      CountOne(caps[1..], j - 1);
    }
  }

  lemma {:induction false} CountAlone(caps: seq<Cap>, i: nat)
    requires i < |caps| && forall j :: 0 <= j < |caps| && j != i ==> caps[j].name != caps[i].name
    ensures Count(caps, caps[i].name) == 1
  {
    var t := caps[1..];
    if i == 0 {
      CountNone(t, caps[0].name);
    } else {
      assert forall j :: 0 <= j < |t| && j != i - 1 ==> t[j].name != t[i - 1].name;
      CountAlone(t, i - 1);
    }
  }

  lemma {:induction false} CountNone(caps: seq<Cap>, n: string)
    requires forall j :: 0 <= j < |caps| ==> caps[j].name != n
    ensures Count(caps, n) == 0
  {
    if caps != [] {
      CountNone(caps[1..], n);
    }
  }

  /** A capability is named after its endpoint too exactly if another one has its name. */
  lemma SuffixedExactly(caps: seq<Cap>, i: nat)
    requires i < |caps|
    ensures Prop(caps, caps[i]) ==
            if exists j :: 0 <= j < |caps| && j != i && caps[j].name == caps[i].name
            then caps[i].name + "_" + Decimal(caps[i].ep)
            else caps[i].name
  {
    if j :| 0 <= j < |caps| && j != i && caps[j].name == caps[i].name {
      CountTwo(caps, if i < j then i else j, if i < j then j else i);
    } else {
      CountAlone(caps, i);
    }
    hide Count;
  }

  /** Main theorem: for every set of endpoints and clusters, no two capabilities share a property. */
  lemma PropsInjective(es: seq<Endpoint>, i: nat, j: nat)
    requires DistinctEndpoints(es) && i < j < |AllCaps(es)|
    ensures Prop(AllCaps(es), AllCaps(es)[i]) != Prop(AllCaps(es), AllCaps(es)[j])
  {
    var caps := AllCaps(es);
    AllCapsNoRepeat(es);
    assert caps[i] in caps && caps[j] in caps;
    BaseNotSuffixed(caps[i].name, caps[j]);
    BaseNotSuffixed(caps[j].name, caps[i]);
    if caps[i].name == caps[j].name {
      CountTwo(caps, i, j);
    }
    if Suffixed(caps[i]) == Suffixed(caps[j]) {
      SuffixedInjective(caps[i], caps[j]);
    }
  }

  /** Counter(c.name for c in caps) */
  method CountNames(caps: seq<Cap>) returns (counts: map<string, nat>)
    ensures forall n :: Count(caps, n) == if n in counts then counts[n] else 0
  {
    counts := map[];
    for i := 0 to |caps|
      invariant forall n :: Count(caps[..i], n) == if n in counts then counts[n] else 0
    {
      CountAppend(caps, i);
      var n := caps[i].name;
      counts := counts[n := (if n in counts then counts[n] else 0) + 1];
    }
    assert caps[..|caps|] == caps;
  }

  /** Sets c.prop of every capability. */
  method AssignProps(caps: seq<Cap>) returns (prop: seq<string>)
    ensures |prop| == |caps| && forall i :: 0 <= i < |caps| ==> prop[i] == Prop(caps, caps[i])
  {
    hide Count;
    hide Suffixed;
    var counts := CountNames(caps);
    prop := [];
    for i := 0 to |caps|
      invariant |prop| == i && forall j :: 0 <= j < i ==> prop[j] == Prop(caps, caps[j])
    {
      CountOne(caps, i);
      prop := prop + [if counts[caps[i].name] > 1 then Suffixed(caps[i]) else caps[i].name];
    }
  }

  /** Device.props: no capability of a real device is lost in the dict. */
  method BuildProps(es: seq<Endpoint>) returns (prop: seq<string>, props: map<string, Cap>)
    requires DistinctEndpoints(es)
    ensures var caps := AllCaps(es);
            && |prop| == |caps| == |props|
            && forall i :: 0 <= i < |caps| ==>
                 prop[i] == Prop(caps, caps[i]) && prop[i] in props && props[prop[i]] == caps[i]
    ensures forall p :: p in props ==> props[p] in AllCaps(es) && p == Prop(AllCaps(es), props[p])
  {
    var caps := AllCaps(es);
    prop := AssignProps(caps);
    forall i, j | 0 <= i < j < |caps| ensures prop[i] != prop[j] {
      PropsInjective(es, i, j);
    }
    props := KeyBy(prop, caps);
  }

  /** {c.prop: c for c in caps} */
  method KeyBy(prop: seq<string>, caps: seq<Cap>) returns (props: map<string, Cap>)
    requires |prop| == |caps| && NoRepeats(prop)
    ensures |props| == |caps| && forall i :: 0 <= i < |caps| ==> prop[i] in props && props[prop[i]] == caps[i]
    ensures forall p :: p in props ==> p in prop
  {
    props := map[];
    for i := 0 to |caps|
      invariant forall p :: p in props <==> p in prop[..i]
      invariant |props| == i && forall j :: 0 <= j < i ==> prop[j] in props && props[prop[j]] == caps[j]
    {
      assert prop[i] !in prop[..i] && prop[..i + 1] == prop[..i] + [prop[i]];
      props := props[prop[i] := caps[i]];
    }
  }

  lemma CountAppend(caps: seq<Cap>, i: nat)
    requires i < |caps|
    ensures forall n :: Count(caps[..i + 1], n) == Count(caps[..i], n) + if caps[i].name == n then 1 else 0
  {
    assert caps[..i + 1] == caps[..i] + [caps[i]];
    forall n ensures Count(caps[..i + 1], n) == Count(caps[..i], n) + if caps[i].name == n then 1 else 0 {
      CountLast(caps[..i], caps[i], n);
    }
  }

  lemma {:induction false} CountLast(a: seq<Cap>, c: Cap, n: string)
    ensures Count(a + [c], n) == Count(a, n) + if c.name == n then 1 else 0
  {
    if a != [] {
      assert (a + [c])[1..] == a[1..] + [c];
      CountLast(a[1..], c, n);
    }
  }

  // ---- the published schema -----------------------------------------------------------------

  /** The property names of a capability's entries: two for a colour with both pairs. */
  function Entries(caps: seq<Cap>, c: Cap): seq<string> {
    seq(c.pairs, _ => Prop(caps, c))
  }

  /** The property names in `exposes`, groups' direct features included, in order. */
  function Exposed(all: seq<Cap>, caps: seq<Cap>): seq<string> {
    if caps == [] then [] else Entries(all, caps[0]) + Exposed(all, caps[1..])
  }

  lemma {:induction false} ExposedAre(all: seq<Cap>, caps: seq<Cap>)
    requires forall c :: c in caps ==> c.pairs > 0
    ensures forall p :: p in Exposed(all, caps) <==> exists c :: c in caps && p == Prop(all, c)
  {
    if caps != [] {
      ExposedAre(all, caps[1..]);
      assert caps[0] in caps;
      assert Entries(all, caps[0])[0] == Prop(all, caps[0]);
      forall p ensures p in Exposed(all, caps) <==> exists c :: c in caps && p == Prop(all, c) {
        if c :| c in caps && p == Prop(all, c) {
          assert c == caps[0] || c in caps[1..];
        }
      }
    }
  }

  /** Main theorem: schema and dispatcher cannot drift. The names in `exposes` are exactly the keys
      of `props`, whatever the endpoints. */
  lemma SchemaMatches(es: seq<Endpoint>, prop: seq<string>)
    requires DistinctEndpoints(es)
    requires var caps := AllCaps(es);
             |prop| == |caps| && forall i :: 0 <= i < |caps| ==> prop[i] == Prop(caps, caps[i])
    ensures forall p :: p in Exposed(AllCaps(es), AllCaps(es)) <==> p in prop
  {
    var caps := AllCaps(es);
    AllCapsNoRepeat(es);
    ExposedAre(caps, caps);
    forall p ensures (exists c :: c in caps && p == Prop(caps, c)) <==> p in prop {
      if c :| c in caps && p == Prop(caps, c) {
        var i :| 0 <= i < |caps| && caps[i] == c;
        assert prop[i] in prop;
      }
      if p in prop {
        var i :| 0 <= i < |prop| && prop[i] == p;
        assert caps[i] in caps;
      }
    }
  }
}
