/** Bridge.order_writes: settings of one request that fight each other, sorted out per endpoint. */
module WriteOrder {
  import opened Bytes
  import opened Lights

  predicate Has(g: seq<Write>, n: Name) {
    exists i :: 0 <= i < |g| && NameOf(g[i].setting) == n
  }

  /** The first state given in the group. */
  function StateOf(g: seq<Write>): Option<Power> {
    if g == [] then None
    else if g[0].setting.Switch? then Some(g[0].setting.power)
    else StateOf(g[1..])
  }

  function States(g: seq<Write>): seq<Write> {
    if g == [] then [] else (if g[0].setting.Switch? then [g[0]] else []) + States(g[1..])
  }

  function Others(g: seq<Write>): seq<Write> {
    if g == [] then [] else (if g[0].setting.Switch? then [] else [g[0]]) + Others(g[1..])
  }

  /** The two requests that are refused: both colour modes, or TOGGLE with anything else. */
  predicate Conflict(g: seq<Write>) {
    || (Has(g, ColorTempName) && Has(g, ColorName))
    || (StateOf(g) == Some(Toggle) && Others(g) != [])
  }

  /** Some write of ws asks for a colour temperature and some for a colour, at the same endpoint. */
  ghost predicate TwoColorModes(ws: seq<Write>) {
    exists v, w :: v in ws && w in ws && v.ep == w.ep
                   && v.setting.ColorTemp? && (w.setting.HueSat? || w.setting.Xy?)
  }

  /** The first switch of some endpoint is a toggle, and there is something else for that endpoint. */
  ghost predicate ToggleAndMore(ws: seq<Write>) {
    exists i, w :: 0 <= i < |ws| && w in ws && FirstSwitch(ws, i) && ws[i].setting == Switch(Toggle)
                   && w.ep == ws[i].ep && !w.setting.Switch?
  }

  ghost predicate FirstSwitch(ws: seq<Write>, i: nat)
    requires i < |ws|
  {
    ws[i].setting.Switch? && forall k :: 0 <= k < i && ws[k].ep == ws[i].ep ==> !ws[k].setting.Switch?
  }

  lemma {:induction false} AtMembers(ws: seq<Write>, ep: nat)
    ensures forall w :: w in At(ws, ep) <==> w in ws && w.ep == ep
  {
    if ws != [] {
      AtMembers(ws[1..], ep);
    }
  }

  lemma StateAt(ws: seq<Write>, ep: nat)
    requires ws != []
    ensures StateOf(At(ws, ep)) == if ws[0].ep == ep && ws[0].setting.Switch? then Some(ws[0].setting.power)
                                   else StateOf(At(ws[1..], ep))
  {
    var t := At(ws[1..], ep);
    assert ([ws[0]] + t)[1..] == t && [] + t == t;
  }

  /** The first switch is the state. */
  lemma {:induction false} StateIsFirst(ws: seq<Write>, ep: nat, i: nat)
    requires i < |ws| && ws[i].ep == ep && FirstSwitch(ws, i)
    ensures StateOf(At(ws, ep)) == Some(ws[i].setting.power)
  {
    var t := ws[1..];
    StateAt(ws, ep);
    if 0 < i {
      assert t[i - 1] == ws[i] && forall k :: 0 <= k < |t| ==> t[k] == ws[k + 1];
      StateIsFirst(t, ep, i - 1);
    }
  }

  lemma {:induction false} FirstOfState(ws: seq<Write>, ep: nat) returns (i: nat)
    requires StateOf(At(ws, ep)).Some?
    ensures i < |ws| && ws[i].ep == ep && FirstSwitch(ws, i) && ws[i].setting == Switch(StateOf(At(ws, ep)).value)
  {
    var t := ws[1..];
    StateAt(ws, ep);
    if ws[0].ep == ep && ws[0].setting.Switch? {
      i := 0;
    } else {
      i := FirstOfState(t, ep);
      i := i + 1;
      assert forall k :: 0 < k < |ws| ==> ws[k] == t[k - 1];
    }
  }

  lemma ColorModesAt(ws: seq<Write>, ep: nat)
    ensures Has(At(ws, ep), ColorTempName) && Has(At(ws, ep), ColorName) <==>
            exists v, w :: v in ws && w in ws && v.ep == ep && w.ep == ep
                           && v.setting.ColorTemp? && (w.setting.HueSat? || w.setting.Xy?)
  {
    AtMembers(ws, ep);
    HasMember(At(ws, ep), ColorTempName);
    HasMember(At(ws, ep), ColorName);
    hide Has;
    hide At;
    if v, w :| v in ws && w in ws && v.ep == ep && w.ep == ep
               && v.setting.ColorTemp? && (w.setting.HueSat? || w.setting.Xy?) {
      assert v in At(ws, ep) && w in At(ws, ep);
    }
    if Has(At(ws, ep), ColorTempName) && Has(At(ws, ep), ColorName) {
      var v :| v in At(ws, ep) && NameOf(v.setting) == ColorTempName;
      var w :| w in At(ws, ep) && NameOf(w.setting) == ColorName;
      assert v in ws && w in ws;
    }
  }

  lemma HasMember(g: seq<Write>, n: Name)
    ensures Has(g, n) <==> exists w :: w in g && NameOf(w.setting) == n
  {
    if w :| w in g && NameOf(w.setting) == n {
      var i :| 0 <= i < |g| && g[i] == w;
    }
  }

  /** In terms of the writes alone, when some endpoint's group is in conflict. */
  lemma RefusedExactly(ws: seq<Write>)
    ensures Refused(ws) <==> TwoColorModes(ws) || ToggleAndMore(ws)
  {
    hide At;
    if Refused(ws) {
      var ep: nat :| Conflict(At(ws, ep));
      ColorModesAt(ws, ep);
      if !(Has(At(ws, ep), ColorTempName) && Has(At(ws, ep), ColorName)) {
        AtMembers(ws, ep);
        PartsOf(At(ws, ep));
        var i := FirstOfState(ws, ep);
        var w := Others(At(ws, ep))[0];
        assert w in Others(At(ws, ep)) && w in At(ws, ep);
      }
    }
    if TwoColorModes(ws) {
      var v, w :| v in ws && w in ws && v.ep == w.ep
                  && v.setting.ColorTemp? && (w.setting.HueSat? || w.setting.Xy?);
      ColorModesAt(ws, v.ep);
      RefusedAt(ws, v.ep);
    }
    if ToggleAndMore(ws) {
      var i, w :| 0 <= i < |ws| && w in ws && FirstSwitch(ws, i) && ws[i].setting == Switch(Toggle)
                  && w.ep == ws[i].ep && !w.setting.Switch?;
      var ep := ws[i].ep;
      StateIsFirst(ws, ep, i);
      AtMembers(ws, ep);
      PartsOf(At(ws, ep));
      assert w in Others(At(ws, ep));
      RefusedAt(ws, ep);
    }
    hide Conflict;
  }

  /** What is sent to one endpoint: OFF alone, ON first, anything else as it came. */
  function Plan(g: seq<Write>): seq<Write> {
    if StateOf(g).None? || Others(g) == [] then g
    else if StateOf(g) == Some(Off) then States(g)
    else States(g) + Others(g)
  }

  /** All writes of g are for endpoint ep. */
  ghost predicate AllAt(g: seq<Write>, ep: nat) {
    forall w :: w in g ==> w.ep == ep
  }

  lemma {:induction false} AtOf(g: seq<Write>, ep: nat, ep': nat)
    requires AllAt(g, ep)
    ensures At(g, ep') == if ep' == ep then g else []
  {
    if g != [] {
      assert g[0] in g;
      AtOf(g[1..], ep, ep');
    }
  }

  lemma {:induction false} AtIsAt(ws: seq<Write>, ep: nat)
    ensures AllAt(At(ws, ep), ep)
  {
    if ws != [] {
      AtIsAt(ws[1..], ep);
    }
  }

  lemma {:induction false} PartsOf(g: seq<Write>)
    ensures forall w :: w in States(g) <==> w in g && w.setting.Switch?
    ensures forall w :: w in Others(g) <==> w in g && !w.setting.Switch?
  {
    if g != [] {
      PartsOf(g[1..]);
    }
  }

  lemma PlanAt(g: seq<Write>, ep: nat)
    requires AllAt(g, ep)
    ensures AllAt(Plan(g), ep)
  {
    PartsOf(g);
  }

  /** The request's writes by endpoint, endpoints in order of first mention. */
  method GroupByEndpoint(writes: seq<Write>) returns (order: seq<nat>, groups: map<nat, seq<Write>>)
    ensures groups.Keys == (set ep | ep in order)
    ensures forall a, b :: 0 <= a < b < |order| ==> order[a] != order[b]
    ensures forall ep: nat :: At(writes, ep) == if ep in groups then groups[ep] else []
  {
    hide At;
    order, groups := [], map[];
    assert writes[..0] == [];
    forall ep: nat ensures At([], ep) == [] {
      NothingAt(ep);
    }
    for i := 0 to |writes|
      invariant groups.Keys == (set ep | ep in order)
      invariant forall a, b :: 0 <= a < b < |order| ==> order[a] != order[b]
      invariant forall ep: nat :: At(writes[..i], ep) == if ep in groups then groups[ep] else []
    {
      var w := writes[i];
      AppendWrite(writes, i);
      if w.ep !in groups {
        order := order + [w.ep];
        groups := groups[w.ep := []];
      }
      groups := groups[w.ep := groups[w.ep] + [w]];
    }
    assert writes[..|writes|] == writes;
  }

  /** One endpoint's group: refused if it has both colour modes, or a toggle and something else;
      otherwise rearranged. */
  method OrderGroup(g: seq<Write>, ghost ep: nat) returns (r: Option<seq<Write>>)
    requires AllAt(g, ep)
    ensures r == if Conflict(g) then None else Some(Plan(g))
    ensures r == None <==>
            || (exists v, w :: v in g && w in g && v.setting.ColorTemp? && (w.setting.HueSat? || w.setting.Xy?))
            || (exists i, w :: 0 <= i < |g| && w in g && FirstSwitch(g, i)
                               && g[i].setting == Switch(Toggle) && !w.setting.Switch?)
  {
    GroupRefusedExactly(g, ep);
    var temp := HasName(g, ColorTempName);
    var color := HasName(g, ColorName);
    if temp && color {
      return None;
    }
    var state, others := StateOf(g), Others(g);
    if state.Some? && others != [] {
      if state.value == Toggle {
        return None;
      }
      if state.value == Off {
        return Some(States(g));
      }
      return Some(States(g) + others);
    }
    return Some(g);
  }

  /** Refuses the request if some endpoint gets both colour modes, or a toggle and something else;
      otherwise every endpoint gets exactly what is planned for it. */
  method OrderWrites(writes: seq<Write>) returns (r: Option<seq<Write>>)
    ensures r == None <==> Refused(writes)
    ensures r == None <==>
            || (exists v, w :: v in writes && w in writes && v.ep == w.ep
                               && v.setting.ColorTemp? && (w.setting.HueSat? || w.setting.Xy?))
            || (exists i, w :: 0 <= i < |writes| && w in writes && FirstSwitch(writes, i)
                               && writes[i].setting == Switch(Toggle) && w.ep == writes[i].ep && !w.setting.Switch?)
    ensures r.Some? ==> forall ep :: At(r.value, ep) == Plan(At(writes, ep))
  {
    hide At;
    hide Plan;
    hide Conflict;
    hide Refused;
    RefusedExactly(writes);
    hide FirstSwitch;
    var order, groups := GroupByEndpoint(writes);
    var ordered: seq<Write> := [];
    forall ep: nat ensures At([], ep) == [] && Plan([]) == [] && !Conflict([]) {
      NothingAt(ep);
    }
    for i := 0 to |order|
      invariant forall ep: nat :: ep !in order[..i] ==> At(ordered, ep) == []
      invariant forall ep: nat :: ep in order[..i] ==> At(ordered, ep) == Plan(At(writes, ep))
      invariant forall ep: nat :: ep in order[..i] ==> !Conflict(At(writes, ep))
    {
      var ep := order[i];
      AtIsAt(writes, ep);
      var group := OrderGroup(groups[ep], ep);
      if group == None {
        RefusedAt(writes, ep);
        return None;
      }
      PlanAt(At(writes, ep), ep);
      forall ep': nat
        ensures At(ordered + group.value, ep') == At(ordered, ep') + if ep' == ep then group.value else []
      {
        AtAppend(ordered, group.value, ep');
        AtOf(group.value, ep, ep');
      }
      assert order[..i + 1] == order[..i] + [ep];
      ordered := ordered + group.value;
    }
    assert order[..|order|] == order;
    NotRefused(writes, order);
    return Some(ordered);
  }

  ghost predicate Refused(writes: seq<Write>) {
    exists ep: nat :: Conflict(At(writes, ep))
  }

  lemma RefusedAt(writes: seq<Write>, ep: nat)
    requires Conflict(At(writes, ep))
    ensures Refused(writes)
  {
  }

  lemma NotRefused(writes: seq<Write>, order: seq<nat>)
    requires forall ep: nat :: At(writes, ep) == [] || (ep in order && !Conflict(At(writes, ep)))
    ensures !Refused(writes)
  {
  }

  lemma GroupRefusedExactly(g: seq<Write>, ep: nat)
    requires AllAt(g, ep)
    ensures Conflict(g) <==>
            || (exists v, w :: v in g && w in g && v.setting.ColorTemp? && (w.setting.HueSat? || w.setting.Xy?))
            || (exists i, w :: 0 <= i < |g| && w in g && FirstSwitch(g, i)
                               && g[i].setting == Switch(Toggle) && !w.setting.Switch?)
  {
    AtOf(g, ep, ep);
    forall e: nat ensures Conflict(At(g, e)) ==> e == ep {
      AtOf(g, ep, e);
      NothingAt(e);
    }
    assert Refused(g) <==> Conflict(g) by {
      assert Conflict(g) ==> Conflict(At(g, ep));
    }
    RefusedExactly(g);
    assert forall w :: w in g ==> w.ep == ep;
    hide Conflict;
    hide Refused;
    hide At;
    hide FirstSwitch;
  }

  lemma NothingAt(ep: nat)
    ensures At([], ep) == [] && Plan([]) == [] && !Conflict([])
  {
  }

  method HasName(g: seq<Write>, n: Name) returns (b: bool)
    ensures b == Has(g, n)
  {
    b := exists i :: 0 <= i < |g| && NameOf(g[i].setting) == n;
  }

  lemma AppendWrite(ws: seq<Write>, i: nat)
    requires i < |ws|
    ensures forall ep: nat :: At(ws[..i + 1], ep) == At(ws[..i], ep) + if ws[i].ep == ep then [ws[i]] else []
  {
    assert ws[..i + 1] == ws[..i] + [ws[i]];
    forall ep: nat ensures At(ws[..i + 1], ep) == At(ws[..i], ep) + if ws[i].ep == ep then [ws[i]] else [] {
      AtAppend(ws[..i], [ws[i]], ep);
      assert At([ws[i]], ep) == if ws[i].ep == ep then [ws[i]] else [];
    }
  }

  // ---- meaning ------------------------------------------------------------------------------

  /** A request names each property once, and an endpoint has each property once. */
  ghost predicate NamesDistinct(g: seq<Write>) {
    forall i, j :: 0 <= i < j < |g| ==> NameOf(g[i].setting) != NameOf(g[j].setting)
  }

  /** No brightness asks for level 0, which with on/off would switch off. */
  ghost predicate Lit(g: seq<Write>) {
    forall w :: w in g && w.setting.Brightness? ==> Round(w.setting.level) >= 1
  }

  /** Every setting of g other than the state has taken in l', and nothing else has changed. */
  ghost predicate Taken(l: Light, g: seq<Write>, o: Opts, l': Light) {
    && (forall w :: w in g && w.setting.Brightness? ==> l'.level == Round(w.setting.level))
    && (!Has(g, BrightnessName) ==> l'.level == l.level)
    && (forall w :: w in g && (w.setting.ColorTemp? || w.setting.HueSat? || w.setting.Xy?) ==>
          l'.color == Some(Build(w.setting, o)))
    && (!Has(g, ColorTempName) && !Has(g, ColorName) ==> l'.color == l.color)
  }

  ghost predicate Applied(l: Light, g: seq<Write>, o: Opts, l': Light) {
    l'.on && Taken(l, g, o, l')
  }

  /** What becomes of a group without a state: nothing at all on a light that is off, unless a
      brightness switches it on; then what came before that brightness is lost. */
  ghost predicate AsPowerAllows(l: Light, g: seq<Write>, o: Opts, l': Light) {
    if g == [] || (!l.on && (!o.withOnOff || !Has(g, BrightnessName))) then l' == l
    else if l.on || g[0].setting.Brightness? then Applied(l, g, o, l')
    else forall w :: w in g && w.setting.Brightness? ==> l' == l.(on := true, level := Round(w.setting.level))
  }

  lemma {:induction false} OthersApplied(l: Light, g: seq<Write>, o: Opts)
    requires l.on && NamesDistinct(g) && !(Has(g, ColorTempName) && Has(g, ColorName))
    requires !Has(g, StateName) && Lit(g)
    ensures Applied(l, g, o, ObeyAll(l, g, o))
    decreases |g|
  {
    if g != [] {
      var l1, t := Obey(l, Build(g[0].setting, o)), g[1..];
      assert NameOf(g[0].setting) != StateName;
      forall n | Has(t, n) ensures Has(g, n) && n != NameOf(g[0].setting) {
        var i :| 0 <= i < |t| && NameOf(t[i].setting) == n;
        assert NameOf(g[i + 1].setting) == n;
      }
      OthersApplied(l1, t, o);
      forall n | n != NameOf(g[0].setting) ensures Has(g, n) ==> Has(t, n) {
        if Has(g, n) {
          var i :| 0 <= i < |g| && NameOf(g[i].setting) == n;
          assert NameOf(t[i - 1].setting) == n;
        }
      }
      forall w | w in g ensures w == g[0] || w in t { }
      assert Has(g, NameOf(g[0].setting));
    }
  }

  lemma {:induction false} NoState(g: seq<Write>)
    requires !Has(g, StateName)
    ensures StateOf(g) == None && States(g) == [] && Others(g) == g
  {
    if g != [] {
      assert NameOf(g[0].setting) != StateName;
      forall i | 0 <= i < |g[1..]| ensures NameOf(g[1..][i].setting) != StateName {
        assert g[1..][i] == g[i + 1];
      }
      NoState(g[1..]);
    }
  }

  lemma {:induction false} OthersDistinct(g: seq<Write>)
    requires NamesDistinct(g)
    ensures NamesDistinct(Others(g)) && !Has(Others(g), StateName)
    ensures forall n :: n != StateName ==> (Has(Others(g), n) <==> Has(g, n))
  {
    if g != [] {
      var t := g[1..];
      OthersDistinct(t);
      PartsOf(t);
      HasCons(g[0], t);
      HasCons(g[0], Others(t));
      assert g == [g[0]] + t;
      assert Others(g) == if g[0].setting.Switch? then Others(t) else [g[0]] + Others(t);
      if !g[0].setting.Switch? {
        forall j | 0 <= j < |Others(t)| ensures NameOf(Others(t)[j].setting) != NameOf(g[0].setting) {
          assert Others(t)[j] in t;
        }
      }
    }
  }

  lemma HasCons(w: Write, t: seq<Write>)
    ensures forall n :: Has([w] + t, n) <==> n == NameOf(w.setting) || Has(t, n)
  {
    forall n ensures Has([w] + t, n) <==> n == NameOf(w.setting) || Has(t, n) {
      assert n == NameOf(w.setting) ==> NameOf(([w] + t)[0].setting) == n;
      if Has(t, n) {
        var i :| 0 <= i < |t| && NameOf(t[i].setting) == n;
        assert NameOf(([w] + t)[i + 1].setting) == n;
      }
      if Has([w] + t, n) && n != NameOf(w.setting) {
        var i :| 0 <= i < |[w] + t| && NameOf(([w] + t)[i].setting) == n;
        assert NameOf(t[i - 1].setting) == n;
      }
    }
  }

  /** With distinct names there is at most one state. */
  lemma {:induction false} OneState(g: seq<Write>)
    requires NamesDistinct(g) && StateOf(g).Some?
    ensures |States(g)| == 1 && States(g)[0].setting == Switch(StateOf(g).value)
  {
    var t := g[1..];
    if g[0].setting.Switch? {
      forall i | 0 <= i < |t| ensures NameOf(t[i].setting) != StateName {
        assert t[i] == g[i + 1] && NameOf(g[0].setting) == StateName;
      }
      NoState(t);
    } else {
      OneState(t);
    }
  }

  lemma {:induction false} OffDrops(l: Light, g: seq<Write>, o: Opts)
    requires !l.on && !Has(g, StateName) && (o.withOnOff ==> !Has(g, BrightnessName))
    ensures ObeyAll(l, g, o) == l
    decreases |g|
  {
    if g != [] {
      assert g == [g[0]] + g[1..];
      HasCons(g[0], g[1..]);
      OffDrops(l, g[1..], o);
    }
  }

  /** Behind a colour there is room for a brightness only. */
  lemma ColorThenBrightness(g: seq<Write>)
    requires NamesDistinct(g) && !Conflict(g) && !Has(g, StateName) && Has(g, BrightnessName)
    requires !g[0].setting.Brightness?
    ensures |g| == 2 && g[1].setting.Brightness?
  {
    forall i | 0 <= i < |g| ensures NameOf(g[i].setting) != StateName && Has(g, NameOf(g[i].setting)) { }
    assert forall i :: 1 <= i < |g| ==> NameOf(g[i].setting) != NameOf(g[0].setting);
    assert forall i :: 1 <= i < |g| ==> g[i].setting.Brightness?;
    assert |g| > 2 ==> NameOf(g[1].setting) != NameOf(g[2].setting);
  }

  lemma NoStateMeaning(l: Light, g: seq<Write>, o: Opts)
    requires NamesDistinct(g) && !Conflict(g) && Lit(g) && !Has(g, StateName)
    ensures AsPowerAllows(l, g, o, ObeyAll(l, g, o))
  {
    if g == [] {
    } else if !l.on && (!o.withOnOff || !Has(g, BrightnessName)) {
      OffDrops(l, g, o);
    } else if l.on {
      OthersApplied(l, g, o);
    } else if g[0].setting.Brightness? {
      BrightnessFirst(l, g, o);
    } else {
      ColorThenBrightness(g);
      assert g[1] in g && g[1..] == [g[1]];
      OneByOne(l, g[1..], o);
    }
  }

  /** A brightness that switches the light on may as well have found it on. */
  lemma BrightnessFirst(l: Light, g: seq<Write>, o: Opts)
    requires NamesDistinct(g) && !Conflict(g) && Lit(g) && !Has(g, StateName)
    requires g != [] && g[0].setting.Brightness? && o.withOnOff
    ensures Applied(l, g, o, ObeyAll(l, g, o))
  {
    var l1 := l.(on := true);
    OthersApplied(l1, g, o);
    assert g[0] in g && Obey(l, Build(g[0].setting, o)) == Obey(l1, Build(g[0].setting, o));
    assert ObeyAll(l, g, o) == ObeyAll(l1, g, o);
  }

  /** Exactly when a request without a state does all it says, for every light in that power state:
      the light is on, or nothing is asked, or a brightness with on/off leads the way. */
  lemma TakesExactly(g: seq<Write>, o: Opts, on: bool)
    requires NamesDistinct(g) && !Conflict(g) && Lit(g) && !Has(g, StateName)
    ensures (forall l: Light :: l.on == on ==> Taken(l, g, o, ObeyAll(l, g, o)))
            <==> (on || g == [] || (o.withOnOff && g[0].setting.Brightness?))
  {
    forall l: Light | l.on == on && (on || g == [] || (o.withOnOff && g[0].setting.Brightness?))
      ensures Taken(l, g, o, ObeyAll(l, g, o))
    {
      NoStateMeaning(l, g, o);
      assert g != [] && g[0].setting.Brightness? ==> NameOf(g[0].setting) == BrightnessName;
      hide ObeyAll;
    }
    if !on && g != [] && !(o.withOnOff && g[0].setting.Brightness?) {
      var l := Light(false, 0, None);
      NoStateMeaning(l, g, o);
      FirstLost(l, g, o);
    }
  }

  lemma FirstLost(l: Light, g: seq<Write>, o: Opts)
    requires NamesDistinct(g) && !Conflict(g) && Lit(g) && !Has(g, StateName) && g != []
    requires l == Light(false, 0, None) && !(o.withOnOff && g[0].setting.Brightness?)
    requires AsPowerAllows(l, g, o, ObeyAll(l, g, o))
    ensures !Taken(l, g, o, ObeyAll(l, g, o))
  {
    assert g[0] in g && NameOf(g[0].setting) != StateName;
    if o.withOnOff && Has(g, BrightnessName) {
      var i :| 0 <= i < |g| && NameOf(g[i].setting) == BrightnessName;
      assert g[i] in g && g[i].setting.Brightness?;
    }
    hide ObeyAll;
  }

  /** What a light makes of its planned group. */
  lemma GroupMeaning(l: Light, g: seq<Write>, o: Opts)
    requires NamesDistinct(g) && !Conflict(g) && Lit(g)
    ensures var l' := ObeyAll(l, Plan(g), o);
            && (StateOf(g) == Some(Off) ==> l' == l.(on := false))
            && (StateOf(g) == Some(On) ==> Applied(l, g, o, l'))
            && (StateOf(g) == Some(Toggle) ==> l' == l.(on := !l.on))
            && (StateOf(g) == None ==> AsPowerAllows(l, g, o, l'))
  {
    if StateOf(g).Some? {
      OneState(g);
      if Others(g) == [] {
        StateOnly(l, g, o);
      } else if StateOf(g) == Some(On) {
        OnFirst(l, g, o);
      } else {
        OneByOne(l, States(g), o);
      }
    } else {
      StateNamed(g);
      NoStateMeaning(l, g, o);
    }
  }

  lemma {:induction false} StateNamed(g: seq<Write>)
    requires StateOf(g) == None
    ensures !Has(g, StateName)
  {
    if g != [] {
      StateNamed(g[1..]);
      assert g == [g[0]] + g[1..];
      HasCons(g[0], g[1..]);
    }
  }

  lemma OneByOne(l: Light, g: seq<Write>, o: Opts)
    requires |g| == 1
    ensures ObeyAll(l, g, o) == Obey(l, Build(g[0].setting, o))
  {
    assert g[1..] == [];
  }

  lemma StateOnly(l: Light, g: seq<Write>, o: Opts)
    requires NamesDistinct(g) && StateOf(g).Some? && Others(g) == []
    ensures var l' := ObeyAll(l, g, o);
            && l' == Obey(l, SetPower(StateOf(g).value))
            && (StateOf(g) == Some(On) ==> Applied(l, g, o, l'))
  {
    OneState(g);
    OnlyState(g);
    OneByOne(l, g, o);
    assert NameOf(g[0].setting) == StateName && |g| == 1;
  }

  /** Being applied does not depend on the state's own entry. */
  lemma AppliedOthers(l: Light, g: seq<Write>, o: Opts, l': Light)
    requires NamesDistinct(g) && Applied(l.(on := true), Others(g), o, l')
    ensures Applied(l, g, o, l')
  {
    PartsOf(g);
    OthersDistinct(g);
    hide States;
    hide Others;
    hide Has;
    hide NamesDistinct;
  }

  lemma OnFirst(l: Light, g: seq<Write>, o: Opts)
    requires NamesDistinct(g) && !Conflict(g) && Lit(g) && StateOf(g) == Some(On) && Others(g) != []
    ensures Applied(l, g, o, ObeyAll(l, Plan(g), o))
  {
    OneState(g);
    OthersDistinct(g);
    PartsOf(g);
    var s, rest := States(g)[0], Others(g);
    assert States(g) == [s] && ([s] + rest)[1..] == rest;
    OthersApplied(l.(on := true), rest, o);
    AppliedOthers(l, g, o, ObeyAll(l.(on := true), rest, o));
    hide States;
    hide Others;
    hide StateOf;
    hide Has;
    hide NamesDistinct;
    hide Applied;
  }

  /** Main theorem: at each endpoint of an accepted request, given OFF the light ends up off and is
      otherwise untouched; given ON it ends up on with every other setting applied. Neither depends
      on the order of the payload nor on whether the light was on; without a state both matter. */
  lemma PlanMeaning(lights: map<nat, Light>, writes: seq<Write>, ordered: seq<Write>, o: Opts, ep: nat)
    requires ep in lights && NamesDistinct(At(writes, ep)) && !Conflict(At(writes, ep)) && Lit(At(writes, ep))
    requires At(ordered, ep) == Plan(At(writes, ep))
    ensures var g, l, l' := At(writes, ep), lights[ep], Execute(lights, ordered, o)[ep];
            && (StateOf(g) == Some(Off) ==> l' == l.(on := false))
            && (StateOf(g) == Some(On) ==> Applied(l, g, o, l'))
            && (StateOf(g) == Some(Toggle) ==> l' == l.(on := !l.on))
            && (StateOf(g) == None ==> AsPowerAllows(l, g, o, l'))
  {
    EndpointsIndependent(lights, ordered, o, ep);
    GroupMeaning(lights[ep], At(writes, ep), o);
  }

  lemma {:induction false} OnlyState(g: seq<Write>)
    requires Others(g) == []
    ensures States(g) == g
  {
    if g != [] {
      OnlyState(g[1..]);
    }
  }
}
