/** The bridge's device table, subscriptions, debounced publication and availability, as a state
    machine driven by the connection, matter-server's events, timers and `get` requests. Everything
    runs on one event loop, so each callback is one step. */
module DeviceTable {

  type NodeId = nat

  /** A node in matter-server's cache: the friendly name and the state message a Device makes of it,
      and whether it is reachable. */
  datatype Node = Node(name: string, view: string, available: bool)

  /** A `get` that has resolved its device and awaits the live reads. */
  datatype Get = Get(connection: nat, node: NodeId, name: string)

  /** What was last published on a topic, button presses apart: those are events, not states. */
  datatype Message =
    | StateMsg(view: string)
    | AvailabilityMsg(online: bool)
    | OwnMsg                   // the bridge's own: its state, device list, events and responses
  type Topics = map<string, Message>

  datatype State = State(
    connected: bool,
    connection: nat,               // which connection this is, or was last
    cache: map<NodeId, Node>,      // that connection's node cache
    subs: multiset<NodeId>,        // live attribute subscriptions of the current client
    devices: map<NodeId, string>,  // the table: friendly names as of the last rebuild
    unsubs: set<NodeId>,           // keys of _attr_unsubs
    pending: set<NodeId>,          // _pending_state
    timers: multiset<NodeId>,      // outstanding call_later
    topics: Topics,                // below mt2m/, keyed by the rest of the topic
    gets: multiset<Get>)

  /** Where a device's availability goes; its state goes to the name itself. */
  function AvailabilityTopic(name: string): string {
    name + "/availability"
  }

  const DEVICES_TOPIC: string := "bridge/devices"

  /** The bridge's own topics. */
  predicate IsOwn(topic: string) {
    || topic == DEVICES_TOPIC || topic == "bridge/state" || topic == "bridge/event"
    || "bridge/response/" <= topic
  }

  /** The device table rebuild() makes of a cache. */
  function Names(cache: map<NodeId, Node>): (r: map<NodeId, string>)
    ensures r.Keys == cache.Keys
  {
    map n | n in cache :: cache[n].name
  }

  /** The order in which a dict is walked. */
  predicate Enumerates(order: seq<NodeId>, nodes: set<NodeId>) {
    && (forall n :: n in nodes ==> n in order) && (forall n :: n in order ==> n in nodes)
    && (forall i, j :: 0 <= i < j < |order| ==> order[i] != order[j])
  }

  /** publish_availability, then publish_state, of one device. */
  function Announce(topics: Topics, node: Node): Topics {
    topics[AvailabilityTopic(node.name) := AvailabilityMsg(node.available)][node.name := StateMsg(node.view)]
  }

  function AnnounceAll(topics: Topics, cache: map<NodeId, Node>, order: seq<NodeId>): Topics
    requires forall n :: n in order ==> n in cache
  {
    if order == [] then topics
    else Announce(AnnounceAll(topics, cache, order[..|order| - 1]), cache[order[|order| - 1]])
  }

  function OfflineAll(topics: Topics, devices: map<NodeId, string>, order: seq<NodeId>): Topics
    requires forall n :: n in order ==> n in devices
  {
    if order == [] then topics
    else
      OfflineAll(topics, devices, order[..|order| - 1])
        [AvailabilityTopic(devices[order[|order| - 1]]) := AvailabilityMsg(false)]
  }

  /** The retained device list. */
  function Listed(topics: Topics): Topics {
    topics[DEVICES_TOPIC := OwnMsg]
  }

  /** rebuild() */
  function Rebuilt(s: State, order: seq<NodeId>): State
    requires Enumerates(order, s.cache.Keys)
  {
    s.(devices := Names(s.cache),
       subs := s.subs - multiset(s.unsubs - s.cache.Keys) + multiset(s.cache.Keys - s.unsubs),
       unsubs := s.cache.Keys,
       topics := AnnounceAll(Listed(s.topics), s.cache, order))
  }

  /** The state in which on_matter_connect calls rebuild(). */
  function Connected(s: State, cache: map<NodeId, Node>): State {
    s.(connected := true, connection := s.connection + 1, cache := cache, subs := multiset{}, unsubs := {})
  }

  function Schedule(s: State, n: NodeId): State {
    if n in s.pending then s
    else s.(pending := s.pending + {n}, timers := s.timers + multiset{n})
  }

  function Updated(s: State, n: NodeId, view: string): State
    requires n in s.cache
  {
    var s' := s.(cache := s.cache[n := s.cache[n].(view := view)]);
    if s.subs[n] > 0 then Schedule(s', n) else s'
  }

  /** publish_state of the device in the table; its node may be gone from the cache. */
  function Flush(s: State, n: NodeId): State {
    var s' := s.(pending := s.pending - {n});
    if n in s.devices && n in s.cache
    then s'.(topics := s.topics[s.devices[n] := StateMsg(s.cache[n].view)])
    else s'
  }

  /** What a get publishes at its end: the view its node object has now. An object of an earlier
      connection, or of a removed node, is frozen at some old view. */
  function Answer(s: State, g: Get, frozen: string): string {
    if g.connection == s.connection && g.node in s.cache then s.cache[g.node].view else frozen
  }

  datatype Step =
    | Connect(cache: map<NodeId, Node>, order: seq<NodeId>)
    | Disconnect(order: seq<NodeId>)                            // also after a failed attempt to connect
    | NodesChanged(cache: map<NodeId, Node>, order: seq<NodeId>)  // a node event, or a discover
    | Update(n: NodeId, view: string)                           // an attribute changed
    | Timer(n: NodeId)
    | BeginGet(n: NodeId)
    | EndGet(g: Get, frozen: string)
    | FailGet(g: Get)
    | Own(topic: string)                                        // a bridge event, a response, ...

  predicate Enabled(s: State, st: Step) {
    match st
    case Connect(cache, order) => !s.connected && Enumerates(order, cache.Keys)
    case Disconnect(order) => Enumerates(order, s.devices.Keys)
    case NodesChanged(cache, order) => s.connected && Enumerates(order, cache.Keys)
    case Update(n, view) => s.connected && n in s.cache
    case Timer(n) => n in s.timers
    case BeginGet(n) => s.connected && n in s.devices
    case EndGet(g, _) => g in s.gets
    case FailGet(g) => g in s.gets
    case Own(topic) => IsOwn(topic)
  }

  function After(s: State, st: Step): State
    requires Enabled(s, st)
  {
    match st
    case Connect(cache, order) => Rebuilt(Connected(s, cache), order)
    case Disconnect(order) =>
      s.(connected := false, subs := multiset{}, topics := OfflineAll(s.topics, s.devices, order))
    case NodesChanged(cache, order) => Rebuilt(s.(cache := cache), order)
    case Update(n, view) => Updated(s, n, view)
    case Timer(n) => Flush(s.(timers := s.timers - multiset{n}), n)
    case BeginGet(n) => s.(gets := s.gets + multiset{Get(s.connection, n, s.devices[n])})
    case EndGet(g, frozen) =>
      s.(gets := s.gets - multiset{g}, topics := s.topics[g.name := StateMsg(Answer(s, g, frozen))])
    case FailGet(g) => s.(gets := s.gets - multiset{g})
    case Own(topic) => s.(topics := s.topics[topic := OwnMsg])
  }

  const START: State :=
    State(false, 0, map[], multiset{}, map[], {}, {}, multiset{}, map[], multiset{})

  function Run(steps: seq<Step>): State {
    if steps == [] then START
    else
      var s := Run(steps[..|steps| - 1]);
      if Enabled(s, steps[|steps| - 1]) then After(s, steps[|steps| - 1]) else s
  }

  predicate Possible(steps: seq<Step>) {
    forall i :: 0 <= i < |steps| ==> Enabled(Run(steps[..i]), steps[i])
  }

  lemma RunNext(steps: seq<Step>, i: nat)
    requires i < |steps| && Enabled(Run(steps[..i]), steps[i])
    ensures Run(steps[..i + 1]) == After(Run(steps[..i]), steps[i])
  {
    assert steps[..i + 1][..i] == steps[..i];
  }

  lemma RunEmpty()
    ensures Run([]) == START && Possible([])
  {
  }

  lemma PossibleNext(steps: seq<Step>, k: nat)
    requires |steps| == k + 1 && Possible(steps[..k]) && Enabled(Run(steps[..k]), steps[k])
    ensures Possible(steps)
  {
    hide Run;
    hide Enabled;
    assert forall i :: 0 <= i < k ==> steps[..k][..i] == steps[..i] && steps[..k][i] == steps[i];
  }

  lemma Extend(steps: seq<Step>, st: Step)
    requires Possible(steps) && Enabled(Run(steps), st)
    ensures Possible(steps + [st]) && Run(steps + [st]) == After(Run(steps), st)
  {
    hide Enabled;
    hide After;
    assert (steps + [st])[..|steps|] == steps && (steps + [st])[..|steps| + 1] == steps + [st];
    PossibleNext(steps + [st], |steps|);
    RunNext(steps + [st], |steps|);
  }

  // ---- invariants ---------------------------------------------------------------------------

  /** Distinct friendly names, and none that is another's availability topic. */
  predicate Distinct(cache: map<NodeId, Node>) {
    forall m, n :: m in cache && n in cache && m != n ==> cache[m].name != cache[n].name
  }

  predicate Separate(cache: map<NodeId, Node>) {
    forall m, n :: m in cache && n in cache ==> cache[m].name != AvailabilityTopic(cache[n].name)
  }

  /** No device has one of the bridge's own topics. */
  predicate NoneOwn(cache: map<NodeId, Node>) {
    forall n :: n in cache ==> !IsOwn(cache[n].name) && !IsOwn(AvailabilityTopic(cache[n].name))
  }

  /** All topics are kept apart. */
  predicate Apart(cache: map<NodeId, Node>) {
    Distinct(cache) && Separate(cache) && NoneOwn(cache)
  }

  /** _pending_state is exactly the set of nodes with a timer, one timer each. */
  ghost predicate TimersOk(pending: set<NodeId>, timers: multiset<NodeId>) {
    forall n :: timers[n] == if n in pending then 1 else 0
  }

  /** Every node of the table has exactly one live subscription, and no other node has one. */
  ghost predicate SubscriptionsOk(devices: map<NodeId, string>, unsubs: set<NodeId>, subs: multiset<NodeId>) {
    unsubs == devices.Keys && forall n :: subs[n] == if n in devices then 1 else 0
  }

  /** The table mirrors the cache. */
  ghost predicate Structure(s: State) {
    && s.devices == Names(s.cache)
    && TimersOk(s.pending, s.timers)
    && (s.connected ==> SubscriptionsOk(s.devices, s.unsubs, s.subs))
  }

  /** The last message on a node's state topic is its current view. */
  predicate UpToDate(node: Node, topics: Topics) {
    node.name in topics && topics[node.name] == StateMsg(node.view)
  }

  predicate Announced(node: Node, online: bool, topics: Topics) {
    AvailabilityTopic(node.name) in topics && topics[AvailabilityTopic(node.name)] == AvailabilityMsg(online)
  }

  /** Every node without a pending flush is published as it is. */
  ghost predicate Published(cache: map<NodeId, Node>, pending: set<NodeId>, topics: Topics) {
    forall n :: n in cache && n !in pending ==> UpToDate(cache[n], topics)
  }

  /** Every node is announced offline while disconnected, and as available as it is while connected. */
  ghost predicate Available(connected: bool, cache: map<NodeId, Node>, topics: Topics) {
    forall n :: n in cache ==> Announced(cache[n], connected && cache[n].available, topics)
  }

  ghost predicate TopicsRight(s: State) {
    Published(s.cache, s.pending, s.topics) && Available(s.connected, s.cache, s.topics)
  }

  // ---- publishing, one device after the other -----------------------------------------------

  lemma TopicsDiffer(a: string, b: string)
    ensures a != AvailabilityTopic(a) && (a != b ==> AvailabilityTopic(a) != AvailabilityTopic(b))
  {
    var t := "/availability";
    assert a == (a + t)[..|a + t| - |t|] && b == (b + t)[..|b + t| - |t|];
  }

  lemma AnnounceOne(topics: Topics, cache: map<NodeId, Node>, m: NodeId, n: NodeId)
    requires Distinct(cache) && Separate(cache) && m in cache && n in cache
    requires m == n || (UpToDate(cache[n], topics) && Announced(cache[n], cache[n].available, topics))
    ensures UpToDate(cache[n], Announce(topics, cache[m]))
    ensures Announced(cache[n], cache[n].available, Announce(topics, cache[m]))
  {
    TopicsDiffer(cache[m].name, cache[n].name);
    hide AvailabilityTopic;
  }

  lemma {:induction false} AnnounceRight(topics: Topics, cache: map<NodeId, Node>, order: seq<NodeId>)
    requires Distinct(cache) && Separate(cache) && forall n :: n in order ==> n in cache
    ensures forall n :: n in order ==>
              UpToDate(cache[n], AnnounceAll(topics, cache, order))
              && Announced(cache[n], cache[n].available, AnnounceAll(topics, cache, order))
  {
    if order != [] {
      var before, m := order[..|order| - 1], order[|order| - 1];
      AnnounceRight(topics, cache, before);
      forall n | n in order
        ensures UpToDate(cache[n], AnnounceAll(topics, cache, order))
             && Announced(cache[n], cache[n].available, AnnounceAll(topics, cache, order))
      {
        assert n == m || n in before;
        AnnounceOne(AnnounceAll(topics, cache, before), cache, m, n);
      }
    }
  }

  lemma OfflineOne(topics: Topics, cache: map<NodeId, Node>, m: NodeId, n: NodeId)
    requires Separate(cache) && m in cache && n in cache
    ensures var topics' := topics[AvailabilityTopic(cache[m].name) := AvailabilityMsg(false)];
            && (UpToDate(cache[n], topics) ==> UpToDate(cache[n], topics'))
            && (m == n || Announced(cache[n], false, topics) ==> Announced(cache[n], false, topics'))
  {
    hide AvailabilityTopic;
  }

  lemma {:induction false} OfflineRight(topics: Topics, cache: map<NodeId, Node>, order: seq<NodeId>)
    requires Separate(cache) && forall n :: n in order ==> n in cache
    ensures var topics' := OfflineAll(topics, Names(cache), order);
            && (forall n :: n in order ==> Announced(cache[n], false, topics'))
            && (forall n :: n in cache && UpToDate(cache[n], topics) ==> UpToDate(cache[n], topics'))
  {
    if order != [] {
      var before, m := order[..|order| - 1], order[|order| - 1];
      OfflineRight(topics, cache, before);
      forall n | n in cache
        ensures n in order ==> Announced(cache[n], false, OfflineAll(topics, Names(cache), order))
        ensures UpToDate(cache[n], topics) ==> UpToDate(cache[n], OfflineAll(topics, Names(cache), order))
      {
        assert n in order ==> n == m || n in before;
        OfflineOne(OfflineAll(topics, Names(cache), before), cache, m, n);
      }
    }
  }

  // ---- each step ----------------------------------------------------------------------------

  /** What the invariants say of the topics: right, if the current names keep their topics apart. */
  ghost predicate TopicsOk(s: State) {
    Apart(s.cache) ==> TopicsRight(s)
  }

  lemma SubsRebuilt(s: State, table: set<NodeId>)
    requires forall n :: s.subs[n] == if n in s.unsubs then 1 else 0
    ensures var subs' := s.subs - multiset(s.unsubs - table) + multiset(table - s.unsubs);
            forall n :: subs'[n] == if n in table then 1 else 0
  {
  }

  /** A rebuild establishes everything, from any table and any topics, as long as subscriptions and
      _attr_unsubs agree. */
  lemma RebuildEstablishes(s: State, order: seq<NodeId>)
    requires s.connected && Enumerates(order, s.cache.Keys) && TimersOk(s.pending, s.timers)
    requires forall n :: s.subs[n] == if n in s.unsubs then 1 else 0
    ensures Structure(Rebuilt(s, order)) && TopicsOk(Rebuilt(s, order))
  {
    SubsRebuilt(s, s.cache.Keys);
    assert Structure(Rebuilt(s, order));
    RebuildTopics(s, order);
    hide Structure;
    hide TopicsOk;
  }

  /** Announcing touches the devices' own topics only. */
  lemma {:induction false} AnnounceElsewhere(topics: Topics, cache: map<NodeId, Node>,
                                             order: seq<NodeId>, topic: string)
    requires forall n :: n in order ==> n in cache
    requires forall n :: n in cache ==> topic != cache[n].name && topic != AvailabilityTopic(cache[n].name)
    ensures var topics' := AnnounceAll(topics, cache, order);
            (topic in topics' <==> topic in topics) && (topic in topics ==> topics'[topic] == topics[topic])
  {
    hide AvailabilityTopic;
    if order != [] {
      AnnounceElsewhere(topics, cache, order[..|order| - 1], topic);
    }
  }

  /** A rebuild publishes the device list. */
  lemma RebuildLists(s: State, order: seq<NodeId>)
    requires Enumerates(order, s.cache.Keys) && NoneOwn(s.cache)
    ensures var topics := Rebuilt(s, order).topics;
            "bridge/devices" in topics && topics["bridge/devices"] == OwnMsg
  {
    AnnounceElsewhere(Listed(s.topics), s.cache, order, DEVICES_TOPIC);
    hide AvailabilityTopic;
    hide AnnounceAll;
  }

  /** The bridge's own topics: its device list, state and events, and every response. */
  lemma OwnTopicsAre(topic: string)
    ensures IsOwn(topic) <==>
            || topic == "bridge/devices" || topic == "bridge/state" || topic == "bridge/event"
            || exists subject :: topic == "bridge/response/" + subject
  {
    var p := "bridge/response/";
    if p <= topic {
      assert topic == p + topic[|p|..];
    }
  }

  lemma RebuildTopics(s: State, order: seq<NodeId>)
    requires s.connected && Enumerates(order, s.cache.Keys)
    ensures TopicsOk(Rebuilt(s, order))
  {
    if Apart(s.cache) {
      hide Listed;
      AnnounceRight(Listed(s.topics), s.cache, order);
      hide AnnounceAll;
      hide UpToDate;
      hide Announced;
      hide Names;
      assert TopicsRight(Rebuilt(s, order));
    }
    hide TopicsRight;
  }

  lemma SameNames(cache: map<NodeId, Node>, n: NodeId, view: string)
    requires n in cache
    ensures var cache' := cache[n := cache[n].(view := view)];
            && Names(cache') == Names(cache)
            && (Distinct(cache') <==> Distinct(cache)) && (Separate(cache') <==> Separate(cache))
            && (NoneOwn(cache') <==> NoneOwn(cache))
  {
    hide IsOwn;
    var cache' := cache[n := cache[n].(view := view)];
    assert forall m :: m in cache ==> m in cache' && cache'[m].name == cache[m].name;
    hide AvailabilityTopic;
  }

  lemma ScheduleKeeps(s: State, n: NodeId)
    requires TimersOk(s.pending, s.timers)
    ensures TimersOk(Schedule(s, n).pending, Schedule(s, n).timers) && n in Schedule(s, n).pending
  {
  }

  lemma UpdateKeeps(s: State, n: NodeId, view: string)
    requires Structure(s) && s.connected && n in s.cache
    ensures Structure(Updated(s, n, view))
    ensures Updated(s, n, view) == Schedule(s.(cache := s.cache[n := s.cache[n].(view := view)]), n)
  {
    SameNames(s.cache, n, view);
    ScheduleKeeps(s.(cache := s.cache[n := s.cache[n].(view := view)]), n);
    assert s.subs[n] == 1;
    hide Names;
    hide TimersOk;
  }

  lemma UpdateTopics(s: State, n: NodeId, view: string)
    requires Structure(s) && s.connected && n in s.cache && TopicsOk(s)
    ensures TopicsOk(Updated(s, n, view))
  {
    hide Updated;
    hide TimersOk;
    hide Names;
    hide Distinct;
    hide Separate;
    hide NoneOwn;
    hide AvailabilityTopic;
    SameNames(s.cache, n, view);
    UpdateKeeps(s, n, view);
    ScheduleKeeps(s.(cache := s.cache[n := s.cache[n].(view := view)]), n);
    hide Structure;
  }

  lemma TimerKeeps(s: State, n: NodeId)
    requires Structure(s) && n in s.timers
    ensures Structure(After(s, Timer(n)))
  {
    assert s.timers[n] == 1;
    hide Names;
  }

  lemma TimerTopics(s: State, n: NodeId)
    requires Structure(s) && n in s.timers && TopicsOk(s)
    ensures TopicsOk(After(s, Timer(n)))
  {
    if Apart(s.cache) {
      FlushRight(s, n);
    }
    hide Distinct;
    hide Separate;
    hide NoneOwn;
    hide Published;
    hide Available;
    hide Structure;
  }

  lemma FlushRight(s: State, n: NodeId)
    requires s.devices == Names(s.cache) && Distinct(s.cache) && Separate(s.cache) && TopicsRight(s)
    ensures TopicsRight(Flush(s, n))
  {
    hide AvailabilityTopic;
  }

  lemma DisconnectTopics(s: State, order: seq<NodeId>)
    requires s.devices == Names(s.cache) && Enumerates(order, s.devices.Keys) && TopicsOk(s)
    ensures TopicsOk(After(s, Disconnect(order)))
  {
    if Apart(s.cache) {
      OfflineRight(s.topics, s.cache, order);
      hide OfflineAll;
      hide UpToDate;
      hide Announced;
      hide Names;
      assert TopicsRight(After(s, Disconnect(order)));
    }
    hide TopicsRight;
  }

  // ---- the end of a get ---------------------------------------------------------------------

  /** Whatever this get will answer, its answer leaves the topics right: nobody's availability goes
      to its topic, and the device whose state does, if it has no flush pending, is one whose view
      the get is bound to answer. */
  predicate Safe(s: State, g: Get) {
    && (forall n :: n in s.cache ==> AvailabilityTopic(s.cache[n].name) != g.name)
    && (forall n :: n in s.cache && s.cache[n].name == g.name && n !in s.pending ==>
          g.connection == s.connection && g.node in s.cache && s.cache[g.node].view == s.cache[n].view)
  }

  /** Some answer that is not this device's view, if the get can give one. */
  function Other(view: string): string {
    view + "x"
  }

  lemma SafeKeeps(s: State, g: Get, frozen: string)
    requires TopicsRight(s) && g in s.gets && Safe(s, g)
    ensures TopicsRight(After(s, EndGet(g, frozen)))
  {
    hide AvailabilityTopic;
  }

  lemma UnsafeBreaks(s: State, g: Get) returns (frozen: string)
    requires TopicsRight(s) && g in s.gets && !Safe(s, g)
    ensures !TopicsRight(After(s, EndGet(g, frozen)))
  {
    if n :| n in s.cache && AvailabilityTopic(s.cache[n].name) == g.name {
      frozen := "";
      assert !Announced(s.cache[n], s.connected && s.cache[n].available, After(s, EndGet(g, frozen)).topics);
    } else {
      var n :| n in s.cache && s.cache[n].name == g.name && n !in s.pending
               && !(g.connection == s.connection && g.node in s.cache && s.cache[g.node].view == s.cache[n].view);
      frozen := Other(s.cache[n].view);
      assert !UpToDate(s.cache[n], After(s, EndGet(g, frozen)).topics);
    }
  }

  /** Before a get ends one can tell whether it will do harm: it leaves the topics right whatever it
      answers if and only if it is safe. */
  lemma EndGetExact(s: State, g: Get)
    requires TopicsRight(s) && g in s.gets
    ensures (forall frozen :: TopicsRight(After(s, EndGet(g, frozen)))) <==> Safe(s, g)
  {
    if Safe(s, g) {
      forall frozen ensures TopicsRight(After(s, EndGet(g, frozen))) {
        SafeKeeps(s, g, frozen);
      }
    } else {
      var frozen := UnsafeBreaks(s, g);
    }
  }

  /** A get that ends within its connection, under the name it began with, is safe. */
  lemma FreshIsSafe(s: State, g: Get)
    requires s.devices == Names(s.cache) && Distinct(s.cache) && Separate(s.cache)
    requires g.connection == s.connection && g.node in s.devices && s.devices[g.node] == g.name
    ensures Safe(s, g)
  {
    hide AvailabilityTopic;
  }

  // ---- the bridge's own messages ------------------------------------------------------------

  /** No message of the bridge's own goes where a device's state or availability is right. */
  predicate Undisturbed(s: State) {
    forall n :: n in s.cache ==>
      (n in s.pending || !IsOwn(s.cache[n].name)) && !IsOwn(AvailabilityTopic(s.cache[n].name))
  }

  lemma OwnKeeps(s: State, topic: string)
    requires TopicsRight(s) && IsOwn(topic) && Undisturbed(s)
    ensures TopicsRight(After(s, Own(topic)))
  {
    hide AvailabilityTopic;
    hide IsOwn;
  }

  /** The bridge's own messages leave the topics right, whichever it publishes, if and only if no
      device has its topic there. */
  lemma OwnExact(s: State)
    requires TopicsRight(s)
    ensures (forall topic | IsOwn(topic) :: TopicsRight(After(s, Own(topic)))) <==> Undisturbed(s)
  {
    if Undisturbed(s) {
      forall topic | IsOwn(topic) ensures TopicsRight(After(s, Own(topic))) {
        OwnKeeps(s, topic);
      }
    } else {
      var n :| n in s.cache
               && !((n in s.pending || !IsOwn(s.cache[n].name)) && !IsOwn(AvailabilityTopic(s.cache[n].name)));
      var name := s.cache[n].name;
      var topic := if IsOwn(AvailabilityTopic(name)) then AvailabilityTopic(name) else name;
      assert IsOwn(topic) && After(s, Own(topic)).topics[topic] == OwnMsg;
      assert !TopicsRight(After(s, Own(topic)));
    }
    hide AvailabilityTopic;
    hide IsOwn;
  }

  // ---- every step ---------------------------------------------------------------------------

  /** Table, timers and subscriptions are kept by every step whatsoever. */
  lemma StructureKept(s: State, st: Step)
    requires Structure(s) && Enabled(s, st)
    ensures Structure(After(s, st))
  {
    match st
    case Connect(cache, order) => RebuildEstablishes(Connected(s, cache), order);
    case NodesChanged(cache, order) => RebuildEstablishes(s.(cache := cache), order);
    case Update(n, view) => UpdateKeeps(s, n, view);
    case Timer(n) => TimerKeeps(s, n);
    case _ =>
      hide Names;
      hide TimersOk;
      hide SubscriptionsOk;
  }

  /** The topics are kept right by every step but the end of an unsafe get. */
  lemma TopicsKept(s: State, st: Step)
    requires Structure(s) && Enabled(s, st) && TopicsOk(s) && (st.EndGet? ==> Safe(s, st.g))
    ensures TopicsOk(After(s, st))
  {
    match st
    case Connect(cache, order) => RebuildTopics(Connected(s, cache), order);
    case NodesChanged(cache, order) => RebuildTopics(s.(cache := cache), order);
    case Update(n, view) => UpdateTopics(s, n, view);
    case Timer(n) => TimerTopics(s, n);
    case Disconnect(order) => DisconnectTopics(s, order);
    case EndGet(g, frozen) =>
      if TopicsRight(s) {
        SafeKeeps(s, g, frozen);
      }
      hide TopicsRight;
      hide Apart;
    case Own(topic) =>
      if Apart(s.cache) {
        OwnKeeps(s, topic);
      }
      hide TopicsRight;
      hide Apart;
    case _ =>
      hide Apart;
      hide Published;
      hide Available;
  }

  /** After a change of an attribute there is a timer for the node, and when it fires the node's topic
      gets the changed state and no other topic anything. */
  lemma ChangeIsPublished(s: State, n: NodeId, view: string)
    requires Structure(s) && s.connected && n in s.cache
    ensures var s1 := After(s, Update(n, view));
            && s1.cache == s.cache[n := s.cache[n].(view := view)]
            && Enabled(s1, Timer(n))
            && After(s1, Timer(n)).topics == s.topics[s.cache[n].name := StateMsg(view)]
  {
    UpdateKeeps(s, n, view);
    var s0 := s.(cache := s.cache[n := s.cache[n].(view := view)]);
    ScheduleKeeps(s0, n);
    var s1 := Schedule(s0, n);
    assert s1.timers[n] == 1;
    assert s.devices[n] == s.cache[n].name;
    hide Updated;
    hide Names;
    hide Rebuilt;
    hide AnnounceAll;
    hide OfflineAll;
  }

  // ---- whole runs ---------------------------------------------------------------------------

  /** Every get that ends is safe just before it does. */
  ghost predicate GetsEndSafe(steps: seq<Step>) {
    forall i :: 0 <= i < |steps| && steps[i].EndGet? ==> Safe(Run(steps[..i]), steps[i].g)
  }

  lemma {:induction false} EveryState(steps: seq<Step>)
    requires Possible(steps)
    ensures Structure(Run(steps)) && (GetsEndSafe(steps) ==> TopicsOk(Run(steps)))
  {
    if steps != [] {
      var k := |steps| - 1;
      var before := steps[..k];
      assert forall i :: 0 <= i < k ==> before[..i] == steps[..i] && before[i] == steps[i];
      EveryState(before);
      RunNext(steps, k);
      assert steps[..k + 1] == steps;
      StructureKept(Run(before), steps[k]);
      if GetsEndSafe(steps) {
        TopicsKept(Run(before), steps[k]);
      }
    }
    hide Structure;
    hide TopicsOk;
    hide After;
    hide Enabled;
    hide Safe;
  }

  /** Every cache matter-server ever reports names its nodes so that their topics stay apart. */
  predicate AllApart(steps: seq<Step>) {
    forall i :: 0 <= i < |steps| && (steps[i].Connect? || steps[i].NodesChanged?) ==>
      Apart(steps[i].cache)
  }

  lemma StepApart(s: State, st: Step)
    requires Enabled(s, st) && Apart(s.cache)
    requires st.Connect? || st.NodesChanged? ==> Apart(st.cache)
    ensures Apart(After(s, st).cache)
  {
    hide Distinct;
    hide Separate;
    hide NoneOwn;
    hide AnnounceAll;
    hide OfflineAll;
    hide Enumerates;
    match st
    case Update(n, view) => SameNames(s.cache, n, view);
    case _ =>
  }

  lemma {:induction false} CacheApart(steps: seq<Step>)
    requires Possible(steps) && AllApart(steps)
    ensures Apart(Run(steps).cache)
  {
    hide After;
    hide Enabled;
    if steps != [] {
      hide Apart;
      var k := |steps| - 1;
      var before := steps[..k];
      hide Run;
      assert forall i :: 0 <= i < k ==> before[..i] == steps[..i] && before[i] == steps[i];
      CacheApart(before);
      RunNext(steps, k);
      assert steps[..k + 1] == steps;
      StepApart(Run(before), steps[k]);
    }
  }

  /** The same run so far, except for what frozen nodes made gets answer. */
  predicate SameButAnswers(r: seq<Step>, steps: seq<Step>) {
    |r| <= |steps| && forall i :: 0 <= i < |r| ==> SameButAnswer(r[i], steps[i])
  }

  predicate SameButAnswer(a: Step, b: Step) {
    a == b || (a.EndGet? && b.EndGet? && a.g == b.g)
  }

  lemma StepIgnoresAnswers(s: State, topics: Topics, a: Step, b: Step)
    requires SameButAnswer(a, b) && Enabled(s, b)
    ensures Enabled(s.(topics := topics), a)
    ensures After(s.(topics := topics), a) == After(s, b).(topics := After(s.(topics := topics), a).topics)
  {
    hide AnnounceAll;
    hide OfflineAll;
    hide Enumerates;
    hide Names;
    match b
    case Connect(cache, order) => RebuildIgnoresTopics(Connected(s, cache), topics, order);
    case NodesChanged(cache, order) => RebuildIgnoresTopics(s.(cache := cache), topics, order);
    case Update(n, view) => UpdateIgnoresTopics(s, topics, n, view);
    case Timer(n) => FlushIgnoresTopics(s.(timers := s.timers - multiset{n}), topics, n);
    case Disconnect(order) =>
    case _ =>
  }

  lemma RebuildIgnoresTopics(s: State, topics: Topics, order: seq<NodeId>)
    requires Enumerates(order, s.cache.Keys)
    ensures var s' := Rebuilt(s.(topics := topics), order);
            s' == Rebuilt(s, order).(topics := s'.topics)
  {
    hide AnnounceAll;
  }

  lemma UpdateIgnoresTopics(s: State, topics: Topics, n: NodeId, view: string)
    requires n in s.cache
    ensures Updated(s.(topics := topics), n, view) == Updated(s, n, view).(topics := topics)
  {
  }

  lemma FlushIgnoresTopics(s: State, topics: Topics, n: NodeId)
    ensures Flush(s.(topics := topics), n) == Flush(s, n).(topics := Flush(s.(topics := topics), n).topics)
  {
  }

  /** Published messages influence nothing but the topics. */
  lemma {:induction false} AnswersOnlyTopics(r: seq<Step>, steps: seq<Step>)
    requires Possible(steps) && SameButAnswers(r, steps)
    ensures Possible(r) && Run(r) == Run(steps[..|r|]).(topics := Run(r).topics)
  {
    hide After;
    hide Enabled;
    if r == [] {
      assert steps[..0] == [];
    } else {
      hide Run;
      var k := |r| - 1;
      var before := r[..k];
      AnswersOnlyTopics(before, steps);
      RunNext(steps, k);
      StepIgnoresAnswers(Run(steps[..k]), Run(before).topics, r[k], steps[k]);
      assert r[..k + 1] == r;
      RunNext(r, k);
      PossibleNext(r, k);
    }
  }

  lemma SameGetsSafe(r: seq<Step>, steps: seq<Step>)
    requires Possible(steps) && SameButAnswers(r, steps) && GetsEndSafe(steps)
    ensures GetsEndSafe(r)
  {
    forall i | 0 <= i < |r| && r[i].EndGet? ensures Safe(Run(r[..i]), r[i].g) {
      AnswersOnlyTopics(r[..i], steps);
      assert Safe(Run(steps[..i]), steps[i].g);
    }
    hide Possible;
    hide Run;
    hide AvailabilityTopic;
  }

  /** Names apart, the topics are right all through a run, whatever is answered for nodes that are
      no longer there, if and only if every get that ends is safe when it does. */
  lemma ExactlySafe(steps: seq<Step>)
    requires Possible(steps) && AllApart(steps)
    ensures (forall r :: SameButAnswers(r, steps) ==> TopicsRight(Run(r))) <==> GetsEndSafe(steps)
  {
    if GetsEndSafe(steps) {
      forall r | SameButAnswers(r, steps) ensures TopicsRight(Run(r)) {
        AnswersOnlyTopics(r, steps);
        SameGetsSafe(r, steps);
        EveryState(r);
        assert AllApart(r);
        CacheApart(r);
        hide TopicsRight;
      }
    } else {
      var i :| 0 <= i < |steps| && steps[i].EndGet? && !Safe(Run(steps[..i]), steps[i].g);
      UnsafeRun(steps, i);
      hide TopicsRight;
    }
    hide Possible;
    hide Run;
    hide Safe;
    hide Structure;
    hide Apart;
  }

  lemma UnsafeRun(steps: seq<Step>, i: nat)
    requires Possible(steps) && i < |steps| && steps[i].EndGet? && !Safe(Run(steps[..i]), steps[i].g)
    ensures exists r :: SameButAnswers(r, steps) && !TopicsRight(Run(r))
  {
    hide TopicsRight;
    hide Safe;
    hide Run;
    var s, g := Run(steps[..i]), steps[i].g;
    assert SameButAnswers(steps[..i], steps);
    if TopicsRight(s) {
      var frozen := UnsafeBreaks(s, g);
      var r := steps[..i] + [EndGet(g, frozen)];
      assert SameButAnswers(r, steps);
      assert Possible(steps[..i]) by {
        assert forall j :: 0 <= j < i ==> steps[..i][..j] == steps[..j];
      }
      assert Enabled(s, EndGet(g, frozen));
      hide Enabled;
      hide After;
      Extend(steps[..i], EndGet(g, frozen));
    }
  }

  ghost predicate AllCurrent(s: State) {
    forall n :: n in s.cache ==>
      UpToDate(s.cache[n], s.topics) && Announced(s.cache[n], s.connected && s.cache[n].available, s.topics)
  }

  /** Once the timers have fired, the last message on every state topic is that node's current view
      and on every availability topic that node's availability, if and only if no node is named
      after another's availability topic. */
  lemma NothingLost(steps: seq<Step>)
    requires Possible(steps) && GetsEndSafe(steps)
    requires Distinct(Run(steps).cache) && NoneOwn(Run(steps).cache) && Run(steps).timers == multiset{}
    ensures AllCurrent(Run(steps)) <==> Separate(Run(steps).cache)
  {
    hide AvailabilityTopic;
    hide Possible;
    hide Run;
    hide Names;
    hide IsOwn;
    hide GetsEndSafe;
    var s := Run(steps);
    EveryState(steps);
    NonePending(s);
    if !Separate(s.cache) {
      var m, n :| m in s.cache && n in s.cache && s.cache[m].name == AvailabilityTopic(s.cache[n].name);
      assert !(UpToDate(s.cache[m], s.topics) && Announced(s.cache[n], s.connected && s.cache[n].available, s.topics));
    }
  }

  lemma NonePending(s: State)
    requires Structure(s) && s.timers == multiset{}
    ensures s.pending == {}
  {
    assert forall n :: n in s.pending ==> s.timers[n] == 1;
    hide Names;
  }
}
