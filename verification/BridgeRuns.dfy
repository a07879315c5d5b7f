/** Runs of the bridge in which a topic ends wrong with nothing pending. */
module BridgeRuns {
  import opened DeviceTable

  lemma OwnStart(topic: string)
    requires IsOwn(topic)
    ensures topic != "" && topic[0] == 'b'
  {
    assert "bridge/response/"[0] == 'b';
  }

  lemma DeviceNotOwn(name: string)
    requires name != "" && name[0] != 'b'
    ensures !IsOwn(name) && !IsOwn(AvailabilityTopic(name))
  {
    assert AvailabilityTopic(name)[0] == name[0];
    hide AvailabilityTopic;
    if IsOwn(name) {
      OwnStart(name);
    }
    if IsOwn(AvailabilityTopic(name)) {
      OwnStart(AvailabilityTopic(name));
    }
    hide IsOwn;
  }

  lemma FirstConnect(cache: map<NodeId, Node>, order: seq<NodeId>)
    requires Enumerates(order, cache.Keys)
    ensures var steps := [Connect(cache, order)];
            && Possible(steps) && GetsEndSafe(steps)
            && Run(steps) == Rebuilt(Connected(START, cache), order)
  {
    hide Enumerates;
    hide Rebuilt;
    var steps := [Connect(cache, order)];
    assert steps[..0] == [] && steps[..1] == steps;
    assert Run([]) == START;
    RunNext(steps, 0);
    hide Run;
    PossibleNext(steps, 0);
  }

  /** Two nodes whose topics collide: the first publication already leaves a topic wrong, in
      whichever order the devices are announced. */
  lemma CollidingNames(order: seq<NodeId>)
    requires Enumerates(order, {1, 2})
    ensures var cache := map[1 := Node("lamp", "on", true), 2 := Node("lamp/availability", "off", true)];
            var steps := [Connect(cache, order)];
            && Possible(steps) && Distinct(Run(steps).cache) && Run(steps).timers == multiset{}
            && !AllCurrent(Run(steps))
  {
    var cache := map[1 := Node("lamp", "on", true), 2 := Node("lamp/availability", "off", true)];
    assert cache.Keys == {1, 2};
    assert cache[2].name == AvailabilityTopic(cache[1].name);
    assert Distinct(cache) && !Separate(cache);
    DeviceNotOwn("lamp");
    DeviceNotOwn("lamp/availability");
    hide IsOwn;
    hide AvailabilityTopic;
    assert NoneOwn(cache);
    hide NoneOwn;
    hide Distinct;
    hide Separate;
    hide AllCurrent;
    hide Enumerates;
    hide AnnounceAll;
    hide Run;
    hide Possible;
    hide GetsEndSafe;
    FirstConnect(cache, order);
    NothingLost([Connect(cache, order)]);
  }

  // ---- a get that spans a reconnect ---------------------------------------------------------

  /** Node 1 is off, the connection drops while a get awaits its reads, and it is on when the
      connection is back. The get then publishes off. */
  const OFF := Node("lamp", "off", true)
  const ON := Node("lamp", "on", true)
  const GET := Get(1, 1, "lamp")
  const RECONNECT: seq<Step> :=
    [Connect(map[1 := OFF], [1]), BeginGet(1), Disconnect([1]), Connect(map[1 := ON], [1]), EndGet(GET, "off")]

  function Table(online: bool, connection: nat, node: Node, topics: Topics, gets: multiset<Get>): State {
    State(online, connection, map[1 := node], if online then multiset{1} else multiset{}, map[1 := "lamp"], {1}, {},
          multiset{}, topics, gets)
  }

  lemma StepConnect(s: State, node: Node)
    requires !s.connected && node.name == "lamp" && s.pending == {} && s.timers == multiset{}
    ensures Enabled(s, Connect(map[1 := node], [1]))
    ensures After(s, Connect(map[1 := node], [1])) ==
            Table(true, s.connection + 1, node, Announce(Listed(s.topics), node), s.gets)
  {
    var cache := map[1 := node];
    hide Announce;
    hide Listed;
    assert AnnounceAll(Listed(s.topics), cache, [1]) == Announce(Listed(s.topics), node) by {
      assert [1][..0] == [];
    }
    hide AnnounceAll;
    TableRebuilt(Connected(s, cache), node);
  }

  lemma TableRebuilt(s: State, node: Node)
    requires node.name == "lamp" && s.cache == map[1 := node] && s.subs == multiset{} && s.unsubs == {}
    ensures Enumerates([1], s.cache.Keys)
    ensures Rebuilt(s, [1]) == s.(devices := map[1 := "lamp"], subs := multiset{1}, unsubs := {1},
                                  topics := AnnounceAll(Listed(s.topics), s.cache, [1]))
  {
    hide AnnounceAll;
    hide Listed;
    assert s.cache.Keys == {1} && Names(s.cache) == map[1 := "lamp"];
    hide Names;
    assert Enumerates([1], {1});
    hide Enumerates;
    assert multiset({1} - {}) == multiset{1} && multiset({} - {1}) == multiset{};
  }

  lemma StepBeginGet(connection: nat, node: Node, topics: Topics)
    ensures Enabled(Table(true, connection, node, topics, multiset{}), BeginGet(1))
    ensures After(Table(true, connection, node, topics, multiset{}), BeginGet(1)) ==
            Table(true, connection, node, topics, multiset{Get(connection, 1, "lamp")})
  {
  }

  lemma StepDisconnect(connection: nat, node: Node, topics: Topics, gets: multiset<Get>) returns (topics': Topics)
    ensures Enabled(Table(true, connection, node, topics, gets), Disconnect([1]))
    ensures After(Table(true, connection, node, topics, gets), Disconnect([1])) ==
            Table(false, connection, node, topics', gets)
  {
    hide OfflineAll;
    topics' := OfflineAll(topics, map[1 := "lamp"], [1]);
  }

  lemma StepEndGet(g: Get, connection: nat, node: Node, topics: Topics, frozen: string)
    requires g.connection != connection
    ensures Enabled(Table(true, connection, node, topics, multiset{g}), EndGet(g, frozen))
    ensures After(Table(true, connection, node, topics, multiset{g}), EndGet(g, frozen)) ==
            Table(true, connection, node, topics[g.name := StateMsg(frozen)], multiset{})
  {
  }

  lemma StaleGet()
    ensures Possible(RECONNECT) && AllApart(RECONNECT)
    ensures Run(RECONNECT).connected && Run(RECONNECT).cache == map[1 := ON] && Run(RECONNECT).timers == multiset{}
    ensures "lamp" in Run(RECONNECT).topics && Run(RECONNECT).topics["lamp"] == StateMsg("off")
  {
    assert Separate(map[1 := OFF]) && Separate(map[1 := ON]) by {
      TopicsDiffer("lamp", "lamp");
      hide AvailabilityTopic;
    }
    DeviceNotOwn("lamp");
    assert AllApart(RECONNECT);
    RunEmpty();
    hide Run;
    hide Possible;
    hide After;
    hide Enabled;
    hide Announce;
    hide AllApart;
    var p1 := [] + [Connect(map[1 := OFF], [1])];
    var p2 := p1 + [BeginGet(1)];
    var p3 := p2 + [Disconnect([1])];
    var p4 := p3 + [Connect(map[1 := ON], [1])];
    assert p4 + [EndGet(GET, "off")] == RECONNECT;
    StepConnect(START, OFF);
    Extend([], Connect(map[1 := OFF], [1]));
    StepBeginGet(1, OFF, Run(p1).topics);
    Extend(p1, BeginGet(1));
    var topics := StepDisconnect(1, OFF, Run(p2).topics, multiset{GET});
    Extend(p2, Disconnect([1]));
    StepConnect(Run(p3), ON);
    Extend(p3, Connect(map[1 := ON], [1]));
    StepEndGet(GET, 2, ON, Run(p4).topics, "off");
    Extend(p4, EndGet(GET, "off"));
  }

  // ---- a get that spans a change of names ---------------------------------------------------

  const NAMED: map<NodeId, Node> := map[1 := Node("lamp", "off", true), 2 := Node("spot", "on", true)]
  const RENAMED: map<NodeId, Node> := map[1 := Node("spare", "off", true), 2 := Node("lamp", "on", true)]

  function Renaming(frozen: string): seq<Step> {
    [Connect(NAMED, [1, 2])] + [BeginGet(1)] + [NodesChanged(RENAMED, [1, 2])] + [EndGet(GET, frozen)]
  }

  lemma StepRenamed(s: State, cache: map<NodeId, Node>)
    requires s.connected && cache.Keys == {1, 2}
    ensures Enabled(s, NodesChanged(cache, [1, 2]))
    ensures var s' := After(s, NodesChanged(cache, [1, 2]));
            && s'.cache == cache && s'.connected && s'.connection == s.connection
            && s'.gets == s.gets && s'.timers == s.timers && s'.pending == s.pending
  {
    hide AnnounceAll;
    hide Listed;
    hide Names;
  }

  lemma StepGetOf(s: State, n: NodeId)
    requires s.connected && n in s.devices
    ensures Enabled(s, BeginGet(n))
    ensures After(s, BeginGet(n)) == s.(gets := s.gets + multiset{Get(s.connection, n, s.devices[n])})
  {
  }

  lemma StepAnswer(s: State, g: Get, frozen: string)
    requires g in s.gets && g.connection == s.connection && g.node in s.cache
    ensures Enabled(s, EndGet(g, frozen))
    ensures var s' := After(s, EndGet(g, frozen));
            && s'.cache == s.cache && s'.connected == s.connected && s'.connection == s.connection
            && s'.timers == s.timers && s'.topics == s.topics[g.name := StateMsg(s.cache[g.node].view)]
  {
  }

  /** Within one connection: while a get of the lamp awaits its reads, node 1 is renamed and node 2
      takes its name. The get answers for node 1 on what is now node 2's topic. */
  lemma RenamedGet(frozen: string)
    ensures Possible(Renaming(frozen)) && AllApart(Renaming(frozen))
    ensures var s := Run(Renaming(frozen));
            && s.connected && s.connection == 1 && s.cache == RENAMED && s.timers == multiset{}
            && "lamp" in s.topics && s.topics["lamp"] == StateMsg("off")
            && s.cache[2] == Node("lamp", "on", true)
  {
    NamesApart(frozen);
    hide AllApart;
    hide Possible;
    hide Run;
    hide GetsEndSafe;
    var p1 := [Connect(NAMED, [1, 2])];
    var p2 := p1 + [BeginGet(1)];
    var p3 := p2 + [NodesChanged(RENAMED, [1, 2])];
    ConnectedByFirst(NAMED);
    hide After;
    hide Enabled;
    StepGetOf(Run(p1), 1);
    Extend(p1, BeginGet(1));
    assert RENAMED.Keys == {1, 2};
    StepRenamed(Run(p2), RENAMED);
    Extend(p2, NodesChanged(RENAMED, [1, 2]));
    StepAnswer(Run(p3), GET, frozen);
    Extend(p3, EndGet(GET, frozen));
  }

  lemma ConnectedByFirst(cache: map<NodeId, Node>)
    requires cache.Keys == {1, 2}
    ensures var s := Run([Connect(cache, [1, 2])]);
            && Possible([Connect(cache, [1, 2])])
            && s.connected && s.connection == 1 && s.cache == cache && s.devices == Names(cache)
            && s.gets == multiset{} && s.timers == multiset{} && s.pending == {}
  {
    FirstConnect(cache, [1, 2]);
    hide Run;
    hide Possible;
    hide GetsEndSafe;
    hide AnnounceAll;
    hide Listed;
    hide Names;
  }

  lemma NamesApart(frozen: string)
    ensures AllApart(Renaming(frozen))
  {
    var steps := Renaming(frozen);
    assert steps[0] == Connect(NAMED, [1, 2]) && steps[2] == NodesChanged(RENAMED, [1, 2]);
    PairApart(NAMED);
    PairApart(RENAMED);
    hide Apart;
  }

  lemma PairApart(cache: map<NodeId, Node>)
    requires cache.Keys == {1, 2} && cache[1].name != cache[2].name
    requires cache[1].name != "" && cache[1].name[0] in "ls" && |cache[1].name| < 13
    requires cache[2].name != "" && cache[2].name[0] in "ls" && |cache[2].name| < 13
    ensures Apart(cache)
  {
    Unlike(cache[1].name, cache[2].name);
    assert forall n :: n in cache ==> n == 1 || n == 2;
    hide AvailabilityTopic;
    hide IsOwn;
  }

  /** Short names are neither availability topics nor the bridge's own. */
  lemma Unlike(a: string, b: string)
    requires a != "" && b != "" && a[0] in "ls" && b[0] in "ls" && |a| < 13 && |b| < 13
    ensures forall c :: c in [a, b] ==> !IsOwn(c) && !IsOwn(AvailabilityTopic(c))
    ensures forall c, d :: c in [a, b] && d in [a, b] ==> c != AvailabilityTopic(d)
  {
    DeviceNotOwn(a);
    DeviceNotOwn(b);
    hide IsOwn;
    assert |AvailabilityTopic(a)| == |a| + 13 && |AvailabilityTopic(b)| == |b| + 13;
    hide AvailabilityTopic;
  }

  // ---- a device called like one of the bridge's own topics ----------------------------------

  const OWN_NAME := "bridge/event"

  /** The device's state was right, and then the bridge reports an event. */
  lemma OwnTopicTaken()
    ensures var cache := map[1 := Node(OWN_NAME, "on", true)];
            var steps := [Connect(cache, [1])] + [Own(OWN_NAME)];
            && Possible(steps) && Run(steps).timers == multiset{}
            && Distinct(Run(steps).cache) && Separate(Run(steps).cache) && !AllCurrent(Run(steps))
  {
    var cache := map[1 := Node(OWN_NAME, "on", true)];
    assert cache.Keys == {1};
    FirstConnect(cache, [1]);
    hide Run;
    hide Possible;
    hide GetsEndSafe;
    hide AnnounceAll;
    hide Names;
    var p := [Connect(cache, [1])];
    assert Enabled(Run(p), Own(OWN_NAME));
    Extend(p, Own(OWN_NAME));
    var s := Run(p + [Own(OWN_NAME)]);
    assert s.topics[OWN_NAME] == OwnMsg;
    assert s.cache == cache && !UpToDate(cache[1], s.topics);
    TopicsDiffer(OWN_NAME, OWN_NAME);
    hide AvailabilityTopic;
  }
}
