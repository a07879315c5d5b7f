/** Bridge's callbacks, updating its fields, the client's subscriptions and the published topics. */
module BridgeLoop {
  import opened DeviceTable

  class Bridge {
    // the matter client
    var connected: bool
    var connection: nat
    var cache: map<NodeId, Node>
    var subs: multiset<NodeId>
    // the bridge
    var devices: map<NodeId, string>
    var attrUnsubs: set<NodeId>
    var pendingState: set<NodeId>
    // the event loop and the broker
    var timers: multiset<NodeId>
    var topics: Topics
    var gets: multiset<Get>

    function View(): State
      reads this
    {
      State(connected, connection, cache, subs, devices, attrUnsubs, pendingState, timers, topics, gets)
    }

    constructor ()
      ensures View() == START
    {
      connected, connection, cache, subs := false, 0, map[], multiset{};
      devices, attrUnsubs, pendingState := map[], {}, {};
      timers, topics, gets := multiset{}, map[], multiset{};
    }

    /** A new client with a populated cache; the old one's subscriptions died with it. */
    method OnMatterConnect(nodes: map<NodeId, Node>) returns (ghost order: seq<NodeId>)
      requires !connected
      modifies this
      ensures Enabled(old(View()), Connect(nodes, order)) && View() == After(old(View()), Connect(nodes, order))
    {
      hide Rebuilt;
      hide Enumerates;
      ghost var s := View();
      AfterConnect(s, nodes);
      hide After;
      connected, connection, cache, subs := true, connection + 1, nodes, multiset{};
      attrUnsubs := {};
      order := Rebuild();
    }

    method Rebuild() returns (ghost order: seq<NodeId>)
      modifies this`devices, this`attrUnsubs, this`subs, this`topics
      ensures Enumerates(order, cache.Keys) && View() == Rebuilt(old(View()), order)
    {
      hide Rebuilt;
      hide Enumerates;
      ghost var s := View();
      order := RebuildTables();
      RebuiltFields(s, order, subs, topics);
    }

    method RebuildTables() returns (ghost order: seq<NodeId>)
      modifies this`devices, this`attrUnsubs, this`subs, this`topics
      ensures Enumerates(order, cache.Keys) && topics == AnnounceAll(Listed(old(topics)), cache, order)
      ensures devices == Names(cache) && attrUnsubs == cache.Keys
      ensures subs == old(subs) - multiset(old(attrUnsubs) - cache.Keys) + multiset(cache.Keys - old(attrUnsubs))
    {
      hide Enumerates;
      hide Names;
      hide AnnounceAll;
      devices := Names(cache);
      UpdateSubscriptions();
      hide Listed;
      order := Publish();
    }

    /** The device list, then every device. */
    method Publish() returns (ghost order: seq<NodeId>)
      requires devices == Names(cache)
      modifies this`topics
      ensures Enumerates(order, cache.Keys) && topics == AnnounceAll(Listed(old(topics)), cache, order)
    {
      topics := topics[DEVICES_TOPIC := OwnMsg];
      hide Enumerates;
      hide Names;
      hide AnnounceAll;
      order := PublishAll();
    }

    method UpdateSubscriptions()
      modifies this`attrUnsubs, this`subs
      ensures attrUnsubs == devices.Keys
      ensures subs == old(subs) - multiset(old(attrUnsubs) - devices.Keys) + multiset(devices.Keys - old(attrUnsubs))
    {
      DropRemoved();
      SubscribeNew();
      SubsMeet(old(attrUnsubs), old(subs), devices.Keys);
    }

    /** Ends the subscriptions of nodes that are gone. */
    method DropRemoved()
      modifies this`attrUnsubs, this`subs
      ensures attrUnsubs == old(attrUnsubs) * devices.Keys
      ensures subs == old(subs) - multiset(old(attrUnsubs) - devices.Keys)
    {
      var todo := attrUnsubs;
      ghost var gone: set<NodeId> := {};
      while todo != {}
        invariant todo <= attrUnsubs <= old(attrUnsubs)
        invariant forall n :: n in old(attrUnsubs) && n !in todo ==> (n in attrUnsubs <==> n in devices)
        invariant gone !! attrUnsubs && gone + attrUnsubs == old(attrUnsubs)
        invariant subs == old(subs) - multiset(gone)
        decreases |todo|
      {
        var n :| n in todo;
        todo := todo - {n};
        if n !in devices {
          OneLess(old(subs), gone, n);
          gone := gone + {n};
          attrUnsubs := attrUnsubs - {n};
          subs := subs - multiset{n};
        }
      }
      assert gone == old(attrUnsubs) - devices.Keys;
    }

    /** Subscribes to the nodes that have no subscription yet. */
    method SubscribeNew()
      modifies this`attrUnsubs, this`subs
      ensures attrUnsubs == old(attrUnsubs) + devices.Keys
      ensures subs == old(subs) + multiset(devices.Keys - old(attrUnsubs))
    {
      var todo := devices.Keys;
      ghost var added: set<NodeId> := {};
      while todo != {}
        invariant todo <= devices.Keys && added <= devices.Keys
        invariant forall n :: n in devices && n !in todo ==> n in attrUnsubs
        invariant added !! old(attrUnsubs) && attrUnsubs == old(attrUnsubs) + added
        invariant subs == old(subs) + multiset(added)
        decreases |todo|
      {
        var n :| n in todo;
        todo := todo - {n};
        if n !in attrUnsubs {
          OneMore(old(subs), added, n);
          added := added + {n};
          attrUnsubs := attrUnsubs + {n};
          subs := subs + multiset{n};
        }
      }
      assert added == devices.Keys - old(attrUnsubs);
    }

    /** Announces every device's availability, then its state, in some order. */
    method PublishAll() returns (ghost order: seq<NodeId>)
      requires devices == Names(cache)
      modifies this`topics
      ensures Enumerates(order, cache.Keys) && topics == AnnounceAll(old(topics), cache, order)
    {
      order := [];
      var todo := devices.Keys;
      assert Enumerates([], {}) && devices.Keys - todo == {} && devices.Keys - {} == cache.Keys;
      hide Enumerates;
      assert topics == AnnounceAll(topics, cache, []);
      hide AnnounceAll;
      hide AvailabilityTopic;
      while todo != {}
        invariant todo <= devices.Keys && Enumerates(order, devices.Keys - todo)
        invariant topics == AnnounceAll(old(topics), cache, order)
        decreases |todo|
      {
        var n :| n in todo;
        EnumeratesNext(order, devices.Keys, todo, n);
        AnnounceNext(old(topics), cache, order, n);
        todo := todo - {n};
        order := order + [n];
        topics := topics[AvailabilityTopic(devices[n]) := AvailabilityMsg(cache[n].available)];
        topics := topics[devices[n] := StateMsg(cache[n].view)];
      }
    }

    /** matter-server is gone: every device in the table is announced offline. */
    method OnMatterDisconnect() returns (ghost order: seq<NodeId>)
      modifies this`connected, this`subs, this`topics
      ensures Enabled(old(View()), Disconnect(order)) && View() == After(old(View()), Disconnect(order))
    {
      hide Enumerates;
      hide OfflineAll;
      connected, subs := false, multiset{};
      order := PublishOffline();
    }

    method PublishOffline() returns (ghost order: seq<NodeId>)
      modifies this`topics
      ensures Enumerates(order, devices.Keys) && topics == OfflineAll(old(topics), devices, order)
    {
      order := [];
      var todo := devices.Keys;
      assert Enumerates([], {}) && devices.Keys - todo == {} && devices.Keys - {} == devices.Keys;
      while todo != {}
        invariant todo <= devices.Keys && Enumerates(order, devices.Keys - todo)
        invariant topics == OfflineAll(old(topics), devices, order)
        decreases |todo|
      {
        var n :| n in todo;
        EnumeratesNext(order, devices.Keys, todo, n);
        assert (order + [n])[..|order|] == order;
        todo := todo - {n};
        order := order + [n];
        topics := topics[AvailabilityTopic(devices[n]) := AvailabilityMsg(false)];
      }
    }

    /** Node added, updated or removed, or a discover request. */
    method OnNodesChanged(nodes: map<NodeId, Node>) returns (ghost order: seq<NodeId>)
      requires connected
      modifies this
      ensures Enabled(old(View()), NodesChanged(nodes, order))
      ensures View() == After(old(View()), NodesChanged(nodes, order))
    {
      hide Rebuilt;
      cache := nodes;
      order := Rebuild();
    }

    /** A bridge event, a response to a bridge request, or the bridge's own state. */
    method PublishOwn(topic: string)
      requires IsOwn(topic)
      modifies this`topics
      ensures View() == After(old(View()), Own(topic))
    {
      AfterOwn(View(), topic);
      hide After;
      topics := topics[topic := OwnMsg];
    }

    method ScheduleState(n: NodeId)
      modifies this`pendingState, this`timers
      ensures View() == Schedule(old(View()), n)
    {
      if n !in pendingState {
        pendingState := pendingState + {n};
        timers := timers + multiset{n};
      }
    }

    /** The client changes its cache and calls back every live subscription of the node. */
    method OnAttributeUpdate(n: NodeId, view: string)
      requires connected && n in cache
      modifies this`cache, this`pendingState, this`timers
      ensures View() == After(old(View()), Update(n, view))
    {
      cache := cache[n := cache[n].(view := view)];
      ghost var s := View();
      var calls := subs[n];
      while calls > 0
        modifies this`pendingState, this`timers
        invariant calls <= subs[n]
        invariant View() == if calls == subs[n] then s else Schedule(s, n)
        decreases calls
      {
        ScheduleState(n);
        calls := calls - 1;
      }
    }

    /** The debounce timer of node n fires. */
    method FlushState(n: NodeId)
      requires n in timers
      modifies this`timers, this`pendingState, this`topics
      ensures View() == After(old(View()), Timer(n))
    {
      AfterTimer(View(), n);
      hide After;
      timers := timers - multiset{n};
      ghost var s := View();
      pendingState := pendingState - {n};
      if n in devices && n in cache {
        topics := topics[devices[n] := StateMsg(cache[n].view)];
      }
      assert View() == Flush(s, n);
    }

    method BeginGet(n: NodeId)
      requires connected && n in devices
      modifies this`gets
      ensures View() == After(old(View()), DeviceTable.BeginGet(n))
    {
      gets := gets + multiset{Get(connection, n, devices[n])};
    }

    /** All live reads are back; publish what the captured device shows. */
    method EndGet(g: Get, frozen: string)
      requires g in gets
      modifies this`gets, this`topics
      ensures View() == After(old(View()), DeviceTable.EndGet(g, frozen))
    {
      gets := gets - multiset{g};
      var view := if g.connection == connection && g.node in cache then cache[g.node].view else frozen;
      topics := topics[g.name := StateMsg(view)];
    }
  }

  lemma AfterOwn(s: State, topic: string)
    requires IsOwn(topic)
    ensures After(s, Own(topic)) == s.(topics := s.topics[topic := OwnMsg])
  {
  }

  lemma AfterTimer(s: State, n: NodeId)
    requires n in s.timers
    ensures After(s, Timer(n)) == Flush(s.(timers := s.timers - multiset{n}), n)
  {
    hide Flush;
  }

  lemma AfterConnect(s: State, nodes: map<NodeId, Node>)
    requires !s.connected
    ensures forall order | Enumerates(order, nodes.Keys) ::
              && Enabled(s, Connect(nodes, order))
              && After(s, Connect(nodes, order)) == Rebuilt(Connected(s, nodes), order)
  {
    hide Rebuilt;
    hide Enumerates;
  }

  lemma RebuiltFields(s: State, order: seq<NodeId>, subs: multiset<NodeId>, topics: Topics)
    requires Enumerates(order, s.cache.Keys) && topics == AnnounceAll(Listed(s.topics), s.cache, order)
    requires subs == s.subs - multiset(s.unsubs - s.cache.Keys) + multiset(s.cache.Keys - s.unsubs)
    ensures Rebuilt(s, order) == s.(devices := Names(s.cache), subs := subs, unsubs := s.cache.Keys, topics := topics)
  {
    hide Names;
  }

  lemma AnnounceNext(topics: Topics, cache: map<NodeId, Node>, order: seq<NodeId>, n: NodeId)
    requires n in cache && forall m :: m in order ==> m in cache
    ensures AnnounceAll(topics, cache, order + [n]) == Announce(AnnounceAll(topics, cache, order), cache[n])
  {
    assert (order + [n])[..|order|] == order;
    hide Announce;
  }

  lemma OneLess(m: multiset<NodeId>, nodes: set<NodeId>, n: NodeId)
    requires n !in nodes
    ensures m - multiset(nodes) - multiset{n} == m - multiset(nodes + {n})
  {
  }

  lemma OneMore(m: multiset<NodeId>, nodes: set<NodeId>, n: NodeId)
    requires n !in nodes
    ensures m + multiset(nodes) + multiset{n} == m + multiset(nodes + {n})
  {
  }

  lemma SubsMeet(u: set<NodeId>, m: multiset<NodeId>, table: set<NodeId>)
    ensures u * table + table == table
    ensures m - multiset(u - table) + multiset(table - u * table) == m - multiset(u - table) + multiset(table - u)
  {
    assert table - u * table == table - u;
  }

  lemma EnumeratesNext(order: seq<NodeId>, nodes: set<NodeId>, todo: set<NodeId>, n: NodeId)
    requires Enumerates(order, nodes - todo) && n in todo && todo <= nodes
    ensures Enumerates(order + [n], nodes - (todo - {n}))
  {
  }
}
