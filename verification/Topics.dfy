/** Which publications the bridge takes as requests, and what a device may be called. */
module Topics {
  import opened Bytes

  /** s.split("/") */
  function Split(s: string): (parts: seq<string>)
    ensures parts != []
  {
    if s == "" then [""]
    else
      var rest := Split(s[1..]);
      if s[0] == '/' then [""] + rest else [[s[0]] + rest[0]] + rest[1..]
  }

  /** "/".join(parts) */
  function Join(parts: seq<string>): string {
    if parts == [] then "" else if |parts| == 1 then parts[0] else parts[0] + "/" + Join(parts[1..])
  }

  lemma {:induction false} JoinSplit(s: string)
    ensures Join(Split(s)) == s
  {
    if s != "" {
      var rest := Split(s[1..]);
      JoinSplit(s[1..]);
      assert ([""] + rest)[1..] == rest;
      assert ([[s[0]] + rest[0]] + rest[1..])[1..] == rest[1..];
    }
  }

  lemma SplitCons(c: char, t: string)
    ensures Split([c] + t) == if c == '/' then [""] + Split(t) else [[c] + Split(t)[0]] + Split(t)[1..]
  {
    assert ([c] + t)[1..] == t;
  }

  /** A separator splits: the parts of a/b are those of a and those of b. */
  lemma {:induction false} SplitAt(a: string, b: string)
    ensures Split(a + "/" + b) == Split(a) + Split(b)
  {
    if a == "" {
      assert a + "/" + b == ['/'] + b;
      SplitCons('/', b);
    } else {
      SplitFirst(a[0], a[1..], b);
      assert a == [a[0]] + a[1..];
      SplitAt(a[1..], b);
      SplitCons(a[0], a[1..]);
      hide Split;
      Assoc([""], Split(a[1..]), Split(b));
      Regroup([a[0]], Split(a[1..]), Split(b));
    }
  }

  lemma SplitFirst(c: char, a: string, b: string)
    ensures var r := Split(a + "/" + b);
            Split([c] + a + "/" + b) == if c == '/' then [""] + r else [[c] + r[0]] + r[1..]
  {
    SplitCons(c, a + "/" + b);
    assert [c] + a + "/" + b == [c] + (a + "/" + b);
  }

  lemma Regroup(p: string, x: seq<string>, y: seq<string>)
    requires x != []
    ensures [p + (x + y)[0]] + (x + y)[1..] == ([p + x[0]] + x[1..]) + y
  {
  }

  predicate NoSlash(s: string) {
    '/' !in s
  }

  lemma {:induction false} SplitWord(s: string)
    requires NoSlash(s)
    ensures Split(s) == [s]
  {
    if s != "" {
      SplitWord(s[1..]);
      assert s[0] in s && s == [s[0]] + s[1..];
    }
  }

  // ---- names --------------------------------------------------------------------------------

  const RESERVED: seq<string> := ["bridge", "ping", "discover", "provision"]

  predicate Space(c: char) {
    c == ' ' || '\t' <= c <= '\r'
  }

  function Last(parts: seq<string>): string
    requires parts != []
  {
    parts[|parts| - 1]
  }

  /** valid_name on a string */
  predicate ValidName(name: string) {
    && (exists i :: 0 <= i < |name| && !Space(name[i]))
    && name !in RESERVED
    && '+' !in name && '#' !in name
    && Last(Split(name)) != "set" && Last(Split(name)) != "get"
  }

  // ---- routing ------------------------------------------------------------------------------

  datatype Route =
    | Ignored
    | Ping | Discover | Provision
    | BridgeRequest(subject: string)
    | DeviceRequest(name: string, op: string)

  predicate IsRequest(rest: seq<string>) {
    |rest| >= 3 && rest[0] == "bridge" && rest[1] == "request"
  }

  predicate IsDevice(rest: seq<string>) {
    |rest| >= 2 && (Last(rest) == "set" || Last(rest) == "get")
  }

  /** on_message's decision, by the topic alone. */
  function RouteOf(topic: string): Route {
    RouteParts(Split(topic)[1..])
  }

  function RouteParts(rest: seq<string>): Route {
    if rest == ["ping"] then Ping
    else if rest == ["discover"] then Discover
    else if rest == ["provision"] then Provision
    else if IsRequest(rest) then BridgeRequest(Join(rest[2..]))
    else if IsDevice(rest) then DeviceRequest(Join(rest[..|rest| - 1]), Last(rest))
    else Ignored
  }

  const TOPIC: string := "mt2m"

  /** The names whose topics the bridge's own requests shadow: bridge/request and what is below. */
  predicate Shadowed(name: string) {
    |Split(name)| >= 2 && Split(name)[0] == "bridge" && Split(name)[1] == "request"
  }

  lemma SplitTopic(rest: string)
    ensures Split(TOPIC + "/" + rest) == [TOPIC] + Split(rest)
  {
    SplitAt(TOPIC, rest);
    SplitWord(TOPIC);
  }

  lemma SplitUnder(name: string, leaf: string)
    requires NoSlash(leaf)
    ensures Split(TOPIC + "/" + (name + "/" + leaf))[1..] == Split(name) + [leaf]
  {
    SplitTopic(name + "/" + leaf);
    SplitAt(name, leaf);
    SplitWord(leaf);
  }

  /** Main theorem: mt2m/<name>/set and /get come back as requests for exactly that name, if and only
      if the name is not at or below bridge/request. */
  lemma RequestsRouteBack(name: string, op: string)
    requires op == "set" || op == "get"
    ensures RouteOf(TOPIC + "/" + (name + "/" + op)) == DeviceRequest(name, op) <==> !Shadowed(name)
  {
    SplitUnder(name, op);
    JoinSplit(name);
    var rest := Split(name) + [op];
    assert rest[..|rest| - 1] == Split(name) && Last(rest) == op;
    assert IsRequest(rest) <==> Shadowed(name);
  }

  lemma {:induction false} JoinFront(p: string, parts: seq<string>)
    requires parts != []
    ensures Join([p] + parts) == p + "/" + Join(parts)
  {
    assert ([p] + parts)[1..] == parts;
  }

  lemma {:induction false} JoinLast(parts: seq<string>)
    requires |parts| >= 2
    ensures Join(parts) == Join(parts[..|parts| - 1]) + "/" + Last(parts)
  {
    var n := |parts| - 1;
    assert parts == [parts[0]] + parts[1..];
    JoinFront(parts[0], parts[1..]);
    if n > 1 {
      JoinLast(parts[1..]);
      assert parts[..n] == [parts[0]] + parts[1..][..n - 1];
      JoinFront(parts[0], parts[1..][..n - 1]);
    }
  }

  lemma SplitIs(s: string, word: string)
    requires NoSlash(word)
    ensures Split(s) == [word] <==> s == word
  {
    JoinSplit(s);
    SplitWord(word);
    hide Split;
  }

  lemma SplitTwo(a: string, b: string, c: string)
    requires NoSlash(a) && NoSlash(b)
    ensures Split(a + "/" + (b + "/" + c)) == [a, b] + Split(c)
  {
    SplitAt(b, c);
    SplitAt(a, b + "/" + c);
    SplitWord(a);
    SplitWord(b);
    hide Split;
    assert [a] + ([b] + Split(c)) == [a, b] + Split(c);
  }

  lemma RequestTopic(c: string)
    ensures "bridge/request/" + c == "bridge" + "/" + ("request" + "/" + c)
  {
    assert "bridge/request/" == "bridge" + "/" + ("request" + "/");
    Assoc("request", "/", c);
    Assoc("bridge" + "/", "request" + "/", c);
  }

  lemma SplitRequest(subject: string)
    ensures Split("bridge/request/" + subject) == ["bridge", "request"] + Split(subject)
  {
    hide Split;
    RequestTopic(subject);
    SplitTwo("bridge", "request", subject);
  }

  lemma JoinRequest(parts: seq<string>)
    requires |parts| >= 3 && parts[0] == "bridge" && parts[1] == "request"
    ensures Join(parts) == "bridge/request/" + Join(parts[2..])
  {
    assert parts == [parts[0]] + parts[1..] && parts[1..] == [parts[1]] + parts[2..];
    JoinFront(parts[0], parts[1..]);
    JoinFront(parts[1], parts[2..]);
    hide Join;
    assert "bridge" + "/" + ("request" + "/" + Join(parts[2..])) == "bridge/request/" + Join(parts[2..]);
  }

  /** Main theorem: how every topic under mt2m is taken, in terms of the topic alone. */
  lemma RoutesExactly(rest: string)
    ensures var r := RouteOf("mt2m/" + rest);
            && (r == Ping <==> rest == "ping")
            && (r == Discover <==> rest == "discover")
            && (r == Provision <==> rest == "provision")
            && (forall subject :: r == BridgeRequest(subject) <==> rest == "bridge/request/" + subject)
            && (forall name, op :: r == DeviceRequest(name, op) <==>
                  (op == "set" || op == "get") && rest == name + "/" + op && !Shadowed(name))
  {
    SplitTopic(rest);
    assert "mt2m/" + rest == TOPIC + "/" + rest;
    var parts := Split(rest);
    assert ([TOPIC] + parts)[1..] == parts;
    WordRoutes(rest);
    forall subject ensures RouteParts(parts) == BridgeRequest(subject) <==> rest == "bridge/request/" + subject {
      RequestRoute(rest, subject);
    }
    forall name, op
      ensures RouteParts(parts) == DeviceRequest(name, op) <==>
              (op == "set" || op == "get") && rest == name + "/" + op && !Shadowed(name)
    {
      DeviceRoute(rest, name, op);
    }
    hide Split;
    hide RouteParts;
    hide Shadowed;
  }

  lemma WordRoutes(rest: string)
    ensures var r := RouteParts(Split(rest));
            (r == Ping <==> rest == "ping") && (r == Discover <==> rest == "discover")
            && (r == Provision <==> rest == "provision")
  {
    SplitIs(rest, "ping");
    SplitIs(rest, "discover");
    SplitIs(rest, "provision");
    hide Split;
    hide Join;
  }

  lemma RequestRoute(rest: string, subject: string)
    ensures RouteParts(Split(rest)) == BridgeRequest(subject) <==> rest == "bridge/request/" + subject
  {
    var parts := Split(rest);
    JoinSplit(rest);
    SplitRequest(subject);
    JoinSplit(subject);
    if IsRequest(parts) {
      JoinRequest(parts);
    }
    assert (["bridge", "request"] + Split(subject))[2..] == Split(subject);
    hide Split;
    hide Join;
  }

  lemma DeviceRoute(rest: string, name: string, op: string)
    ensures RouteParts(Split(rest)) == DeviceRequest(name, op) <==>
            (op == "set" || op == "get") && rest == name + "/" + op && !Shadowed(name)
  {
    var parts := Split(rest);
    JoinSplit(rest);
    if (op == "set" || op == "get") && rest == name + "/" + op {
      RequestsRouteBack(name, op);
      SplitTopic(rest);
      assert ([TOPIC] + parts)[1..] == parts;
    } else if RouteParts(parts) == DeviceRequest(name, op) {
      JoinLast(parts);
    }
    hide Split;
    hide Join;
    hide RouteParts;
    hide Shadowed;
  }

  /** Shadowed names are bridge/request and everything below it. */
  lemma ShadowedExactly(name: string)
    ensures Shadowed(name) <==> name == "bridge/request" || exists subject :: name == "bridge/request/" + subject
  {
    hide Split;
    hide Join;
    if Shadowed(name) {
      ShadowedIs(name);
    }
    hide Shadowed;
    if name == "bridge/request" {
      RequestShadowed();
    }
    if subject :| name == "bridge/request/" + subject {
      BelowShadowed(subject);
    }
  }

  lemma ShadowedIs(name: string)
    requires Shadowed(name)
    ensures name == "bridge/request" || exists subject :: name == "bridge/request/" + subject
  {
    var parts := Split(name);
    JoinSplit(name);
    if |parts| == 2 {
      assert parts == ["bridge"] + ["request"];
      JoinFront("bridge", ["request"]);
      assert Join(["request"]) == "request";
    } else {
      JoinRequest(parts);
    }
    hide Split;
    hide Join;
  }

  lemma RequestShadowed()
    ensures Shadowed("bridge/request")
  {
    hide Split;
    RequestWords();
    TwoWords("bridge", "request");
    hide NoSlash;
  }

  lemma RequestWords()
    ensures "bridge/request" == "bridge" + "/" + "request"
  {
  }

  lemma TwoWords(a: string, b: string)
    requires NoSlash(a) && NoSlash(b)
    ensures Split(a + "/" + b) == [a, b]
  {
    SplitAt(a, b);
    SplitWord(a);
    SplitWord(b);
    hide Split;
  }

  lemma BelowShadowed(subject: string)
    ensures Shadowed("bridge/request/" + subject)
  {
    SplitRequest(subject);
    hide Split;
  }

  /** The names devices can have: not blank, not one of the bridge's own four words, no wildcards, and
      neither set nor get, alone or behind a slash. */
  lemma NameExactly(name: string)
    ensures ValidName(name) <==>
            && (exists i :: 0 <= i < |name| && !(name[i] == ' ' || 9 as char <= name[i] <= 13 as char))
            && name != "bridge" && name != "ping" && name != "discover" && name != "provision"
            && (forall i :: 0 <= i < |name| ==> name[i] != '+' && name[i] != '#')
            && name != "set" && name != "get"
            && (forall a :: name != a + "/set" && name != a + "/get")
  {
    hide Split;
    hide Last;
    LastNot(name);
    assert name in RESERVED <==> name == "bridge" || name == "ping" || name == "discover" || name == "provision";
    hide RESERVED;
    assert forall c :: Space(c) <==> c == ' ' || 9 as char <= c <= 13 as char;
    hide Space;
  }

  lemma LastNot(name: string)
    ensures Last(Split(name)) != "set" && Last(Split(name)) != "get" <==>
            name != "set" && name != "get" && (forall a :: name != a + "/set" && name != a + "/get")
  {
    hide Split;
    hide Last;
    LastIs(name, "set");
    LastIs(name, "get");
    forall a ensures a + "/set" == a + "/" + "set" && a + "/get" == a + "/" + "get" {
      SlashWord(a);
    }
  }

  lemma SlashWord(a: string)
    ensures a + "/set" == a + "/" + "set" && a + "/get" == a + "/" + "get"
  {
    assert "/set" == "/" + "set" && "/get" == "/" + "get";
  }

  lemma LastIs(name: string, leaf: string)
    requires NoSlash(leaf)
    ensures Last(Split(name)) == leaf <==> name == leaf || exists a :: name == a + "/" + leaf
  {
    var parts := Split(name);
    JoinSplit(name);
    if Last(parts) == leaf {
      if |parts| == 1 {
        assert Join(parts) == parts[0];
      } else {
        JoinLast(parts);
      }
    }
    if name == leaf {
      SplitWord(leaf);
    }
    if a :| name == a + "/" + leaf {
      LastLeaf(a, leaf);
    }
    hide Split;
    hide Join;
  }

  /** Main theorem: what the bridge itself publishes about a validly named device is never taken as a
      request for a device; it is ignored altogether if and only if no request topic shadows it. */
  lemma PublicationsIgnored(name: string)
    requires ValidName(name)
    ensures !RouteOf(TOPIC + "/" + name).DeviceRequest?
    ensures !RouteOf(TOPIC + "/" + (name + "/availability")).DeviceRequest?
    ensures RouteOf(TOPIC + "/" + name) == Ignored <==> !IsRequest(Split(name))
    ensures RouteOf(TOPIC + "/" + (name + "/availability")) == Ignored <==> !Shadowed(name)
  {
    StateIgnored(name);
    AvailabilityIgnored(name);
    hide RouteOf;
    hide ValidName;
    hide Split;
  }

  lemma StateIgnored(name: string)
    requires ValidName(name)
    ensures !RouteOf(TOPIC + "/" + name).DeviceRequest?
    ensures RouteOf(TOPIC + "/" + name) == Ignored <==> !IsRequest(Split(name))
  {
    SplitTopic(name);
    NotReserved(name);
    hide Split;
    assert ([TOPIC] + Split(name))[1..] == Split(name);
  }

  lemma AvailabilityIgnored(name: string)
    ensures !RouteOf(TOPIC + "/" + (name + "/availability")).DeviceRequest?
    ensures RouteOf(TOPIC + "/" + (name + "/availability")) == Ignored <==> !Shadowed(name)
  {
    AvailabilityLeaf(name);
    SplitUnder(name, "availability");
    hide Split;
    var under := Split(name) + ["availability"];
    assert |under| >= 2 && Last(under) == "availability";
    assert IsRequest(under) <==> Shadowed(name);
  }

  lemma AvailabilityLeaf(name: string)
    ensures name + "/availability" == name + "/" + "availability"
  {
    assert "/availability" == "/" + "availability";
  }

  lemma NotReserved(name: string)
    requires name !in RESERVED
    ensures Split(name) != ["ping"] && Split(name) != ["discover"] && Split(name) != ["provision"]
  {
    JoinSplit(name);
    hide Split;
    assert Join(["ping"]) == RESERVED[1] && Join(["discover"]) == RESERVED[2] && Join(["provision"]) == RESERVED[3];
  }

  /** valid_name does not keep topics apart: the availability topic of a validly named device is a
      valid name itself, so another device may have it for its state. */
  lemma AvailabilityIsName(name: string)
    requires ValidName(name)
    ensures ValidName(name + "/availability")
  {
    var s := name + "/availability";
    LastPart(name);
    ReservedHasNoSlash(s, |name|);
    hide Split;
    hide RESERVED;
    var i :| 0 <= i < |name| && !Space(name[i]);
    assert s[i] == name[i];
    assert '+' !in s && '#' !in s by {
      assert '+' !in "/availability" && '#' !in "/availability";
    }
    hide Space;
  }

  lemma LastPart(name: string)
    ensures Last(Split(name + "/availability")) == "availability"
  {
    AvailabilityLeaf(name);
    LastLeaf(name, "availability");
    hide Split;
    hide Last;
  }

  lemma LastLeaf(name: string, leaf: string)
    requires NoSlash(leaf)
    ensures Last(Split(name + "/" + leaf)) == leaf
  {
    SplitAt(name, leaf);
    SplitWord(leaf);
    hide Split;
  }

  lemma ReservedHasNoSlash(s: string, i: nat)
    requires i < |s| && s[i] == '/'
    ensures s !in RESERVED
  {
    assert forall r :: r in RESERVED ==> '/' !in r;
  }

  lemma LampIsName()
    ensures ValidName("lamp") && ValidName("lamp/availability")
  {
    SplitWord("lamp");
    hide Split;
    assert !Space("lamp"[0]);
    assert "lamp/availability" == "lamp" + "/availability";
    AvailabilityIsName("lamp");
  }

  lemma NameUnder(a: string, leaf: string, i: nat)
    requires i < |a| && !Space(a[i]) && '+' !in a && '#' !in a
    requires NoSlash(leaf) && '+' !in leaf && '#' !in leaf && leaf != "set" && leaf != "get"
    ensures ValidName(a + "/" + leaf)
  {
    var s := a + "/" + leaf;
    LastLeaf(a, leaf);
    ReservedHasNoSlash(s, |a|);
    hide Split;
    hide RESERVED;
    assert s[i] == a[i];
    hide Space;
  }

  /** ... and neither does it keep devices off the bridge's own topics. */
  lemma OwnIsName()
    ensures ValidName("bridge/event")
  {
    hide ValidName;
    assert "bridge/event" == "bridge" + "/" + "event";
    NameUnder("bridge", "event", 0);
  }

  // ---- resolving a name ---------------------------------------------------------------------

  datatype Device = Device(friendly: string, unique: Option<string>, nodeId: string)

  /** First match on the friendly name, then on the unique id, then on the node id. */
  method Resolve(devices: seq<Device>, name: string) returns (r: Option<Device>)
    ensures r.None? <==> forall d :: d in devices ==> d.friendly != name && d.unique != Some(name) && d.nodeId != name
    ensures r.Some? ==> r.value in devices
    ensures r.Some? && r.value.friendly != name ==> forall d :: d in devices ==> d.friendly != name
    ensures r.Some? && r.value.friendly != name && r.value.unique != Some(name) ==>
              r.value.nodeId == name && forall d :: d in devices ==> d.unique != Some(name)
    ensures (forall d, e :: d in devices && e in devices && d != e ==> d.friendly != e.friendly) ==>
              forall d :: d in devices && d.friendly == name ==> r == Some(d)
  {
    for i := 0 to |devices|
      invariant forall d :: d in devices[..i] ==> d.friendly != name
    {
      if devices[i].friendly == name {
        return Some(devices[i]);
      }
    }
    for i := 0 to |devices|
      invariant forall d :: d in devices[..i] ==> d.unique != Some(name)
    {
      if devices[i].unique == Some(name) {
        return Some(devices[i]);
      }
    }
    for i := 0 to |devices|
      invariant forall d :: d in devices[..i] ==> d.nodeId != name
    {
      if devices[i].nodeId == name {
        return Some(devices[i]);
      }
    }
    return None;
  }
}
