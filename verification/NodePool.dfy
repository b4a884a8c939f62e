/**
 * LNUnit.LND/LNDNodePool.cs: which nodes the pool is connected to, still has to connect to, and offers as
 * ready. A timer tick, an addition and a removal are single steps; what a tick sees of the outside, connections
 * that succeed and nodes that are active, are inputs.
 */
module NodePool {
  import opened Wrappers
  import opened Outcomes

  datatype Settings = Settings(endpoint: Option<string>, tlsCert: Option<string>, macaroon: Option<string>)

  /** A connection object; the number stands for its identity. */
  datatype Connection = Connection(id: nat, settings: Settings)

  datatype Pool = Pool(nodes: seq<Connection>, pending: seq<Settings>, ready: seq<Connection>, nextId: nat)

  // ---------- lists

  /** `List.Remove`: the first occurrence, if any. */
  function Without(s: seq<Connection>, c: Connection): seq<Connection> {
    if s == [] then [] else if s[0] == c then s[1..] else [s[0]] + Without(s[1..], c)
  }

  predicate Distinct<T(==)>(s: seq<T>) {
    forall i, j :: 0 <= i < j < |s| ==> s[i] != s[j]
  }

  /** How many entries a test holds of. */
  function Count(s: seq<Settings>, test: Settings -> bool): nat {
    if s == [] then 0 else (if test(s[0]) then 1 else 0) + Count(s[1..], test)
  }

  function AtEndpoint(endpoint: Option<string>): Settings -> bool {
    (s: Settings) => s.endpoint == endpoint
  }

  function SettingsOf(nodes: seq<Connection>): (s: seq<Settings>)
    ensures |s| == |nodes|
    ensures forall i :: 0 <= i < |nodes| ==> s[i] == nodes[i].settings
  {
    seq(|nodes|, i requires 0 <= i < |nodes| => nodes[i].settings)
  }

  /** How many entries the pool knows, connected or not, that a test holds of. */
  function Known(p: Pool, test: Settings -> bool): nat {
    Count(SettingsOf(p.nodes), test) + Count(p.pending, test)
  }

  /** Entries of one endpoint are alike to a test. */
  ghost predicate Alike(s: seq<Settings>, test: Settings -> bool) {
    forall x, y :: x in s && y in s && x.endpoint == y.endpoint ==> test(x) == test(y)
  }

  // ---------- connecting

  /** Where `First` finds an endpoint in a list; the length of the list when it finds none and throws. */
  function FirstAt(s: seq<Settings>, endpoint: Option<string>): (k: nat)
    ensures k <= |s|
    ensures k < |s| ==> s[k].endpoint == endpoint
    ensures forall j :: 0 <= j < k ==> s[j].endpoint != endpoint
  {
    if s == [] || s[0].endpoint == endpoint then 0 else 1 + FirstAt(s[1..], endpoint)
  }

  /** One successful connection: the node is added before the pending entry is looked up and removed. */
  function Connect(p: Pool, s: Settings): Pool {
    var q := p.(nodes := p.nodes + [Connection(p.nextId, s)], nextId := p.nextId + 1);
    var k := FirstAt(p.pending, s.endpoint);
    if k < |p.pending| then q.(pending := p.pending[..k] + p.pending[k + 1..]) else q
  }

  /** `SetupNotYetInitializedNodes` over a copy of the pending list, from entry `i` on. */
  function ConnectFrom(p: Pool, copy: seq<Settings>, connects: seq<bool>, i: nat): Pool
    requires i <= |copy|
    decreases |copy| - i
  {
    if i == |copy| then p
    else ConnectFrom(if Succeeds(connects, i) then Connect(p, copy[i]) else p, copy, connects, i + 1)
  }

  // ---------- ready states

  /** One round of the loop in `UpdateReadyStates`: a node that is not listed yet is added without a look at its state. */
  function RefreshNode(ready: seq<Connection>, node: Connection, active: set<nat>): seq<Connection> {
    if node in ready && node.id !in active then Without(ready, node)
    else if node !in ready then ready + [node]
    else ready
  }

  function RefreshFrom(ready: seq<Connection>, nodes: seq<Connection>, active: set<nat>, i: nat): seq<Connection>
    requires i <= |nodes|
    decreases |nodes| - i
  {
    if i == |nodes| then ready else RefreshFrom(RefreshNode(ready, nodes[i], active), nodes, active, i + 1)
  }

  // ---------- steps and runs

  function Tick(p: Pool, connects: seq<bool>, active: set<nat>): Pool {
    var q := ConnectFrom(p, p.pending, connects, 0);
    q.(ready := RefreshFrom(q.ready, q.nodes, active, 0))
  }

  datatype Event = Ticks(connects: seq<bool>, active: set<nat>) | Adds(settings: Settings) | Removes(node: Connection)

  function Step(p: Pool, e: Event): Pool {
    match e
    case Ticks(connects, active) => Tick(p, connects, active)
    case Adds(settings) => p.(pending := p.pending + [settings])
    case Removes(node) => p.(nodes := Without(p.nodes, node), ready := Without(p.ready, node))
  }

  function Run(p: Pool, events: seq<Event>): Pool
    decreases |events|
  {
    if events == [] then p else Run(Step(p, events[0]), events[1..])
  }

  /** What one step brings in from outside, and what it takes out of a pool. */
  function Added(e: Event, test: Settings -> bool): nat {
    if e.Adds? && test(e.settings) then 1 else 0
  }

  function Removed(p: Pool, e: Event, test: Settings -> bool): nat {
    if e.Removes? && e.node in p.nodes && test(e.node.settings) then 1 else 0
  }

  function AllAdded(events: seq<Event>, test: Settings -> bool): nat
    decreases |events|
  {
    if events == [] then 0 else Added(events[0], test) + AllAdded(events[1..], test)
  }

  function AllRemoved(p: Pool, events: seq<Event>, test: Settings -> bool): nat
    decreases |events|
  {
    if events == [] then 0 else Removed(p, events[0], test) + AllRemoved(Step(p, events[0]), events[1..], test)
  }

  /** Connections are distinct objects, and the ready list is a list of different connected nodes. */
  ghost predicate Valid(p: Pool) {
    && (forall c :: c in p.nodes ==> c.id < p.nextId)
    && Distinct(p.nodes)
    && Distinct(p.ready)
    && forall c :: c in p.ready ==> c in p.nodes
  }

  // ---------- facts about lists

  lemma {:induction false} CountConcat(a: seq<Settings>, b: seq<Settings>, test: Settings -> bool)
    ensures Count(a + b, test) == Count(a, test) + Count(b, test)
  {
    if a == [] {
      assert a + b == b;
    } else {
      CountConcat(a[1..], b, test);
      assert (a + b)[1..] == a[1..] + b;
    }
  }

  lemma CountOne(s: Settings, test: Settings -> bool)
    ensures Count([s], test) == if test(s) then 1 else 0
  {
    assert [s][1..] == [];
  }

  lemma CountWithout(s: seq<Settings>, k: nat, test: Settings -> bool)
    requires k < |s|
    ensures Count(s, test) == Count(s[..k] + s[k + 1..], test) + if test(s[k]) then 1 else 0
  {
    assert s == s[..k] + ([s[k]] + s[k + 1..]);
    CountConcat(s[..k], [s[k]] + s[k + 1..], test);
    CountConcat([s[k]], s[k + 1..], test);
    CountConcat(s[..k], s[k + 1..], test);
    CountOne(s[k], test);
  }

  lemma {:induction false} CountedIsIn(s: seq<Settings>, endpoint: Option<string>)
    ensures Count(s, AtEndpoint(endpoint)) > 0 <==> FirstAt(s, endpoint) < |s|
  {
    if s != [] {
      CountedIsIn(s[1..], endpoint);
    }
  }

  lemma {:induction false} WithoutKeeps(s: seq<Connection>, c: Connection)
    requires Distinct(s)
    ensures Distinct(Without(s, c))
    ensures forall d :: d in Without(s, c) <==> d in s && d != c
  {
    if s != [] {
      assert forall d :: d in s <==> d == s[0] || d in s[1..];
      WithoutKeeps(s[1..], c);
      if s[0] == c {
        assert c !in s[1..];
      } else {
        assert s[0] !in s[1..];
      }
    }
  }

  lemma {:induction false} WithoutCounts(nodes: seq<Connection>, c: Connection, test: Settings -> bool)
    ensures Count(SettingsOf(nodes), test)
         == Count(SettingsOf(Without(nodes, c)), test) + if c in nodes && test(c.settings) then 1 else 0
  {
    if nodes != [] {
      assert SettingsOf(nodes)[1..] == SettingsOf(nodes[1..]);
      WithoutCounts(nodes[1..], c, test);
      if nodes[0] != c {
        var w := [nodes[0]] + Without(nodes[1..], c);
        assert SettingsOf(w)[1..] == SettingsOf(Without(nodes[1..], c));
        assert SettingsOf(w)[0] == nodes[0].settings;
      }
    }
  }

  // ---------- connecting

  /** A connection moves a pending entry of its endpoint, not always its own, to the connected nodes. */
  lemma ConnectMoves(p: Pool, s: Settings, test: Settings -> bool)
    requires FirstAt(p.pending, s.endpoint) < |p.pending|
    ensures var q := Connect(p, s);
      var taken := p.pending[FirstAt(p.pending, s.endpoint)];
      && Count(p.pending, test) == Count(q.pending, test) + (if test(taken) then 1 else 0)
      && Known(q, test) + (if test(taken) then 1 else 0) == Known(p, test) + (if test(s) then 1 else 0)
      && forall x :: x in q.pending ==> x in p.pending
  {
    CountWithout(p.pending, FirstAt(p.pending, s.endpoint), test);
    assert SettingsOf(p.nodes + [Connection(p.nextId, s)]) == SettingsOf(p.nodes) + [s];
    CountConcat(SettingsOf(p.nodes), [s], test);
    CountOne(s, test);
  }

  lemma ConnectValid(p: Pool, s: Settings)
    requires Valid(p)
    ensures Valid(Connect(p, s))
    ensures Connect(p, s).ready == p.ready
    ensures p.nodes <= Connect(p, s).nodes
  {
    assert Connection(p.nextId, s) !in p.nodes;
  }

  lemma {:induction false} ConnectFromValid(p: Pool, copy: seq<Settings>, connects: seq<bool>, i: nat)
    requires Valid(p) && i <= |copy|
    ensures Valid(ConnectFrom(p, copy, connects, i))
    ensures ConnectFrom(p, copy, connects, i).ready == p.ready
    ensures p.nodes <= ConnectFrom(p, copy, connects, i).nodes
    decreases |copy| - i
  {
    hide Valid, Connect;
    if i < |copy| {
      ConnectValid(p, copy[i]);
      ConnectFromValid(if Succeeds(connects, i) then Connect(p, copy[i]) else p, copy, connects, i + 1);
    }
  }

  /** Every entry still to be visited has its endpoint pending, as often as it will be looked for. */
  ghost predicate Awaited(p: Pool, copy: seq<Settings>, i: nat)
    requires i <= |copy|
  {
    forall e :: Count(copy[i..], AtEndpoint(e)) <= Count(p.pending, AtEndpoint(e))
  }

  /** As long as that holds, `First` finds an entry, and it goes on to hold. */
  lemma AwaitedKept(p: Pool, copy: seq<Settings>, i: nat)
    requires i < |copy| && Awaited(p, copy, i)
    ensures FirstAt(p.pending, copy[i].endpoint) < |p.pending|
    ensures Awaited(p, copy, i + 1)
    ensures Awaited(Connect(p, copy[i]), copy, i + 1)
  {
    var s := copy[i];
    assert copy[i..][0] == s && copy[i..][1..] == copy[i + 1..];
    assert Count(copy[i..], AtEndpoint(s.endpoint)) > 0;
    CountedIsIn(p.pending, s.endpoint);
    forall e
      ensures Count(copy[i + 1..], AtEndpoint(e)) <= Count(p.pending, AtEndpoint(e))
      ensures Count(copy[i + 1..], AtEndpoint(e)) <= Count(Connect(p, s).pending, AtEndpoint(e))
    {
      ConnectMoves(p, s, AtEndpoint(e));
      assert Count(copy[i..], AtEndpoint(e)) == (if s.endpoint == e then 1 else 0) + Count(copy[i + 1..], AtEndpoint(e));
    }
  }

  /** The connections of a tick conserve what a test counts that cannot tell apart pending entries of one endpoint. */
  lemma {:induction false} ConnectFromKeeps(
    p: Pool, copy: seq<Settings>, connects: seq<bool>, i: nat, test: Settings -> bool)
    requires i <= |copy| && Awaited(p, copy, i)
    requires Alike(copy, test) && forall x :: x in p.pending ==> x in copy
    ensures Known(ConnectFrom(p, copy, connects, i), test) == Known(p, test)
    decreases |copy| - i
  {
    hide Awaited, Known, Connect;
    if i < |copy| {
      AwaitedKept(p, copy, i);
      if Succeeds(connects, i) {
        var s := copy[i];
        ConnectMoves(p, s, test);
        assert p.pending[FirstAt(p.pending, s.endpoint)] in copy && s in copy;
        ConnectFromKeeps(Connect(p, s), copy, connects, i + 1, test);
      } else {
        ConnectFromKeeps(p, copy, connects, i + 1, test);
      }
    }
  }

  // ---------- ready states

  lemma {:induction false} RefreshFromExact(ready: seq<Connection>, nodes: seq<Connection>, active: set<nat>, i: nat)
    requires Distinct(ready) && Distinct(nodes) && i <= |nodes|
    ensures var r := RefreshFrom(ready, nodes, active, i);
      && Distinct(r)
      && forall c :: c in r <==>
        if c in nodes[i..] then c !in ready || c.id in active else c in ready
    decreases |nodes| - i
  {
    if i < |nodes| {
      var c := nodes[i];
      var next := RefreshNode(ready, c, active);
      WithoutKeeps(ready, c);
      assert nodes[i..] == [c] + nodes[i + 1..];
      assert c !in nodes[i + 1..];
      RefreshFromExact(next, nodes, active, i + 1);
    }
  }

  /** The listed nodes that stay: all but those the pool has and finds inactive. */
  function Staying(ready: seq<Connection>, nodes: seq<Connection>, active: set<nat>): seq<Connection> {
    if ready == [] then []
    else
      (if ready[0] in nodes && ready[0].id !in active then [] else [ready[0]]) + Staying(ready[1..], nodes, active)
  }

  /** The nodes that are not listed yet. */
  function Unlisted(nodes: seq<Connection>, ready: seq<Connection>): seq<Connection> {
    if nodes == [] then [] else (if nodes[0] in ready then [] else [nodes[0]]) + Unlisted(nodes[1..], ready)
  }

  lemma {:induction false} StayingWithout(
    ready: seq<Connection>, c: Connection, nodes: seq<Connection>, active: set<nat>)
    requires Distinct(ready) && c !in nodes && c.id !in active
    ensures Staying(Without(ready, c), nodes, active) == Staying(ready, [c] + nodes, active)
  {
    if ready != [] {
      StayingWithout(ready[1..], c, nodes, active);
      if ready[0] == c {
        assert c !in ready[1..];
        StayingOthers(ready[1..], c, nodes, active);
      } else {
        var w := [ready[0]] + Without(ready[1..], c);
        assert w[1..] == Without(ready[1..], c);
      }
    }
  }

  lemma {:induction false} StayingOthers(
    ready: seq<Connection>, c: Connection, nodes: seq<Connection>, active: set<nat>)
    requires c !in ready || c.id in active
    ensures Staying(ready, nodes, active) == Staying(ready, [c] + nodes, active)
  {
    if ready != [] {
      StayingOthers(ready[1..], c, nodes, active);
    }
  }

  lemma {:induction false} StayingMore(ready: seq<Connection>, c: Connection, nodes: seq<Connection>, active: set<nat>)
    requires c !in nodes
    ensures Staying(ready + [c], nodes, active) == Staying(ready, nodes, active) + [c]
  {
    if ready != [] {
      assert (ready + [c])[1..] == ready[1..] + [c];
      StayingMore(ready[1..], c, nodes, active);
    } else {
      assert [] + [c] == [c] && [c][1..] == [];
    }
  }

  lemma {:induction false} SameUnlisted(nodes: seq<Connection>, ready: seq<Connection>, other: seq<Connection>)
    requires forall c :: c in nodes ==> (c in ready <==> c in other)
    ensures Unlisted(nodes, ready) == Unlisted(nodes, other)
  {
    if nodes != [] {
      SameUnlisted(nodes[1..], ready, other);
    }
  }

  /** The order of the ready list: what stays keeps its order, and new nodes follow in the order of the nodes. */
  lemma {:induction false} RefreshFromOrder(ready: seq<Connection>, nodes: seq<Connection>, active: set<nat>, i: nat)
    requires Distinct(ready) && Distinct(nodes) && i <= |nodes|
    ensures RefreshFrom(ready, nodes, active, i) == Staying(ready, nodes[i..], active) + Unlisted(nodes[i..], ready)
    decreases |nodes| - i
  {
    if i == |nodes| {
      AllStay(ready, active);
    } else {
      var c, rest := nodes[i], nodes[i + 1..];
      var next := RefreshNode(ready, c, active);
      assert nodes[i..] == [c] + rest && c !in rest;
      NextReady(ready, c, rest, active);
      RefreshOne(ready, c, rest, active);
      hide Distinct, RefreshNode, Staying, Unlisted;
      RefreshFromOrder(next, nodes, active, i + 1);
      UnlistedFirst(c, rest, ready);
      Associative(Staying(ready, [c] + rest, active), if c in ready then [] else [c], Unlisted(rest, ready));
    }
  }

  lemma NextReady(ready: seq<Connection>, c: Connection, rest: seq<Connection>, active: set<nat>)
    requires Distinct(ready) && c !in rest
    ensures Distinct(RefreshNode(ready, c, active))
    ensures Unlisted(rest, RefreshNode(ready, c, active)) == Unlisted(rest, ready)
  {
    WithoutKeeps(ready, c);
    SameUnlisted(rest, ready, RefreshNode(ready, c, active));
  }

  lemma UnlistedFirst(c: Connection, rest: seq<Connection>, ready: seq<Connection>)
    ensures Unlisted([c] + rest, ready) == (if c in ready then [] else [c]) + Unlisted(rest, ready)
  {
    assert ([c] + rest)[1..] == rest;
  }

  lemma Associative(a: seq<Connection>, b: seq<Connection>, c: seq<Connection>)
    ensures a + b + c == a + (b + c)
  {
  }

  lemma RefreshOne(ready: seq<Connection>, c: Connection, rest: seq<Connection>, active: set<nat>)
    requires Distinct(ready) && c !in rest
    ensures Staying(RefreshNode(ready, c, active), rest, active)
         == Staying(ready, [c] + rest, active) + if c in ready then [] else [c]
  {
    hide Staying;
    if c in ready && c.id !in active {
      StayingWithout(ready, c, rest, active);
    } else {
      StayingOthers(ready, c, rest, active);
      if c !in ready {
        StayingMore(ready, c, rest, active);
      }
    }
  }

  lemma {:induction false} AllStay(ready: seq<Connection>, active: set<nat>)
    ensures Staying(ready, [], active) == ready
  {
    if ready != [] {
      AllStay(ready[1..], active);
    }
  }

  /**
   * A tick keeps the pool valid and every connected node, and afterwards exactly those nodes are ready that were
   * not ready before or are active: a node that has just been connected is ready whatever its state.
   */
  lemma TickReady(p: Pool, connects: seq<bool>, active: set<nat>)
    requires Valid(p)
    ensures var q := Tick(p, connects, active);
      && Valid(q)
      && p.nodes <= q.nodes
      && forall c :: c in q.ready <==> c in q.nodes && (c !in p.ready || c.id in active)
  {
    ConnectFromValid(p, p.pending, connects, 0);
    var q := ConnectFrom(p, p.pending, connects, 0);
    assert q.nodes[0..] == q.nodes;
    RefreshFromExact(q.ready, q.nodes, active, 0);
  }

  /** The ready list after a tick, in its order: the first node, which callers are given, stays first while it is ready. */
  lemma TickReadyOrder(p: Pool, connects: seq<bool>, active: set<nat>)
    requires Valid(p)
    ensures var q := Tick(p, connects, active);
      q.ready == Staying(p.ready, q.nodes, active) + Unlisted(q.nodes, p.ready)
  {
    ConnectFromValid(p, p.pending, connects, 0);
    var q := ConnectFrom(p, p.pending, connects, 0);
    assert q.nodes[0..] == q.nodes;
    RefreshFromOrder(q.ready, q.nodes, active, 0);
  }

  /** A node that no tick finds active and no removal takes out; anything else may happen. */
  predicate NeverActive(events: seq<Event>, c: Connection) {
    forall i :: 0 <= i < |events| ==>
      && (events[i].Ticks? ==> c.id !in events[i].active)
      && (events[i].Removes? ==> events[i].node != c)
  }

  function TickCount(events: seq<Event>): nat {
    if events == [] then 0 else (if events[0].Ticks? then 1 else 0) + TickCount(events[1..])
  }

  /** Listing without a look at the state makes a dead node alternate between ready and not ready, tick by tick. */
  lemma {:induction false} DeadNodeAlternates(p: Pool, events: seq<Event>, c: Connection)
    requires Valid(p) && c in p.nodes && NeverActive(events, c)
    ensures c in Run(p, events).nodes
    ensures c in Run(p, events).ready <==> (c in p.ready <==> TickCount(events) % 2 == 0)
    decreases |events|
  {
    hide Valid, Step;
    if events != [] {
      assert NeverActive([events[0]], c);
      DeadNodeStep(p, events[0], c);
      DeadNodeAlternates(Step(p, events[0]), events[1..], c);
    }
  }

  lemma DeadNodeStep(p: Pool, e: Event, c: Connection)
    requires Valid(p) && c in p.nodes && NeverActive([e], c)
    ensures Valid(Step(p, e)) && c in Step(p, e).nodes
    ensures c in Step(p, e).ready <==> (c in p.ready <==> !e.Ticks?)
  {
    assert [e][0] == e;
    match e {
      case Ticks(connects, active) =>
        TickReady(p, connects, active);
      case Adds(settings) =>
      case Removes(node) =>
        WithoutKeeps(p.nodes, node);
        WithoutKeeps(p.ready, node);
    }
  }

  // ---------- conservation

  lemma TickCounts(p: Pool, connects: seq<bool>, active: set<nat>, test: Settings -> bool)
    ensures Known(Tick(p, connects, active), test) == Known(ConnectFrom(p, p.pending, connects, 0), test)
  {
  }

  lemma TickKeeps(p: Pool, connects: seq<bool>, active: set<nat>, test: Settings -> bool)
    requires Alike(p.pending, test)
    ensures Known(Tick(p, connects, active), test) == Known(p, test)
  {
    assert p.pending[0..] == p.pending;
    ConnectFromKeeps(p, p.pending, connects, 0, test);
  }

  /** A step from a valid pool; a tick conserves what a test counts that takes pending entries of one endpoint alike. */
  lemma StepKeeps(p: Pool, e: Event, test: Settings -> bool)
    requires Valid(p) && (e.Ticks? ==> Alike(p.pending, test))
    ensures Valid(Step(p, e))
    ensures Known(Step(p, e), test) + Removed(p, e, test) == Known(p, test) + Added(e, test)
  {
    match e {
      case Ticks(connects, active) =>
        TickReady(p, connects, active);
        TickKeeps(p, connects, active, test);
      case Adds(settings) =>
        CountConcat(p.pending, [settings], test);
        CountOne(settings, test);
      case Removes(node) =>
        WithoutKeeps(p.nodes, node);
        WithoutKeeps(p.ready, node);
        WithoutCounts(p.nodes, node, test);
    }
  }

  /** The settings that a run adds. */
  function Additions(events: seq<Event>): seq<Settings> {
    if events == [] then []
    else (if events[0].Adds? then [events[0].settings] else []) + Additions(events[1..])
  }

  lemma {:induction false} ConnectFromPending(p: Pool, copy: seq<Settings>, connects: seq<bool>, i: nat)
    requires i <= |copy|
    ensures forall x :: x in ConnectFrom(p, copy, connects, i).pending ==> x in p.pending
    decreases |copy| - i
  {
    if i < |copy| {
      ConnectFromPending(if Succeeds(connects, i) then Connect(p, copy[i]) else p, copy, connects, i + 1);
    }
  }

  lemma StepPending(p: Pool, e: Event)
    ensures forall x :: x in Step(p, e).pending ==> x in p.pending || (e.Adds? && x == e.settings)
  {
    ConnectFromPending(p, p.pending, if e.Ticks? then e.connects else [], 0);
  }

  /**
   * Over every run from a valid pool, the ready list stays a duplicate-free part of the connected nodes, and what
   * a test counts changes only by additions and removals, if it takes all entries of one endpoint alike that wait
   * or are added.
   */
  lemma {:induction false} RunKeeps(p: Pool, events: seq<Event>, test: Settings -> bool)
    requires Valid(p) && Alike(p.pending + Additions(events), test)
    ensures Valid(Run(p, events))
    ensures Known(Run(p, events), test) + AllRemoved(p, events, test) == Known(p, test) + AllAdded(events, test)
    decreases |events|
  {
    hide Valid, Known, Step, Added, Removed;
    if events != [] {
      StepKeeps(p, events[0], test);
      StepPending(p, events[0]);
      RunKeeps(Step(p, events[0]), events[1..], test);
    }
  }

  /** So the entries of each endpoint change in number only by additions and removals, in every run. */
  lemma RunKeepsEndpoints(p: Pool, events: seq<Event>, endpoint: Option<string>)
    requires Valid(p)
    ensures var test := AtEndpoint(endpoint);
      Known(Run(p, events), test) + AllRemoved(p, events, test) == Known(p, test) + AllAdded(events, test)
  {
    RunKeeps(p, events, AtEndpoint(endpoint));
  }

  // ---------- which entries a tick connects

  /** The entries, from the `i`-th on, whose connection succeeds, and the others. */
  function Connected(copy: seq<Settings>, connects: seq<bool>, i: nat): seq<Settings>
    requires i <= |copy|
    decreases |copy| - i
  {
    if i == |copy| then [] else (if Succeeds(connects, i) then [copy[i]] else []) + Connected(copy, connects, i + 1)
  }

  function Unconnected(copy: seq<Settings>, connects: seq<bool>, i: nat): seq<Settings>
    requires i <= |copy|
    decreases |copy| - i
  {
    if i == |copy| then [] else (if Succeeds(connects, i) then [] else [copy[i]]) + Unconnected(copy, connects, i + 1)
  }

  predicate DistinctEndpoints(s: seq<Settings>) {
    forall i, j :: 0 <= i < j < |s| ==> s[i].endpoint != s[j].endpoint
  }

  lemma {:induction false} ConnectFromNodes(p: Pool, copy: seq<Settings>, connects: seq<bool>, i: nat)
    requires i <= |copy|
    ensures SettingsOf(ConnectFrom(p, copy, connects, i).nodes) == SettingsOf(p.nodes) + Connected(copy, connects, i)
    decreases |copy| - i
  {
    if i < |copy| {
      var s := copy[i];
      assert SettingsOf(Connect(p, s).nodes) == SettingsOf(p.nodes) + [s];
      ConnectFromNodes(if Succeeds(connects, i) then Connect(p, s) else p, copy, connects, i + 1);
    }
  }

  lemma FirstIsAt(s: seq<Settings>, k: nat)
    requires k < |s| && DistinctEndpoints(s)
    ensures FirstAt(s, s[k].endpoint) == k
  {
    assert FirstAt(s, s[k].endpoint) <= k;
  }

  /** With different endpoints, the entries that have been passed over stay, in order, before those still to be visited. */
  lemma {:induction false} ConnectFromLeaves(
    p: Pool, copy: seq<Settings>, connects: seq<bool>, i: nat, passed: seq<Settings>)
    requires i <= |copy| && p.pending == passed + copy[i..] && DistinctEndpoints(p.pending)
    ensures ConnectFrom(p, copy, connects, i).pending == passed + Unconnected(copy, connects, i)
    decreases |copy| - i
  {
    hide *;
    LeavesStep(p, copy, connects, i);
    if i < |copy| {
      var s, rest := copy[i], copy[i + 1..];
      Regrouped(passed, s, copy, i);
      if Succeeds(connects, i) {
        ConnectInside(p, passed, s, rest);
        ConnectFromLeaves(Connect(p, s), copy, connects, i + 1, passed);
      } else {
        ConnectFromLeaves(p, copy, connects, i + 1, passed + [s]);
        Joined(passed, s, Unconnected(copy, connects, i + 1));
      }
    }
  }

  lemma LeavesStep(p: Pool, copy: seq<Settings>, connects: seq<bool>, i: nat)
    requires i <= |copy|
    ensures i == |copy| ==>
      copy[i..] == [] && ConnectFrom(p, copy, connects, i) == p && Unconnected(copy, connects, i) == []
    ensures i < |copy| && Succeeds(connects, i) ==>
      && ConnectFrom(p, copy, connects, i) == ConnectFrom(Connect(p, copy[i]), copy, connects, i + 1)
      && Unconnected(copy, connects, i) == Unconnected(copy, connects, i + 1)
    ensures i < |copy| && !Succeeds(connects, i) ==>
      && ConnectFrom(p, copy, connects, i) == ConnectFrom(p, copy, connects, i + 1)
      && Unconnected(copy, connects, i) == [copy[i]] + Unconnected(copy, connects, i + 1)
  {
    hide Connect;
  }

  lemma Regrouped(passed: seq<Settings>, s: Settings, copy: seq<Settings>, i: nat)
    requires i < |copy| && copy[i] == s
    ensures passed + copy[i..] == passed + [s] + copy[i + 1..]
  {
  }

  lemma Joined(passed: seq<Settings>, s: Settings, rest: seq<Settings>)
    ensures passed + [s] + rest == passed + ([s] + rest)
  {
  }

  lemma ConnectInside(p: Pool, passed: seq<Settings>, s: Settings, rest: seq<Settings>)
    requires p.pending == passed + [s] + rest && DistinctEndpoints(p.pending)
    ensures Connect(p, s).pending == passed + rest && DistinctEndpoints(passed + rest)
  {
    var k := |passed|;
    assert p.pending[k] == s;
    FirstIsAt(p.pending, k);
    StillDistinct(passed, s, rest);
    hide DistinctEndpoints;
    assert p.pending[..k] + p.pending[k + 1..] == passed + rest;
  }

  lemma StillDistinct(passed: seq<Settings>, s: Settings, rest: seq<Settings>)
    requires DistinctEndpoints(passed + [s] + rest)
    ensures DistinctEndpoints(passed + rest)
  {
    var k, all, left := |passed|, passed + [s] + rest, passed + rest;
    assert forall i :: 0 <= i < |left| ==> left[i] == all[if i < k then i else i + 1];
  }

  /**
   * A tick connects, in order, the pending entries whose connection succeeds, all of them; and when their endpoints
   * differ, the others go on waiting, in order.
   */
  lemma TickConnects(p: Pool, connects: seq<bool>, active: set<nat>)
    ensures SettingsOf(Tick(p, connects, active).nodes) == SettingsOf(p.nodes) + Connected(p.pending, connects, 0)
    ensures DistinctEndpoints(p.pending) ==> Tick(p, connects, active).pending == Unconnected(p.pending, connects, 0)
  {
    ConnectFromNodes(p, p.pending, connects, 0);
    if DistinctEndpoints(p.pending) {
      assert p.pending == [] + p.pending[0..];
      ConnectFromLeaves(p, p.pending, connects, 0, []);
    }
  }

  // ---------- what is not conserved: the settings behind an endpoint

  lemma {:induction false} ConnectOnly(p: Pool, copy: seq<Settings>, j: nat, i: nat)
    requires i <= |copy| && j < |copy|
    ensures ConnectFrom(p, copy, Only(j), i) == if i <= j then Connect(p, copy[j]) else p
    decreases |copy| - i
  {
    hide Only, Connect;
    if i < |copy| {
      ConnectOnly(if i == j then Connect(p, copy[j]) else p, copy, j, i + 1);
    }
  }

  lemma OnlyLoses(p: Pool, j: nat, test: Settings -> bool)
    requires j < |p.pending| && test(p.pending[FirstAt(p.pending, p.pending[j].endpoint)]) != test(p.pending[j])
    ensures Known(Tick(p, Only(j), {}), test) != Known(p, test)
  {
    hide Only, Known;
    TickCounts(p, Only(j), {}, test);
    ConnectOnly(p, p.pending, j, 0);
    ConnectMoves(p, p.pending[j], test);
  }

  /**
   * Entries leave the pending list by endpoint, so a tick can connect one entry and drop another. What a test
   * counts is conserved by every tick exactly when the test cannot tell pending entries of one endpoint apart:
   * always for an endpoint, and for whole settings when no endpoint waits with two different ones.
   */
  lemma TicksConserve(p: Pool, test: Settings -> bool)
    ensures (forall connects, active :: Known(Tick(p, connects, active), test) == Known(p, test))
       <==> Alike(p.pending, test)
  {
    if Alike(p.pending, test) {
      forall connects, active ensures Known(Tick(p, connects, active), test) == Known(p, test) {
        TickKeeps(p, connects, active, test);
      }
    } else {
      var i, j :| 0 <= i < |p.pending| && 0 <= j < |p.pending|
        && p.pending[i].endpoint == p.pending[j].endpoint && test(p.pending[i]) != test(p.pending[j]);
      var k := FirstAt(p.pending, p.pending[i].endpoint);
      if test(p.pending[k]) != test(p.pending[i]) {
        OnlyLoses(p, i, test);
      } else {
        OnlyLoses(p, j, test);
      }
    }
  }

  // ---------- the pool object

  class LNDNodePool {
    var nodes: seq<Connection>
    var lndNodesNotYetInitialized: seq<Settings>
    var ReadyNodes: seq<Connection>
    /** Stands for the identity of the next connection object to be created. */
    var nextId: nat

    ghost function View(): Pool
      reads this
    {
      Pool(nodes, lndNodesNotYetInitialized, ReadyNodes, nextId)
    }

    constructor (connected: seq<Settings>, connectTo: seq<Settings>)
      ensures Valid(View())
      ensures SettingsOf(nodes) == connected && lndNodesNotYetInitialized == connectTo && ReadyNodes == []
    {
      nodes := seq(|connected|, i requires 0 <= i < |connected| => Connection(i, connected[i]));
      lndNodesNotYetInitialized := connectTo;
      ReadyNodes := [];
      nextId := |connected|;
    }

    method First(endpoint: Option<string>) returns (k: nat)
      ensures k == FirstAt(lndNodesNotYetInitialized, endpoint)
    {
      k := 0;
      while k < |lndNodesNotYetInitialized| && lndNodesNotYetInitialized[k].endpoint != endpoint
        invariant k <= |lndNodesNotYetInitialized|
        invariant forall j :: 0 <= j < k ==> lndNodesNotYetInitialized[j].endpoint != endpoint
      {
        k := k + 1;
      }
    }

    method SetupNotYetInitializedNodes(connects: seq<bool>)
      requires Valid(View())
      modifies this
      ensures View() == ConnectFrom(old(View()), old(lndNodesNotYetInitialized), connects, 0)
      ensures Valid(View()) && old(nodes) <= nodes && ReadyNodes == old(ReadyNodes)
    {
      ConnectFromValid(View(), lndNodesNotYetInitialized, connects, 0);
      var lndNodes := lndNodesNotYetInitialized;
      for i := 0 to |lndNodes|
        invariant ConnectFrom(View(), lndNodes, connects, i)
               == ConnectFrom(old(View()), old(lndNodesNotYetInitialized), connects, 0)
      {
        if Succeeds(connects, i) {
          ghost var was := View();
          nodes := nodes + [Connection(nextId, lndNodes[i])];
          nextId := nextId + 1;
          var k := First(lndNodes[i].endpoint);
          if k < |lndNodesNotYetInitialized| {
            lndNodesNotYetInitialized := lndNodesNotYetInitialized[..k] + lndNodesNotYetInitialized[k + 1..];
          }
          assert View() == Connect(was, lndNodes[i]);
        }
      }
    }

    /** One tick of the timer. */
    method UpdateReadyStates(connects: seq<bool>, active: set<nat>)
      requires Valid(View())
      modifies this
      ensures View() == Tick(old(View()), connects, active)
      ensures Valid(View()) && old(nodes) <= nodes
      ensures forall c :: c in ReadyNodes <==> c in nodes && (c !in old(ReadyNodes) || c.id in active)
    {
      TickReady(View(), connects, active);
      SetupNotYetInitializedNodes(connects);
      label connected:
      for i := 0 to |nodes|
        invariant nodes == old@connected(nodes) && nextId == old@connected(nextId)
        invariant lndNodesNotYetInitialized == old@connected(lndNodesNotYetInitialized)
        invariant RefreshFrom(ReadyNodes, nodes, active, i) == RefreshFrom(old@connected(ReadyNodes), nodes, active, 0)
      {
        var node := nodes[i];
        if node in ReadyNodes && node.id !in active {
          ReadyNodes := Without(ReadyNodes, node);
        } else if node !in ReadyNodes {
          ReadyNodes := ReadyNodes + [node];
        }
      }
    }

    method AddNode(nodeSettings: Settings)
      requires Valid(View())
      modifies this
      ensures View() == Step(old(View()), Adds(nodeSettings))
      ensures Valid(View())
    {
      lndNodesNotYetInitialized := lndNodesNotYetInitialized + [nodeSettings];
    }

    method RemoveNode(node: Connection)
      requires Valid(View())
      modifies this
      ensures View() == Step(old(View()), Removes(node))
      ensures Valid(View()) && node !in nodes && node !in ReadyNodes
    {
      WithoutKeeps(nodes, node);
      WithoutKeeps(ReadyNodes, node);
      nodes := Without(nodes, node);
      ReadyNodes := Without(ReadyNodes, node);
    }
  }
}
