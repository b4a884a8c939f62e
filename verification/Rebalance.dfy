/**
 * LNUnit.LND/LNDNodePool.cs: the planner that evens out the channels between the members of a pool, and the run
 * that carries a plan out. What a node lists and which payments succeed are inputs.
 */
module Rebalance {
  import opened Wrappers
  import opened Bytes
  import opened Outcomes

  /** A 64-bit amount of satoshi as a node reports it. */
  type sats = x: int | 0 <= x < 0x8000_0000_0000_0000

  datatype Channel = Channel(
    chanId: uint64, channelPoint: string, remotePubkey: string,
    capacity: sats, localBalance: sats, remoteBalance: sats,
    localMaxPendingMsat: uint64, remoteMaxPendingMsat: uint64,
    localMinHtlcMsat: uint64, remoteMinHtlcMsat: uint64)

  /** The active channels of one pool member. */
  datatype Listing = Listing(pubKey: string, channels: seq<Channel>)

  datatype Task = Task(channelPoint: string, chanId: uint64, srcPk: string, destPk: string, amount: int)

  // ---------- one channel

  function Max(a: int, b: int): int { if a < b then b else a }
  function Min(a: int, b: int): int { if a < b then a else b }
  function Abs(a: int): nat { if a < 0 then -a else a }

  function MaxSats(ch: Channel): nat { Max(ch.localMaxPendingMsat / 1000, ch.remoteMaxPendingMsat / 1000) }
  function MinSats(ch: Channel): nat { Min(ch.localMinHtlcMsat / 1000, ch.remoteMinHtlcMsat / 1000) }

  /** `AdjustLimits`: the amount to run with, or `None` for no run. */
  function Adjusted(amount: int, ch: Channel): Option<int> {
    if amount > MaxSats(ch) then Some(MaxSats(ch) - 1)
    else if amount < MinSats(ch) then None
    else Some(amount)
  }

  function WithLimits(t: Task, ch: Channel): Option<Task> {
    match Adjusted(t.amount, ch)
    case None => None
    case Some(amount) => Some(t.(amount := amount))
  }

  /** The task the planner would make for a channel listed by `node`. */
  function TaskFor(node: string, ch: Channel, threshold: int): Option<Task> {
    var even := ch.capacity / 2;
    if Abs(ch.localBalance - ch.remoteBalance) < threshold then None
    else if ch.remoteBalance > ch.localBalance then
      WithLimits(Task(ch.channelPoint, ch.chanId, ch.remotePubkey, node, ch.remoteBalance - even), ch)
    else if ch.remoteBalance < ch.localBalance then
      WithLimits(Task(ch.channelPoint, ch.chanId, node, ch.remotePubkey, ch.localBalance - even), ch)
    else None
  }

  // ---------- the whole plan

  predicate Planned(list: seq<Task>, channelPoint: string) {
    exists i :: 0 <= i < |list| && list[i].channelPoint == channelPoint
  }

  function Consider(list: seq<Task>, members: seq<string>, node: string, ch: Channel, threshold: int): seq<Task> {
    if ch.remotePubkey !in members || Planned(list, ch.channelPoint) then list
    else
      match TaskFor(node, ch, threshold)
      case None => list
      case Some(t) => list + [t]
  }

  function PlanChannels(
    list: seq<Task>, members: seq<string>, node: string, channels: seq<Channel>, threshold: int): seq<Task>
    decreases |channels|
  {
    if channels == [] then list
    else PlanChannels(Consider(list, members, node, channels[0], threshold), members, node, channels[1..], threshold)
  }

  function PlanListings(list: seq<Task>, members: seq<string>, listings: seq<Listing>, threshold: int): seq<Task>
    decreases |listings|
  {
    if listings == [] then list
    else
      PlanListings(PlanChannels(list, members, listings[0].pubKey, listings[0].channels, threshold),
                   members, listings[1..], threshold)
  }

  function Members(listings: seq<Listing>): (members: seq<string>)
    ensures |members| == |listings|
    ensures forall i :: 0 <= i < |listings| ==> members[i] == listings[i].pubKey
  {
    seq(|listings|, i requires 0 <= i < |listings| => listings[i].pubKey)
  }

  /** `GetInteralNodeEvenBalaceTasks`. */
  function Plan(listings: seq<Listing>, threshold: int): seq<Task> {
    PlanListings([], Members(listings), listings, threshold)
  }

  // ---------- what a plan should be: the first offer for each channel point

  function OffersOf(members: seq<string>, node: string, channels: seq<Channel>, threshold: int): seq<Task> {
    if channels == [] then []
    else
      var t := TaskFor(node, channels[0], threshold);
      (if channels[0].remotePubkey in members && t.Some? then [t.value] else [])
      + OffersOf(members, node, channels[1..], threshold)
  }

  function Offers(members: seq<string>, listings: seq<Listing>, threshold: int): seq<Task> {
    if listings == [] then []
    else OffersOf(members, listings[0].pubKey, listings[0].channels, threshold) + Offers(members, listings[1..], threshold)
  }

  /** The first offer for a channel point. */
  function FirstFor(offers: seq<Task>, channelPoint: string): (t: Option<Task>)
    ensures t.Some? ==> t.value in offers && t.value.channelPoint == channelPoint
    ensures t.None? <==> !Planned(offers, channelPoint)
  {
    if offers == [] then None
    else if offers[0].channelPoint == channelPoint then Some(offers[0])
    else
      assert Planned(offers[1..], channelPoint) ==> Planned(offers, channelPoint);
      FirstFor(offers[1..], channelPoint)
  }

  function AddFirst(list: seq<Task>, offers: seq<Task>): seq<Task>
    decreases |offers|
  {
    if offers == [] then list
    else AddFirst(if Planned(list, offers[0].channelPoint) then list else list + [offers[0]], offers[1..])
  }

  predicate OnePerPoint(list: seq<Task>) {
    forall i, j :: 0 <= i < j < |list| ==> list[i].channelPoint != list[j].channelPoint
  }

  lemma {:induction false} AddFirstConcat(list: seq<Task>, a: seq<Task>, b: seq<Task>)
    ensures AddFirst(list, a + b) == AddFirst(AddFirst(list, a), b)
    decreases |a|
  {
    if a == [] {
      assert a + b == b;
    } else {
      assert (a + b)[1..] == a[1..] + b;
      AddFirstConcat(if Planned(list, a[0].channelPoint) then list else list + [a[0]], a[1..], b);
    }
  }

  lemma {:induction false} AddFirstExact(list: seq<Task>, offers: seq<Task>)
    requires OnePerPoint(list)
    ensures OnePerPoint(AddFirst(list, offers))
    ensures forall t :: t in AddFirst(list, offers) <==>
      t in list || (!Planned(list, t.channelPoint) && FirstFor(offers, t.channelPoint) == Some(t))
    decreases |offers|
  {
    if offers != [] {
      var t := offers[0];
      var next := if Planned(list, t.channelPoint) then list else list + [t];
      AddFirstExact(next, offers[1..]);
      forall point
        ensures Planned(next, point) <==> Planned(list, point) || point == t.channelPoint
      {
        if Planned(list, point) {
          var i :| 0 <= i < |list| && list[i].channelPoint == point;
          assert next[i].channelPoint == point;
        }
        if !Planned(list, t.channelPoint) {
          assert next[|list|] == t;
        }
      }
    }
  }

  lemma {:induction false} PlanChannelsIsAddFirst(
    list: seq<Task>, members: seq<string>, node: string, channels: seq<Channel>, threshold: int)
    ensures PlanChannels(list, members, node, channels, threshold)
         == AddFirst(list, OffersOf(members, node, channels, threshold))
    decreases |channels|
  {
    if channels != [] {
      var ch, rest := channels[0], OffersOf(members, node, channels[1..], threshold);
      PlanChannelsIsAddFirst(Consider(list, members, node, ch, threshold), members, node, channels[1..], threshold);
      var t := TaskFor(node, ch, threshold);
      if ch.remotePubkey in members && t.Some? {
        assert ([t.value] + rest)[1..] == rest;
      } else {
        assert [] + rest == rest;
      }
    }
  }

  lemma {:induction false} PlanListingsIsAddFirst(
    list: seq<Task>, members: seq<string>, listings: seq<Listing>, threshold: int)
    ensures PlanListings(list, members, listings, threshold) == AddFirst(list, Offers(members, listings, threshold))
    decreases |listings|
  {
    if listings != [] {
      var n := listings[0];
      var here := OffersOf(members, n.pubKey, n.channels, threshold);
      PlanChannelsIsAddFirst(list, members, n.pubKey, n.channels, threshold);
      PlanListingsIsAddFirst(AddFirst(list, here), members, listings[1..], threshold);
      AddFirstConcat(list, here, Offers(members, listings[1..], threshold));
    }
  }

  /**
   * The nested loops with their early skips plan exactly the first offer for each channel point: one task for a
   * channel that both ends list, and some task for every channel that one end would offer.
   */
  lemma PlanExact(listings: seq<Listing>, threshold: int)
    ensures OnePerPoint(Plan(listings, threshold))
    ensures forall t :: t in Plan(listings, threshold) <==>
      FirstFor(Offers(Members(listings), listings, threshold), t.channelPoint) == Some(t)
    ensures forall point :: Planned(Plan(listings, threshold), point) <==>
      Planned(Offers(Members(listings), listings, threshold), point)
  {
    var offers := Offers(Members(listings), listings, threshold);
    PlanListingsIsAddFirst([], Members(listings), listings, threshold);
    AddFirstExact([], offers);
    forall point
      ensures Planned(Plan(listings, threshold), point) <==> Planned(offers, point)
    {
      var t := FirstFor(offers, point);
      if t.Some? {
        assert t.value in Plan(listings, threshold);
      }
    }
  }

  // ---------- where offers come from

  /** A member of the pool lists a channel to a member of the pool. */
  ghost predicate Lists(members: seq<string>, listings: seq<Listing>, node: string, ch: Channel) {
    ch.remotePubkey in members && exists n :: n in listings && n.pubKey == node && ch in n.channels
  }

  lemma {:induction false} OffersOfExact(
    members: seq<string>, node: string, channels: seq<Channel>, threshold: int, t: Task)
    ensures t in OffersOf(members, node, channels, threshold) <==>
      exists ch :: ch in channels && ch.remotePubkey in members && TaskFor(node, ch, threshold) == Some(t)
    decreases |channels|
  {
    if channels != [] {
      OffersOfExact(members, node, channels[1..], threshold, t);
    }
  }

  lemma {:induction false} OffersExact(members: seq<string>, listings: seq<Listing>, threshold: int, t: Task)
    ensures t in Offers(members, listings, threshold) <==>
      exists node, ch :: Lists(members, listings, node, ch) && TaskFor(node, ch, threshold) == Some(t)
    decreases |listings|
  {
    if listings != [] {
      var n := listings[0];
      OffersOfExact(members, n.pubKey, n.channels, threshold, t);
      OffersExact(members, listings[1..], threshold, t);
      forall node, ch
        ensures Lists(members, listings, node, ch) <==>
          Lists(members, listings[1..], node, ch)
          || (ch.remotePubkey in members && n.pubKey == node && ch in n.channels)
      {
      }
    }
  }

  // ---------- one task

  /** What a channel's richer side has over half the capacity. */
  function Over(ch: Channel): int {
    Max(ch.localBalance, ch.remoteBalance) - ch.capacity / 2
  }

  /** The limits in whole satoshi: what the larger maximum still lets through, and where the smaller minimum begins. */
  lemma LimitsInSats(ch: Channel, amount: nat)
    ensures amount <= MaxSats(ch) <==> 1000 * amount <= ch.localMaxPendingMsat || 1000 * amount <= ch.remoteMaxPendingMsat
    ensures amount >= MinSats(ch)
      <==> 1000 * (amount + 1) > ch.localMinHtlcMsat || 1000 * (amount + 1) > ch.remoteMinHtlcMsat
  {
  }

  /** What has to be moved is more than either side lets through. */
  predicate Cut(ch: Channel) {
    ch.localMaxPendingMsat < 1000 * Over(ch) && ch.remoteMaxPendingMsat < 1000 * Over(ch)
  }

  /** What has to be moved reaches the smaller minimum, of which parts of a satoshi do not count. */
  predicate ReachesMinimum(ch: Channel) {
    1000 * (Over(ch) + 1) > ch.localMinHtlcMsat || 1000 * (Over(ch) + 1) > ch.remoteMinHtlcMsat
  }

  /** Which channels get a task, and for how much: one less than the largest amount that the limits let through, if cut. */
  lemma TaskExact(node: string, ch: Channel, threshold: int)
    ensures TaskFor(node, ch, threshold).Some? <==>
      && ch.localBalance != ch.remoteBalance
      && (ch.localBalance - ch.remoteBalance >= threshold || ch.remoteBalance - ch.localBalance >= threshold)
      && (Cut(ch) || ReachesMinimum(ch))
    ensures TaskFor(node, ch, threshold).Some? ==>
      var t := TaskFor(node, ch, threshold).value;
      && t.channelPoint == ch.channelPoint && t.chanId == ch.chanId
      && -1 <= t.amount
      && (t.amount == Over(ch) <==> !Cut(ch))
      && (Cut(ch) ==>
           && (1000 * (t.amount + 1) <= ch.localMaxPendingMsat || 1000 * (t.amount + 1) <= ch.remoteMaxPendingMsat)
           && ch.localMaxPendingMsat < 1000 * (t.amount + 2) && ch.remoteMaxPendingMsat < 1000 * (t.amount + 2))
      && (t.amount >= 0 ==> 1000 * t.amount <= ch.localMaxPendingMsat || 1000 * t.amount <= ch.remoteMaxPendingMsat)
      && (t.amount >= 0 <==> 1000 <= ch.localMaxPendingMsat || 1000 <= ch.remoteMaxPendingMsat || Over(ch) == 0)
      && (t.amount >= MinSats(ch) <==> !Cut(ch) || MaxSats(ch) > MinSats(ch))
  {
  }

  // ---------- the channels a plan acts on

  /** Both ends of a channel and what each holds. */
  datatype Ends = Ends(one: string, oneHolds: int, two: string, twoHolds: int, capacity: int)

  type Ledger = map<string, Ends>

  function Gap(e: Ends): nat {
    Abs(e.oneHolds - e.twoHolds)
  }

  /** A payment of one end to the other. */
  function Paid(e: Ends, t: Task): Ends {
    if e.one == t.srcPk then e.(oneHolds := e.oneHolds - t.amount, twoHolds := e.twoHolds + t.amount)
    else e.(oneHolds := e.oneHolds + t.amount, twoHolds := e.twoHolds - t.amount)
  }

  /** Balances that fit the channel, as reserves and fees only take from them. */
  predicate Sound(ch: Channel) {
    ch.localBalance + ch.remoteBalance <= ch.capacity
  }

  /** A node sees a channel as it is. */
  ghost predicate Agrees(e: Ends, node: string, ch: Channel) {
    && e.one != e.two && e.capacity == ch.capacity && Sound(ch)
    && (|| (e.one == node && e.two == ch.remotePubkey && e.oneHolds == ch.localBalance && e.twoHolds == ch.remoteBalance)
        || (e.two == node && e.one == ch.remotePubkey && e.twoHolds == ch.localBalance && e.oneHolds == ch.remoteBalance))
  }

  /** After a task the payer still holds half the capacity and the payee at most the other half. */
  ghost predicate Halved(e: Ends, t: Task) {
    var payer := if e.one == t.srcPk then e.oneHolds else e.twoHolds;
    var payee := if e.one == t.srcPk then e.twoHolds else e.oneHolds;
    && {t.srcPk, t.destPk} == {e.one, e.two}
    && payer - t.amount >= e.capacity / 2
    && payee + t.amount <= e.capacity - e.capacity / 2
  }

  /**
   * A task runs between the ends of its channel, leaves the payer with half of the capacity, exactly when no
   * limit cut it, and widens the gap between the ends only in the one case where its amount is not even zero.
   */
  lemma TaskHalves(e: Ends, node: string, ch: Channel, threshold: int)
    requires Agrees(e, node, ch) && TaskFor(node, ch, threshold).Some?
    ensures var t := TaskFor(node, ch, threshold).value;
      && Halved(e, t)
      && (Max(e.oneHolds, e.twoHolds) - t.amount == e.capacity / 2 <==> !Cut(ch))
      && (Gap(Paid(e, t)) <= Gap(e) <==> t.amount >= 0)
      && (t.amount >= 0 <==> 1000 <= ch.localMaxPendingMsat || 1000 <= ch.remoteMaxPendingMsat || Over(ch) == 0)
  {
    hide TaskFor, Cut, ReachesMinimum, MinSats, MaxSats;
    TaskExact(node, ch, threshold);
    TaskEnds(node, ch, threshold);
  }

  /** The richer side pays the poorer one, at most what it has over half the capacity. */
  lemma TaskEnds(node: string, ch: Channel, threshold: int)
    requires TaskFor(node, ch, threshold).Some?
    ensures var t := TaskFor(node, ch, threshold).value;
      && t.amount <= Over(ch)
      && if ch.remoteBalance > ch.localBalance then t.srcPk == ch.remotePubkey && t.destPk == node
         else ch.remoteBalance < ch.localBalance && t.srcPk == node && t.destPk == ch.remotePubkey
  {
  }

  function Apply(ledger: Ledger, t: Task): Ledger {
    if t.channelPoint in ledger then ledger[t.channelPoint := Paid(ledger[t.channelPoint], t)] else ledger
  }

  /** The channels after the tasks from the `i`-th on, of which some are paid. */
  function After(ledger: Ledger, tasks: seq<Task>, paid: seq<bool>, i: nat): Ledger
    requires i <= |tasks|
    decreases |tasks| - i
  {
    if i == |tasks| then ledger
    else After(if Succeeds(paid, i) then Apply(ledger, tasks[i]) else ledger, tasks, paid, i + 1)
  }

  /** With one task for each channel at most, every channel sees its own task or nothing. */
  lemma {:induction false} AfterExact(ledger: Ledger, tasks: seq<Task>, paid: seq<bool>, i: nat)
    requires OnePerPoint(tasks) && i <= |tasks|
    ensures var end := After(ledger, tasks, paid, i);
      && end.Keys == ledger.Keys
      && (forall k :: i <= k < |tasks| && tasks[k].channelPoint in ledger ==>
        end[tasks[k].channelPoint] == if Succeeds(paid, k) then Paid(ledger[tasks[k].channelPoint], tasks[k])
                                      else ledger[tasks[k].channelPoint])
      && (forall point :: point in ledger && !Planned(tasks[i..], point) ==> end[point] == ledger[point])
    decreases |tasks| - i
  {
    if i < |tasks| {
      var t := tasks[i];
      var next := if Succeeds(paid, i) then Apply(ledger, t) else ledger;
      AfterExact(next, tasks, paid, i + 1);
      var end := After(next, tasks, paid, i + 1);
      assert !Planned(tasks[i + 1..], t.channelPoint);
      forall point | point in ledger && !Planned(tasks[i..], point)
        ensures end[point] == ledger[point]
      {
        assert tasks[i..][0] == t;
        assert tasks[i + 1..] == tasks[i..][1..];
        assert !Planned(tasks[i + 1..], point);
      }
    }
  }

  /** The listings of a pool's members show the channels as they are. */
  ghost predicate Shows(ledger: Ledger, listings: seq<Listing>) {
    forall node, ch :: Lists(Members(listings), listings, node, ch) ==>
      ch.channelPoint in ledger && Agrees(ledger[ch.channelPoint], node, ch)
  }

  /** Both ends of a planned task are members of the pool, so that looking them up never fails. */
  lemma PlannedMembers(listings: seq<Listing>, threshold: int, t: Task)
    requires t in Plan(listings, threshold)
    ensures t.srcPk in Members(listings) && t.destPk in Members(listings)
  {
    var members := Members(listings);
    PlanExact(listings, threshold);
    OffersExact(members, listings, threshold, t);
    var node, ch :| Lists(members, listings, node, ch) && TaskFor(node, ch, threshold) == Some(t);
    var i :| 0 <= i < |listings| && listings[i].pubKey == node && ch in listings[i].channels;
    assert members[i] == node;
  }

  lemma PlannedTask(ledger: Ledger, listings: seq<Listing>, threshold: int, t: Task)
    requires Shows(ledger, listings) && t in Plan(listings, threshold)
    ensures t.channelPoint in ledger
    ensures var e := ledger[t.channelPoint];
      && Halved(e, t)
      && (Gap(Paid(e, t)) <= Gap(e) <==> t.amount >= 0)
  {
    var members := Members(listings);
    PlanExact(listings, threshold);
    OffersExact(members, listings, threshold, t);
    var node, ch :| Lists(members, listings, node, ch) && TaskFor(node, ch, threshold) == Some(t);
    TaskHalves(ledger[ch.channelPoint], node, ch, threshold);
  }

  /** The same channel with the same money in it. */
  predicate Kept(was: Ends, now: Ends) {
    && now.one == was.one && now.two == was.two && now.capacity == was.capacity
    && now.oneHolds + now.twoHolds == was.oneHolds + was.twoHolds
  }

  lemma {:induction false} AfterKeeps(ledger: Ledger, tasks: seq<Task>, paid: seq<bool>, i: nat)
    requires i <= |tasks|
    ensures After(ledger, tasks, paid, i).Keys == ledger.Keys
    ensures forall point :: point in ledger ==> Kept(ledger[point], After(ledger, tasks, paid, i)[point])
    decreases |tasks| - i
  {
    if i < |tasks| {
      AfterKeeps(if Succeeds(paid, i) then Apply(ledger, tasks[i]) else ledger, tasks, paid, i + 1);
    }
  }

  /**
   * Whatever payments of a plan succeed, every channel keeps its ends and the sum of what they hold; a payment
   * leaves its payer half of the capacity, and a channel without one is as it was.
   */
  lemma RunKeeps(ledger: Ledger, listings: seq<Listing>, threshold: int, paid: seq<bool>)
    requires Shows(ledger, listings)
    ensures var tasks := Plan(listings, threshold);
      var end := After(ledger, tasks, paid, 0);
      && end.Keys == ledger.Keys
      && (forall point :: point in ledger ==> Kept(ledger[point], end[point]))
      && (forall point :: point in ledger && !Planned(tasks, point) ==> end[point] == ledger[point])
      && forall k :: 0 <= k < |tasks| ==>
        && tasks[k].channelPoint in ledger
        && Halved(ledger[tasks[k].channelPoint], tasks[k])
        && end[tasks[k].channelPoint] == if Succeeds(paid, k) then Paid(ledger[tasks[k].channelPoint], tasks[k])
                                         else ledger[tasks[k].channelPoint]
  {
    hide Plan, Gap, Shows, Halved, Paid, Kept, After;
    var tasks := Plan(listings, threshold);
    PlanExact(listings, threshold);
    AfterExact(ledger, tasks, paid, 0);
    AfterKeeps(ledger, tasks, paid, 0);
    assert tasks[0..] == tasks;
    forall k | 0 <= k < |tasks|
      ensures tasks[k].channelPoint in ledger && Halved(ledger[tasks[k].channelPoint], tasks[k])
    {
      PlannedTask(ledger, listings, threshold, tasks[k]);
    }
  }

  ghost predicate NoneWidened(was: Ledger, now: Ledger) {
    now.Keys == was.Keys && forall point :: point in was ==> Gap(now[point]) <= Gap(was[point])
  }

  lemma RunNarrows(ledger: Ledger, listings: seq<Listing>, threshold: int, paid: seq<bool>)
    requires Shows(ledger, listings)
    requires forall t :: t in Plan(listings, threshold) ==> t.amount >= 0
    ensures NoneWidened(ledger, After(ledger, Plan(listings, threshold), paid, 0))
  {
    hide Plan, Gap, Shows, Halved, Paid, After, Kept;
    var tasks := Plan(listings, threshold);
    RunKeeps(ledger, listings, threshold, paid);
    var end := After(ledger, tasks, paid, 0);
    forall point | point in ledger
      ensures Gap(end[point]) <= Gap(ledger[point])
    {
      if Planned(tasks, point) {
        var k :| 0 <= k < |tasks| && tasks[k].channelPoint == point;
        PlannedTask(ledger, listings, threshold, tasks[k]);
      }
    }
  }

  lemma RunWidens(ledger: Ledger, listings: seq<Listing>, threshold: int, k: nat)
    requires Shows(ledger, listings)
    requires k < |Plan(listings, threshold)| && Plan(listings, threshold)[k].amount < 0
    ensures !NoneWidened(ledger, After(ledger, Plan(listings, threshold), Only(k), 0))
  {
    hide Plan, Gap, Shows, Halved, Paid, After, Kept, Only;
    var t := Plan(listings, threshold)[k];
    RunKeeps(ledger, listings, threshold, Only(k));
    PlannedTask(ledger, listings, threshold, t);
    assert t.channelPoint in ledger;
  }

  /** No set of successful payments widens the gap of any channel, exactly when no planned amount is negative. */
  lemma NarrowsByPlan(ledger: Ledger, listings: seq<Listing>, threshold: int)
    requires Shows(ledger, listings)
    ensures (forall paid :: NoneWidened(ledger, After(ledger, Plan(listings, threshold), paid, 0)))
       <==> (forall t :: t in Plan(listings, threshold) ==> t.amount >= 0)
  {
    hide *;
    var tasks := Plan(listings, threshold);
    if forall t :: t in tasks ==> t.amount >= 0 {
      forall paid ensures NoneWidened(ledger, After(ledger, tasks, paid, 0)) {
        RunNarrows(ledger, listings, threshold, paid);
      }
    } else {
      var k :| 0 <= k < |tasks| && tasks[k].amount < 0;
      RunWidens(ledger, listings, threshold, k);
    }
  }

  // ---------- which listings are safe

  /** There is something to move, by the threshold too, but both ends' limits round down to nothing. */
  predicate Stuck(ch: Channel, threshold: int) {
    && Over(ch) > 0
    && (ch.localBalance - ch.remoteBalance >= threshold || ch.remoteBalance - ch.localBalance >= threshold)
    && ch.localMaxPendingMsat < 1000 && ch.remoteMaxPendingMsat < 1000
  }

  ghost predicate NoneStuck(listings: seq<Listing>, threshold: int) {
    forall node, ch :: Lists(Members(listings), listings, node, ch) ==> !Stuck(ch, threshold)
  }

  /** Both ends of a channel report the same limits, each as local and remote. */
  ghost predicate SameLimits(listings: seq<Listing>) {
    forall m, c, n, d ::
      (Lists(Members(listings), listings, m, c) && Lists(Members(listings), listings, n, d)
       && c.channelPoint == d.channelPoint) ==> MaxSats(c) == MaxSats(d)
  }

  /** Exactly a stuck channel of positive gap would get a negative amount. */
  lemma StuckIsNegative(e: Ends, node: string, ch: Channel, threshold: int)
    requires Agrees(e, node, ch)
    ensures Stuck(ch, threshold) <==>
      TaskFor(node, ch, threshold).Some? && TaskFor(node, ch, threshold).value.amount < 0
  {
  }

  /** Two ends that see a channel as it is. */
  lemma StuckAtBothEnds(e: Ends, m: string, c: Channel, n: string, d: Channel, threshold: int)
    requires Agrees(e, m, c) && Agrees(e, n, d) && MaxSats(c) == MaxSats(d)
    ensures Stuck(c, threshold) <==> Stuck(d, threshold)
  {
  }

  lemma PlannedOffer(listings: seq<Listing>, threshold: int, t: Task) returns (node: string, ch: Channel)
    requires t in Plan(listings, threshold)
    ensures Lists(Members(listings), listings, node, ch) && TaskFor(node, ch, threshold) == Some(t)
    ensures ch.channelPoint == t.channelPoint
  {
    hide Plan;
    PlanExact(listings, threshold);
    OffersExact(Members(listings), listings, threshold, t);
    node, ch :| Lists(Members(listings), listings, node, ch) && TaskFor(node, ch, threshold) == Some(t);
  }

  lemma OfferPlanned(listings: seq<Listing>, threshold: int, node: string, ch: Channel) returns (t: Task)
    requires Lists(Members(listings), listings, node, ch) && TaskFor(node, ch, threshold).Some?
    ensures t in Plan(listings, threshold) && t.channelPoint == ch.channelPoint
  {
    hide Plan;
    var offers, offer := Offers(Members(listings), listings, threshold), TaskFor(node, ch, threshold).value;
    PlanExact(listings, threshold);
    OffersExact(Members(listings), listings, threshold, offer);
    var i :| 0 <= i < |offers| && offers[i] == offer;
    assert Planned(offers, ch.channelPoint);
    var tasks := Plan(listings, threshold);
    var k :| 0 <= k < |tasks| && tasks[k].channelPoint == ch.channelPoint;
    t := tasks[k];
  }

  lemma NegativeIsStuck(ledger: Ledger, listings: seq<Listing>, threshold: int)
    requires Shows(ledger, listings) && SameLimits(listings)
    ensures (forall t :: t in Plan(listings, threshold) ==> t.amount >= 0) <==> NoneStuck(listings, threshold)
  {
    hide Plan, TaskFor, Stuck, Agrees, Lists, Members;
    forall t | t in Plan(listings, threshold) && t.amount < 0
      ensures !NoneStuck(listings, threshold)
    {
      var node, ch := PlannedOffer(listings, threshold, t);
      StuckIsNegative(ledger[ch.channelPoint], node, ch, threshold);
    }
    forall node, ch | Lists(Members(listings), listings, node, ch) && Stuck(ch, threshold)
      ensures exists t :: t in Plan(listings, threshold) && t.amount < 0
    {
      StuckIsNegative(ledger[ch.channelPoint], node, ch, threshold);
      var t := OfferPlanned(listings, threshold, node, ch);
      var n, d := PlannedOffer(listings, threshold, t);
      StuckAtBothEnds(ledger[ch.channelPoint], node, ch, n, d, threshold);
      StuckIsNegative(ledger[ch.channelPoint], n, d, threshold);
    }
  }

  /**
   * No set of successful payments widens the gap of any channel, exactly when no listed channel is stuck: more than
   * half on one side, an imbalance from the threshold on, and limits that let not one satoshi through.
   */
  lemma NarrowsExactly(ledger: Ledger, listings: seq<Listing>, threshold: int)
    requires Shows(ledger, listings) && SameLimits(listings)
    ensures (forall paid :: NoneWidened(ledger, After(ledger, Plan(listings, threshold), paid, 0)))
       <==> NoneStuck(listings, threshold)
  {
    hide *;
    NarrowsByPlan(ledger, listings, threshold);
    NegativeIsStuck(ledger, listings, threshold);
  }

  /** The gaps of some channels of a ledger together. */
  function TotalGap(ledger: Ledger, points: seq<string>): nat {
    if points == [] then 0
    else (if points[0] in ledger then Gap(ledger[points[0]]) else 0) + TotalGap(ledger, points[1..])
  }

  lemma {:induction false} TotalNotWidened(was: Ledger, now: Ledger, points: seq<string>)
    requires NoneWidened(was, now)
    ensures TotalGap(now, points) <= TotalGap(was, points)
  {
    if points != [] {
      TotalNotWidened(was, now, points[1..]);
    }
  }

  lemma OneGap(ledger: Ledger, point: string)
    requires point in ledger
    ensures TotalGap(ledger, [point]) == Gap(ledger[point])
  {
    assert [point][1..] == [];
  }

  /** The same of the pool as a whole: no run adds to the gaps of any of its channels together. */
  lemma PoolNarrowsExactly(ledger: Ledger, listings: seq<Listing>, threshold: int)
    requires Shows(ledger, listings) && SameLimits(listings)
    ensures (forall paid, points ::
              TotalGap(After(ledger, Plan(listings, threshold), paid, 0), points) <= TotalGap(ledger, points))
       <==> NoneStuck(listings, threshold)
  {
    hide Plan, After, Shows, SameLimits, NoneStuck, TotalGap, Gap;
    NarrowsExactly(ledger, listings, threshold);
    if NoneStuck(listings, threshold) {
      forall paid, points
        ensures TotalGap(After(ledger, Plan(listings, threshold), paid, 0), points) <= TotalGap(ledger, points)
      {
        assert NoneWidened(ledger, After(ledger, Plan(listings, threshold), paid, 0));
        TotalNotWidened(ledger, After(ledger, Plan(listings, threshold), paid, 0), points);
      }
    } else {
      var paid :| !NoneWidened(ledger, After(ledger, Plan(listings, threshold), paid, 0));
      var end := After(ledger, Plan(listings, threshold), paid, 0);
      RunKeeps(ledger, listings, threshold, paid);
      var point :| point in ledger && Gap(end[point]) > Gap(ledger[point]);
      OneGap(ledger, point);
      OneGap(end, point);
    }
  }

  // ---------- statistics

  /** A task and the hash of the payment that was made for it. */
  datatype Receipt = Receipt(task: Task, paymentHash: Option<bytes>)

  predicate Pays(payments: seq<Option<bytes>>, i: nat) {
    i < |payments| && payments[i].Some?
  }

  /** The tasks among the first `n` whose payment yields a hash, each with its own. */
  function Settled(tasks: seq<Task>, payments: seq<Option<bytes>>, n: nat): seq<Receipt>
    requires n <= |tasks|
  {
    if n == 0 then []
    else Settled(tasks, payments, n - 1) + (if Pays(payments, n - 1) then [Receipt(tasks[n - 1], payments[n - 1])] else [])
  }

  /** How many of the first `n` payments yield a hash. */
  function PaymentCount(payments: seq<Option<bytes>>, n: nat): nat {
    if n == 0 then 0
    else PaymentCount(payments, n - 1) + if n <= |payments| && payments[n - 1].Some? then 1 else 0
  }

  /** The receipts by index: each payment with a hash has one, after those of the payments before it, and none is left. */
  lemma {:induction false} SettledAt(tasks: seq<Task>, payments: seq<Option<bytes>>, n: nat)
    requires n <= |tasks|
    ensures |Settled(tasks, payments, n)| == PaymentCount(payments, n)
    ensures forall i :: 0 <= i < n && i < |payments| && payments[i].Some? ==>
      && PaymentCount(payments, i) < PaymentCount(payments, n)
      && Settled(tasks, payments, n)[PaymentCount(payments, i)] == Receipt(tasks[i], payments[i])
  {
    if n > 0 {
      SettledAt(tasks, payments, n - 1);
    }
  }

  function Sum(receipts: seq<Receipt>): int {
    if receipts == [] then 0 else receipts[0].task.amount + Sum(receipts[1..])
  }

  lemma {:induction false} SumConcat(a: seq<Receipt>, b: seq<Receipt>)
    ensures Sum(a + b) == Sum(a) + Sum(b)
  {
    if a == [] {
      assert a + b == b;
    } else {
      assert (a + b)[1..] == a[1..] + b;
      SumConcat(a[1..], b);
    }
  }

  lemma SumOne(r: Receipt)
    ensures Sum([r]) == r.task.amount
  {
    assert [r][1..] == [];
  }

  // ---------- the planner and the run as they are written

  class BalanceTask {
    const ChannelPoint: string
    const ChanId: uint64
    const SrcPk: string
    const DestPk: string
    var Amount: int
    var PaymentHash: Option<bytes>

    constructor (channelPoint: string, chanId: uint64, srcPk: string, destPk: string, amount: int)
      ensures View() == Task(channelPoint, chanId, srcPk, destPk, amount) && PaymentHash == None
    {
      ChannelPoint := channelPoint;
      ChanId := chanId;
      SrcPk := srcPk;
      DestPk := destPk;
      Amount := amount;
      PaymentHash := None;
    }

    ghost function View(): Task
      reads this
    {
      Task(ChannelPoint, ChanId, SrcPk, DestPk, Amount)
    }
  }

  ghost function Views(list: seq<BalanceTask>): (tasks: seq<Task>)
    reads list
    ensures |tasks| == |list|
    ensures forall i :: 0 <= i < |list| ==> tasks[i] == list[i].View()
  {
    seq(|list|, i requires 0 <= i < |list| reads list => list[i].View())
  }

  ghost function Receipts(list: seq<BalanceTask>): (receipts: seq<Receipt>)
    reads list
    ensures |receipts| == |list|
    ensures forall i :: 0 <= i < |list| ==> receipts[i] == Receipt(list[i].View(), list[i].PaymentHash)
  {
    seq(|list|, i requires 0 <= i < |list| reads list => Receipt(list[i].View(), list[i].PaymentHash))
  }

  method AdjustLimits(balanceTask: BalanceTask, channel: Channel) returns (run: bool)
    modifies balanceTask
    ensures run <==> Adjusted(old(balanceTask.Amount), channel).Some?
    ensures balanceTask.Amount == if run then Adjusted(old(balanceTask.Amount), channel).value else old(balanceTask.Amount)
    ensures balanceTask.PaymentHash == old(balanceTask.PaymentHash)
  {
    var max := Max(channel.localMaxPendingMsat / 1000, channel.remoteMaxPendingMsat / 1000);
    var min := Min(channel.localMinHtlcMsat / 1000, channel.remoteMinHtlcMsat / 1000);
    if balanceTask.Amount > max {
      balanceTask.Amount := max - 1;
    } else if balanceTask.Amount < min {
      return false;
    }
    return true;
  }

  method HasPoint(balanceList: seq<BalanceTask>, channelPoint: string) returns (found: bool)
    ensures found <==> Planned(Views(balanceList), channelPoint)
  {
    found := false;
    for i := 0 to |balanceList|
      invariant found <==> exists j :: 0 <= j < i && Views(balanceList)[j].channelPoint == channelPoint
    {
      if balanceList[i].ChannelPoint == channelPoint {
        assert Views(balanceList)[i].channelPoint == channelPoint;
        found := true;
      }
    }
  }

  /** The body of the inner loop. */
  method ConsiderChannel(
    balanceList: seq<BalanceTask>, members: seq<string>, node: string, channel: Channel, deltaThreshold: int)
    returns (list: seq<BalanceTask>)
    ensures Views(list) == Consider(Views(balanceList), members, node, channel, deltaThreshold)
    ensures forall b :: b in list ==> b in balanceList || fresh(b)
  {
    list := balanceList;
    if channel.remotePubkey !in members {
      return;
    }
    var planned := HasPoint(balanceList, channel.channelPoint);
    if planned || Abs(channel.localBalance - channel.remoteBalance) < deltaThreshold {
      return;
    }
    var even := channel.capacity / 2;
    if channel.remoteBalance != channel.localBalance {
      var b: BalanceTask;
      if channel.remoteBalance > channel.localBalance {
        b := new BalanceTask(channel.channelPoint, channel.chanId, channel.remotePubkey, node, channel.remoteBalance - even);
      } else {
        b := new BalanceTask(channel.channelPoint, channel.chanId, node, channel.remotePubkey, channel.localBalance - even);
      }
      var run := AdjustLimits(b, channel);
      if run {
        list := balanceList + [b];
        assert Views(list) == Views(balanceList) + [b.View()];
      }
    }
  }

  method GetInteralNodeEvenBalaceTasks(listings: seq<Listing>, deltaThreshold: int) returns (balanceList: seq<BalanceTask>)
    ensures Views(balanceList) == Plan(listings, deltaThreshold)
    ensures OnePerPoint(Views(balanceList))
    ensures forall b :: b in balanceList ==> fresh(b)
  {
    PlanExact(listings, deltaThreshold);
    balanceList := [];
    var members := Members(listings);
    for i := 0 to |listings|
      invariant PlanListings(Views(balanceList), members, listings[i..], deltaThreshold) == Plan(listings, deltaThreshold)
      invariant forall b :: b in balanceList ==> fresh(b)
    {
      var node := listings[i].pubKey;
      var channels := listings[i].channels;
      assert listings[i..][1..] == listings[i + 1..];
      ghost var was := Views(balanceList);
      for j := 0 to |channels|
        invariant PlanChannels(Views(balanceList), members, node, channels[j..], deltaThreshold)
               == PlanChannels(was, members, node, channels, deltaThreshold)
        invariant forall b :: b in balanceList ==> fresh(b)
      {
        assert channels[j..][1..] == channels[j + 1..];
        balanceList := ConsiderChannel(balanceList, members, node, channels[j], deltaThreshold);
      }
    }
  }

  class PoolRebalanceStats {
    var TotalRebalanceCount: nat
    var TotalAmount: uint64
    var Tasks: seq<BalanceTask>

    /** The totals are those of the tasks, the amounts modulo 64 bits. */
    ghost predicate Adds()
      reads this, Tasks
    {
      TotalRebalanceCount == |Tasks| && TotalAmount == Uint64(Sum(Receipts(Tasks)))
    }

    constructor ()
      ensures Adds() && Tasks == []
    {
      TotalRebalanceCount := 0;
      TotalAmount := 0;
      Tasks := [];
    }
  }

  /** The unchecked conversion of a sum to 64 bits. */
  function Uint64(x: int): uint64 {
    x % 0x1_0000_0000_0000_0000
  }

  lemma SumAdds(receipts: seq<Receipt>, r: Receipt)
    ensures Uint64(Sum(receipts + [r])) == Uint64(Uint64(Sum(receipts)) + Uint64(r.task.amount))
  {
    SumConcat(receipts, [r]);
    SumOne(r);
  }

  /** A payment for a task that is not recorded yet enters the statistics. */
  method Record(stats: PoolRebalanceStats, t: BalanceTask, paymentHash: bytes)
    requires t !in stats.Tasks
    modifies stats, t`PaymentHash
    ensures stats.Tasks == old(stats.Tasks) + [t]
    ensures Receipts(stats.Tasks) == old(Receipts(stats.Tasks)) + [Receipt(old(t.View()), Some(paymentHash))]
    ensures old(stats.Adds()) ==> stats.Adds()
  {
    hide Sum, Uint64;
    ghost var was, receipt := Receipts(stats.Tasks), Receipt(t.View(), Some(paymentHash));
    SumAdds(was, receipt);
    stats.TotalAmount := Uint64(stats.TotalAmount + Uint64(t.Amount));
    stats.TotalRebalanceCount := stats.TotalRebalanceCount + 1;
    t.PaymentHash := Some(paymentHash);
    stats.Tasks := stats.Tasks + [t];
    assert Receipts(stats.Tasks) == was + [receipt];
  }

  /** One payment for each task; `None` stands for a payment that yields no hash. */
  method SettleTasks(stats: PoolRebalanceStats, rebalanceTasks: seq<BalanceTask>, payments: seq<Option<bytes>>)
    requires stats.Adds() && stats.Tasks == []
    requires forall i, j :: 0 <= i < j < |rebalanceTasks| ==> rebalanceTasks[i] != rebalanceTasks[j]
    modifies stats, set t | t in rebalanceTasks :: t`PaymentHash
    ensures Views(rebalanceTasks) == old(Views(rebalanceTasks))
    ensures Receipts(stats.Tasks) == Settled(Views(rebalanceTasks), payments, |rebalanceTasks|)
    ensures stats.Adds()
  {
    hide Sum, Uint64;
    ghost var tasks := Views(rebalanceTasks);
    for i := 0 to |rebalanceTasks|
      invariant Views(rebalanceTasks) == tasks
      invariant Receipts(stats.Tasks) == Settled(tasks, payments, i)
      invariant stats.Adds()
      invariant forall b :: b in stats.Tasks ==> b in rebalanceTasks[..i]
    {
      if i < |payments| && payments[i].Some? {
        var t := rebalanceTasks[i];
        assert t in rebalanceTasks && t.View() == tasks[i];
        Record(stats, t, payments[i].value);
      }
    }
  }

  method RebalanceNodePool(listings: seq<Listing>, deltaThreshold: int, payments: seq<Option<bytes>>)
    returns (stats: PoolRebalanceStats)
    ensures var tasks := Plan(listings, deltaThreshold);
      Receipts(stats.Tasks) == Settled(tasks, payments, |tasks|)
    ensures stats.TotalRebalanceCount == |stats.Tasks|
    ensures stats.TotalAmount == Sum(Receipts(stats.Tasks)) % 0x1_0000_0000_0000_0000
  {
    hide Plan, Sum, Settled;
    var rebalanceTasks := GetInteralNodeEvenBalaceTasks(listings, deltaThreshold);
    assert forall i, j :: 0 <= i < j < |rebalanceTasks| ==>
      Views(rebalanceTasks)[i].channelPoint != Views(rebalanceTasks)[j].channelPoint;
    stats := new PoolRebalanceStats();
    SettleTasks(stats, rebalanceTasks, payments);
  }
}
