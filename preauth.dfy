/**
 * The pre-authentication list of the LIM: the peers an AP is authenticating with MAC-based
 * (shared-key) authentication. The driver keeps a singly linked list headed by
 * pLimPreAuthList and a separate counter gLimNumPreAuthContexts; here the list is a
 * sequence of node records, head first, and the calls the routines make to timers, to the
 * peer table and to the frame transmitter are recorded in an event log.
 */
module PreAuthRegistry {
  import opened LimTypes

  /** tLimPreAuthNode: the fields the list routines read or write. */
  datatype PreAuthNode = PreAuthNode(
    peerMacAddr: MacAddr,
    authNodeIdx: int,
    fTimerStarted: bool,
    fSeen: bool,
    fFree: bool)

  /** eSIR_MAC_PREV_AUTH_NOT_VALID_REASON: the reason code of the advisory deauthentication. */
  const PrevAuthNotValidReason: int := 2

  /** The calls into code outside the list that the routines make, in the order they make them. */
  datatype Event =
    | CleanupTimerCreated(timeoutMs: nat)                   // tx_timer_create of the periodic sweep timer
    | AuthRspTimerStopped(authNodeIdx: int)                 // limDeactivateAndChangePerStaIdTimer(eLIM_AUTH_RSP_TIMER, ..)
    | DeauthSent(peer: MacAddr, reason: int, session: int)  // limSendDeauthMgmtFrame
    | NodeReleased(node: PreAuthNode)                       // limReleasePreAuthNode: fFree set, node timer deactivated

  /** The position of the first node whose peer address is `mac`, if any. */
  function IndexOf(s: seq<PreAuthNode>, mac: MacAddr): (r: Option<nat>)
    ensures r.Some? ==> r.value < |s| && s[r.value].peerMacAddr == mac
    ensures r.Some? ==> forall j :: 0 <= j < r.value ==> s[j].peerMacAddr != mac
    ensures r.None? ==> forall j :: 0 <= j < |s| ==> s[j].peerMacAddr != mac
    decreases |s|
  {
    if |s| == 0 then None
    else if s[0].peerMacAddr == mac then Some(0)
    else match IndexOf(s[1..], mac)
      case None => None
      case Some(k) => Some(k + 1)
  }

  /** The node limSearchPreAuthList returns: the first match, or NULL. */
  function Lookup(s: seq<PreAuthNode>, mac: MacAddr): Option<PreAuthNode> {
    match IndexOf(s, mac)
    case None => None
    case Some(k) => Some(s[k])
  }

  /** The list after limDeletePreAuthNode: the first match unlinked, the rest in their order. */
  function RemoveFirst(s: seq<PreAuthNode>, mac: MacAddr): (r: seq<PreAuthNode>)
    ensures |r| == if IndexOf(s, mac).Some? then |s| - 1 else |s|
  {
    match IndexOf(s, mac)
    case None => s
    case Some(k) => s[..k] + s[k + 1..]
  }

  /** The record limReleasePreAuthNode hands back: the node with fFree set. */
  function ReleaseEvent(n: PreAuthNode): Event {
    NodeReleased(n.(fFree := true))
  }

  /** The auth response timer is stopped for a node being removed only if it was started. */
  function TimerStop(n: PreAuthNode): seq<Event> {
    if n.fTimerStarted then [AuthRspTimerStopped(n.authNodeIdx)] else []
  }

  /** What limDeletePreAuthNode does outside the list. */
  function DeleteEvents(s: seq<PreAuthNode>, mac: MacAddr): seq<Event> {
    match IndexOf(s, mac)
    case None => []
    case Some(k) => TimerStop(s[k]) + [ReleaseEvent(s[k])]
  }

  /** What limDeletePreAuthList does outside the list: every node released, head first. */
  function ReleaseAll(s: seq<PreAuthNode>): (r: seq<Event>)
    ensures |r| == |s|
  {
    seq(|s|, k requires 0 <= k < |s| => ReleaseEvent(s[k]))
  }

  /**
   * The periodic sweep's treatment of one node that was already seen: its auth response
   * timer is stopped if started, a deauthentication with reason 2 goes to it if the peer
   * has no station entry (`stations` holds the peers dphLookupHashEntry finds), and it is released.
   */
  function EvictionEvents(n: PreAuthNode, stations: set<MacAddr>, session: int): seq<Event> {
    TimerStop(n)
    + (if n.peerMacAddr in stations then [] else [DeauthSent(n.peerMacAddr, PrevAuthNotValidReason, session)])
    + [ReleaseEvent(n)]
  }

  /** The nodes a sweep keeps: those not yet seen, now marked seen, in their order. */
  function Survivors(s: seq<PreAuthNode>): seq<PreAuthNode>
    decreases |s|
  {
    if |s| == 0 then []
    else
      var n := s[|s| - 1];
      Survivors(s[..|s| - 1]) + (if n.fSeen then [] else [n.(fSeen := true)])
  }

  /** The events of a sweep: the eviction of every seen node, in list order. */
  function SweepEvents(s: seq<PreAuthNode>, stations: set<MacAddr>, session: int): seq<Event>
    decreases |s|
  {
    if |s| == 0 then []
    else
      var n := s[|s| - 1];
      SweepEvents(s[..|s| - 1], stations, session) + (if n.fSeen then EvictionEvents(n, stations, session) else [])
  }

  /** The number of nodes a sweep evicts. */
  function SeenCount(s: seq<PreAuthNode>): nat
    decreases |s|
  {
    if |s| == 0 then 0 else SeenCount(s[..|s| - 1]) + (if s[|s| - 1].fSeen then 1 else 0)
  }

  /**
   * The registry's invariant: at most one node per peer address. limAddPreAuthNode does not
   * check it; its callers add a node only after a search for the address came back empty.
   */
  predicate Unique(s: seq<PreAuthNode>) {
    forall i, j :: 0 <= i < j < |s| ==> s[i].peerMacAddr != s[j].peerMacAddr
  }

  /** The pre-authentication state of one LIM instance. */
  class PreAuthList {
    /** pLimPreAuthList, head first. */
    var nodes: seq<PreAuthNode>
    /** gLimNumPreAuthContexts. */
    var numContexts: int
    /** The calls made so far into timers, the peer table and the transmitter. */
    var events: seq<Event>

    constructor ()
      ensures nodes == [] && numContexts == 0 && events == []
    {
      nodes := [];
      numContexts := 0;
      events := [];
    }

    /**
     * limInitPreAuthList: empties the list (the counter is left alone) and, on an AP, creates
     * the periodic cleanup timer with the configured timeout. `cfgTimeoutMs` is the value
     * read from WNI_CFG_PREAUTH_CLNUP_TIMEOUT (None: the read failed); `timerCreated` is
     * the outcome of tx_timer_create. Either failure ends the routine without a timer.
     */
    method Init(role: SystemRole, cfgTimeoutMs: Option<nat>, timerCreated: bool)
      modifies this
      ensures nodes == [] && numContexts == old(numContexts)
      ensures role == ApRole && cfgTimeoutMs.Some? && timerCreated ==>
        events == old(events) + [CleanupTimerCreated(cfgTimeoutMs.value)]
      ensures !(role == ApRole && cfgTimeoutMs.Some? && timerCreated) ==> events == old(events)
    {
      nodes := [];
      if role == ApRole {
        if cfgTimeoutMs.None? {
          return;
        }
        if !timerCreated {
          return;
        }
        events := events + [CleanupTimerCreated(cfgTimeoutMs.value)];
      }
    }

    /** The walk of limSearchPreAuthList: the position of the first node for `mac`. */
    method Locate(mac: MacAddr) returns (k: Option<nat>)
      ensures k == IndexOf(nodes, mac)
    {
      var i := 0;
      while i < |nodes| && nodes[i].peerMacAddr != mac
        invariant 0 <= i <= |nodes|
        invariant forall j :: 0 <= j < i ==> nodes[j].peerMacAddr != mac
      {
        i := i + 1;
      }
      if i < |nodes| {
        k := Some(i);
        FirstMatchIsIndexOf(nodes, mac, i);
      } else {
        k := None;
      }
    }

    /** limSearchPreAuthList: the first node whose peer address is `mac`, or None. */
    method Search(mac: MacAddr) returns (r: Option<PreAuthNode>)
      ensures r == Lookup(nodes, mac)
    {
      var k := Locate(mac);
      if k.Some? {
        r := Some(nodes[k.value]);
      } else {
        r := None;
      }
    }

    /** limAddPreAuthNode: the node goes to the front of the list and the counter goes up. */
    method Add(node: PreAuthNode)
      modifies this
      ensures nodes == [node] + old(nodes)
      ensures numContexts == old(numContexts) + 1 && events == old(events)
    {
      numContexts := numContexts + 1;
      nodes := [node] + nodes;
    }

    /**
     * limReleasePreAuthNode: hands the node back (fFree set, its timer deactivated) and
     * lowers the counter. The list is not touched: callers unlink the node themselves.
     */
    method Release(node: PreAuthNode)
      modifies this
      ensures nodes == old(nodes) && numContexts == old(numContexts) - 1
      ensures events == old(events) + [ReleaseEvent(node)]
    {
      events := events + [ReleaseEvent(node)];
      numContexts := numContexts - 1;
    }

    /**
     * limDeletePreAuthNode: unlinks the first node for `mac`, stops its auth response timer
     * if started and releases it. With no match nothing changes (the driver logs an error).
     * Unlinking the head and unlinking a later node, two branches in the driver, are the
     * same operation on the sequence.
     */
    method Delete(mac: MacAddr)
      modifies this
      ensures nodes == RemoveFirst(old(nodes), mac)
      ensures numContexts == old(numContexts) - (if IndexOf(old(nodes), mac).Some? then 1 else 0)
      ensures events == old(events) + DeleteEvents(old(nodes), mac)
    {
      var k := Locate(mac);
      if k.None? {
        return;
      }
      var n := nodes[k.value];
      nodes := nodes[..k.value] + nodes[k.value + 1..];
      if n.fTimerStarted {
        events := events + [AuthRspTimerStopped(n.authNodeIdx)];
      }
      Release(n);
    }

    /** limDeletePreAuthList: releases every node, head first, and empties the list. */
    method DeleteAll()
      modifies this
      ensures nodes == []
      ensures numContexts == old(numContexts) - |old(nodes)|
      ensures events == old(events) + ReleaseAll(old(nodes))
    {
      ghost var e0 := events;
      var s := nodes;
      var i := 0;
      while i < |s|
        invariant 0 <= i <= |s|
        invariant nodes == s
        invariant numContexts == old(numContexts) - i
        invariant events == e0 + ReleaseAll(s[..i])
      {
        ReleaseAllSnoc(s[..i], s[i]);
        assert s[..i + 1] == s[..i] + [s[i]];
        Release(s[i]);
        i := i + 1;
      }
      assert s[..i] == s;
      nodes := [];
    }

    /**
     * limPreAuthClnupHandler: one pass of the periodic cleanup. A node already seen is
     * unlinked and evicted (see EvictionEvents); any other node is marked seen and kept.
     * `stations` stands for the peer table dphLookupHashEntry consults and `session` for the
     * session the deauthentication is sent on, which the driver takes from a variable it
     * only declares when GEN6_TODO is defined.
     */
    method Sweep(stations: set<MacAddr>, session: int)
      modifies this
      ensures nodes == Survivors(old(nodes))
      ensures numContexts == old(numContexts) - SeenCount(old(nodes))
      ensures events == old(events) + SweepEvents(old(nodes), stations, session)
    {
      ghost var e0 := events;
      var s := nodes;
      var kept: seq<PreAuthNode> := [];
      var i := 0;
      while i < |s|
        invariant 0 <= i <= |s|
        invariant kept == Survivors(s[..i])
        invariant numContexts == old(numContexts) - SeenCount(s[..i])
        invariant events == e0 + SweepEvents(s[..i], stations, session)
      {
        var n := s[i];
        SweepSnoc(s, i, stations, session);
        if n.fSeen {
          Evict(n, stations, session);
        } else {
          kept := kept + [n.(fSeen := true)];
        }
        i := i + 1;
      }
      assert s[..i] == s;
      nodes := kept;
    }

    /** The eviction branch of the cleanup pass for one node, after it has been unlinked. */
    method Evict(n: PreAuthNode, stations: set<MacAddr>, session: int)
      modifies this
      ensures nodes == old(nodes) && numContexts == old(numContexts) - 1
      ensures events == old(events) + EvictionEvents(n, stations, session)
    {
      if n.fTimerStarted {
        events := events + [AuthRspTimerStopped(n.authNodeIdx)];
      }
      if n.peerMacAddr !in stations {
        events := events + [DeauthSent(n.peerMacAddr, PrevAuthNotValidReason, session)];
      }
      Release(n);
    }
  }

  /** A sweep over one more node: the three sweep functions extended by that node. */
  lemma SweepSnoc(s: seq<PreAuthNode>, i: nat, stations: set<MacAddr>, session: int)
    requires i < |s|
    ensures Survivors(s[..i + 1]) == Survivors(s[..i]) + (if s[i].fSeen then [] else [s[i].(fSeen := true)])
    ensures SweepEvents(s[..i + 1], stations, session)
         == SweepEvents(s[..i], stations, session) + (if s[i].fSeen then EvictionEvents(s[i], stations, session) else [])
    ensures SeenCount(s[..i + 1]) == SeenCount(s[..i]) + (if s[i].fSeen then 1 else 0)
  {
    assert s[..i + 1][..i] == s[..i];
  }

  /** A match with no match before it is the one IndexOf finds. */
  lemma FirstMatchIsIndexOf(s: seq<PreAuthNode>, mac: MacAddr, i: nat)
    requires i < |s| && s[i].peerMacAddr == mac
    requires forall j :: 0 <= j < i ==> s[j].peerMacAddr != mac
    ensures IndexOf(s, mac) == Some(i)
  {
  }

  lemma ReleaseAllSnoc(s: seq<PreAuthNode>, n: PreAuthNode)
    ensures ReleaseAll(s + [n]) == ReleaseAll(s) + [ReleaseEvent(n)]
  {
  }

  /** Search finds a node exactly when some node has the address, and what it finds has it. */
  lemma LookupFinds(s: seq<PreAuthNode>, mac: MacAddr)
    ensures Lookup(s, mac).Some? <==> exists j :: 0 <= j < |s| && s[j].peerMacAddr == mac
    ensures Lookup(s, mac).Some? ==> Lookup(s, mac).value in s && Lookup(s, mac).value.peerMacAddr == mac
  {
  }

  /** A node just added is what a search for its address returns. */
  lemma SearchAfterAdd(s: seq<PreAuthNode>, n: PreAuthNode)
    ensures Lookup([n] + s, n.peerMacAddr) == Some(n)
  {
  }

  /** Deleting an address that occurs once leaves no node for it. */
  lemma SearchAfterDelete(s: seq<PreAuthNode>, mac: MacAddr)
    requires forall i, j :: 0 <= i < j < |s| && s[i].peerMacAddr == mac ==> s[j].peerMacAddr != mac
    ensures Lookup(RemoveFirst(s, mac), mac) == None
  {
    var r := RemoveFirst(s, mac);
    match IndexOf(s, mac)
    case None =>
    case Some(k) =>
      forall j | 0 <= j < |r|
        ensures r[j].peerMacAddr != mac
      {
        if j >= k {
          assert r[j] == s[j + 1];
        }
      }
  }

  /** Deleting one address leaves what a search for any other address finds. */
  lemma DeleteKeepsOthers(s: seq<PreAuthNode>, mac: MacAddr, other: MacAddr)
    requires other != mac
    ensures Lookup(RemoveFirst(s, mac), other) == Lookup(s, other)
  {
    match IndexOf(s, mac)
    case None =>
    case Some(k) =>
      var r := s[..k] + s[k + 1..];
      assert RemoveFirst(s, mac) == r;
      RemovedElements(s, k);
      match IndexOf(s, other)
      case None =>
        assert forall j :: 0 <= j < |r| ==> r[j].peerMacAddr != other;
      case Some(m) =>
        var m' := if m < k then m else m - 1;
        assert r[m'] == s[m];
        FirstMatchIsIndexOf(r, other, m');
  }

  /** The elements left when position `k` is removed, as positions of the original. */
  lemma RemovedElements(s: seq<PreAuthNode>, k: nat)
    requires k < |s|
    ensures |s[..k] + s[k + 1..]| == |s| - 1
    ensures forall j :: 0 <= j < |s| - 1 ==> (s[..k] + s[k + 1..])[j] == if j < k then s[j] else s[j + 1]
  {
  }

  /** Deleting keeps every other node, in order: the result with the deleted node put back is the list. */
  lemma DeleteRestores(s: seq<PreAuthNode>, mac: MacAddr)
    requires IndexOf(s, mac).Some?
    ensures RemoveFirst(s, mac)[..IndexOf(s, mac).value] + [s[IndexOf(s, mac).value]]
          + RemoveFirst(s, mac)[IndexOf(s, mac).value..] == s
  {
    var k := IndexOf(s, mac).value;
    assert RemoveFirst(s, mac) == s[..k] + s[k + 1..];
    PutBack(s, k);
  }

  /** Putting the element at `k` back into the sequence without it gives the sequence. */
  lemma PutBack<T>(s: seq<T>, k: nat)
    requires k < |s|
    ensures (s[..k] + s[k + 1..])[..k] + [s[k]] + (s[..k] + s[k + 1..])[k..] == s
  {
    var r := s[..k] + s[k + 1..];
    assert r[..k] == s[..k];
    assert r[k..] == s[k + 1..];
    assert s[..k] + [s[k]] + s[k + 1..] == s;
  }

  /** A sweep keeps or evicts every node: survivors and evicted nodes add up to the list. */
  lemma {:induction false} SweepPartitions(s: seq<PreAuthNode>)
    ensures |Survivors(s)| + SeenCount(s) == |s|
    decreases |s|
  {
    if |s| > 0 {
      SweepPartitions(s[..|s| - 1]);
    }
  }

  /**
   * Every survivor of a sweep is marked seen and is, apart from that mark, a node of the
   * list that was not yet seen.
   */
  lemma {:induction false} SurvivorsSeen(s: seq<PreAuthNode>)
    ensures forall n :: n in Survivors(s) ==> n.fSeen && n.(fSeen := false) in s
    decreases |s|
  {
    if |s| > 0 {
      var n := s[|s| - 1];
      SurvivorsSeen(s[..|s| - 1]);
      forall m | m in Survivors(s)
        ensures m.fSeen && m.(fSeen := false) in s
      {
        if m in Survivors(s[..|s| - 1]) {
          assert m.(fSeen := false) in s[..|s| - 1];
        } else {
          assert m == n.(fSeen := true) && !n.fSeen;
        }
      }
    }
  }

  /** A sweep over a list of seen nodes keeps nothing. */
  lemma {:induction false} AllSeenSwept(s: seq<PreAuthNode>)
    requires forall n :: n in s ==> n.fSeen
    ensures Survivors(s) == []
    decreases |s|
  {
    if |s| > 0 {
      AllSeenSwept(s[..|s| - 1]);
    }
  }

  /** Two sweeps with nothing added in between empty the list. */
  lemma DoubleSweepEmpties(s: seq<PreAuthNode>)
    ensures Survivors(Survivors(s)) == []
  {
    SurvivorsSeen(s);
    AllSeenSwept(Survivors(s));
  }

  /** A node in front of the list is kept or dropped on its own, before the rest. */
  lemma {:induction false} SurvivorsCons(n: PreAuthNode, s: seq<PreAuthNode>)
    ensures Survivors([n] + s) == (if n.fSeen then [] else [n.(fSeen := true)]) + Survivors(s)
    decreases |s|
  {
    if |s| > 0 {
      var t := s[..|s| - 1];
      var last := s[|s| - 1];
      var tail := if last.fSeen then [] else [last.(fSeen := true)];
      assert ([n] + s)[..|[n] + s| - 1] == [n] + t;
      assert Survivors([n] + s) == Survivors([n] + t) + tail;
      SurvivorsCons(n, t);
    }
  }

  /** A node in front of the list is evicted, if at all, before the rest. */
  lemma {:induction false} SweepEventsCons(n: PreAuthNode, s: seq<PreAuthNode>, stations: set<MacAddr>, session: int)
    ensures SweepEvents([n] + s, stations, session)
         == (if n.fSeen then EvictionEvents(n, stations, session) else []) + SweepEvents(s, stations, session)
    decreases |s|
  {
    if |s| > 0 {
      var t := s[..|s| - 1];
      var last := s[|s| - 1];
      var tail := if last.fSeen then EvictionEvents(last, stations, session) else [];
      assert ([n] + s)[..|[n] + s| - 1] == [n] + t;
      assert SweepEvents([n] + s, stations, session) == SweepEvents([n] + t, stations, session) + tail;
      SweepEventsCons(n, t, stations, session);
    }
  }

  /**
   * A node added unseen to the front of the list survives the next sweep, marked seen,
   * and is the first node evicted by the sweep after that.
   */
  lemma AddedNodeLifetime(n: PreAuthNode, s: seq<PreAuthNode>, stations: set<MacAddr>, session: int)
    requires !n.fSeen
    ensures Survivors([n] + s) == [n.(fSeen := true)] + Survivors(s)
    ensures SweepEvents(Survivors([n] + s), stations, session)
         == EvictionEvents(n.(fSeen := true), stations, session) + SweepEvents(Survivors(s), stations, session)
  {
    SurvivorsCons(n, s);
    SweepEventsCons(n.(fSeen := true), Survivors(s), stations, session);
  }

  /**
   * A sweep sends the advisory deauthentication (reason 2, on the given session) to a peer
   * exactly when a seen node has that peer address and the peer has no station entry.
   */
  lemma {:induction false} DeauthOnlyWithoutStation(s: seq<PreAuthNode>, stations: set<MacAddr>, session: int,
                                                    peer: MacAddr, reason: int, sess: int)
    ensures DeauthSent(peer, reason, sess) in SweepEvents(s, stations, session)
        <==> reason == PrevAuthNotValidReason && sess == session && peer !in stations
             && exists k :: 0 <= k < |s| && s[k].fSeen && s[k].peerMacAddr == peer
    decreases |s|
  {
    if |s| > 0 {
      var t := s[..|s| - 1];
      var n := s[|s| - 1];
      DeauthOnlyWithoutStation(t, stations, session, peer, reason, sess);
      var e := DeauthSent(peer, reason, sess);
      assert SweepEvents(s, stations, session)
          == SweepEvents(t, stations, session) + (if n.fSeen then EvictionEvents(n, stations, session) else []);
      assert e in TimerStop(n) ==> false;
      assert e in [ReleaseEvent(n)] ==> false;
      if exists k :: 0 <= k < |s| && s[k].fSeen && s[k].peerMacAddr == peer {
        var k :| 0 <= k < |s| && s[k].fSeen && s[k].peerMacAddr == peer;
        if k < |s| - 1 {
          assert t[k] == s[k];
        }
      }
      if exists k :: 0 <= k < |t| && t[k].fSeen && t[k].peerMacAddr == peer {
        var k :| 0 <= k < |t| && t[k].fSeen && t[k].peerMacAddr == peer;
        assert s[k] == t[k];
      }
    }
  }

  /** Adding a node after a search for its address came back empty keeps addresses unique. */
  lemma AddKeepsUnique(s: seq<PreAuthNode>, n: PreAuthNode)
    requires Unique(s) && Lookup(s, n.peerMacAddr) == None
    ensures Unique([n] + s)
  {
    LookupFinds(s, n.peerMacAddr);
    var r := [n] + s;
    forall i, j | 0 <= i < j < |r|
      ensures r[i].peerMacAddr != r[j].peerMacAddr
    {
      assert r[j] == s[j - 1];
      if i > 0 {
        assert r[i] == s[i - 1];
      }
    }
  }

  /** Deleting a node keeps addresses unique. */
  lemma DeleteKeepsUnique(s: seq<PreAuthNode>, mac: MacAddr)
    requires Unique(s)
    ensures Unique(RemoveFirst(s, mac))
  {
    match IndexOf(s, mac)
    case None =>
    case Some(k) =>
      var r := s[..k] + s[k + 1..];
      assert RemoveFirst(s, mac) == r;
      RemovedElements(s, k);
      forall i, j | 0 <= i < j < |r|
        ensures r[i].peerMacAddr != r[j].peerMacAddr
      {
        var i', j' := if i < k then i else i + 1, if j < k then j else j + 1;
        assert r[i] == s[i'] && r[j] == s[j'];
      }
  }

  /** With unique addresses, a node deleted is no longer found. */
  lemma UniqueSearchAfterDelete(s: seq<PreAuthNode>, mac: MacAddr)
    requires Unique(s)
    ensures Lookup(RemoveFirst(s, mac), mac) == None
  {
    SearchAfterDelete(s, mac);
  }

  /** A sweep keeps addresses unique. */
  lemma {:induction false} SweepKeepsUnique(s: seq<PreAuthNode>)
    requires Unique(s)
    ensures Unique(Survivors(s))
    decreases |s|
  {
    if |s| > 0 {
      var t := s[..|s| - 1];
      var n := s[|s| - 1];
      assert Unique(t) by {
        forall i, j | 0 <= i < j < |t|
          ensures t[i].peerMacAddr != t[j].peerMacAddr
        {
          assert t[i] == s[i] && t[j] == s[j];
        }
      }
      SweepKeepsUnique(t);
      SurvivorsSeen(t);
      if !n.fSeen {
        var kept := Survivors(t);
        var r := kept + [n.(fSeen := true)];
        assert Survivors(s) == r;
        forall i, j | 0 <= i < j < |r|
          ensures r[i].peerMacAddr != r[j].peerMacAddr
        {
          if j < |kept| {
            assert r[i] == kept[i] && r[j] == kept[j];
          } else {
            assert r[i] == kept[i] && kept[i] in kept;
            var m := kept[i].(fSeen := false);
            assert m in t;
            var k :| 0 <= k < |t| && t[k] == m;
            assert s[k] == m;
          }
        }
      }
    }
  }
}
