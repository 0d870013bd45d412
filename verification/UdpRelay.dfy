/**
  UDP port rewriting for one session.  Each `client udpport N` with N > 0 opens a relay on a
  fresh local port and the command is forwarded with that port instead.  `direct` is what the
  radio would have registered had the client been connected directly: the theorem is that the
  radio's datagrams end up where they would have gone without the proxy.
*/
module UdpRelay {
  import opened Text

  datatype Endpoint = Endpoint(ip: string, port: nat)

  const VITA_PORT: nat := 4991

  datatype Relay = Relay(localPort: nat, clientPort: nat, rx: nat, tx: nat)

  datatype Delivery = Delivery(relay: nat, src: Endpoint, dest: Option<Endpoint>)

  /**
    `registered` is the port the radio last received from the proxy, 0 for none.  `setUp` says
    that the latest command opened its relay, or asked for none.
  */
  datatype State = State(relays: seq<Relay>, done: bool, registered: nat, direct: nat,
                         setUp: bool, deliveries: seq<Delivery>)

  /** The two ends: the client's address, and the radio's when the configured one is valid. */
  datatype Ends = Ends(clientIP: string, radioIP: Option<string>)

  /** `bound` is the local port the operating system gave, or None if the relay could not be opened. */
  datatype Event = UdpPort(n: nat, bound: Option<nat>) | Datagram(i: nat, src: Endpoint) | Done

  const INITIAL: State := State([], false, 0, 0, true, [])

  ghost predicate Enabled(s: State, e: Event) {
    match e
    case UdpPort(n, bound) =>
      !s.done && (n != 0 && bound.Some? ==>
        bound.value != 0 && forall i :: 0 <= i < |s.relays| ==> s.relays[i].localPort != bound.value)
    case Datagram(i, src) => !s.done && i < |s.relays|
    case Done => true
  }

  /** Where a relay sends a datagram: the client's own datagrams to the radio, all others to the client. */
  function Forward(ends: Ends, r: Relay, src: Endpoint): Option<Endpoint> {
    if src == Endpoint(ends.clientIP, r.clientPort) then
      match ends.radioIP case None => None case Some(ip) => Some(Endpoint(ip, VITA_PORT))
    else Some(Endpoint(ends.clientIP, r.clientPort))
  }

  function Counted(ends: Ends, r: Relay, src: Endpoint): Relay {
    if src == Endpoint(ends.clientIP, r.clientPort) then r.(tx := r.tx + 1) else r.(rx := r.rx + 1)
  }

  ghost function Apply(ends: Ends, s: State, e: Event): State
    requires Enabled(s, e)
  {
    match e
    case UdpPort(n, bound) =>
      if n == 0 then s.(registered := 0, direct := 0, setUp := true)
      else if bound.None? then s.(registered := n, direct := n, setUp := false)
      else s.(relays := s.relays + [Relay(bound.value, n, 0, 0)], registered := bound.value, direct := n, setUp := true)
    case Datagram(i, src) =>
      s.(relays := s.relays[i := Counted(ends, s.relays[i], src)],
         deliveries := s.deliveries + [Delivery(i, src, Forward(ends, s.relays[i], src))])
    case Done => s.(done := true)
  }

  ghost predicate Runs(ends: Ends, es: seq<Event>, s: State) {
    if es == [] then s == INITIAL
    else
      var n := |es| - 1;
      exists t :: Runs(ends, es[..n], t) && Enabled(t, es[n]) && s == Apply(ends, t, es[n])
  }

  /** The open relay listening on a port. */
  ghost predicate Listens(s: State, i: nat, port: nat) {
    !s.done && i < |s.relays| && s.relays[i].localPort == port
  }

  /** How many datagrams relay i handled that came, or did not come, from the given endpoint. */
  function CountAt(ds: seq<Delivery>, i: nat, client: Endpoint, fromClient: bool): nat {
    if ds == [] then 0
    else
      var d := ds[|ds| - 1];
      CountAt(ds[..|ds| - 1], i, client, fromClient) + if d.relay == i && (d.src == client) == fromClient then 1 else 0
  }

  function ClientEnd(ends: Ends, r: Relay): Endpoint {
    Endpoint(ends.clientIP, r.clientPort)
  }

  ghost predicate PortsDistinct(relays: seq<Relay>) {
    && (forall i, j :: 0 <= i < j < |relays| ==> relays[i].localPort != relays[j].localPort)
    && (forall i :: 0 <= i < |relays| ==> relays[i].localPort != 0 && relays[i].clientPort != 0)
  }

  ghost predicate Commutes(s: State) {
    && (s.registered == 0 <==> s.direct == 0)
    && (s.direct == 0 || (s.relays != [] && s.relays[|s.relays| - 1].localPort == s.registered
                          && s.relays[|s.relays| - 1].clientPort == s.direct))
  }

  ghost predicate CountedAt(ends: Ends, s: State, i: nat)
    requires i < |s.relays|
  {
    && s.relays[i].tx == CountAt(s.deliveries, i, ClientEnd(ends, s.relays[i]), true)
    && s.relays[i].rx == CountAt(s.deliveries, i, ClientEnd(ends, s.relays[i]), false)
  }

  ghost predicate Conserved(ends: Ends, s: State) {
    forall i :: 0 <= i < |s.relays| ==> CountedAt(ends, s, i)
  }

  ghost predicate Ruled(ends: Ends, s: State) {
    forall k :: 0 <= k < |s.deliveries| ==>
      s.deliveries[k].relay < |s.relays| &&
      s.deliveries[k].dest == Forward(ends, s.relays[s.deliveries[k].relay], s.deliveries[k].src)
  }

  ghost predicate Inv(ends: Ends, s: State) {
    && PortsDistinct(s.relays) && Conserved(ends, s) && Ruled(ends, s)
    && if s.setUp then Commutes(s) else s.registered == s.direct != 0
  }

  lemma {:induction false} CountBeyond(ds: seq<Delivery>, i: nat, client: Endpoint, fromClient: bool)
    requires forall k :: 0 <= k < |ds| ==> ds[k].relay < i
    ensures CountAt(ds, i, client, fromClient) == 0
  {
    if ds != [] { CountBeyond(ds[..|ds| - 1], i, client, fromClient); }
  }

  lemma CountSnoc(ds: seq<Delivery>, d: Delivery, i: nat, client: Endpoint, fromClient: bool)
    ensures CountAt(ds + [d], i, client, fromClient) ==
            CountAt(ds, i, client, fromClient) + if d.relay == i && (d.src == client) == fromClient then 1 else 0
  {
    assert (ds + [d])[..|ds|] == ds;
  }

  lemma UdpPortKeeps(ends: Ends, s: State, n: nat, bound: Option<nat>)
    requires Inv(ends, s) && Enabled(s, UdpPort(n, bound))
    ensures Inv(ends, Apply(ends, s, UdpPort(n, bound)))
  {
    var t := Apply(ends, s, UdpPort(n, bound));
    forall i | 0 <= i < |t.relays| ensures CountedAt(ends, t, i) {
      if i < |s.relays| {
        assert CountedAt(ends, s, i);
      } else {
        CountBeyond(s.deliveries, i, ClientEnd(ends, t.relays[i]), true);
        CountBeyond(s.deliveries, i, ClientEnd(ends, t.relays[i]), false);
      }
    }
  }

  lemma DatagramKeeps(ends: Ends, s: State, i: nat, src: Endpoint)
    requires Inv(ends, s) && Enabled(s, Datagram(i, src))
    ensures Inv(ends, Apply(ends, s, Datagram(i, src)))
  {
    var t := Apply(ends, s, Datagram(i, src));
    var d := Delivery(i, src, Forward(ends, s.relays[i], src));
    forall j | 0 <= j < |t.relays| ensures CountedAt(ends, t, j) {
      assert CountedAt(ends, s, j);
      CountSnoc(s.deliveries, d, j, ClientEnd(ends, s.relays[j]), true);
      CountSnoc(s.deliveries, d, j, ClientEnd(ends, s.relays[j]), false);
    }
  }

  lemma StepKeeps(ends: Ends, s: State, e: Event)
    requires Inv(ends, s) && Enabled(s, e)
    ensures Inv(ends, Apply(ends, s, e))
  {
    match e
    case UdpPort(n, bound) => UdpPortKeeps(ends, s, n, bound);
    case Datagram(i, src) => DatagramKeeps(ends, s, i, src);
    case Done =>
      forall i | 0 <= i < |s.relays| ensures CountedAt(ends, Apply(ends, s, Done), i) { assert CountedAt(ends, s, i); }
  }

  lemma {:induction false} RunKeeps(ends: Ends, es: seq<Event>, s: State)
    requires Runs(ends, es, s)
    ensures Inv(ends, s)
  {
    if es != [] {
      var n := |es| - 1;
      var t :| Runs(ends, es[..n], t) && Enabled(t, es[n]) && s == Apply(ends, t, es[n]);
      RunKeeps(ends, es[..n], t);
      StepKeeps(ends, t, es[n]);
    }
  }

  /**
    REWRITING COMMUTES WITH ROUTING.  Whatever failed before, once the latest command opened its
    relay or asked for none: the radio has a port registered exactly when it would have one
    without the proxy; the one relay on that port sends everything but the client's own datagrams
    to the client's latest nonzero port, and the client's own datagrams to the radio's VITA-49
    port.
  */
  lemma {:induction false} RewritingCommutes(ends: Ends, es: seq<Event>, s: State, i: nat, src: Endpoint)
    requires Runs(ends, es, s) && s.setUp
    ensures s.registered == 0 <==> s.direct == 0
    ensures s.direct != 0 && !s.done ==> s.relays != [] && Listens(s, |s.relays| - 1, s.registered)
    ensures s.direct != 0 && Listens(s, i, s.registered) ==>
              Forward(ends, s.relays[i], src) ==
              if src != Endpoint(ends.clientIP, s.direct) then Some(Endpoint(ends.clientIP, s.direct))
              else if ends.radioIP.Some? then Some(Endpoint(ends.radioIP.value, 4991)) else None
  {
    RunKeeps(ends, es, s);
  }

  /**
    Each datagram was handled once, by the rule of its own relay, and counted once: `tx` counts
    those that came from the relay's client, `rx` all others.
  */
  lemma CountsConserved(ends: Ends, es: seq<Event>, s: State)
    requires Runs(ends, es, s)
    ensures forall i :: 0 <= i < |s.relays| ==> CountedAt(ends, s, i)
    ensures forall k :: 0 <= k < |s.deliveries| ==>
              s.deliveries[k].relay < |s.relays| &&
              s.deliveries[k].dest == Forward(ends, s.relays[s.deliveries[k].relay], s.deliveries[k].src)
  {
    RunKeeps(ends, es, s);
  }

  /** Earlier relays stay bound to their own client port, and stay open until `done`. */
  lemma {:induction false} RelaysStayBound(ends: Ends, es: seq<Event>, k: nat, s: State, i: nat) returns (t: State)
    requires Runs(ends, es, s) && k <= |es|
    ensures Runs(ends, es[..k], t)
    ensures |t.relays| <= |s.relays| && (t.done ==> s.done)
    ensures i < |t.relays| ==>
              s.relays[i].localPort == t.relays[i].localPort && s.relays[i].clientPort == t.relays[i].clientPort
  {
    if k == |es| {
      assert es[..k] == es;
      t := s;
    } else {
      var n := |es| - 1;
      var u :| Runs(ends, es[..n], u) && Enabled(u, es[n]) && s == Apply(ends, u, es[n]);
      t := RelaysStayBound(ends, es[..n], k, u, i);
      assert es[..n][..k] == es[..k];
    }
  }

  /**
    When the latest relay could not be opened the client's own number was passed through.  Then
    the radio's datagrams reach the client's port exactly if some earlier relay happens to
    listen on that number and to serve it.
  */
  lemma {:induction false} FailedSetup(ends: Ends, es: seq<Event>, s: State, src: Endpoint)
    requires Runs(ends, es, s) && !s.setUp && src.ip != ends.clientIP
    ensures s.registered == s.direct != 0
    ensures !s.done ==>
              ((exists i: nat :: Listens(s, i, s.registered)
                                 && Forward(ends, s.relays[i], src) == Some(Endpoint(ends.clientIP, s.direct)))
               <==> exists i: nat :: i < |s.relays| && s.relays[i].localPort == s.relays[i].clientPort == s.direct)
  {
    RunKeeps(ends, es, s);
    if i: nat :| !s.done && i < |s.relays| && s.relays[i].localPort == s.relays[i].clientPort == s.direct {
      assert Listens(s, i, s.registered);
    }
  }

  /** What the port commands of a run asked for and got: (local port, client port) of every relay opened, in order. */
  ghost function Opened(es: seq<Event>): seq<(nat, nat)> {
    if es == [] then []
    else
      var e := es[|es| - 1];
      Opened(es[..|es| - 1])
      + if e.UdpPort? && e.n != 0 && e.bound.Some? then [(e.bound.value, e.n)] else []
  }

  /** The relays are those that were opened, each bound to the client port it was opened for. */
  lemma {:induction false} RelaysAreOpened(es: seq<Event>, ends: Ends, s: State)
    requires Runs(ends, es, s)
    ensures |s.relays| == |Opened(es)|
    ensures forall i :: 0 <= i < |s.relays| ==> (s.relays[i].localPort, s.relays[i].clientPort) == Opened(es)[i]
  {
    if es != [] {
      var n := |es| - 1;
      var t :| Runs(ends, es[..n], t) && Enabled(t, es[n]) && s == Apply(ends, t, es[n]);
      RelaysAreOpened(es[..n], ends, t);
    }
  }

  /**
    The port that would have been registered is the one the latest command names; the radio got
    that one or the relay's.
  */
  lemma {:induction false} LatestNumber(ends: Ends, es: seq<Event>, s: State)
    requires Runs(ends, es, s)
    ensures (forall k :: 0 <= k < |es| ==> !es[k].UdpPort?) ==> s.direct == 0 && s.registered == 0
    ensures forall k :: 0 <= k < |es| && es[k].UdpPort? && (forall j :: k < j < |es| ==> !es[j].UdpPort?) ==>
              && s.direct == es[k].n
              && s.registered == if es[k].n != 0 && es[k].bound.Some? then es[k].bound.value else es[k].n
  {
    if es != [] {
      var n := |es| - 1;
      var init := es[..n];
      var t :| Runs(ends, init, t) && Enabled(t, es[n]) && s == Apply(ends, t, es[n]);
      LatestNumber(ends, init, t);
      assert forall k :: 0 <= k < n ==> init[k] == es[k];
    }
  }

  /** The latest port command asked for a relay that could not be opened. */
  ghost predicate LatestFailed(es: seq<Event>) {
    exists k :: 0 <= k < |es| && Fails(es[k]) && forall j :: k < j < |es| ==> !es[j].UdpPort?
  }

  lemma LatestFailedSnoc(init: seq<Event>, e: Event)
    ensures LatestFailed(init + [e]) <==> if e.UdpPort? then Fails(e) else LatestFailed(init)
  {
    var es := init + [e];
    assert es[|init|] == e && forall k :: 0 <= k < |init| ==> es[k] == init[k];
  }

  /** `setUp` is decided by the latest command alone. */
  lemma {:induction false} LatestDecides(ends: Ends, es: seq<Event>, s: State)
    requires Runs(ends, es, s)
    ensures !s.setUp <==> LatestFailed(es)
  {
    if es != [] {
      var n := |es| - 1;
      var t :| Runs(ends, es[..n], t) && Enabled(t, es[n]) && s == Apply(ends, t, es[n]);
      LatestDecides(ends, es[..n], t);
      LatestFailedSnoc(es[..n], es[n]);
      Snoc(es);
    }
  }

  ghost predicate Fails(e: Event) { e.UdpPort? && e.n != 0 && e.bound.None? }

  lemma Extend(ends: Ends, es: seq<Event>, s: State, e: Event) returns (es': seq<Event>, s': State)
    requires Runs(ends, es, s) && Enabled(s, e)
    ensures Runs(ends, es', s') && s' == Apply(ends, s, e)
  {
    assert (es + [e])[..|es|] == es;
    es', s' := es + [e], Apply(ends, s, e);
  }

  /** One relay, one datagram each way: the radio's reaches the client's port, the client's the radio's 4991. */
  lemma BothWays(n: nat, bound: nat, clientIP: string, radioIP: string, radioPort: nat)
    requires n != 0 && bound != 0 && clientIP != radioIP
    ensures exists es, s :: Runs(Ends(clientIP, Some(radioIP)), es, s)
              && s.registered == bound && s.relays == [Relay(bound, n, 1, 1)]
              && s.deliveries == [Delivery(0, Endpoint(radioIP, radioPort), Some(Endpoint(clientIP, n))),
                                  Delivery(0, Endpoint(clientIP, n), Some(Endpoint(radioIP, 4991)))]
  {
    var ends := Ends(clientIP, Some(radioIP));
    var es, s := Extend(ends, [], INITIAL, UdpPort(n, Some(bound)));
    es, s := Extend(ends, es, s, Datagram(0, Endpoint(radioIP, radioPort)));
    es, s := Extend(ends, es, s, Datagram(0, Endpoint(clientIP, n)));
    assert s.relays == [Relay(bound, n, 1, 1)];
  }
}
