/**
  The rewrite part of the discovery relay: a radio's datagram is parsed, its `ip`, `port`
  and `nickname` are changed, its `gui_client_*` fields are dropped, and the packet is
  rebuilt.  Receiving, the source-address filter and sending are not part of this model;
  the listen port is an input, absent when the listen address names none.
*/
module DiscoveryRelay {
  import opened Text
  import opened VitaFrame
  import opened DiscoveryCodec

  const SUFFIX: string := " [Flexy]"
  const GUI_FIELDS: seq<string> :=
    ["gui_client_handles", "gui_client_hosts", "gui_client_ips", "gui_client_programs", "gui_client_stations"]

  function SetPort(kv: map<string, string>, port: Option<string>): map<string, string> {
    match port
    case None => kv
    case Some(p) => kv["port" := p]
  }

  function TagNickname(kv: map<string, string>): map<string, string> {
    if "nickname" in kv && kv["nickname"] != "" then kv["nickname" := kv["nickname"] + SUFFIX] else kv
  }

  ghost function Dropped(): set<string> {
    set i | 0 <= i < |GUI_FIELDS| :: GUI_FIELDS[i]
  }

  ghost function Rewrite(kv: map<string, string>, proxyIP: string, port: Option<string>): map<string, string> {
    TagNickname(SetPort(kv["ip" := proxyIP], port)) - Dropped()
  }

  ghost function Relayed(datagram: string, proxyIP: string, port: Option<string>): Option<string> {
    if |datagram| < 12 || Parse(datagram[12..]) == map[] then None
    else Some(Packet(Rewrite(Parse(datagram[12..]), proxyIP, port)))
  }

  method DropGuiFields(tagged: map<string, string>) returns (kv: map<string, string>)
    ensures kv == tagged - Dropped()
  {
    kv := tagged;
    for i := 0 to |GUI_FIELDS|
      invariant kv == tagged - (set j | 0 <= j < i :: GUI_FIELDS[j])
    {
      kv := kv - {GUI_FIELDS[i]};
    }
  }

  method Relay(datagram: string, proxyIP: string, port: Option<string>) returns (pkt: Option<string>)
    ensures pkt == Relayed(datagram, proxyIP, port)
  {
    if |datagram| < 12 { return None; }
    var kv := ParseDiscoveryPayload(datagram[12..]);
    if |kv| == 0 { return None; }
    kv := kv["ip" := proxyIP];
    if port.Some? {
      kv := kv["port" := port.value];
    }
    if "nickname" in kv && kv["nickname"] != "" {
      kv := kv["nickname" := kv["nickname"] + SUFFIX];
    }
    kv := DropGuiFields(kv);
    var buf := BuildDiscoveryPacket(kv);
    pkt := Some(buf);
  }

  // ---------- what a client of the relay sees ----------

  lemma CleanAppend(a: string, b: string)
    ensures CleanValue(a) && CleanValue(b) ==> CleanValue(a + b)
    ensures NUL !in a && NUL !in b ==> NUL !in a + b
  {
  }

  lemma RewriteEncodable(kv: map<string, string>, proxyIP: string, port: Option<string>)
    requires Encodable(kv) && CleanValue(proxyIP) && (port.Some? ==> CleanValue(port.value))
    ensures Encodable(Rewrite(kv, proxyIP, port))
  {
    assert CleanKey("ip") && CleanKey("port") && CleanKey("nickname") && CleanValue(SUFFIX);
    var m := SetPort(kv["ip" := proxyIP], port);
    if "nickname" in m {
      CleanAppend(m["nickname"], SUFFIX);
    }
  }

  lemma RewriteNulFree(kv: map<string, string>, proxyIP: string, port: Option<string>)
    requires NulFree(kv) && NUL !in proxyIP && (port.Some? ==> NUL !in port.value)
    ensures NulFree(Rewrite(kv, proxyIP, port))
  {
    var m := SetPort(kv["ip" := proxyIP], port);
    if "nickname" in m {
      CleanAppend(m["nickname"], SUFFIX);
    }
  }

  /**
    The fields a client parses from a relayed packet are the radio's fields, rewritten: for
    every datagram exactly when the rewritten map keeps its edges, and so always when NUL
    occurs only as padding around the radio's payload.
  */
  lemma RelayedFields(datagram: string, proxyIP: string, port: Option<string>)
    requires CleanValue(proxyIP) && (port.Some? ==> CleanValue(port.value))
    requires Relayed(datagram, proxyIP, port).Some?
    ensures var kv := Rewrite(Parse(datagram[12..]), proxyIP, port);
            var pkt := Relayed(datagram, proxyIP, port).value;
            && |pkt| >= 12
            && (Parse(pkt[12..]) == kv <==> EdgesKept(kv))
            && (NUL !in Trim(datagram[12..], CUT) && NUL !in proxyIP && (port.Some? ==> NUL !in port.value) ==>
                  Parse(pkt[12..]) == kv)
  {
    var radio := Parse(datagram[12..]);
    var kv := Rewrite(radio, proxyIP, port);
    ParseClean(datagram[12..]);
    RewriteEncodable(radio, proxyIP, port);
    RoundTrip(kv);
    FrameLayout(Payload(kv));
    if NUL !in Trim(datagram[12..], CUT) && NUL !in proxyIP && (port.Some? ==> NUL !in port.value) {
      PaddedPayload(datagram[12..]);
      RewriteNulFree(radio, proxyIP, port);
      NulFreeKeepsEdges(kv);
    }
  }

  /** Only these fields change; a client never learns the radio's `ip` or its `gui_client_*` lists. */
  lemma RewriteTouches(kv: map<string, string>, proxyIP: string, port: Option<string>)
    ensures var r := Rewrite(kv, proxyIP, port);
            && "ip" in r && r["ip"] == proxyIP
            && (port.Some? ==> "port" in r && r["port"] == port.value)
            && (port.None? ==> ("port" in r <==> "port" in kv) && ("port" in kv ==> r["port"] == kv["port"]))
            && ("nickname" in r <==> "nickname" in kv)
            && ("nickname" in kv ==>
                  r["nickname"] == if kv["nickname"] == "" then "" else kv["nickname"] + " [Flexy]")
            && "gui_client_handles" !in r && "gui_client_hosts" !in r && "gui_client_ips" !in r
            && "gui_client_programs" !in r && "gui_client_stations" !in r
            && (forall k :: k !in GUI_FIELDS && k != "ip" && k != "port" && k != "nickname" ==>
                  (k in r <==> k in kv) && (k in r ==> r[k] == kv[k]))
    ensures GUI_FIELDS == ["gui_client_handles", "gui_client_hosts", "gui_client_ips",
                           "gui_client_programs", "gui_client_stations"]
  {
    NotDropped();
    assert forall i :: 0 <= i < |GUI_FIELDS| ==> GUI_FIELDS[i] in GUI_FIELDS;
    assert GUI_FIELDS[0] == "gui_client_handles" && GUI_FIELDS[1] == "gui_client_hosts";
    assert GUI_FIELDS[2] == "gui_client_ips" && GUI_FIELDS[3] == "gui_client_programs";
    assert GUI_FIELDS[4] == "gui_client_stations";
  }

  lemma {:induction false} EmptyExactly(parts: seq<string>)
    ensures ParseFields(parts) == map[] <==> forall i :: 0 <= i < |parts| ==> '=' !in parts[i]
  {
    if parts != [] {
      var init, f := parts[..|parts| - 1], parts[|parts| - 1];
      EmptyExactly(init);
      assert forall i :: 0 <= i < |init| ==> parts[i] == init[i];
      if '=' in f {
        assert f[..IndexByte(f, '=')] in ParseFields(parts);
      } else {
        assert ParseFields(parts) == ParseFields(init);
      }
    }
  }

  /** A datagram is relayed exactly when something with an equals sign stands in it from byte 12 on. */
  lemma RelaysExactly(datagram: string, proxyIP: string, port: Option<string>)
    ensures Relayed(datagram, proxyIP, port).Some? <==>
            |datagram| >= 12 && exists part :: part in Fields(Trim(datagram[12..], {' ', '\0'})) && '=' in part
  {
    if |datagram| >= 12 {
      var parts := Fields(Trim(datagram[12..], CUT));
      EmptyExactly(parts);
      assert forall i :: 0 <= i < |parts| ==> parts[i] in parts;
    }
  }

  lemma NotDropped()
    ensures forall k :: k in Dropped() <==> k in GUI_FIELDS
    ensures "ip" !in GUI_FIELDS && "port" !in GUI_FIELDS && "nickname" !in GUI_FIELDS
  {
    forall i | 0 <= i < |GUI_FIELDS| ensures |GUI_FIELDS[i]| > 10 {}
  }

  // ---------- size ----------

  lemma {:induction false} DropWeight(kv: map<string, string>, ks: set<string>)
    ensures Weight(kv - ks) <= Weight(kv)
    decreases |ks|
  {
    if ks == {} {
      assert kv - ks == kv;
    } else {
      var k :| k in ks;
      DropWeight(kv, ks - {k});
      WeightRemove(kv - (ks - {k}), k);
      assert kv - (ks - {k}) - {k} == kv - ks;
    }
  }

  ghost function PortLength(port: Option<string>): nat {
    match port case None => 0 case Some(p) => |p|
  }

  lemma WeightUpdateAtMost(kv: map<string, string>, k: string, v: string)
    ensures Weight(kv[k := v]) <= Weight(kv) + Entry(k, v)
  {
    WeightUpdate(kv, k, v);
  }

  lemma RewriteWeight(kv: map<string, string>, proxyIP: string, port: Option<string>)
    ensures Weight(Rewrite(kv, proxyIP, port)) <= Weight(kv) + |proxyIP| + PortLength(port) + 18
  {
    WeightUpdateAtMost(kv, "ip", proxyIP);
    var m := kv["ip" := proxyIP];
    if port.Some? { WeightUpdateAtMost(m, "port", port.value); }
    var n := SetPort(m, port);
    if "nickname" in n { WeightUpdate(n, "nickname", n["nickname"] + SUFFIX); }
    DropWeight(TagNickname(n), Dropped());
  }

  /**
    A datagram that fitted the receive buffer of 65536 bytes leaves with a header whose size field is its
    length in words, as long as the configured address and port are not themselves enormous.
  */
  lemma RelayedHeader(datagram: string, proxyIP: string, port: Option<string>)
    requires |datagram| <= 65536 && |proxyIP| + PortLength(port) <= 190000
    requires Relayed(datagram, proxyIP, port).Some?
    ensures var pkt := Relayed(datagram, proxyIP, port).value;
            && |pkt| % 4 == 0 && |pkt| <= |datagram| + |proxyIP| + PortLength(port) + 21
            && Uint32(pkt[..4]) % 0x10000 == |pkt| / 4
            && Uint32(pkt[..4]) / 0x1000_0000 == 5 && Uint32(pkt[..4]) / 0x800_0000 % 2 == 1
  {
    var radio := Parse(datagram[12..]);
    var kv := Rewrite(radio, proxyIP, port);
    RebuiltNoLonger(datagram[12..]);
    RewriteWeight(radio, proxyIP, port);
    PayloadLength(kv);
    FrameLayout(Payload(kv));
    HeaderDecodes(Payload(kv));
  }
}
