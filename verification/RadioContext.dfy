/**
  The registry of proxied clients and the rewriting of `gui_client_ips`: handles and addresses
  are two comma-separated lists that correspond by position.
*/
module RadioContext {
  import opened Text

  const HANDLES: string := "gui_client_handles"
  const IPS: string := "gui_client_ips"

  class ProxyClient {
    const handle: string
    const remoteIP: Option<string>

    constructor (handle: string, remoteIP: Option<string>)
      ensures this.handle == handle && this.remoteIP == remoteIP
    {
      this.handle := handle;
      this.remoteIP := remoteIP;
    }
  }

  /** The key-value map of a discovery packet, which the rewrite changes in place. */
  class DiscoveryFields {
    var kv: map<string, string>

    constructor (kv: map<string, string>)
      ensures this.kv == kv
    {
      this.kv := kv;
    }
  }

  function TrimHexPrefix(s: string): string {
    if HasPrefix(s, "0x") then s[2..] else s
  }

  /** How a listed handle is looked up: trimmed, without "0x", in upper case. */
  function Normalised(h: string): string {
    ToUpper(TrimHexPrefix(Trim(h, WHITESPACE)))
  }

  predicate HexDigit(c: char) { '0' <= c <= '9' || 'a' <= c <= 'f' || 'A' <= c <= 'F' }

  predicate Blank(s: string) {
    forall i :: 0 <= i < |s| ==> s[i] == ' ' || s[i] == '\t' || s[i] == '\n' || s[i] == '\r'
  }

  lemma TrimBlank(w1: string, x: string, w2: string)
    requires Blank(w1) && Blank(w2) && x != "" && x[0] !in WHITESPACE && x[|x| - 1] !in WHITESPACE
    ensures Trim(w1 + x + w2, WHITESPACE) == x
  {
    var s := w1 + x + w2;
    assert s == w1 + (x + w2);
    TrimLeftPad(w1, x + w2);
    TrimLeftAppend(x, w2, WHITESPACE, 0);
    assert TrimLeft(x, WHITESPACE) == x;
    TrimRightPad(x, w2, WHITESPACE);
    assert TrimRight(x, WHITESPACE) == x;
  }

  lemma {:induction false} TrimLeftPad(w: string, t: string)
    requires Blank(w)
    ensures TrimLeft(w + t, WHITESPACE) == TrimLeft(t, WHITESPACE)
  {
    if w == "" {
      assert w + t == t;
    } else {
      assert (w + t)[1..] == w[1..] + t;
      TrimLeftPad(w[1..], t);
    }
  }

  /** A handle is found under its digits in upper case, listed with or without "0x" and blanks. */
  lemma HandleFound(w1: string, hex: string, w2: string)
    requires Blank(w1) && Blank(w2) && hex != "" && forall i :: 0 <= i < |hex| ==> HexDigit(hex[i])
    ensures Normalised(w1 + ("0x" + hex) + w2) == Normalised(w1 + hex + w2) == ToUpper(hex)
  {
    assert hex[0] !in WHITESPACE && hex[|hex| - 1] !in WHITESPACE;
    TrimBlank(w1, hex, w2);
    TrimBlank(w1, "0x" + hex, w2);
    assert ("0x" + hex)[..2] == "0x" && ("0x" + hex)[2..] == hex;
    assert "0x"[1] == 'x' && (|hex| >= 2 ==> hex[..2][1] == hex[1] && hex[1] != 'x');
  }

  /** Upper case, letter by letter; digits and capitals stay. */
  lemma UpperExactly(c: char)
    ensures UpperChar('a') == 'A' && UpperChar('f') == 'F' && UpperChar('z') == 'Z'
    ensures 'a' <= c <= 'z' ==> UpperChar(c) as int - 'A' as int == c as int - 'a' as int
    ensures !('a' <= c <= 'z') ==> UpperChar(c) == c
  {
  }

  lemma HandleExample()
    ensures Normalised(" 0x1a") == "1A"
  {
    HandleFound(" ", "1a", "");
    assert " " + ("0x" + "1a") + "" == " 0x1a";
    UpperExactly('1');
    UpperExactly('a');
    assert ToUpper("1a") == ['1', 'A'];
  }

  /** Each listed address, replaced where the handle at the same position belongs to a known client. */
  ghost function Rewritten(known: map<string, string>, handles: seq<string>, ips: seq<string>): (r: seq<string>)
    requires |handles| == |ips|
    ensures |r| == |ips|
    ensures forall i :: 0 <= i < |ips| ==>
              r[i] == if Normalised(handles[i]) in known then known[Normalised(handles[i])] else ips[i]
  {
    seq(|ips|, i requires 0 <= i < |ips| =>
      if Normalised(handles[i]) in known then known[Normalised(handles[i])] else ips[i])
  }

  ghost predicate Aligned(kv: map<string, string>) {
    HANDLES in kv && IPS in kv && |Split(kv[HANDLES], ',')| == |Split(kv[IPS], ',')|
  }

  ghost function RewriteIPs(known: map<string, string>, kv: map<string, string>): map<string, string> {
    if !Aligned(kv) then kv
    else kv[IPS := Join(Rewritten(known, Split(kv[HANDLES], ','), Split(kv[IPS], ',')), ",")]
  }

  /** Registering and unregistering, for any kind of client record. */
  function AddClient<T>(clients: map<string, T>, handle: string, c: T): map<string, T> {
    clients[handle := c]
  }

  function DropClient<T>(clients: map<string, T>, handle: string): map<string, T> {
    clients - {handle}
  }

  class Registry {
    var clients: map<string, ProxyClient>

    constructor ()
      ensures clients == map[]
    {
      clients := map[];
    }

    method RegisterClient(c: ProxyClient)
      modifies this
      ensures clients == AddClient(old(clients), c.handle, c)
    {
      clients := clients[c.handle := c];
    }

    method UnregisterClient(handle: string)
      modifies this
      ensures clients == DropClient(old(clients), handle)
    {
      clients := clients - {handle};
    }

    method ClientByHandle(handle: string) returns (c: ProxyClient?)
      ensures c == if handle in clients then clients[handle] else null
    {
      if handle in clients {
        c := clients[handle];
      } else {
        c := null;
      }
    }

    /** The registered clients whose address is known. */
    ghost function Known(): map<string, string>
      reads this
    {
      map h | h in clients && clients[h].remoteIP.Some? :: clients[h].remoteIP.value
    }

    /** An address is known for the handles whose registered client has one. */
    lemma KnownExactly(h: string, ip: string)
      ensures h in Known() && Known()[h] == ip <==> h in clients && clients[h].remoteIP == Some(ip)
    {
    }

    method RewriteDiscoveryIPs(d: DiscoveryFields)
      modifies d
      ensures d.kv == RewriteIPs(Known(), old(d.kv))
    {
      if HANDLES !in d.kv { return; }
      if IPS !in d.kv { return; }
      var handles := Split(d.kv[HANDLES], ',');
      var ips := Split(d.kv[IPS], ',');
      if |handles| != |ips| { return; }
      var changed: bool;
      ips, changed := RewriteList(handles, ips);
      JoinSplit(d.kv[IPS], ',');
      if changed {
        d.kv := d.kv[IPS := Join(ips, ",")];
      }
    }

    /** The loop over the positions. */
    method RewriteList(handles: seq<string>, listed: seq<string>) returns (ips: seq<string>, changed: bool)
      requires |handles| == |listed|
      ensures ips == Rewritten(Known(), handles, listed)
      ensures !changed ==> ips == listed
    {
      ghost var after := Rewritten(Known(), handles, listed);
      ips, changed := listed, false;
      for i := 0 to |handles|
        invariant |ips| == |listed|
        invariant forall j :: 0 <= j < |ips| ==> ips[j] == if j < i then after[j] else listed[j]
        invariant !changed ==> ips == listed
      {
        var key := ToUpper(TrimHexPrefix(Trim(handles[i], WHITESPACE)));
        if key in clients && clients[key].remoteIP.Some? {
          var newIP := clients[key].remoteIP.value;
          if ips[i] != newIP {
            ips := ips[i := newIP];
            changed := true;
          }
        }
      }
    }
  }

  /** Addresses, as `net.IP.String` prints them, hold no comma. */
  ghost predicate CommaFree(known: map<string, string>) {
    forall h :: h in known ==> ',' !in known[h]
  }

  lemma RewrittenIsList(known: map<string, string>, kv: map<string, string>)
    requires CommaFree(known) && Aligned(kv)
    ensures var r := RewriteIPs(known, kv);
            && HANDLES in r && IPS in r
            && r[HANDLES] == kv[HANDLES]
            && Split(r[IPS], ',') == Rewritten(known, Split(kv[HANDLES], ','), Split(kv[IPS], ','))
  {
    var handles, ips := Split(kv[HANDLES], ','), Split(kv[IPS], ',');
    var xs := Rewritten(known, handles, ips);
    SplitPieces(kv[IPS], ',');
    forall i | 0 <= i < |xs| ensures ',' !in xs[i] {
      assert ips[i] in ips;
    }
    SplitJoinClean(xs, ',');
    assert HANDLES != IPS by { assert |HANDLES| == 18 && |IPS| == 14; }
  }

  /**
    Position by position: the list keeps its length, each position whose handle is a known
    client's gets that client's address, every other position and every other field is kept.
  */
  lemma RewritePositions(known: map<string, string>, kv: map<string, string>, i: nat, k: string)
    requires CommaFree(known) && Aligned(kv)
    ensures var r := RewriteIPs(known, kv);
            && "gui_client_ips" in r && "gui_client_ips" in kv && "gui_client_handles" in kv
            && var handles, ips := Split(kv["gui_client_handles"], ','), Split(kv["gui_client_ips"], ',');
            && |handles| == |ips| == |Split(r["gui_client_ips"], ',')|
            && (i < |ips| ==>
                  var h := Normalised(handles[i]);
                  Split(r["gui_client_ips"], ',')[i] == if h in known then known[h] else ips[i])
            && (k != "gui_client_ips" ==> (k in r <==> k in kv) && (k in kv ==> r[k] == kv[k]))
  {
    RewrittenIsList(known, kv);
  }

  /** Rewriting twice is rewriting once, also on malformed input. */
  lemma RewriteIdempotent(known: map<string, string>, kv: map<string, string>)
    requires CommaFree(known)
    ensures RewriteIPs(known, RewriteIPs(known, kv)) == RewriteIPs(known, kv)
  {
    if Aligned(kv) {
      RewrittenIsList(known, kv);
      var handles, ips := Split(kv[HANDLES], ','), Split(kv[IPS], ',');
      assert Rewritten(known, handles, Rewritten(known, handles, ips)) == Rewritten(known, handles, ips);
    }
  }

  /** The value changes exactly when some known client is listed with another address. */
  lemma ChangedExactly(known: map<string, string>, kv: map<string, string>)
    requires CommaFree(known) && Aligned(kv)
    ensures var handles, ips := Split(kv[HANDLES], ','), Split(kv[IPS], ',');
            RewriteIPs(known, kv) != kv <==>
            exists i :: 0 <= i < |ips| && Normalised(handles[i]) in known && known[Normalised(handles[i])] != ips[i]
  {
    RewrittenIsList(known, kv);
    var handles, ips := Split(kv[HANDLES], ','), Split(kv[IPS], ',');
    var xs := Rewritten(known, handles, ips);
    JoinSplit(kv[IPS], ',');
    if xs == ips {
      assert RewriteIPs(known, kv) == kv;
    } else {
      var i :| 0 <= i < |ips| && xs[i] != ips[i];
      assert Split(RewriteIPs(known, kv)[IPS], ',') != Split(kv[IPS], ',');
    }
  }
}
