/** The SOCKS5 CONNECT handshake (RFC 1928 sections 3, 4 and 6) between UpstreamProxy, the
    client, and `forward dynamic`, the server. Each side is a deterministic reader and writer
    of one byte stream in each direction, so a run of the two against each other, however the
    bytes are timed and chunked, is a pair of streams each side's output explains. */
module Socks5 {
  import opened Bytes
  import opened Options

  /** One end of a connection: the bytes the peer sends, not yet read, and the bytes sent. */
  class Conn {
    var inbox: Bytes
    var sent: Bytes

    constructor (inbox: Bytes)
      ensures this.inbox == inbox && sent == []
    {
      this.inbox, sent := inbox, [];
    }

    /** io.ReadFull: all n bytes, or an error once the stream has ended. */
    method ReadFull(n: nat) returns (b: Bytes, ok: bool)
      modifies this`inbox
      ensures ok <==> n <= |old(inbox)|
      ensures ok ==> b == old(inbox)[..n] && inbox == old(inbox)[n..]
      ensures !ok ==> b == [] && inbox == []
    {
      if n <= |inbox| {
        b, ok, inbox := inbox[..n], true, inbox[n..];
      } else {
        b, ok, inbox := [], false, [];
      }
    }

    method Write(b: Bytes)
      modifies this`sent
      ensures sent == old(sent) + b
    {
      sent := sent + b;
    }
  }

  // ---- server ------------------------------------------------------------

  datatype Host = Name(text: Bytes) | Address(ip: Bytes)

  datatype Dial = Dial(host: Host, port: nat)

  /** What the server does with a whole input stream: the bytes it writes, the bytes it leaves
      for the tunnel, and what it dials. */
  datatype Served = Served(sent: Bytes, rest: Bytes, dialed: Option<Dial>, tunnel: bool)

  const GRANTED: Bytes := [0x05, 0x00, 0x00, 0x01, 0, 0, 0, 0, 0, 0]
  const UNREACHABLE: Bytes := [0x05, 0x04, 0x00, 0x01, 0, 0, 0, 0, 0, 0]
  const BAD_COMMAND: Bytes := [0x05, 0x07, 0x00, 0x01, 0, 0, 0, 0, 0, 0]
  const BAD_ADDRESS: Bytes := [0x05, 0x01, 0x00, 0x01, 0, 0, 0, 0, 0, 0]

  datatype AddrRead = AddrRead(dial: Option<Dial>, rest: Bytes)

  function ReadPort(host: Host, b: Bytes): AddrRead {
    if |b| < 2 then AddrRead(None, []) else AddrRead(Some(Dial(host, Get16(b[..2]))), b[2..])
  }

  function ReadAddr(b: Bytes, atyp: byte): AddrRead {
    if atyp == 0x01 then
      if |b| < 4 then AddrRead(None, []) else ReadPort(Address(b[..4]), b[4..])
    else if atyp == 0x03 then
      if |b| < 1 then AddrRead(None, [])
      else if |b| < 1 + b[0] as int then AddrRead(None, [])
      else ReadPort(Name(b[1..1 + b[0] as int]), b[1 + b[0] as int..])
    else if atyp == 0x04 then
      if |b| < 16 then AddrRead(None, []) else ReadPort(Address(b[..16]), b[16..])
    else AddrRead(None, b)
  }

  function ServeRequest(b: Bytes, reachable: Dial -> bool): Served {
    if |b| < 4 then Served([], [], None, false)
    else if b[0] != 0x05 || b[1] != 0x01 then Served(BAD_COMMAND, b[4..], None, false)
    else
      var a := ReadAddr(b[4..], b[3]);
      if a.dial.None? then Served(BAD_ADDRESS, a.rest, None, false)
      else if reachable(a.dial.value) then Served(GRANTED, a.rest, a.dial, true)
      else Served(UNREACHABLE, a.rest, a.dial, false)
  }

  function Serve(b: Bytes, reachable: Dial -> bool): Served {
    if |b| < 2 then Served([], [], None, false)
    else if b[0] != 0x05 then Served([], b[2..], None, false)
    else if |b| < 2 + b[1] as int then Served([], [], None, false)
    else
      var s := ServeRequest(b[2 + b[1] as int..], reachable);
      s.(sent := [0x05, 0x00] + s.sent)
  }

  method ReadSOCKS5Addr(c: Conn, atyp: byte) returns (dial: Option<Dial>)
    modifies c`inbox
    ensures AddrRead(dial, c.inbox) == ReadAddr(old(c.inbox), atyp)
  {
    var host;
    if atyp == 0x01 {
      var b, ok := c.ReadFull(4);
      if !ok { return None; }
      host := Address(b);
    } else if atyp == 0x03 {
      var l, ok := c.ReadFull(1);
      if !ok { return None; }
      var b, ok' := c.ReadFull(l[0]);
      if !ok' { return None; }
      ghost var i := old(c.inbox);
      assert l[0] == i[0] && b == i[1..1 + i[0] as int] && c.inbox == i[1 + i[0] as int..];
      host := Name(b);
    } else if atyp == 0x04 {
      var b, ok := c.ReadFull(16);
      if !ok { return None; }
      host := Address(b);
    } else {
      return None;
    }
    var pb, ok := c.ReadFull(2);
    if !ok { return None; }
    dial := Some(Dial(host, Get16(pb)));
  }

  /** handleSOCKS5Connect, up to the relay. */
  method HandleSOCKS5Connect(c: Conn, reachable: Dial -> bool) returns (dialed: Option<Dial>, tunnel: bool)
    requires c.sent == []
    modifies c
    ensures Served(c.sent, c.inbox, dialed, tunnel) == Serve(old(c.inbox), reachable)
  {
    hide ReadAddr;
    dialed, tunnel := None, false;
    var hdr, ok := c.ReadFull(2);
    if !ok { return; }
    if hdr[0] != 0x05 { return; }
    var methods, ok' := c.ReadFull(hdr[1]);
    if !ok' { return; }
    ghost var i := old(c.inbox);
    assert hdr[1] == i[1] && c.inbox == i[2 + i[1] as int..];
    c.Write([0x05, 0x00]);
    var req, ok'' := c.ReadFull(4);
    if !ok'' { return; }
    if req[0] != 0x05 || req[1] != 0x01 {
      c.Write(BAD_COMMAND);
      return;
    }
    var dial := ReadSOCKS5Addr(c, req[3]);
    if dial.None? {
      c.Write(BAD_ADDRESS);
      return;
    }
    dialed := dial;
    if !reachable(dial.value) {
      c.Write(UNREACHABLE);
      return;
    }
    c.Write(GRANTED);
    tunnel := true;
  }

  // ---- client ------------------------------------------------------------

  datatype Credentials = Credentials(username: Bytes, password: Bytes)

  datatype Asked = Asked(sent: Bytes, rest: Bytes, ok: bool)

  function Greeting(cred: Credentials): Bytes {
    if cred.username != [] then [0x05, 0x02, 0x00, 0x02] else [0x05, 0x01, 0x00]
  }

  function AuthMessage(cred: Credentials): Bytes {
    [0x01, |cred.username| % 256] + cred.username + [|cred.password| % 256] + cred.password
  }

  /** The port as the two bytes byte(n>>8), byte(n) of any integer. */
  function PortBytes(port: int): Bytes {
    [port / 256 % 256, port % 256]
  }

  function Request(host: Bytes, port: int): Bytes {
    [0x05, 0x01, 0x00, 0x03, |host| % 256] + host + PortBytes(port)
  }

  function Discard(b: Bytes, n: nat): Bytes {
    if n <= |b| then b[n..] else []
  }

  /** Reading the reply writes nothing. */
  function AskReply(b: Bytes): (a: Asked)
    ensures a.sent == []
  {
    if |b| < 4 then Asked([], [], false)
    else if b[1] != 0x00 then Asked([], b[4..], false)
    else if b[3] == 0x01 then Asked([], Discard(b[4..], 6), true)
    else if b[3] == 0x03 then
      if |b| < 5 then Asked([], [], true) else Asked([], Discard(b[5..], b[4] as nat + 2), true)
    else if b[3] == 0x04 then Asked([], Discard(b[4..], 18), true)
    else Asked([], b[4..], false)
  }

  function AskConnect(b: Bytes, host: Bytes, port: int): Asked {
    var a := AskReply(b);
    a.(sent := Request(host, port) + a.sent)
  }

  function AskAuth(b: Bytes, cred: Credentials, host: Bytes, port: int): Asked {
    if |b| < 2 then Asked(AuthMessage(cred), [], false)
    else if b[1] != 0x00 then Asked(AuthMessage(cred), b[2..], false)
    else
      var a := AskConnect(b[2..], host, port);
      a.(sent := AuthMessage(cred) + a.sent)
  }

  /** What the client does with a whole input stream. */
  function Ask(b: Bytes, cred: Credentials, host: Bytes, port: int): Asked {
    if |b| < 2 then Asked(Greeting(cred), [], false)
    else if b[0] != 0x05 then Asked(Greeting(cred), b[2..], false)
    else if b[1] == 0x02 then
      var a := AskAuth(b[2..], cred, host, port);
      a.(sent := Greeting(cred) + a.sent)
    else if b[1] != 0x00 then Asked(Greeting(cred), b[2..], false)
    else
      var a := AskConnect(b[2..], host, port);
      a.(sent := Greeting(cred) + a.sent)
  }

  /** skip: discards in chunks of at most 4096 bytes, giving up at the end of the stream. */
  method SkipBytes(c: Conn, n: nat)
    modifies c`inbox
    ensures c.inbox == Discard(old(c.inbox), n)
  {
    var remaining := n;
    while remaining > 0
      invariant 0 <= remaining <= n
      invariant Discard(old(c.inbox), n) == Discard(c.inbox, remaining)
    {
      var chunk := remaining;
      if chunk > 4096 { chunk := 4096; }
      var b, ok := c.ReadFull(chunk);
      if !ok { return; }
      remaining := remaining - chunk;
    }
  }

  method Socks5Auth(c: Conn, cred: Credentials) returns (ok: bool)
    modifies c
    ensures c.sent == old(c.sent) + AuthMessage(cred)
    ensures ok <==> |old(c.inbox)| >= 2 && old(c.inbox)[1] == 0x00
    ensures c.inbox == Discard(old(c.inbox), 2)
  {
    var buf: Bytes := [0x01, |cred.username| % 256];
    buf := buf + cred.username;
    buf := buf + [|cred.password| % 256];
    buf := buf + cred.password;
    c.Write(buf);
    var resp, ok' := c.ReadFull(2);
    ok := ok' && resp[1] == 0x00;
  }

  /** socks5Handshake, from the request on. */
  method ConnectAndSkip(c: Conn, host: Bytes, port: int) returns (ok: bool)
    modifies c
    ensures c.sent == old(c.sent) + Request(host, port)
    ensures Asked([], c.inbox, ok) == AskReply(old(c.inbox))
  {
    var req: Bytes := [0x05, 0x01, 0x00, 0x03, |host| % 256];
    req := req + host;
    req := req + [port / 256 % 256, port % 256];
    c.Write(req);
    var reply, ok' := c.ReadFull(4);
    if !ok' { return false; }
    if reply[1] != 0x00 { return false; }
    if reply[3] == 0x01 {
      SkipBytes(c, 6);
    } else if reply[3] == 0x03 {
      var b, ok'' := c.ReadFull(1);
      if ok'' { SkipBytes(c, b[0] as nat + 2); }
    } else if reply[3] == 0x04 {
      SkipBytes(c, 18);
    } else {
      return false;
    }
    ok := true;
  }

  /** socks5Handshake on a target already split into host and port. */
  method Socks5Handshake(c: Conn, cred: Credentials, host: Bytes, port: int) returns (ok: bool)
    requires c.sent == []
    modifies c
    ensures Asked(c.sent, c.inbox, ok) == Ask(old(c.inbox), cred, host, port)
  {
    hide AskReply, AuthMessage, Request;
    c.Write(Greeting(cred));
    var resp, ok' := c.ReadFull(2);
    if !ok' { return false; }
    if resp[0] != 0x05 { return false; }
    if resp[1] == 0x02 {
      ok := Socks5Auth(c, cred);
      if !ok { return; }
    } else if resp[1] != 0x00 {
      return false;
    }
    ok := ConnectAndSkip(c, host, port);
  }

  // ---- the two against each other ----------------------------------------

  /** The complete streams of a run: each side's input is the other side's output followed by
      tunnel bytes, which a side sends only once its handshake has succeeded. */
  ghost predicate Joined(toClient: Bytes, toServer: Bytes, cred: Credentials, host: Bytes, port: int, reachable: Dial -> bool,
                         upload: Bytes, download: Bytes)
  {
    var a, s := Ask(toClient, cred, host, port), Serve(toServer, reachable);
    && toServer == a.sent + upload && toClient == s.sent + download
    && (!a.ok ==> upload == []) && (!s.tunnel ==> download == [])
  }

  lemma GreetingAccepted(cred: Credentials, request: Bytes, reachable: Dial -> bool)
    ensures Serve(Greeting(cred) + request, reachable) ==
            var s := ServeRequest(request, reachable); s.(sent := [0x05, 0x00] + s.sent)
  {
    hide ServeRequest;
    var b := Greeting(cred) + request;
    assert b[2 + b[1] as int..] == request;
  }

  lemma NoAuthAccepted(cred: Credentials, reply: Bytes, host: Bytes, port: int)
    ensures Ask([0x05, 0x00] + reply, cred, host, port) ==
            var a := AskConnect(reply, host, port); a.(sent := Greeting(cred) + a.sent)
  {
    assert ([0x05, 0x00] + reply)[2..] == reply;
  }

  /** Whatever comes back first, the client's bytes start with its greeting, so the server
      answers no-auth and the client goes on to its request, never sending the password. */
  lemma RequestIsSent(toClient: Bytes, toServer: Bytes, cred: Credentials, host: Bytes, port: int, reachable: Dial -> bool,
                      upload: Bytes, download: Bytes)
    requires Joined(toClient, toServer, cred, host, port, reachable, upload, download)
    ensures Ask(toClient, cred, host, port).sent == Greeting(cred) + Request(host, port)
    ensures
      var s := ServeRequest(Request(host, port) + upload, reachable);
      && Serve(toServer, reachable) == s.(sent := [0x05, 0x00] + s.sent)
      && toClient == [0x05, 0x00] + (s.sent + download)
      && Ask(toClient, cred, host, port) == AskConnect(s.sent + download, host, port).(sent := Greeting(cred) + Request(host, port))
  {
    hide ServeRequest, AuthMessage, Request, AskReply;
    var a := Ask(toClient, cred, host, port);
    assert Greeting(cred) <= a.sent;
    var tail := a.sent[|Greeting(cred)|..] + upload;
    assert toServer == Greeting(cred) + tail;
    GreetingAccepted(cred, tail, reachable);
    var s := ServeRequest(tail, reachable);
    assert toClient == [0x05, 0x00] + (s.sent + download);
    assert toClient[2..] == s.sent + download;
    assert a.sent == Greeting(cred) + Request(host, port);
    assert tail == Request(host, port) + upload;
  }

  /** The request as the server reads it, for any host and any port number. */
  lemma RequestRead(host: Bytes, port: int, upload: Bytes)
    ensures
      var n := |host| % 256;
      ReadAddr((Request(host, port) + upload)[4..], 0x03)
      == ReadPort(Name(host[..n]), host[n..] + PortBytes(port) + upload)
  {
    var b := (Request(host, port) + upload)[4..];
    var n := |host| % 256;
    assert b == [n] + (host + PortBytes(port) + upload);
    assert b[1..1 + n] == host[..n];
    assert b[1 + n..] == host[n..] + PortBytes(port) + upload;
  }

  lemma PortRead(host: Host, port: int, upload: Bytes)
    ensures ReadPort(host, PortBytes(port) + upload) == AddrRead(Some(Dial(host, port % U16)), upload)
  {
    hide PortBytes, Get16;
    assert |PortBytes(port)| == 2 by { PortLength(port); }
    var b := PortBytes(port) + upload;
    assert b[..2] == PortBytes(port) && b[2..] == upload;
    PortValue(port);
  }

  lemma PortLength(port: int)
    ensures |PortBytes(port)| == 2
  {
  }

  lemma PortValue(port: int)
    ensures Get16(PortBytes(port)) == port % U16
  {
    assert port == 256 * (port / 256) + port % 256;
    assert port / 256 == 256 * (port / 256 / 256) + port / 256 % 256;
    assert port == U16 * (port / 256 / 256) + (port / 256 % 256 * 256 + port % 256);
  }

  lemma ReplyRead(reply: Bytes, download: Bytes)
    requires reply == GRANTED || reply == UNREACHABLE
    ensures AskReply(reply + download) == if reply == GRANTED then Asked([], download, true) else Asked([], reply[4..] + download, false)
  {
    var b := reply + download;
    assert b[4..] == reply[4..] + download;
    assert b[4..][6..] == download;
  }

  /** For every host of at most 255 bytes and every 16-bit port, with or without a username:
      the server dials exactly that host and port. If the dial succeeds both sides are then
      exactly at the first tunnel byte; if it fails the client reports it. */
  lemma HandshakeReachesTarget(toClient: Bytes, toServer: Bytes, cred: Credentials, host: Bytes, port: int, reachable: Dial -> bool,
                               upload: Bytes, download: Bytes)
    requires Joined(toClient, toServer, cred, host, port, reachable, upload, download)
    requires |host| <= 255 && 0 <= port < U16
    ensures
      var a, s := Ask(toClient, cred, host, port), Serve(toServer, reachable);
      && s.dialed == Some(Dial(Name(host), port))
      && a.ok == s.tunnel == reachable(Dial(Name(host), port))
      && (a.ok ==> s.rest == upload && a.rest == download)
  {
    hide Serve, Ask, ReadPort, ReadAddr, AskReply;
    RequestIsSent(toClient, toServer, cred, host, port, reachable, upload, download);
    RequestRead(host, port, upload);
    assert host[..|host|] == host && host[|host|..] + PortBytes(port) + upload == PortBytes(port) + upload;
    PortRead(Name(host), port, upload);
    var reply := if reachable(Dial(Name(host), port)) then GRANTED else UNREACHABLE;
    ReplyRead(reply, download);
  }

  /** For any host and any port number at all, the server dials exactly the requested target
      if and only if the host has at most 255 bytes and the port fits 16 bits. */
  lemma TargetDialedIff(toClient: Bytes, toServer: Bytes, cred: Credentials, host: Bytes, port: int, reachable: Dial -> bool,
                        upload: Bytes, download: Bytes)
    requires Joined(toClient, toServer, cred, host, port, reachable, upload, download)
    ensures
      var dialed := Serve(toServer, reachable).dialed;
      dialed.Some? && ((dialed.value.host == Name(host) && dialed.value.port == port) <==> |host| <= 255 && 0 <= port < U16)
  {
    hide Serve, Ask, ReadAddr, AskReply;
    RequestIsSent(toClient, toServer, cred, host, port, reachable, upload, download);
    RequestRead(host, port, upload);
    var n := |host| % 256;
    if |host| <= 255 {
      assert host[..n] == host && host[n..] + PortBytes(port) + upload == PortBytes(port) + upload;
      PortRead(Name(host), port, upload);
    } else {
      assert |host[..n]| != |host|;
    }
  }

  /** Such a run exists for every target; nothing follows the handshake of one that cannot be
      reached. */
  lemma HandshakeRunExists(cred: Credentials, host: Bytes, port: int, reachable: Dial -> bool, upload: Bytes, download: Bytes)
    returns (toClient: Bytes, toServer: Bytes)
    requires |host| <= 255 && 0 <= port < U16
    requires reachable(Dial(Name(host), port)) || (upload == [] && download == [])
    ensures Joined(toClient, toServer, cred, host, port, reachable, upload, download)
  {
    hide ReadPort, ReadAddr, AskReply, AuthMessage, Ask, Serve, Greeting, PortBytes, Discard;
    var reply := if reachable(Dial(Name(host), port)) then GRANTED else UNREACHABLE;
    toServer := Greeting(cred) + Request(host, port) + upload;
    toClient := [0x05, 0x00] + reply + download;
    assert toServer == Greeting(cred) + (Request(host, port) + upload);
    GreetingAccepted(cred, Request(host, port) + upload, reachable);
    RequestRead(host, port, upload);
    assert host[..|host|] == host && host[|host|..] + PortBytes(port) + upload == PortBytes(port) + upload;
    PortRead(Name(host), port, upload);
    assert toClient == [0x05, 0x00] + (reply + download);
    NoAuthAccepted(cred, reply + download, host, port);
    ReplyRead(reply, download);
  }

  // ---- one side against any other ----------------------------------------

  /** A target a request can carry: a name of up to 255 bytes, an IPv4 or an IPv6 address. */
  predicate Carried(host: Host) {
    if host.Name? then |host.text| < 256 else |host.ip| == 4 || |host.ip| == 16
  }

  /** Address type and address as they stand in a request (section 4 of RFC 1928). */
  function AddressType(host: Host): byte
    requires Carried(host)
  {
    if host.Name? then 3 else if |host.ip| == 4 then 1 else 4
  }

  function AddressField(host: Host): Bytes
    requires Carried(host)
  {
    if host.Name? then [|host.text|] + host.text else host.ip
  }

  /** A request in a client's words: greeting, request, and what follows. */
  function Conversation(methods: Bytes, rsv: byte, host: Host, port: nat): Bytes
    requires |methods| < 256 && Carried(host)
  {
    [0x05, |methods|] + methods + [0x05, 0x01, rsv, AddressType(host)] + AddressField(host) + [port / 256 % 256, port % 256]
  }

  /** The address field and the port are read back, whatever follows. */
  lemma AddressIsRead(host: Host, port: nat, rest: Bytes)
    requires Carried(host) && port < 65536
    ensures ReadAddr(AddressField(host) + [port / 256 % 256, port % 256] + rest, AddressType(host))
         == AddrRead(Some(Dial(host, port)), rest)
  {
    hide ReadPort, PortBytes, Get16;
    var field, bytes := AddressField(host), PortBytes(port);
    assert bytes == [port / 256 % 256, port % 256] by { PortIs(port); }
    var b, n := field + bytes + rest, |AddressField(host)|;
    assert b[..n] == field && b[n..] == bytes + rest;
    PortRead(host, port, rest);
    if host.Name? {
      assert b[0] == |host.text| && b[1..n] == host.text;
    }
  }

  lemma PortIs(port: int)
    ensures PortBytes(port) == [port / 256 % 256, port % 256]
  {
  }

  lemma GreetingRead(methods: Bytes, request: Bytes, reachable: Dial -> bool)
    requires |methods| < 256
    ensures Serve([0x05, |methods|] + methods + request, reachable) ==
            var s := ServeRequest(request, reachable); s.(sent := [5, 0] + s.sent)
  {
    hide ServeRequest;
    var b := [0x05, |methods|] + methods + request;
    assert b[1] == |methods| && b[2 + |methods|..] == request;
  }

  lemma ConnectRead(rsv: byte, atyp: byte, tail: Bytes, reachable: Dial -> bool)
    ensures
      var a := ReadAddr(tail, atyp);
      ServeRequest([0x05, 0x01, rsv, atyp] + tail, reachable) ==
        if a.dial.None? then Served([5, 1, 0, 1, 0, 0, 0, 0, 0, 0], a.rest, None, false)
        else if reachable(a.dial.value) then Served([5, 0, 0, 1, 0, 0, 0, 0, 0, 0], a.rest, a.dial, true)
        else Served([5, 4, 0, 1, 0, 0, 0, 0, 0, 0], a.rest, a.dial, false)
  {
    hide ReadAddr;
    assert ([0x05, 0x01, rsv, atyp] + tail)[4..] == tail;
  }

  /** The server dials exactly the target of any well-formed request, of each address type and
      whatever methods were offered, says whether it could, and stands at the first tunnel byte. */
  lemma RequestIsServed(methods: Bytes, rsv: byte, host: Host, port: nat, rest: Bytes, reachable: Dial -> bool)
    requires |methods| < 256 && Carried(host) && port < 65536
    ensures Serve(Conversation(methods, rsv, host, port) + rest, reachable) ==
            if reachable(Dial(host, port)) then Served([5, 0, 5, 0, 0, 1, 0, 0, 0, 0, 0, 0], rest, Some(Dial(host, port)), true)
            else Served([5, 0, 5, 4, 0, 1, 0, 0, 0, 0, 0, 0], rest, Some(Dial(host, port)), false)
  {
    hide Serve, ServeRequest, ReadAddr, AddressField, AddressType;
    var tail := AddressField(host) + [port / 256 % 256, port % 256] + rest;
    var request := [0x05, 0x01, rsv, AddressType(host)] + tail;
    assert Conversation(methods, rsv, host, port) + rest == [0x05, |methods|] + methods + request;
    GreetingRead(methods, request, reachable);
    ConnectRead(rsv, AddressType(host), tail, reachable);
    AddressIsRead(host, port, rest);
  }

  lemma CutAddressIsMissing(host: Host, port: nat, k: nat)
    requires Carried(host) && k < |AddressField(host)| + 2
    ensures ReadAddr((AddressField(host) + [port / 256 % 256, port % 256])[..k], AddressType(host)) == AddrRead(None, [])
  {
    var tail := AddressField(host) + [port / 256 % 256, port % 256];
    if host.Name? && k > 0 { assert tail[..k][0] == |host.text|; }
  }

  /** A conversation cut short dials nothing: the server has written as far as it got, and refuses an
      address that is not all there. */
  lemma CutRequestIsRefused(methods: Bytes, rsv: byte, host: Host, port: nat, k: nat, reachable: Dial -> bool)
    requires |methods| < 256 && Carried(host) && k < |Conversation(methods, rsv, host, port)|
    ensures
      var s, n := Serve(Conversation(methods, rsv, host, port)[..k], reachable), |methods|;
      && s.dialed.None? && !s.tunnel && s.rest == []
      && s.sent == if k < 2 + n then [] else if k < 6 + n then [5, 0] else [5, 0, 5, 1, 0, 1, 0, 0, 0, 0, 0, 0]
  {
    hide ReadAddr, AddressField, AddressType;
    var n, tail := |methods|, AddressField(host) + [port / 256 % 256, port % 256];
    var request := [0x05, 0x01, rsv, AddressType(host)] + tail;
    var whole := Conversation(methods, rsv, host, port);
    assert whole == [0x05, n] + methods + request;
    var b := whole[..k];
    if k < 2 + n {
      if k >= 2 { assert b[0] == 0x05 && b[1] == n; }
    } else {
      var cut := request[..k - 2 - n];
      assert b == [0x05, n] + methods + cut;
      CutConnect(methods, rsv, AddressType(host), tail, k - 2 - n, reachable);
      if k >= 6 + n { CutAddressIsMissing(host, port, k - 6 - n); }
    }
  }

  lemma CutConnect(methods: Bytes, rsv: byte, atyp: byte, tail: Bytes, k: nat, reachable: Dial -> bool)
    requires |methods| < 256 && k <= 4 + |tail|
    ensures
      var s := Serve([0x05, |methods|] + methods + ([0x05, 0x01, rsv, atyp] + tail)[..k], reachable);
      && (k < 4 ==> s == Served([5, 0], [], None, false))
      && (k >= 4 && ReadAddr(tail[..k - 4], atyp) == AddrRead(None, []) ==>
            s == Served([5, 0, 5, 1, 0, 1, 0, 0, 0, 0, 0, 0], [], None, false))
  {
    hide Serve, ReadAddr;
    var cut := ([0x05, 0x01, rsv, atyp] + tail)[..k];
    GreetingRead(methods, cut, reachable);
    if k >= 4 {
      assert cut == [0x05, 0x01, rsv, atyp] + tail[..k - 4];
      ConnectRead(rsv, atyp, tail[..k - 4], reachable);
    }
  }

  /** Anything but CONNECT is refused as a command, and an unknown address type as an address; another
      version in the greeting is not answered at all. */
  lemma OthersAreRefused(methods: Bytes, request: Bytes, reachable: Dial -> bool, version: byte)
    requires |methods| < 256 && |request| >= 4
    ensures
      var b := [5, |methods|] + methods + request;
      && (request[0] != 5 || request[1] != 1 ==>
            Serve(b, reachable) == Served([5, 0, 5, 7, 0, 1, 0, 0, 0, 0, 0, 0], request[4..], None, false))
      && (request[0] == 5 && request[1] == 1 && request[3] !in {1, 3, 4} ==>
            Serve(b, reachable) == Served([5, 0, 5, 1, 0, 1, 0, 0, 0, 0, 0, 0], request[4..], None, false))
    ensures version != 5 ==> Serve([version, |methods|] + methods, reachable) == Served([], methods, None, false)
  {
    var b := [5, |methods|] + methods + request;
    assert b[2 + |methods|..] == request;
    assert ([version, |methods|] + methods)[2..] == methods;
  }

  /** What the client says in all: the greeting, the password message if the server asks for it, and
      the request, unless the server refuses before. The greeting offers passwords only to a user
      who has a name. */
  lemma ClientAnswers(version: byte, choice: byte, more: Bytes, cred: Credentials, host: Bytes, port: int)
    ensures
      var a := Ask([version, choice] + more, cred, host, port);
      var greeting := if cred.username == [] then [5, 1, 0] else [5, 2, 0, 2];
      var auth := [1, |cred.username| % 256] + cred.username + [|cred.password| % 256] + cred.password;
      var request := [5, 1, 0, 3, |host| % 256] + host + [port / 256 % 256, port % 256];
      if version != 5 || (choice != 0 && choice != 2) then a == Asked(greeting, more, false)
      else if choice == 0 then a == AskReply(more).(sent := greeting + request)
      else if |more| < 2 then a == Asked(greeting + auth, [], false)
      else if more[1] != 0 then a == Asked(greeting + auth, more[2..], false)
      else a == AskReply(more[2..]).(sent := greeting + (auth + request))
  {
    hide AskReply;
    assert ([version, choice] + more)[2..] == more;
    assert Request(host, port) + [] == Request(host, port);
  }

  /** A reply is read exactly to the end of its bound address, of each type, before the tunnel; a
      refusal and an unknown address type are failures. */
  lemma ReplyIsRead(version: byte, code: byte, rsv: byte, bound: Host, port: nat, rest: Bytes)
    requires Carried(bound)
    ensures
      AskReply([version, code, rsv, AddressType(bound)] + AddressField(bound) + [port / 256 % 256, port % 256] + rest)
      == if code == 0 then Asked([], rest, true)
         else Asked([], AddressField(bound) + [port / 256 % 256, port % 256] + rest, false)
  {
    var field, bytes := AddressField(bound), [port / 256 % 256, port % 256];
    var b := [version, code, rsv, AddressType(bound)] + field + bytes + rest;
    assert b[4..] == field + bytes + rest;
    assert (field + bytes + rest)[|field| + 2..] == rest;
    if bound.Name? {
      assert b[4] == |bound.text| && b[5..] == bound.text + bytes + rest;
      assert (bound.text + bytes + rest)[|bound.text| + 2..] == rest;
    }
  }

  lemma OtherReplies(version: byte, code: byte, rsv: byte, atyp: byte, rest: Bytes)
    ensures code != 0 || atyp !in {1, 3, 4} ==> AskReply([version, code, rsv, atyp] + rest) == Asked([], rest, false)
  {
    assert ([version, code, rsv, atyp] + rest)[4..] == rest;
  }

  /** A granting reply cut anywhere in its bound address still counts as success: skip gives up at
      the end of the stream and says nothing. */
  lemma CutReplyIsAccepted(rsv: byte, bound: Host, port: nat, k: nat)
    requires Carried(bound) && 4 <= k < |[5, 0, rsv, AddressType(bound)] + AddressField(bound) + [port / 256 % 256, port % 256]|
    ensures AskReply(([5, 0, rsv, AddressType(bound)] + AddressField(bound) + [port / 256 % 256, port % 256])[..k]) == Asked([], [], true)
  {
    var whole := [5, 0, rsv, AddressType(bound)] + AddressField(bound) + [port / 256 % 256, port % 256];
    var b := whole[..k];
    assert b[1] == 0 && b[3] == AddressType(bound);
    if bound.Name? && k > 4 { assert b[4] == |bound.text|; }
  }

  // ---- on streams that are still open ------------------------------------

  /** The server has read all of b and needs more to go on. */
  predicate ServerWaits(b: Bytes) {
    |b| < 2 || (b[0] == 0x05 && (|b| < 2 + b[1] as int || RequestWaits(b[2 + b[1] as int..])))
  }

  predicate RequestWaits(b: Bytes) {
    |b| < 4 || (b[0] == 0x05 && b[1] == 0x01 && AddrWaits(b[4..], b[3]))
  }

  predicate AddrWaits(b: Bytes, atyp: byte) {
    (atyp == 0x01 || atyp == 0x03 || atyp == 0x04) && ReadAddr(b, atyp).dial.None?
  }

  /** What the server has written when b has arrived and the stream is still open. */
  function ServedSoFar(b: Bytes, reachable: Dial -> bool): Bytes {
    if |b| < 2 || (b[0] == 0x05 && |b| < 2 + b[1] as int) then []
    else if ServerWaits(b) then [0x05, 0x00]
    else Serve(b, reachable).sent
  }

  predicate ClientWaits(b: Bytes) {
    || |b| < 2
    || (b[0] == 0x05 && b[1] == 0x02 && (|b| < 4 || (b[3] == 0x00 && ReplyWaits(b[4..]))))
    || (b[0] == 0x05 && b[1] == 0x00 && ReplyWaits(b[2..]))
  }

  predicate ReplyWaits(b: Bytes) {
    || |b| < 4
    || (b[1] == 0x00 && b[3] == 0x01 && |b| < 10)
    || (b[1] == 0x00 && b[3] == 0x03 && (|b| < 5 || |b| < 7 + b[4] as int))
    || (b[1] == 0x00 && b[3] == 0x04 && |b| < 22)
  }

  lemma AddrMore(b: Bytes, more: Bytes, atyp: byte)
    requires !AddrWaits(b, atyp)
    ensures ReadAddr(b + more, atyp) == ReadAddr(b, atyp).(rest := ReadAddr(b, atyp).rest + more)
  {
    hide Get16;
    var whole := b + more;
    if atyp == 0x01 {
      assert whole[..4] == b[..4];
      PortMore(Address(b[..4]), b[4..], more);
      assert whole[4..] == b[4..] + more;
    } else if atyp == 0x03 {
      var n := 1 + b[0] as int;
      assert whole[1..n] == b[1..n] && whole[n..] == b[n..] + more;
      PortMore(Name(b[1..n]), b[n..], more);
    } else if atyp == 0x04 {
      assert whole[..16] == b[..16] && whole[16..] == b[16..] + more;
      PortMore(Address(b[..16]), b[16..], more);
    }
  }

  lemma PortMore(host: Host, b: Bytes, more: Bytes)
    requires |b| >= 2
    ensures ReadPort(host, b + more) == ReadPort(host, b).(rest := ReadPort(host, b).rest + more)
  {
    assert (b + more)[..2] == b[..2] && (b + more)[2..] == b[2..] + more;
  }

  lemma RequestMore(b: Bytes, more: Bytes, reachable: Dial -> bool)
    requires !RequestWaits(b)
    ensures ServeRequest(b + more, reachable) == ServeRequest(b, reachable).(rest := ServeRequest(b, reachable).rest + more)
  {
    hide ReadAddr;
    assert (b + more)[4..] == b[4..] + more;
    if b[0] == 0x05 && b[1] == 0x01 { AddrMore(b[4..], more, b[3]); }
  }

  /** The server never takes back what it has written, and once it needs no more input, more of
      it goes to the tunnel and changes nothing else. */
  lemma ServerOnlyExtends(b: Bytes, more: Bytes, reachable: Dial -> bool)
    ensures ServedSoFar(b, reachable) <= Serve(b + more, reachable).sent
    ensures !ServerWaits(b) ==> Serve(b + more, reachable) == Serve(b, reachable).(rest := Serve(b, reachable).rest + more)
  {
    hide ServeRequest, RequestWaits;
    var whole := b + more;
    if |b| >= 2 && b[0] == 0x05 && |b| >= 2 + b[1] as int {
      var n := 2 + b[1] as int;
      assert whole[n..] == b[n..] + more;
      if !RequestWaits(b[n..]) { RequestMore(b[n..], more, reachable); }
    } else if |b| >= 2 && b[0] != 0x05 {
      assert whole[2..] == b[2..] + more;
    }
  }

  lemma AddrTakesOne(b: Bytes, atyp: byte)
    requires AddrWaits(b, atyp)
    ensures ReadAddr(b, atyp).rest == [] && ReadAddr(b + [0], atyp).rest == []
  {
  }

  lemma RequestTakesOne(b: Bytes, reachable: Dial -> bool)
    requires RequestWaits(b)
    ensures ServeRequest(b, reachable).rest == [] && ServeRequest(b + [0], reachable).rest == []
  {
    hide ReadAddr, AddrWaits;
    if |b| >= 4 {
      assert (b + [0])[4..] == b[4..] + [0];
      AddrTakesOne(b[4..], b[3]);
    } else if |b| == 3 {
      AddrOfNothing((b + [0])[4..], (b + [0])[3]);
    }
  }

  lemma AddrOfNothing(b: Bytes, atyp: byte)
    requires b == []
    ensures ReadAddr(b, atyp).rest == []
  {
  }

  /** The server waits exactly when it would take one more byte for itself and not for the tunnel. */
  lemma ServerWaitsIff(b: Bytes, reachable: Dial -> bool)
    ensures ServerWaits(b) <==> Serve(b + [0], reachable).rest == []
  {
    hide ServeRequest, RequestWaits;
    ServerOnlyExtends(b, [0], reachable);
    if |b| >= 2 && b[0] == 0x05 && |b| >= 2 + b[1] as int {
      var n := 2 + b[1] as int;
      assert (b + [0])[n..] == b[n..] + [0];
      if RequestWaits(b[n..]) { RequestTakesOne(b[n..], reachable); }
    } else if |b| >= 2 && b[0] == 0x05 && |b| + 1 == 2 + b[1] as int {
      assert (b + [0])[2 + b[1] as int..] == [];
      NothingRequested(reachable);
    } else if |b| == 1 {
      assert |b + [0]| == 2 && (b + [0])[2..] == [];
      NothingRequested(reachable);
    }
  }

  lemma NothingRequested(reachable: Dial -> bool)
    ensures ServeRequest([], reachable).rest == []
  {
  }

  lemma ReplyTakesOne(b: Bytes)
    requires ReplyWaits(b)
    ensures AskReply(b + [0]).rest == []
  {
  }

  /** And the client likewise. */
  lemma ClientWaitsIff(b: Bytes, cred: Credentials, host: Bytes, port: int)
    ensures ClientWaits(b) <==> Ask(b + [0], cred, host, port).rest == []
  {
    hide AskReply, ReplyWaits, AuthMessage, Greeting, Request;
    ClientOnlyExtends(b, [0], cred, host, port);
    var whole := b + [0];
    if |b| >= 2 {
      assert whole[2..] == b[2..] + [0];
      if |b| >= 4 && b[1] == 0x02 {
        assert whole[4..] == b[4..] + [0] && whole[2..][2..] == whole[4..];
        if ReplyWaits(b[4..]) { ReplyTakesOne(b[4..]); }
      } else if b[1] == 0x00 && ReplyWaits(b[2..]) {
        ReplyTakesOne(b[2..]);
      } else if |b| == 3 {
        assert whole[2..][2..] == [];
        NothingReplied();
      }
    } else {
      NothingReplied();
    }
  }

  lemma NothingReplied()
    ensures AskReply([]).rest == []
  {
  }

  lemma ReplyMore(b: Bytes, more: Bytes)
    requires !ReplyWaits(b)
    ensures AskReply(b + more) == AskReply(b).(rest := AskReply(b).rest + more)
  {
    var whole := b + more;
    assert whole[4..] == b[4..] + more;
    if b[1] == 0x00 && b[3] == 0x03 {
      assert whole[5..] == b[5..] + more;
      DiscardMore(b[5..], more, b[4] as nat + 2);
    } else if b[1] == 0x00 {
      DiscardMore(b[4..], more, if b[3] == 0x01 then 6 else if b[3] == 0x04 then 18 else 0);
    }
  }

  lemma DiscardMore(b: Bytes, more: Bytes, n: nat)
    requires n <= |b|
    ensures Discard(b + more, n) == Discard(b, n) + more
  {
  }

  /** The same of the client. */
  lemma ClientOnlyExtends(b: Bytes, more: Bytes, cred: Credentials, host: Bytes, port: int)
    ensures Ask(b, cred, host, port).sent <= Ask(b + more, cred, host, port).sent
    ensures !ClientWaits(b) ==>
              Ask(b + more, cred, host, port) == Ask(b, cred, host, port).(rest := Ask(b, cred, host, port).rest + more)
  {
    hide AskReply, ReplyWaits, AuthMessage, Greeting, Request;
    var whole := b + more;
    if |b| >= 2 {
      assert whole[2..] == b[2..] + more;
      if |b| >= 4 && b[1] == 0x02 {
        assert whole[4..] == b[4..] + more && whole[2..][2..] == whole[4..] && b[2..][2..] == b[4..];
        if !ReplyWaits(b[4..]) { ReplyMore(b[4..], more); }
      } else if b[1] == 0x00 && !ReplyWaits(b[2..]) {
        ReplyMore(b[2..], more);
      }
    }
  }

  /** No deadlock: when each side has read all that the other has written, for any host and any
      port number, neither waits for more. Both handshakes are over, and the streams are those
      of a complete run. */
  lemma NoDeadlock(toClient: Bytes, toServer: Bytes, cred: Credentials, host: Bytes, port: int, reachable: Dial -> bool)
    requires toServer == Ask(toClient, cred, host, port).sent && toClient == ServedSoFar(toServer, reachable)
    ensures !ServerWaits(toServer) && !ClientWaits(toClient)
    ensures Joined(toClient, toServer, cred, host, port, reachable, [], [])
  {
    hide ReadPort, ReadAddr, AskReply, AuthMessage, RequestWaits, ServeRequest, PortBytes, ReplyWaits, Request;
    GreetingAnswered(toClient, cred, host, port, reachable);
    var reply := toClient[2..];
    assert toClient == [0x05, 0x00] + reply;
    NoAuthAccepted(cred, reply, host, port);
    assert toServer == Greeting(cred) + Request(host, port);
    RequestComplete(host, port, reachable);
    GreetingAccepted(cred, Request(host, port), reachable);
    assert toServer[2 + toServer[1] as int..] == Request(host, port);
    assert !ServerWaits(toServer);
    assert reply == ServeRequest(Request(host, port), reachable).sent;
  }

  /** The client's greeting is answered whatever it does next. */
  lemma GreetingAnswered(toClient: Bytes, cred: Credentials, host: Bytes, port: int, reachable: Dial -> bool)
    requires toClient == ServedSoFar(Ask(toClient, cred, host, port).sent, reachable)
    ensures [0x05, 0x00] <= toClient
  {
    hide AskReply, AuthMessage, RequestWaits, ServeRequest, Request;
    var toServer := Ask(toClient, cred, host, port).sent;
    assert Greeting(cred) <= toServer;
    assert toServer[0] == Greeting(cred)[0] && toServer[1] == Greeting(cred)[1];
  }

  /** The request is all the server needs, and its answer all the client needs. */
  lemma RequestComplete(host: Bytes, port: int, reachable: Dial -> bool)
    ensures !RequestWaits(Request(host, port))
    ensures var reply := ServeRequest(Request(host, port), reachable).sent; reply == GRANTED || reply == UNREACHABLE
    ensures !ReplyWaits(GRANTED) && !ReplyWaits(UNREACHABLE)
  {
    hide ReadAddr, ReadPort;
    var b, n := Request(host, port), |host| % 256;
    RequestRead(host, port, []);
    assert b + [] == b;
    RestHasPort(Name(host[..n]), host[n..] + PortBytes(port) + []);
  }

  lemma RestHasPort(host: Host, b: Bytes)
    requires |b| >= 2
    ensures ReadPort(host, b).dial.Some?
  {
  }
}
