/** The SOCKS5 handshake (RFC 1928, with the username/password method of RFC 1929) up
    to the decision to dial: the reader over one reused buffer, its specification as a
    parser, and the encoder that inverts it. */
module Socks5 {
  import opened Words
  import opened Addresses
  import opened Rotation
  import opened Picks
  import opened Usernames

  // ----- messages -----

  /** The destination of a request: address types 1, 3 and 4. */
  datatype Host = IPv4(v4: Bytes) | Domain(name: Bytes) | IPv6(v6: Bytes) {
    predicate Valid() {
      match this
      case IPv4(b) => |b| == 4
      case Domain(b) => |b| < 256
      case IPv6(b) => |b| == 16
    }
  }

  /** What a client sends. The version byte of the credentials and the reserved byte of
      the request are carried but never checked. */
  datatype Hello = Hello(methods: Bytes, authVersion: Byte, user: Bytes, pass: Bytes,
                         command: Byte, reserved: Byte, host: Host, port: nat) {
    predicate Valid() {
      0 < |methods| <= 128 && |user| < 256 && |pass| < 256 && host.Valid() && port < 65536
    }
  }

  function EncodeGreeting(methods: Bytes): Bytes
    requires |methods| < 256
  {
    [5, |methods|] + methods
  }

  function EncodeLogin(version: Byte, user: Bytes, pass: Bytes): Bytes
    requires |user| < 256 && |pass| < 256
  {
    [version, |user|] + user + [|pass|] + pass
  }

  function EncodeHost(h: Host): Bytes
    requires h.Valid()
  {
    match h
    case IPv4(b) => b
    case Domain(b) => [|b|] + b
    case IPv6(b) => b
  }

  function AddressType(h: Host): Byte {
    match h
    case IPv4(_) => 1
    case Domain(_) => 3
    case IPv6(_) => 4
  }

  function EncodeRequest(command: Byte, reserved: Byte, h: Host, port: nat): Bytes
    requires h.Valid() && port < 65536
  {
    [5, command, reserved, AddressType(h)] + EncodeHost(h) + [port / 256, port % 256]
  }

  function Encode(m: Hello): Bytes
    requires m.Valid()
  {
    EncodeGreeting(m.methods) + EncodeLogin(m.authVersion, m.user, m.pass)
    + EncodeRequest(m.command, m.reserved, m.host, m.port)
  }

  // ----- the parser -----

  /** One parsed part, or none, and what is left of the stream after reading it. A stream
      that ends too early is read to its end. */
  datatype Parsed<T> = Bad(rest: Bytes) | Good(value: T, rest: Bytes)

  /** n bytes, or nothing. */
  function Take(s: Bytes, n: nat): Parsed<Bytes> { if n <= |s| then Good(s[..n], s[n..]) else Bad([]) }

  function ParseGreeting(s: Bytes): Parsed<Bytes> {
    if |s| < 2 then Bad([])
    else if s[0] != 5 || s[1] == 0 || s[1] > 128 then Bad(s[2..])
    else Take(s[2..], s[1])
  }

  datatype LoginMessage = LoginMessage(version: Byte, user: Bytes, pass: Bytes)

  function ParseLogin(s: Bytes): Parsed<LoginMessage> {
    if |s| < 2 then Bad([]) else
    var user := Take(s[2..], s[1]);
    if user.Bad? then Bad([]) else
    var pass := ParsePassword(user.rest);
    if pass.Bad? then Bad(pass.rest) else Good(LoginMessage(s[0], user.value, pass.value), pass.rest)
  }

  function ParsePassword(s: Bytes): Parsed<Bytes> {
    if |s| < 1 then Bad([]) else Take(s[1..], s[0])
  }

  datatype RequestMessage =
    | UnknownType
    | Request(command: Byte, reserved: Byte, host: Host, port: nat)

  function ParseHost(atyp: Byte, s: Bytes): Parsed<Host>
    requires atyp == 1 || atyp == 3 || atyp == 4
  {
    if atyp == 3 then
      if |s| < 1 then Bad([]) else
      var d := Take(s[1..], s[0]);
      if d.Bad? then Bad([]) else Good(Domain(d.value), d.rest)
    else
      var d := Take(s, if atyp == 1 then 4 else 16);
      if d.Bad? then Bad([]) else Good(if atyp == 1 then IPv4(d.value) else IPv6(d.value), d.rest)
  }

  function BigEndian16(hi: nat, lo: nat): nat { hi * 256 + lo }

  function ParseRequest(s: Bytes): Parsed<RequestMessage> {
    if |s| < 4 then Bad([])
    else if s[0] != 5 then Bad(s[4..])
    else if s[3] != 1 && s[3] != 3 && s[3] != 4 then Good(UnknownType, s[4..])
    else
      var h := ParseHost(s[3], s[4..]);
      if h.Bad? || |h.rest| < 2 then Bad([])
      else Good(Request(s[1], s[2], h.value, BigEndian16(h.rest[0], h.rest[1])), h.rest[2..])
  }

  /** How a handshake ends. */
  datatype Outcome =
    | Dropped
    | NoMethod
    | LoginRefused
    | TypeRefused
    | CommandRefused
    | Dial(acct: Account, token: Str, host: Host, port: nat)

  /** Which of the two replies that the handler waits for could be written. */
  datatype Writes = Writes(methodReply: bool, loginReply: bool)

  /** The result of a handshake: its outcome, the bytes written, the bytes left over. */
  datatype Finished = Finished(outcome: Outcome, written: Bytes, rest: Bytes) {
    function Having(first: Bytes): Finished { this.(written := first + written) }
  }

  const METHOD_CHOSEN: Bytes := [5, 2]
  const LOGIN_OK: Bytes := [1, 0]

  function Handshake(input: Bytes, accounts: map<Str, Account>, w: Writes): Finished {
    var g := ParseGreeting(input);
    if g.Bad? then Finished(Dropped, [], g.rest) else
    if 2 !in g.value then Finished(NoMethod, [5, 0xff], g.rest) else
    if !w.methodReply then Finished(Dropped, [], g.rest) else
    AfterGreeting(g.rest, accounts, w).Having(METHOD_CHOSEN)
  }

  function AfterGreeting(s: Bytes, accounts: map<Str, Account>, w: Writes): Finished {
    var l := ParseLogin(s);
    if l.Bad? then Finished(Dropped, [], l.rest) else
    var login := LoginFor(accounts, l.value.user, l.value.pass);
    if login.Refused? then Finished(LoginRefused, [1, 1], l.rest) else
    if !w.loginReply then Finished(Dropped, [], l.rest) else
    AfterLogin(l.rest, login.acct, login.token).Having(LOGIN_OK)
  }

  function AfterLogin(s: Bytes, acct: Account, token: Str): Finished {
    var r := ParseRequest(s);
    if r.Bad? then Finished(Dropped, [], r.rest) else
    if r.value.UnknownType? then Finished(TypeRefused, SocksReply(8, NoBind), r.rest) else
    if r.value.command != 1 then Finished(CommandRefused, SocksReply(7, NoBind), r.rest) else
    Finished(Dial(acct, token, r.value.host, r.value.port), [], r.rest)
  }

  // ----- replies -----

  datatype Bind = NoBind | BoundTo(ip: Addr)

  /** The prefix of an IPv4 address written as an IPv6 one. */
  const V4_IN_V6: Bytes := [0, 0, 0, 0, 0, 0, 0, 0, 0, 0, 0xff, 0xff]

  /** socksReply: the bind address in its shortest form, and port 0. */
  function SocksReply(code: Byte, bind: Bind): Bytes {
    match bind
    case NoBind => [5, code, 0, 1, 0, 0, 0, 0, 0, 0]
    case BoundTo(ip) =>
      if ip[..12] == V4_IN_V6 then [5, code, 0, 1] + ip[12..] + [0, 0]
      else [5, code, 0, 4] + ip + [0, 0]
  }

  /** A reader of replies (section 6 of RFC 1928). */
  function ParseReply(s: Bytes): Parsed<(Byte, Host, nat)> {
    var r := ParseRequest(s);
    if r.Bad? || r.value.UnknownType? then Bad(r.rest)
    else Good((r.value.command, r.value.host, r.value.port), r.rest)
  }

  function BoundHost(bind: Bind): Host {
    match bind
    case NoBind => IPv4([0, 0, 0, 0])
    case BoundTo(ip) => if ip[..12] == V4_IN_V6 then IPv4(ip[12..]) else IPv6(ip)
  }

  // ----- parsing inverts encoding -----

  lemma TakeEncoded(b: Bytes, rest: Bytes)
    ensures Take(b + rest, |b|) == Good(b, rest)
  {
    assert (b + rest)[..|b|] == b && (b + rest)[|b|..] == rest;
  }

  lemma GreetingRoundTrip(methods: Bytes, rest: Bytes)
    requires 0 < |methods| <= 128
    ensures ParseGreeting(EncodeGreeting(methods) + rest) == Good(methods, rest)
  {
    var s := EncodeGreeting(methods) + rest;
    assert s[2..] == methods + rest;
    TakeEncoded(methods, rest);
  }

  lemma LoginRoundTrip(version: Byte, user: Bytes, pass: Bytes, rest: Bytes)
    requires |user| < 256 && |pass| < 256
    ensures ParseLogin(EncodeLogin(version, user, pass) + rest) == Good(LoginMessage(version, user, pass), rest)
  {
    var s := EncodeLogin(version, user, pass) + rest;
    var tail := [|pass|] + pass + rest;
    assert s[2..] == user + tail;
    TakeEncoded(user, tail);
    assert tail[1..] == pass + rest;
    TakeEncoded(pass, rest);
  }

  lemma HostRoundTrip(h: Host, rest: Bytes)
    requires h.Valid()
    ensures ParseHost(AddressType(h), EncodeHost(h) + rest) == Good(h, rest)
  {
    match h
    case IPv4(b) => TakeEncoded(b, rest);
    case IPv6(b) => TakeEncoded(b, rest);
    case Domain(b) =>
      assert (EncodeHost(h) + rest)[1..] == b + rest;
      TakeEncoded(b, rest);
  }

  lemma RequestRoundTrip(command: Byte, reserved: Byte, h: Host, port: nat, rest: Bytes)
    requires h.Valid() && port < 65536
    ensures ParseRequest(EncodeRequest(command, reserved, h, port) + rest)
         == Good(Request(command, reserved, h, port), rest)
  {
    hide ParseHost, EncodeHost;
    var s := EncodeRequest(command, reserved, h, port) + rest;
    var tail := [port / 256, port % 256] + rest;
    assert s[4..] == EncodeHost(h) + tail;
    HostRoundTrip(h, tail);
    assert tail[2..] == rest;
  }

  /** The reply carries the code and the bind address to the client. */
  lemma ReplyRoundTrip(code: Byte, bind: Bind, rest: Bytes)
    ensures BoundHost(bind).Valid()
    ensures ParseReply(SocksReply(code, bind) + rest) == Good((code, BoundHost(bind), 0), rest)
  {
    var h := BoundHost(bind);
    assert SocksReply(code, bind) == EncodeRequest(code, 0, h, 0);
    RequestRoundTrip(code, 0, h, 0, rest);
  }

  // ----- and encoding inverts parsing -----

  lemma TakeIsPrefix(s: Bytes, n: nat)
    requires Take(s, n).Good?
    ensures s == Take(s, n).value + Take(s, n).rest && |Take(s, n).value| == n
  {
  }

  lemma ParsedGreeting(s: Bytes)
    requires ParseGreeting(s).Good?
    ensures var g := ParseGreeting(s);
            0 < |g.value| <= 128 && s == EncodeGreeting(g.value) + g.rest
  {
    TakeIsPrefix(s[2..], s[1]);
    assert s == [5, s[1]] + s[2..];
  }

  lemma ParsedLogin(s: Bytes)
    requires ParseLogin(s).Good?
    ensures var l := ParseLogin(s);
            |l.value.user| < 256 && |l.value.pass| < 256
            && s == EncodeLogin(l.value.version, l.value.user, l.value.pass) + l.rest
  {
    var user := Take(s[2..], s[1]);
    TakeIsPrefix(s[2..], s[1]);
    var head, mid, pass := [s[0], s[1]], [user.rest[0]], Take(user.rest[1..], user.rest[0]);
    TakeIsPrefix(user.rest[1..], user.rest[0]);
    hide Take;
    assert s == head + s[2..];
    assert user.rest == mid + user.rest[1..];
    Regroup(head, user.value, mid, pass.value, pass.rest);
  }

  lemma Regroup(a: Bytes, b: Bytes, c: Bytes, d: Bytes, e: Bytes)
    ensures a + (b + (c + (d + e))) == (a + b + c + d) + e
  {
    assert c + (d + e) == c + d + e;
    assert b + (c + d + e) == b + c + d + e;
  }

  lemma ParsedHost(atyp: Byte, s: Bytes)
    requires atyp == 1 || atyp == 3 || atyp == 4
    requires ParseHost(atyp, s).Good?
    ensures var h := ParseHost(atyp, s);
            h.value.Valid() && AddressType(h.value) == atyp && s == EncodeHost(h.value) + h.rest
  {
    if atyp == 3 {
      TakeIsPrefix(s[1..], s[0]);
      assert s == [s[0]] + s[1..];
    } else {
      TakeIsPrefix(s, if atyp == 1 then 4 else 16);
    }
  }

  lemma BigEndianParts(hi: Byte, lo: Byte)
    ensures BigEndian16(hi, lo) < 65536 && BigEndian16(hi, lo) / 256 == hi && BigEndian16(hi, lo) % 256 == lo
  {
  }

  lemma ParsedRequest(s: Bytes)
    requires ParseRequest(s).Good? && ParseRequest(s).value.Request?
    ensures var r := ParseRequest(s);
            r.value.host.Valid() && r.value.port < 65536
            && s == EncodeRequest(r.value.command, r.value.reserved, r.value.host, r.value.port) + r.rest
  {
    hide ParseHost, EncodeHost, BigEndian16;
    ParsedHost(s[3], s[4..]);
    var h := ParseHost(s[3], s[4..]);
    BigEndianParts(h.rest[0], h.rest[1]);
    var head, body, tail := [s[0], s[1], s[2], s[3]], EncodeHost(h.value), [h.rest[0], h.rest[1]];
    assert s == head + s[4..];
    assert h.rest == tail + h.rest[2..];
    assert head + (body + (tail + h.rest[2..])) == (head + body + tail) + h.rest[2..];
  }

  // ----- the handshake -----

  /** The messages that reach the dial: username/password is offered, the name is an
      account's, alone or with a token, the password is that account's, and the command is
      CONNECT. */
  ghost predicate Acceptable(accounts: map<Str, Account>, m: Hello, acct: Account, token: Str) {
    m.Valid() && 2 in m.methods && m.command == 1 && Authentic(accounts, m.user, m.pass, acct, token)
  }

  /** An encoded acceptable hello is dialled, with exactly its bytes consumed. */
  lemma EncodedIsDialled(m: Hello, rest: Bytes, accounts: map<Str, Account>, acct: Account, token: Str)
    requires Acceptable(accounts, m, acct, token)
    ensures Handshake(Encode(m) + rest, accounts, Writes(true, true))
         == Finished(Dial(acct, token, m.host, m.port), METHOD_CHOSEN + LOGIN_OK, rest)
  {
    hide EncodeGreeting, EncodeLogin, EncodeRequest, ParseGreeting, ParseLogin, ParseRequest, LoginFor, SocksReply;
    hide Authentic;
    AcceptedIff(accounts, m.user, m.pass, acct, token);
    var a, b, c := EncodeGreeting(m.methods), EncodeLogin(m.authVersion, m.user, m.pass),
                   EncodeRequest(m.command, m.reserved, m.host, m.port);
    var request := c + rest;
    var login := b + request;
    assert (a + b + c) + rest == a + (b + (c + rest));
    GreetingRoundTrip(m.methods, login);
    LoginRoundTrip(m.authVersion, m.user, m.pass, request);
    RequestRoundTrip(m.command, m.reserved, m.host, m.port, rest);
  }

  /** Conversely a stream that is dialled is an encoded acceptable hello. */
  lemma DialledIsEncoded(input: Bytes, accounts: map<Str, Account>, w: Writes) returns (m: Hello)
    ensures var f := Handshake(input, accounts, w);
            f.outcome.Dial? ==>
              && Acceptable(accounts, m, f.outcome.acct, f.outcome.token)
              && m.host == f.outcome.host && m.port == f.outcome.port
              && input == Encode(m) + f.rest
              && w == Writes(true, true)
  {
    m := Hello([2], 0, [], [], 0, 0, Domain([]), 0);
    if Handshake(input, accounts, w).outcome.Dial? {
      m := DialledHello(input, accounts, w);
    }
  }

  lemma DialledHello(input: Bytes, accounts: map<Str, Account>, w: Writes) returns (m: Hello)
    requires Handshake(input, accounts, w).outcome.Dial?
    ensures var f := Handshake(input, accounts, w);
            && Acceptable(accounts, m, f.outcome.acct, f.outcome.token)
            && m.host == f.outcome.host && m.port == f.outcome.port
            && input == Encode(m) + f.rest
            && w == Writes(true, true)
  {
    hide EncodeGreeting, EncodeLogin, EncodeRequest, ParseGreeting, ParseLogin, ParseRequest, LoginFor, SocksReply;
    var g := ParseGreeting(input);
    var l := ParseLogin(g.rest);
    var r := ParseRequest(l.rest);
    ParsedGreeting(input);
    ParsedLogin(g.rest);
    ParsedRequest(l.rest);
    var f := Handshake(input, accounts, w);
    AcceptedIff(accounts, l.value.user, l.value.pass, f.outcome.acct, f.outcome.token);
    hide Authentic;
    m := Hello(g.value, l.value.version, l.value.user, l.value.pass,
               r.value.command, r.value.reserved, r.value.host, r.value.port);
    var a, b, c := EncodeGreeting(m.methods), EncodeLogin(m.authVersion, m.user, m.pass),
                   EncodeRequest(m.command, m.reserved, m.host, m.port);
    assert a + (b + (c + r.rest)) == (a + b + c) + r.rest;
  }

  /** What reaches the dial, exactly. */
  lemma DialIff(input: Bytes, accounts: map<Str, Account>, w: Writes,
                acct: Account, token: Str, host: Host, port: nat, rest: Bytes)
    ensures Handshake(input, accounts, w).outcome == Dial(acct, token, host, port)
            && Handshake(input, accounts, w).rest == rest
       <==> w == Writes(true, true)
            && exists m: Hello :: Acceptable(accounts, m, acct, token) && m.host == host && m.port == port
                                  && input == Encode(m) + rest
  {
    var f := Handshake(input, accounts, w);
    if f.outcome == Dial(acct, token, host, port) && f.rest == rest {
      var m := DialledIsEncoded(input, accounts, w);
    }
    if w == Writes(true, true) {
      forall m: Hello | Acceptable(accounts, m, acct, token) && m.host == host && m.port == port
                        && input == Encode(m) + rest
        ensures f.outcome == Dial(acct, token, host, port) && f.rest == rest
      {
        EncodedIsDialled(m, rest, accounts, acct, token);
      }
    }
  }
}
