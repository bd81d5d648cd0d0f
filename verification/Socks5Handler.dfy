/** The handshake reader itself: sequential reads that overwrite one 256-byte buffer. */
module Socks5Handler {
  import opened Words
  import opened Addresses
  import opened Rotation
  import opened Picks
  import opened Usernames
  import opened Socks5
  import opened Socks5Replies

  /** The client connection: a byte stream in, a byte stream out. */
  class Conn {
    const input: Bytes
    var pos: nat
    var output: Bytes

    ghost predicate Valid()
      reads this
    {
      pos <= |input|
    }

    /** The bytes not yet read. */
    ghost function Rest(): Bytes
      reads this
      requires Valid()
    {
      input[pos..]
    }

    constructor (stream: Bytes)
      ensures Valid() && Rest() == stream && output == []
    {
      input := stream;
      pos := 0;
      output := [];
    }

    /** io.ReadFull(conn, buf[:n]). */
    method ReadFull(buf: array<Byte>, n: nat) returns (ok: bool)
      requires Valid() && n <= buf.Length
      modifies this`pos, buf
      ensures Valid()
      ensures ok <==> Take(old(Rest()), n).Good?
      ensures ok ==> buf[..n] == Take(old(Rest()), n).value
      ensures Rest() == Take(old(Rest()), n).rest
    {
      if |input| - pos < n {
        pos := |input|;
        return false;
      }
      for i := 0 to n
        invariant buf[..i] == input[pos..pos + i]
        modifies buf
      {
        buf[i] := input[pos + i];
        assert buf[..i + 1] == buf[..i] + [input[pos + i]];
      }
      ghost var rest := Rest();
      assert rest[..n] == input[pos..pos + n] && rest[n..] == input[pos + n..];
      pos := pos + n;
      return true;
    }

    method Write(b: Bytes)
      modifies this`output
      ensures output == old(output) + b
    {
      output := output + b;
    }
  }

  /** Reads the method list and scans it for username/password. */
  method ReadGreeting(conn: Conn, buf: array<Byte>) returns (ok: bool, offered: bool)
    requires conn.Valid() && buf.Length == 256
    modifies conn`pos, buf
    ensures conn.Valid()
    ensures ok <==> ParseGreeting(old(conn.Rest())).Good?
    ensures ok ==> (offered <==> 2 in ParseGreeting(old(conn.Rest())).value)
    ensures conn.Rest() == ParseGreeting(old(conn.Rest())).rest
  {
    offered := false;
    ok := conn.ReadFull(buf, 2);
    if !ok {
      return;
    }
    assert buf[..2][0] == buf[0] && buf[..2][1] == buf[1];
    if buf[0] != 5 {
      return false, false;
    }
    var nmethods := buf[1];
    if nmethods == 0 || nmethods > 128 {
      return false, false;
    }
    ok := conn.ReadFull(buf, nmethods);
    if !ok {
      return;
    }
    for i := 0 to nmethods
      invariant offered <==> 2 in buf[..i]
    {
      if buf[i] == 2 {
        offered := true;
      }
      assert buf[..i + 1] == buf[..i] + [buf[i]];
    }
  }

  /** Reads username and password. The version byte is not checked. */
  method ReadLogin(conn: Conn, buf: array<Byte>) returns (ok: bool, user: Bytes, pass: Bytes)
    requires conn.Valid() && buf.Length == 256
    modifies conn`pos, buf
    ensures conn.Valid()
    ensures ok <==> ParseLogin(old(conn.Rest())).Good?
    ensures ok ==> user == ParseLogin(old(conn.Rest())).value.user && pass == ParseLogin(old(conn.Rest())).value.pass
    ensures conn.Rest() == ParseLogin(old(conn.Rest())).rest
  {
    hide ParsePassword;
    user, pass := [], [];
    ok := conn.ReadFull(buf, 2);
    if !ok {
      return;
    }
    assert buf[..2][1] == buf[1];
    var ulen := buf[1];
    ok := conn.ReadFull(buf, ulen);
    if !ok {
      return;
    }
    user := buf[..ulen];
    ok, pass := ReadPassword(conn, buf);
  }

  method ReadPassword(conn: Conn, buf: array<Byte>) returns (ok: bool, pass: Bytes)
    requires conn.Valid() && buf.Length == 256
    modifies conn`pos, buf
    ensures conn.Valid()
    ensures ok <==> ParsePassword(old(conn.Rest())).Good?
    ensures ok ==> pass == ParsePassword(old(conn.Rest())).value
    ensures conn.Rest() == ParsePassword(old(conn.Rest())).rest
  {
    pass := [];
    ok := conn.ReadFull(buf, 1);
    if !ok {
      return;
    }
    assert buf[..1][0] == buf[0];
    var plen := buf[0];
    ok := conn.ReadFull(buf, plen);
    if !ok {
      return;
    }
    pass := buf[..plen];
  }

  method ReadHost(conn: Conn, buf: array<Byte>, atyp: Byte) returns (ok: bool, host: Host)
    requires conn.Valid() && buf.Length == 256 && (atyp == 1 || atyp == 3 || atyp == 4)
    modifies conn`pos, buf
    ensures conn.Valid()
    ensures ok <==> ParseHost(atyp, old(conn.Rest())).Good?
    ensures ok ==> host == ParseHost(atyp, old(conn.Rest())).value
    ensures conn.Rest() == ParseHost(atyp, old(conn.Rest())).rest
  {
    host := Domain([]);
    if atyp == 1 {
      ok := conn.ReadFull(buf, 4);
      if ok {
        host := IPv4(buf[..4]);
      }
    } else if atyp == 3 {
      ok := conn.ReadFull(buf, 1);
      if !ok {
        return;
      }
      assert buf[..1][0] == buf[0];
      var l := buf[0];
      ok := conn.ReadFull(buf, l);
      if ok {
        host := Domain(buf[..l]);
      }
    } else {
      ok := conn.ReadFull(buf, 16);
      if ok {
        host := IPv6(buf[..16]);
      }
    }
  }

  method ReadRequest(conn: Conn, buf: array<Byte>) returns (ok: bool, request: RequestMessage)
    requires conn.Valid() && buf.Length == 256
    modifies conn`pos, buf
    ensures conn.Valid()
    ensures ok <==> ParseRequest(old(conn.Rest())).Good?
    ensures ok ==> request == ParseRequest(old(conn.Rest())).value
    ensures conn.Rest() == ParseRequest(old(conn.Rest())).rest
  {
    request := UnknownType;
    ok := conn.ReadFull(buf, 4);
    if !ok {
      return;
    }
    assert forall i | 0 <= i < 4 :: buf[..4][i] == buf[i];
    if buf[0] != 5 {
      return false, request;
    }
    var cmd, rsv, atyp := buf[1], buf[2], buf[3];
    if atyp != 1 && atyp != 3 && atyp != 4 {
      return;
    }
    var host;
    ok, host := ReadHost(conn, buf, atyp);
    if !ok {
      return;
    }
    ok := conn.ReadFull(buf, 2);
    if !ok {
      return;
    }
    assert buf[..2][0] == buf[0] && buf[..2][1] == buf[1];
    request := Request(cmd, rsv, host, BigEndian16(buf[0], buf[1]));
  }

  /** HandleSOCKS5 up to the dial. */
  method HandleSOCKS5(conn: Conn, accounts: map<Str, Account>, w: Writes) returns (outcome: Outcome)
    requires conn.Valid()
    modifies conn
    ensures conn.Valid()
    ensures outcome == Handshake(old(conn.Rest()), accounts, w).outcome
    ensures conn.output == old(conn.output) + Handshake(old(conn.Rest()), accounts, w).written
    ensures conn.Rest() == Handshake(old(conn.Rest()), accounts, w).rest
    ensures outcome == NoMethod ==> conn.output == old(conn.output) + [5, 0xff]
    ensures outcome == LoginRefused ==> conn.output == old(conn.output) + [5, 2, 1, 1]
    ensures outcome == TypeRefused ==>
              conn.output == old(conn.output) + [5, 2, 1, 0, 5, 8, 0, 1, 0, 0, 0, 0, 0, 0]
    ensures outcome == CommandRefused ==>
              conn.output == old(conn.output) + [5, 2, 1, 0, 5, 7, 0, 1, 0, 0, 0, 0, 0, 0]
    ensures outcome.Dial? ==> conn.output == old(conn.output) + [5, 2, 1, 0]
    ensures outcome == LoginRefused <==> w.methodReply && FailsToLogIn(old(conn.Rest()), accounts)
    ensures outcome.Dial? ==> LogsInAs(old(conn.Rest()), accounts, outcome.acct, outcome.token)
  {
    hide ParseGreeting, AfterGreeting, FailsToLogIn, LogsInAs, OffersNone, AsksUnknownType, AsksOtherCommand;
    OutcomeIff(conn.Rest(), accounts, w);
    DialNeedsLogin(conn.Rest(), accounts, w);
    var buf := new Byte[256](_ => 0);
    var ok, offered := ReadGreeting(conn, buf);
    if !ok {
      return Dropped;
    }
    if !offered {
      conn.Write([5, 0xff]);
      return NoMethod;
    }
    if !w.methodReply {
      return Dropped;
    }
    conn.Write(METHOD_CHOSEN);
    outcome := HandleLogin(conn, buf, accounts, w);
  }

  /** From the credentials to the request. */
  method HandleLogin(conn: Conn, buf: array<Byte>, accounts: map<Str, Account>, w: Writes) returns (outcome: Outcome)
    requires conn.Valid() && buf.Length == 256
    modifies conn, buf
    ensures conn.Valid()
    ensures var f := AfterGreeting(old(conn.Rest()), accounts, w);
            outcome == f.outcome && conn.output == old(conn.output) + f.written && conn.Rest() == f.rest
  {
    hide ParseLogin, LoginFor, AfterLogin;
    var ok, user, pass := ReadLogin(conn, buf);
    if !ok {
      return Dropped;
    }
    var login := Authenticate(accounts, user, pass);
    if login.Refused? {
      conn.Write([1, 1]);
      return LoginRefused;
    }
    if !w.loginReply {
      return Dropped;
    }
    conn.Write(LOGIN_OK);
    outcome := HandleRequest(conn, buf, login.acct, login.token);
  }

  /** The request, up to the dial. */
  method HandleRequest(conn: Conn, buf: array<Byte>, acct: Account, token: Str) returns (outcome: Outcome)
    requires conn.Valid() && buf.Length == 256
    modifies conn, buf
    ensures conn.Valid()
    ensures var f := AfterLogin(old(conn.Rest()), acct, token);
            outcome == f.outcome && conn.output == old(conn.output) + f.written && conn.Rest() == f.rest
  {
    hide ParseRequest, SocksReply;
    var ok, request := ReadRequest(conn, buf);
    if !ok {
      return Dropped;
    }
    if request.UnknownType? {
      conn.Write(SocksReply(8, NoBind));
      return TypeRefused;
    }
    if request.command != 1 {
      conn.Write(SocksReply(7, NoBind));
      return CommandRefused;
    }
    return Dial(acct, token, request.host, request.port);
  }
}
