/** What a client is told during the handshake (sections 3 and 6 of RFC 1928, section 2 of
    RFC 1929), and for exactly which input. */
module Socks5Replies {
  import opened Words
  import opened Addresses
  import opened Rotation
  import opened Picks
  import opened Usernames
  import opened Socks5

  // ----- the client's side -----

  datatype Told = Untold | Told(value: Byte)

  /** What a client knows: the method chosen, the status of its login, the reply code. */
  datatype Heard = Heard(chosen: Told, status: Told, code: Told)

  /** A reader of the bytes written to a client: the choice of a method; after method 2 the
      status of the login; after status 0 a reply. */
  function Hear(w: Bytes): Heard {
    if |w| < 2 || w[0] != 5 then Heard(Untold, Untold, Untold)
    else if w[1] != 2 || |w| < 4 || w[2] != 1 then Heard(Told(w[1]), Untold, Untold)
    else Heard(Told(2), Told(w[3]), if w[3] == 0 then CodeOf(w[4..]) else Untold)
  }

  function CodeOf(w: Bytes): Told {
    var r := ParseReply(w);
    if r.Good? then Told(r.value.0) else Untold
  }

  // ----- what a client can send, part by part -----

  /** The input begins with a list of methods. */
  predicate Greets(input: Bytes, methods: Bytes, rest: Bytes) {
    0 < |methods| <= 128 && input == EncodeGreeting(methods) + rest
  }

  /** It goes on with a login. */
  ghost predicate SendsLogin(input: Bytes, l: LoginMessage, rest: Bytes) {
    |l.user| < 256 && |l.pass| < 256
    && exists methods, s :: Greets(input, methods, s) && 2 in methods
                            && s == EncodeLogin(l.version, l.user, l.pass) + rest
  }

  ghost predicate Offers(input: Bytes) { exists methods, rest :: Greets(input, methods, rest) && 2 in methods }

  ghost predicate OffersNone(input: Bytes) { exists methods, rest :: Greets(input, methods, rest) && 2 !in methods }

  /** An account logs in with its own name and password. */
  ghost predicate LogsIn(input: Bytes, accounts: map<Str, Account>, acct: Account, token: Str, rest: Bytes) {
    exists l :: SendsLogin(input, l, rest) && Authentic(accounts, l.user, l.pass, acct, token)
  }

  /** Some name and password that are no account's. */
  ghost predicate FailsToLogIn(input: Bytes, accounts: map<Str, Account>) {
    exists l, rest :: SendsLogin(input, l, rest)
                      && forall acct, token :: !Authentic(accounts, l.user, l.pass, acct, token)
  }

  /** The head of a request with an address type that is not in section 4 of RFC 1928. */
  predicate UnknownAddressType(s: Bytes) { |s| >= 4 && s[0] == 5 && s[3] !in {1, 3, 4} }

  ghost predicate OtherCommand(s: Bytes) {
    exists command: Byte, reserved: Byte, h: Host, port: nat, rest: Bytes ::
      h.Valid() && port < 65536 && command != 1 && s == EncodeRequest(command, reserved, h, port) + rest
  }

  ghost predicate AsksUnknownType(input: Bytes, accounts: map<Str, Account>) {
    exists acct, token, rest :: LogsIn(input, accounts, acct, token, rest) && UnknownAddressType(rest)
  }

  ghost predicate AsksOtherCommand(input: Bytes, accounts: map<Str, Account>) {
    exists acct, token, rest :: LogsIn(input, accounts, acct, token, rest) && OtherCommand(rest)
  }

  // ----- the parser recognises exactly these -----

  lemma GreetsIff(input: Bytes, methods: Bytes, rest: Bytes)
    ensures Greets(input, methods, rest) <==> ParseGreeting(input) == Good(methods, rest)
  {
    hide EncodeGreeting, ParseGreeting;
    if Greets(input, methods, rest) {
      GreetingRoundTrip(methods, rest);
    }
    if ParseGreeting(input).Good? {
      ParsedGreeting(input);
    }
  }

  lemma OffersIff(input: Bytes)
    ensures Offers(input) <==> ParseGreeting(input).Good? && 2 in ParseGreeting(input).value
    ensures OffersNone(input) <==> ParseGreeting(input).Good? && 2 !in ParseGreeting(input).value
  {
    hide Greets, ParseGreeting;
    var g := ParseGreeting(input);
    forall methods, rest
      ensures Greets(input, methods, rest) <==> g == Good(methods, rest)
    {
      GreetsIff(input, methods, rest);
    }
    if g.Good? {
      assert Greets(input, g.value, g.rest);
    }
  }

  /** After a list of methods with username/password, the parser is at the login. */
  predicate AtLogin(input: Bytes) { ParseGreeting(input).Good? && 2 in ParseGreeting(input).value }

  lemma SendsLoginIff(input: Bytes, l: LoginMessage, rest: Bytes)
    ensures SendsLogin(input, l, rest)
       <==> AtLogin(input) && ParseLogin(ParseGreeting(input).rest) == Good(l, rest)
  {
    hide Greets, ParseGreeting, ParseLogin, EncodeLogin;
    var g := ParseGreeting(input);
    if SendsLogin(input, l, rest) {
      var methods, s :| Greets(input, methods, s) && 2 in methods
                        && s == EncodeLogin(l.version, l.user, l.pass) + rest;
      GreetsIff(input, methods, s);
      LoginRoundTrip(l.version, l.user, l.pass, rest);
    }
    if AtLogin(input) && ParseLogin(g.rest) == Good(l, rest) {
      ParsedLogin(g.rest);
      GreetsIff(input, g.value, g.rest);
    }
  }

  /** The login that was parsed, and what it led to. */
  predicate LoggedIn(input: Bytes, accounts: map<Str, Account>, acct: Account, token: Str, rest: Bytes) {
    AtLogin(input)
    && var l := ParseLogin(ParseGreeting(input).rest);
       l.Good? && LoginFor(accounts, l.value.user, l.value.pass) == Accepted(acct, token) && l.rest == rest
  }

  lemma LogsInIff(input: Bytes, accounts: map<Str, Account>, acct: Account, token: Str, rest: Bytes)
    ensures LogsIn(input, accounts, acct, token, rest) <==> LoggedIn(input, accounts, acct, token, rest)
  {
    hide SendsLogin, AtLogin, Authentic, ParseGreeting, ParseLogin, LoginFor;
    if LogsIn(input, accounts, acct, token, rest) {
      var l :| SendsLogin(input, l, rest) && Authentic(accounts, l.user, l.pass, acct, token);
      SendsLoginIff(input, l, rest);
      AcceptedIff(accounts, l.user, l.pass, acct, token);
    }
    if LoggedIn(input, accounts, acct, token, rest) {
      var l := ParseLogin(ParseGreeting(input).rest).value;
      SendsLoginIff(input, l, rest);
      AcceptedIff(accounts, l.user, l.pass, acct, token);
    }
  }

  predicate TurnedAway(input: Bytes, accounts: map<Str, Account>) {
    AtLogin(input)
    && var l := ParseLogin(ParseGreeting(input).rest);
       l.Good? && LoginFor(accounts, l.value.user, l.value.pass) == Refused
  }

  lemma FailsToLogInIff(input: Bytes, accounts: map<Str, Account>)
    ensures FailsToLogIn(input, accounts) <==> TurnedAway(input, accounts)
  {
    hide SendsLogin, AtLogin, Authentic, ParseGreeting, ParseLogin, LoginFor;
    if FailsToLogIn(input, accounts) {
      var l, rest :| SendsLogin(input, l, rest)
                     && forall acct, token :: !Authentic(accounts, l.user, l.pass, acct, token);
      SendsLoginIff(input, l, rest);
      RefusedIff(accounts, l.user, l.pass);
    }
    if TurnedAway(input, accounts) {
      var l := ParseLogin(ParseGreeting(input).rest);
      SendsLoginIff(input, l.value, l.rest);
      RefusedIff(accounts, l.value.user, l.value.pass);
    }
  }

  lemma UnknownTypeIff(s: Bytes)
    ensures UnknownAddressType(s) <==> ParseRequest(s).Good? && ParseRequest(s).value.UnknownType?
  {
    hide ParseHost;
  }

  lemma OtherCommandIff(s: Bytes)
    ensures OtherCommand(s)
       <==> ParseRequest(s).Good? && ParseRequest(s).value.Request? && ParseRequest(s).value.command != 1
  {
    hide ParseRequest, EncodeRequest;
    if OtherCommand(s) {
      var command: Byte, reserved: Byte, h: Host, port: nat, rest: Bytes :|
        h.Valid() && port < 65536 && command != 1 && s == EncodeRequest(command, reserved, h, port) + rest;
      RequestRoundTrip(command, reserved, h, port, rest);
    }
    var r := ParseRequest(s);
    if r.Good? && r.value.Request? && r.value.command != 1 {
      ParsedRequest(s);
    }
  }

  // ----- how a handshake ends -----

  /** The part after an accepted login. */
  lemma RequestEnds(s: Bytes, acct: Account, token: Str)
    ensures var f := AfterLogin(s, acct, token);
            && (f.outcome == TypeRefused <==> UnknownAddressType(s))
            && (f.outcome == CommandRefused <==> OtherCommand(s))
            && f.outcome != NoMethod && f.outcome != LoginRefused
            && f.written == match f.outcome
                            case TypeRefused => [5, 8, 0, 1, 0, 0, 0, 0, 0, 0]
                            case CommandRefused => [5, 7, 0, 1, 0, 0, 0, 0, 0, 0]
                            case _ => []
  {
    hide ParseRequest, OtherCommand, UnknownAddressType;
    UnknownTypeIff(s);
    OtherCommandIff(s);
  }

  /** A handshake up to the login, for every input. */
  lemma Stages(input: Bytes, accounts: map<Str, Account>, w: Writes)
    ensures var f := Handshake(input, accounts, w);
            && (OffersNone(input) ==> f.outcome == NoMethod && f.written == [5, 0xff])
            && (!OffersNone(input) && !(w.methodReply && Offers(input)) ==> f.outcome == Dropped && f.written == [])
            && (w.methodReply && FailsToLogIn(input, accounts) ==>
                  f.outcome == LoginRefused && f.written == [5, 2, 1, 1])
            && (w.methodReply && Offers(input) && !FailsToLogIn(input, accounts)
                && (w.loginReply ==> forall acct, token, rest :: !LogsIn(input, accounts, acct, token, rest))
                ==> f.outcome == Dropped && f.written == [5, 2])
            && (w == Writes(true, true) ==>
                  forall acct, token, rest | LogsIn(input, accounts, acct, token, rest) ::
                    f.outcome == AfterLogin(rest, acct, token).outcome
                    && f.written == [5, 2, 1, 0] + AfterLogin(rest, acct, token).written)
  {
    hide ParseGreeting, ParseLogin, LoginFor, AfterLogin, OffersNone, Offers, FailsToLogIn, LogsIn;
    OffersIff(input);
    FailsToLogInIff(input, accounts);
    forall acct, token, rest
      ensures LogsIn(input, accounts, acct, token, rest) <==> LoggedIn(input, accounts, acct, token, rest)
    {
      LogsInIff(input, accounts, acct, token, rest);
    }
    Pairs();
    if AtLogin(input) {
      var l := ParseLogin(ParseGreeting(input).rest);
      if l.Good? {
        var login := LoginFor(accounts, l.value.user, l.value.pass);
        if login.Accepted? {
          assert LoggedIn(input, accounts, login.acct, login.token, l.rest);
        }
      }
    }
  }

  lemma Pairs()
    ensures METHOD_CHOSEN + [1, 1] == [5, 2, 1, 1] && METHOD_CHOSEN + [] == [5, 2]
    ensures forall s: Bytes :: METHOD_CHOSEN + (LOGIN_OK + s) == [5, 2, 1, 0] + s
  {
  }

  /** An input is of one kind only, and has one login. */
  lemma OneKind(input: Bytes, accounts: map<Str, Account>)
    ensures !(Offers(input) && OffersNone(input))
    ensures FailsToLogIn(input, accounts) ==> Offers(input)
    ensures forall acct, token, rest | LogsIn(input, accounts, acct, token, rest) ::
              Offers(input) && !FailsToLogIn(input, accounts)
    ensures forall acct, token, rest, acct', token', rest' |
              LogsIn(input, accounts, acct, token, rest) && LogsIn(input, accounts, acct', token', rest') ::
              acct == acct' && token == token' && rest == rest'
  {
    hide ParseGreeting, ParseLogin, LoginFor, OffersNone, Offers, FailsToLogIn, LogsIn;
    OffersIff(input);
    FailsToLogInIff(input, accounts);
    forall acct, token, rest
      ensures LogsIn(input, accounts, acct, token, rest) <==> LoggedIn(input, accounts, acct, token, rest)
    {
      LogsInIff(input, accounts, acct, token, rest);
    }
  }

  /** Some account logs in. */
  ghost predicate SomeoneLogsIn(input: Bytes, accounts: map<Str, Account>) {
    exists acct, token, rest :: LogsIn(input, accounts, acct, token, rest)
  }

  lemma Joined()
    ensures [5, 2, 1, 0] + [] == [5, 2, 1, 0]
    ensures forall c: Byte :: [5, 2, 1, 0] + [5, c, 0, 1, 0, 0, 0, 0, 0, 0]
                           == [5, 2, 1, 0, 5, c, 0, 1, 0, 0, 0, 0, 0, 0]
  {
  }

  /** Every refusal, for exactly the input that calls for it, and the very bytes sent. */
  lemma OutcomeIff(input: Bytes, accounts: map<Str, Account>, w: Writes)
    ensures var f, both := Handshake(input, accounts, w), w == Writes(true, true);
            && (f.outcome == NoMethod <==> OffersNone(input))
            && (f.outcome == LoginRefused <==> w.methodReply && FailsToLogIn(input, accounts))
            && (f.outcome == TypeRefused <==> both && AsksUnknownType(input, accounts))
            && (f.outcome == CommandRefused <==> both && AsksOtherCommand(input, accounts))
    ensures var f := Handshake(input, accounts, w);
            match f.outcome
            case NoMethod => f.written == [5, 0xff]
            case LoginRefused => f.written == [5, 2, 1, 1]
            case TypeRefused => f.written == [5, 2, 1, 0, 5, 8, 0, 1, 0, 0, 0, 0, 0, 0]
            case CommandRefused => f.written == [5, 2, 1, 0, 5, 7, 0, 1, 0, 0, 0, 0, 0, 0]
            case Dial(_, _, _, _) => f.written == [5, 2, 1, 0]
            case Dropped => f.written == [] || f.written == [5, 2] || f.written == [5, 2, 1, 0]
  {
    hide Handshake, AfterLogin, OffersNone, Offers, FailsToLogIn, LogsIn, UnknownAddressType, OtherCommand;
    Stages(input, accounts, w);
    OneKind(input, accounts);
    if w == Writes(true, true) && SomeoneLogsIn(input, accounts) {
      var acct, token, rest :| LogsIn(input, accounts, acct, token, rest);
      RequestEnds(rest, acct, token);
      Joined();
    }
  }

  /** What a client hears, for every input: method 2 exactly if it offered it and the reply
      could be written, 0xff exactly if it offered others only. */
  lemma MethodHeardIff(input: Bytes, accounts: map<Str, Account>, w: Writes)
    ensures var h := Hear(Handshake(input, accounts, w).written);
            && (h.chosen == Told(2) <==> w.methodReply && Offers(input))
            && (h.chosen == Told(0xff) <==> OffersNone(input))
            && h.chosen in {Untold, Told(2), Told(0xff)}
  {
    hide Handshake, AfterLogin, OffersNone, Offers, FailsToLogIn, LogsIn, CodeOf;
    Stages(input, accounts, w);
    OneKind(input, accounts);
  }

  /** Status 0 exactly if an account logged in with its own password and the reply could be
      written, status 1 exactly if the credentials are no account's. */
  lemma StatusHeardIff(input: Bytes, accounts: map<Str, Account>, w: Writes)
    ensures var h := Hear(Handshake(input, accounts, w).written);
            && (h.status == Told(0) <==> w == Writes(true, true) && SomeoneLogsIn(input, accounts))
            && (h.status == Told(1) <==> w.methodReply && FailsToLogIn(input, accounts))
            && h.status in {Untold, Told(0), Told(1)}
  {
    hide Handshake, AfterLogin, OffersNone, Offers, FailsToLogIn, LogsIn, CodeOf;
    Stages(input, accounts, w);
    OneKind(input, accounts);
  }

  /** Code 8 exactly for an address type that is not known, code 7 exactly for a whole request
      with a command other than CONNECT, no other code before the dial. */
  lemma CodeHeardIff(input: Bytes, accounts: map<Str, Account>, w: Writes)
    ensures var h, both := Hear(Handshake(input, accounts, w).written), w == Writes(true, true);
            && (h.code == Told(8) <==> both && AsksUnknownType(input, accounts))
            && (h.code == Told(7) <==> both && AsksOtherCommand(input, accounts))
            && h.code in {Untold, Told(7), Told(8)}
  {
    hide Handshake, AsksUnknownType, AsksOtherCommand, CodeOf, OffersNone, FailsToLogIn;
    OutcomeIff(input, accounts, w);
    Codes();
  }

  lemma Codes()
    ensures Hear([5, 2, 1, 0, 5, 8, 0, 1, 0, 0, 0, 0, 0, 0]).code == Told(8)
    ensures Hear([5, 2, 1, 0, 5, 7, 0, 1, 0, 0, 0, 0, 0, 0]).code == Told(7)
    ensures Hear([5, 2, 1, 0]).code == Untold
  {
    hide CodeOf;
    Joined();
    Coded(8);
    Coded(7);
    assert [5, 2, 1, 0][4..] == [];
    NothingCoded();
  }

  lemma NothingCoded()
    ensures CodeOf([]) == Untold
  {
  }

  lemma Coded(code: Byte)
    ensures Hear([5, 2, 1, 0] + [5, code, 0, 1, 0, 0, 0, 0, 0, 0]).code == Told(code)
  {
    hide ParseReply;
    var s := SocksReply(code, NoBind);
    assert ([5, 2, 1, 0] + s)[4..] == s;
    assert s + [] == s;
    ReplyRoundTrip(code, NoBind, []);
  }

  /** The account logs in: its own name, alone or with the token, and its own password. */
  ghost predicate LogsInAs(input: Bytes, accounts: map<Str, Account>, acct: Account, token: Str) {
    exists l, rest, base ::
      SendsLogin(input, l, rest) && IsSplit(l.user, base, token) && base in accounts
      && accounts[base] == acct && acct.password == l.pass
  }

  /** No stream is dialled for an account whose name and password it does not send. */
  lemma DialNeedsLogin(input: Bytes, accounts: map<Str, Account>, w: Writes)
    ensures var f := Handshake(input, accounts, w);
            f.outcome.Dial? ==> LogsInAs(input, accounts, f.outcome.acct, f.outcome.token)
  {
    hide Handshake, IsSplit, EncodeGreeting, EncodeLogin, EncodeRequest;
    var f := Handshake(input, accounts, w);
    if f.outcome.Dial? {
      var m := DialledIsEncoded(input, accounts, w);
      var request := EncodeRequest(m.command, m.reserved, m.host, m.port) + f.rest;
      var s := EncodeLogin(m.authVersion, m.user, m.pass) + request;
      assert input == EncodeGreeting(m.methods) + s;
      assert Greets(input, m.methods, s);
      assert SendsLogin(input, LoginMessage(m.authVersion, m.user, m.pass), request);
    }
  }

  // ----- whole streams -----

  /** "bob" */
  const BOB: Bytes := [0x62, 0x6f, 0x62]

  lemma BobIsPlain()
    ensures !Contains(BOB, SEPARATOR)
  {
  }

  /** Offering username/password and signing on as bob, with the password x. */
  const BOB_SIGNS: Bytes := [5, 1, 2, 1, 3, 0x62, 0x6f, 0x62, 1, 0x78]

  lemma BobParsed(rest: Bytes)
    ensures ParseGreeting(BOB_SIGNS + rest).Good? && 2 in ParseGreeting(BOB_SIGNS + rest).value
    ensures ParseLogin(ParseGreeting(BOB_SIGNS + rest).rest) == Good(LoginMessage(1, BOB, [0x78]), rest)
  {
    hide ParseGreeting, ParseLogin;
    var s := EncodeLogin(1, BOB, [0x78]) + rest;
    assert BOB_SIGNS + rest == EncodeGreeting([2]) + s;
    GreetingRoundTrip([2], s);
    LoginRoundTrip(1, BOB, [0x78], rest);
  }

  /** Unless there is such an account with that password, bob is turned away. */
  lemma BobIsRefused(accounts: map<Str, Account>, rest: Bytes)
    requires BOB !in accounts || accounts[BOB].password != [0x78]
    ensures Handshake(BOB_SIGNS + rest, accounts, Writes(true, true)) == Finished(LoginRefused, [5, 2, 1, 1], rest)
  {
    hide ParseGreeting, ParseLogin, LoginFor, AfterLogin;
    BobParsed(rest);
    BobIsPlain();
    LoginWithoutToken(accounts, BOB, [0x78]);
    Pairs();
  }

  /** If there is, bob's request decides. */
  lemma BobIsIn(accounts: map<Str, Account>, request: Bytes)
    requires BOB in accounts && accounts[BOB].password == [0x78]
    ensures Handshake(BOB_SIGNS + request, accounts, Writes(true, true))
         == AfterLogin(request, accounts[BOB], []).Having([5, 2, 1, 0])
  {
    hide ParseGreeting, ParseLogin, LoginFor, AfterLogin;
    BobParsed(request);
    BobIsPlain();
    LoginWithoutToken(accounts, BOB, [0x78]);
    Pairs();
  }

  /** CONNECT to an IPv4 address, to a name and to an IPv6 address; the port is big-endian. */
  lemma BobConnects(acct: Account, v4: Bytes, name: Bytes, v6: Bytes, p: Byte, q: Byte)
    requires |v4| == 4 && |name| < 256 && |v6| == 16
    ensures AfterLogin([5, 1, 0, 1] + v4 + [p, q], acct, [])
         == Finished(Dial(acct, [], IPv4(v4), 256 * p + q), [], [])
    ensures AfterLogin([5, 1, 0, 3] + ([|name|] + name) + [p, q], acct, [])
         == Finished(Dial(acct, [], Domain(name), 256 * p + q), [], [])
    ensures AfterLogin([5, 1, 0, 4] + v6 + [p, q], acct, [])
         == Finished(Dial(acct, [], IPv6(v6), 256 * p + q), [], [])
  {
    hide AfterLogin, ParseRequest;
    Connects(acct, IPv4(v4), p, q, [5, 1, 0, 1] + v4 + [p, q]);
    Connects(acct, Domain(name), p, q, [5, 1, 0, 3] + ([|name|] + name) + [p, q]);
    Connects(acct, IPv6(v6), p, q, [5, 1, 0, 4] + v6 + [p, q]);
  }

  lemma Connects(acct: Account, h: Host, p: Byte, q: Byte, request: Bytes)
    requires h.Valid() && request == [5, 1, 0, AddressType(h)] + EncodeHost(h) + [p, q]
    ensures AfterLogin(request, acct, []) == Finished(Dial(acct, [], h, 256 * p + q), [], [])
  {
    hide ParseRequest, EncodeHost;
    var port := 256 * p + q;
    assert port / 256 == p && port % 256 == q;
    assert request == EncodeRequest(1, 0, h, port);
    assert request + [] == request;
    RequestRoundTrip(1, 0, h, port, []);
  }

  /** BIND, an address type that is not known, and a client that offers no authentication. */
  lemma BobIsToldWhy(acct: Account, accounts: map<Str, Account>)
    ensures AfterLogin([5, 2, 0, 1, 1, 2, 3, 4, 0, 80], acct, [])
         == Finished(CommandRefused, [5, 7, 0, 1, 0, 0, 0, 0, 0, 0], [])
    ensures AfterLogin([5, 1, 0, 2, 0, 0], acct, [])
         == Finished(TypeRefused, [5, 8, 0, 1, 0, 0, 0, 0, 0, 0], [0, 0])
    ensures Handshake([5, 1, 0], accounts, Writes(true, true)) == Finished(NoMethod, [5, 0xff], [])
  {
  }
}
