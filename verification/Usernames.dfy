/** Session tokens in usernames, and credential checks. */
module Usernames {
  import opened Words
  import opened Rotation
  import opened Picks

  /** "-session-" */
  const SEPARATOR: Str := [0x2d, 0x73, 0x65, 0x73, 0x73, 0x69, 0x6f, 0x6e, 0x2d]

  predicate OccursAt(s: Str, sub: Str, i: nat) { i + |sub| <= |s| && s[i..i + |sub|] == sub }

  predicate Contains(s: Str, sub: Str) { exists i: nat | i <= |s| :: OccursAt(s, sub, i) }

  predicate EndsWith(s: Str, sub: Str) { |sub| <= |s| && s[|s| - |sub|..] == sub }

  /** i is where sub first occurs in s, or -1 when it does not occur. */
  predicate IsFirst(s: Str, sub: Str, i: int) {
    if i >= 0 then OccursAt(s, sub, i) && forall j | 0 <= j < i :: !OccursAt(s, sub, j)
    else i == -1 && !Contains(s, sub)
  }

  /** indexOf: a linear search. */
  method IndexOf(s: Str, sub: Str) returns (r: int)
    ensures IsFirst(s, sub, r)
  {
    var i := 0;
    while i + |sub| <= |s|
      invariant forall j | 0 <= j < i :: !OccursAt(s, sub, j)
    {
      if s[i..i + |sub|] == sub {
        return i;
      }
      i := i + 1;
    }
    return -1;
  }

  /** A username's base and token. */
  datatype Name = Name(base: Str, token: Str)

  /** The one split of a username, found by searching from i on. */
  function SplitFrom(user: Str, i: nat): (n: Name)
    requires i <= |user| && forall j | 0 <= j < i :: !OccursAt(user, SEPARATOR, j)
    ensures IsSplit(user, n.base, n.token)
    decreases |user| - i
  {
    if OccursAt(user, SEPARATOR, i) then
      assert user == user[..i] + SEPARATOR + user[i + 9..];
      Name(user[..i], user[i + 9..])
    else if i == |user| then Name(user, [])
    else SplitFrom(user, i + 1)
  }

  /** splitUsername: base and token around the first separator. */
  method SplitUsername(user: Str) returns (base: Str, token: Str)
    ensures IsSplit(user, base, token)
    ensures Name(base, token) == SplitFrom(user, 0)
  {
    var i := IndexOf(user, SEPARATOR);
    if i >= 0 {
      base, token := user[..i], user[i + |SEPARATOR|..];
      assert user == base + SEPARATOR + token;
    } else {
      base, token := user, [];
    }
    ghost var n := SplitFrom(user, 0);
    SplitUnique(user, base, token, n.base, n.token);
  }

  /** What splitting means: cut at the first separator, or no token without one. */
  predicate IsSplit(user: Str, base: Str, token: Str) {
    if Contains(user, SEPARATOR) then
      user == base + SEPARATOR + token && IsFirst(user, SEPARATOR, |base|)
    else base == user && token == []
  }

  /** A username splits in only one way. */
  lemma SplitUnique(user: Str, base: Str, token: Str, base': Str, token': Str)
    requires IsSplit(user, base, token) && IsSplit(user, base', token')
    ensures base == base' && token == token'
  {
    if Contains(user, SEPARATOR) {
      assert OccursAt(user, SEPARATOR, |base|) && OccursAt(user, SEPARATOR, |base'|);
      assert |base| == |base'|;
      assert base == user[..|base|] && token == user[|base| + 9..];
      assert base' == user[..|base'|] && token' == user[|base'| + 9..];
    }
  }

  /** The separator meets a shifted copy of itself only in its last byte. */
  lemma SelfOverlap(d: nat)
    requires 0 < d < 9 && SEPARATOR[d] == SEPARATOR[0]
    ensures d == 8
  {
  }

  /** An early occurrence in base + separator + token lies inside base, or base ends
      with all of the separator but its last byte. */
  lemma EarlyOccurrence(base: Str, token: Str, i: nat)
    requires i < |base| && OccursAt(base + SEPARATOR + token, SEPARATOR, i)
    ensures OccursAt(base, SEPARATOR, i) || EndsWith(base, SEPARATOR[..8])
  {
    var user := base + SEPARATOR + token;
    var occ := user[i..i + 9];
    if i + 9 <= |base| {
      assert occ == base[i..i + 9];
    } else {
      var d := |base| - i;
      assert occ[d] == user[|base|] == SEPARATOR[0];
      SelfOverlap(d);
      assert |base[i..]| == 8;
      assert forall k | 0 <= k < 8 :: base[i..][k] == user[i + k] == occ[k];
      assert base[i..] == SEPARATOR[..8];
      assert base[|base| - 8..] == base[i..];
    }
  }

  /** Splitting base + "-session-" + token gives back base and token exactly when base
      neither contains the separator nor ends in "-session". */
  lemma SplitRecoversIff(base: Str, token: Str)
    ensures IsSplit(base + SEPARATOR + token, base, token)
       <==> !Contains(base, SEPARATOR) && !EndsWith(base, SEPARATOR[..8])
  {
    var user := base + SEPARATOR + token;
    assert OccursAt(user, SEPARATOR, |base|);
    if Contains(base, SEPARATOR) {
      var i: nat :| i <= |base| && OccursAt(base, SEPARATOR, i);
      assert user[i..i + 9] == base[i..i + 9];
      assert OccursAt(user, SEPARATOR, i) && i < |base|;
    } else if EndsWith(base, SEPARATOR[..8]) {
      var i := |base| - 8;
      assert user[i..i + 9] == base[i..] + [SEPARATOR[0]];
      assert OccursAt(user, SEPARATOR, i);
    } else {
      forall i | 0 <= i < |base|
        ensures !OccursAt(user, SEPARATOR, i)
      {
        if OccursAt(user, SEPARATOR, i) {
          EarlyOccurrence(base, token, i);
        }
      }
    }
  }

  // ----- credentials -----

  lemma {:induction false} OrIsZero(a: nat, b: nat)
    ensures Or(a, b) == 0 <==> a == 0 && b == 0
    decreases a + b
  {
    if a != 0 || b != 0 {
      OrIsZero(a / 2, b / 2);
    }
  }

  lemma XorIsZero(a: nat, b: nat)
    ensures Xor(a, b) == 0 <==> a == b
  {
    XorCancel(a, b);
    XorZero(b);
    if a == b {
      XorSelf(a);
    }
  }

  /** ConstantTimeEqual accumulates differences and still decides equality. */
  method ConstantTimeEqual(a: Str, b: Str) returns (equal: bool)
    ensures equal <==> a == b
  {
    if |a| != |b| {
      return false;
    }
    var v: Byte := 0;
    for i := 0 to |a|
      invariant v == 0 <==> a[..i] == b[..i]
    {
      XorIsZero(a[i], b[i]);
      OrIsZero(v, Xor(a[i], b[i]));
      ByteOps(v, a[i], b[i]);
      v := Or(v, Xor(a[i], b[i]));
      assert a[..i + 1] == a[..i] + [a[i]] && b[..i + 1] == b[..i] + [b[i]];
    }
    assert a[..|a|] == a && b[..|b|] == b;
    return v == 0;
  }

  lemma ByteOps(v: Byte, a: Byte, b: Byte)
    ensures Or(v, Xor(a, b)) < 256
  {
    Pow2Values();
    BitwiseBound(XOR, a, b, 8);
    BitwiseBound(OR, v, Xor(a, b), 8);
  }

  datatype Login = Refused | Accepted(acct: Account, token: Str)

  /** Credentials of an account: the name splits into the account's name and the token, and
      the password is the account's. */
  ghost predicate Authentic(accounts: map<Str, Account>, user: Str, pass: Str, acct: Account, token: Str) {
    exists base: Str :: IsSplit(user, base, token) && base in accounts && accounts[base] == acct
                        && acct.password == pass
  }

  /** The outcome of authentication. */
  function LoginFor(accounts: map<Str, Account>, user: Str, pass: Str): Login {
    var n := SplitFrom(user, 0);
    if n.base in accounts && accounts[n.base].password == pass then Accepted(accounts[n.base], n.token) else Refused
  }

  /** An account is let in exactly with its own name, with or without a token, and its own
      password. */
  lemma AcceptedIff(accounts: map<Str, Account>, user: Str, pass: Str, acct: Account, token: Str)
    ensures LoginFor(accounts, user, pass) == Accepted(acct, token) <==> Authentic(accounts, user, pass, acct, token)
  {
    hide IsSplit;
    var n := SplitFrom(user, 0);
    forall base: Str | IsSplit(user, base, token)
      ensures base == n.base && token == n.token
    {
      SplitUnique(user, base, token, n.base, n.token);
    }
  }

  /** Everybody else is refused. */
  lemma RefusedIff(accounts: map<Str, Account>, user: Str, pass: Str)
    ensures LoginFor(accounts, user, pass) == Refused
       <==> forall acct, token :: !Authentic(accounts, user, pass, acct, token)
  {
    hide Authentic, LoginFor;
    var login := LoginFor(accounts, user, pass);
    if login.Accepted? {
      AcceptedIff(accounts, user, pass, login.acct, login.token);
    } else {
      forall acct, token
        ensures !Authentic(accounts, user, pass, acct, token)
      {
        AcceptedIff(accounts, user, pass, acct, token);
      }
    }
  }

  /** authenticate: lets in exactly the account that the name splits to, and only with that
      account's password. */
  method Authenticate(accounts: map<Str, Account>, user: Str, pass: Str) returns (login: Login)
    ensures login.Accepted? ==> Authentic(accounts, user, pass, login.acct, login.token)
    ensures login.Refused? ==> forall acct, token :: !Authentic(accounts, user, pass, acct, token)
    ensures login == LoginFor(accounts, user, pass)
  {
    hide IsSplit, Authentic, LoginFor;
    var base, token := SplitUsername(user);
    if base !in accounts {
      login := Refused;
    } else {
      var same := ConstantTimeEqual(accounts[base].password, pass);
      login := if same then Accepted(accounts[base], token) else Refused;
    }
    LoginIs(accounts, user, pass, base, token);
    RefusedIff(accounts, user, pass);
    if login.Accepted? {
      AcceptedIff(accounts, user, pass, login.acct, login.token);
    }
  }

  /** The outcome in terms of any split of the name. */
  lemma LoginIs(accounts: map<Str, Account>, user: Str, pass: Str, base: Str, token: Str)
    requires IsSplit(user, base, token)
    ensures LoginFor(accounts, user, pass)
         == if base in accounts && accounts[base].password == pass then Accepted(accounts[base], token) else Refused
  {
    hide IsSplit;
    var n := SplitFrom(user, 0);
    SplitUnique(user, base, token, n.base, n.token);
  }

  /** An account that logs in with a token gets its own account and that token, whenever
      its name can be split off again. */
  lemma LoginWithToken(accounts: map<Str, Account>, base: Str, token: Str, pass: Str)
    requires !Contains(base, SEPARATOR) && !EndsWith(base, SEPARATOR[..8])
    ensures LoginFor(accounts, base + SEPARATOR + token, pass)
         == if base in accounts && accounts[base].password == pass then Accepted(accounts[base], token) else Refused
  {
    hide IsSplit, LoginFor;
    SplitRecoversIff(base, token);
    LoginIs(accounts, base + SEPARATOR + token, pass, base, token);
  }

  /** Without a token it gets its own account and no session, whenever its name does not
      contain the separator. */
  lemma LoginWithoutToken(accounts: map<Str, Account>, user: Str, pass: Str)
    requires !Contains(user, SEPARATOR)
    ensures LoginFor(accounts, user, pass)
         == if user in accounts && accounts[user].password == pass then Accepted(accounts[user], []) else Refused
  {
    hide LoginFor;
    LoginIs(accounts, user, pass, user, []);
  }
}
