/**
 * The account routes (routes/auth.js): signup stores a bcrypt hash under a
 * fresh email, login checks a password and issues a 24-hour token.
 */
module Auth {
  import opened Common
  import opened Records
  import opened Crypto
  import opened Http

  /** POST /signup (routes/auth.js:12-27). */
  function Signup(st: Store, p: Primitives, salt: Salt, username: string, email: string, password: string): (r: Outcome)
    ensures r.store.entries == st.entries && r.store.issued == st.issued
    ensures r.status in {Ok, BadRequest, ServerError}
    ensures r.status != Ok ==> r.store == st
    ensures r.status == BadRequest <==> EmailTaken(st.accounts, email)
    ensures r.status == BadRequest ==> r.body == Message("user already exists")
    ensures r.status == Ok <==>
              && !EmailTaken(st.accounts, email)
              && Present(username) && Present(email) && Present(p.hash(password, salt))
    ensures r.status == Ok ==>
              && r.body == Message("signup succesfull")
              && |r.store.accounts| == |st.accounts| + 1
              && r.store.accounts[..|st.accounts|] == st.accounts
              && var a := r.store.accounts[|st.accounts|];
                 && a.username == username
                 && a.email == email
                 && a.passwordHash == p.hash(password, salt)
                 && forall i :: 0 <= i < |st.accounts| ==> st.accounts[i].id != a.id
  {
    if FindByEmail(st.accounts, email).Some? then
      Outcome(BadRequest, Message("user already exists"), st)
    else
      var account := Account(NextId(st.accounts, (a: Account) => a.id), username, email, p.hash(password, salt));
      if !AccountValid(account) then
        Outcome(ServerError, Failure, st)
      else
        var accounts := st.accounts + [account];
        assert accounts[..|st.accounts|] == st.accounts;
        Outcome(Ok, Message("signup succesfull"), st.(accounts := accounts))
  }

  /** Signup keeps both `_id` and `email` unique across the accounts. */
  lemma SignupKeepsValid(st: Store, p: Primitives, salt: Salt, username: string, email: string, password: string)
    requires Valid(st)
    ensures Valid(Signup(st, p, salt, username, email, password).store)
  {
  }

  /** The claims signed at login: identity of the account, issued `now`,
      expiring one `TokenLifetime` later. */
  function TokenClaims(a: Account, now: int): Claims
  {
    Claims(a.id, a.username, a.email, now, now + TokenLifetime)
  }

  /** POST /login (routes/auth.js:29-61). */
  function Login(st: Store, p: Primitives, now: int, email: string, password: string): (r: Outcome)
    ensures r.store == st
    ensures r.status in {Ok, BadRequest, Unauthorized}
    ensures r.status == BadRequest <==> !EmailTaken(st.accounts, email)
    ensures r.status == BadRequest ==> r.body == Message("go signup no account matched")
    ensures r.status == Unauthorized ==> r.body == Message("Invalid credentials")
    ensures r.status == Ok ==>
              exists a :: a in st.accounts && a.email == email
                && p.compare(password, a.passwordHash)
                && r.body == LoginSuccess(p.sign(TokenClaims(a, now)), a.id, a.username, "login successfull")
  {
    match FindByEmail(st.accounts, email)
    case None =>
      Outcome(BadRequest, Message("go signup no account matched"), st)
    case Some(a) =>
      if !p.compare(password, a.passwordHash) then
        Outcome(Unauthorized, Message("Invalid credentials"), st)
      else
        Outcome(Ok, LoginSuccess(p.sign(TokenClaims(a, now)), a.id, a.username, "login successfull"), st)
  }

  /** With unique emails, login against a registered account is decided by
      `compare` alone, and success carries a token over exactly that
      account's `{_id, username, email}` valid for 24 hours. */
  lemma LoginDecided(st: Store, p: Primitives, now: int, password: string, a: Account)
    requires UniqueAccounts(st.accounts)
    requires a in st.accounts
    ensures var r := Login(st, p, now, a.email, password);
            && (r.status == Ok <==> p.compare(password, a.passwordHash))
            && (r.status == Unauthorized <==> !p.compare(password, a.passwordHash))
            && (r.status == Ok ==>
                  && r.body.LoginSuccess?
                  && r.body.token == p.sign(Claims(a.id, a.username, a.email, now, now + 86400))
                  && r.body.userid == a.id
                  && r.body.username == a.username)
  {
    FindByEmailUnique(st.accounts, a);
  }

  /** A successful signup is followed by a successful login with the same
      email and password, for the account signup created. */
  lemma SignupThenLogin(st: Store, p: Primitives, salt: Salt, now: int, username: string, email: string, password: string)
    requires Valid(st)
    requires HashSound(p)
    requires !EmailTaken(st.accounts, email)
    requires username != "" && email != ""
    ensures var s := Signup(st, p, salt, username, email, password);
            && s.status == Ok
            && var a := s.store.accounts[|st.accounts|];
               var l := Login(s.store, p, now, email, password);
               && l.status == Ok
               && l.body == LoginSuccess(p.sign(TokenClaims(a, now)), a.id, username, "login successfull")
  {
    var s := Signup(st, p, salt, username, email, password);
    assert Present(p.hash(password, salt));
    SignupKeepsValid(st, p, salt, username, email, password);
    var a := s.store.accounts[|st.accounts|];
    assert a in s.store.accounts;
    LoginDecided(s.store, p, now, password, a);
  }
}
