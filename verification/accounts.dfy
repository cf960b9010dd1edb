/**
  Local accounts: the table of users keyed by normalised e-mail, and the
  session naming the signed-in user. Sign-up and login are state
  transitions that either leave the state alone (with the reason) or
  perform their one change.
 */
module Accounts {
  import opened Common
  import opened Text

  datatype User = User(name: string, email: string, password: string)

  /** The stored user table and the current session, if any. */
  datatype State = State(users: map<string, User>, session: Option<string>)

  datatype SignupOutcome = SignupMissingFields | PasswordTooShort | AccountExists | SignedUp

  datatype LoginOutcome = LoginMissingFields | InvalidCredentials | LoggedIn

  /** The outcome of a form submission and the state after it. */
  datatype Step<O> = Step(outcome: O, state: State)

  /** The shortest password sign-up accepts, in UTF-16 code units. */
  const MinPasswordLength: nat := 6

  /** The key of an account: the e-mail trimmed, then lower-cased. */
  function Key(email: string): (k: string)
    ensures |k| == |Trim(email)|
    ensures IsTrimmed(k)
    ensures forall i :: 0 <= i < |k| ==> !('A' <= k[i] <= 'Z')
  {
    LowerKeepsTrimmed(Trim(email));
    ToLower(Trim(email))
  }

  /** Lower-casing neither creates nor removes white space. */
  lemma LowerKeepsTrimmed(s: string)
    requires IsTrimmed(s)
    ensures IsTrimmed(ToLower(s))
  {
  }

  /** Normalising a key again changes nothing. */
  lemma KeyIdempotent(email: string)
    ensures Key(Key(email)) == Key(email)
  {
    var t := Trim(email);
    LowerKeepsTrimmed(t);
    TrimTrimmed(ToLower(t));
    assert ToLower(ToLower(t)) == ToLower(t);
  }

  /** The key of an address is its trimmed core, lower-cased: white space
      around the address and the case of its ASCII letters never matter,
      so two spellings that differ only in those reach the same account. */
  lemma KeyOfCore(a: string, m: string, b: string)
    requires AllWhitespace(a) && AllWhitespace(b) && IsTrimmed(m) && m != []
    ensures Key(a + m + b) == ToLower(m)
  {
    TrimCharacterization(a, m, b);
  }

  lemma KeyEmptyIff(email: string)
    ensures Key(email) == [] <==> AllWhitespace(email)
  {
    TrimEmptyIff(email);
  }

  /** What the two forms maintain: every user is stored under its own
      normalised, non-empty address with a name and an acceptable password,
      and a session names a stored user. */
  predicate Valid(st: State) {
    && (forall k :: k in st.users ==>
          && st.users[k].email == k && k != [] && Key(k) == k
          && st.users[k].name != []
          && Utf16Length(st.users[k].password) >= MinPasswordLength)
    && (st.session.Some? ==> st.session.value in st.users)
  }

  /** The sign-up form: name, e-mail and password are required, the
      password must be at least six code units long, and the address must
      not be taken. On success the user is stored and signed in. */
  function Signup(st: State, rawName: string, rawEmail: string, password: string): (r: Step<SignupOutcome>)
    ensures r.outcome != SignedUp ==> r.state == st
    ensures r.outcome == SignupMissingFields <==>
      AllWhitespace(rawName) || AllWhitespace(rawEmail) || password == []
    ensures r.outcome == PasswordTooShort <==>
      !AllWhitespace(rawName) && !AllWhitespace(rawEmail) && password != []
      && Utf16Length(password) < MinPasswordLength
    ensures r.outcome == AccountExists <==>
      !AllWhitespace(rawName) && !AllWhitespace(rawEmail)
      && Utf16Length(password) >= MinPasswordLength && Key(rawEmail) in st.users
    ensures r.outcome == SignedUp ==>
      && Key(rawEmail) !in st.users
      && r.state.users == st.users[Key(rawEmail) := User(Trim(rawName), Key(rawEmail), password)]
      && |r.state.users| == |st.users| + 1
      && r.state.session == Some(Key(rawEmail))
  {
    TrimEmptyIff(rawName);
    KeyEmptyIff(rawEmail);
    var name := Trim(rawName);
    var email := Key(rawEmail);
    if name == [] || email == [] || password == [] then
      Step(SignupMissingFields, st)
    else if Utf16Length(password) < MinPasswordLength then
      Step(PasswordTooShort, st)
    else if email in st.users then
      Step(AccountExists, st)
    else
      Step(SignedUp, State(st.users[email := User(name, email, password)], Some(email)))
  }

  /** The login form: the user table is never changed, and the session is
      set exactly when the normalised address has an account whose stored
      password equals the one given. */
  function Login(st: State, rawEmail: string, password: string): (r: Step<LoginOutcome>)
    ensures r.state.users == st.users
    ensures r.outcome == LoggedIn <==>
      !AllWhitespace(rawEmail) && password != []
      && Key(rawEmail) in st.users && st.users[Key(rawEmail)].password == password
    ensures r.outcome == LoginMissingFields <==> AllWhitespace(rawEmail) || password == []
    ensures r.outcome == LoggedIn ==> r.state.session == Some(Key(rawEmail))
    ensures r.outcome != LoggedIn ==> r.state == st
  {
    KeyEmptyIff(rawEmail);
    var email := Key(rawEmail);
    if email == [] || password == [] then
      Step(LoginMissingFields, st)
    else if email in st.users && st.users[email].password == password then
      Step(LoggedIn, st.(session := Some(email)))
    else
      Step(InvalidCredentials, st)
  }

  /** Sign-up keeps the state valid. */
  lemma SignupPreserves(st: State, rawName: string, rawEmail: string, password: string)
    requires Valid(st)
    ensures Valid(Signup(st, rawName, rawEmail, password).state)
  {
    var r := Signup(st, rawName, rawEmail, password);
    if r.outcome == SignedUp {
      KeyIdempotent(rawEmail);
      TrimEmptyIff(rawName);
    }
  }

  /** Login keeps the state valid. */
  lemma LoginPreserves(st: State, rawEmail: string, password: string)
    requires Valid(st)
    ensures Valid(Login(st, rawEmail, password).state)
  {
  }

  /** After signing up, the same password logs in under any spelling of
      the address with the same key, and a different password does not. */
  lemma SignupThenLogin(st: State, rawName: string, rawEmail: string, password: string,
                        otherEmail: string, otherPassword: string)
    requires Signup(st, rawName, rawEmail, password).outcome == SignedUp
    requires Key(otherEmail) == Key(rawEmail)
    ensures var st' := Signup(st, rawName, rawEmail, password).state;
      Login(st', otherEmail, otherPassword).outcome == LoggedIn <==> otherPassword == password
  {
    KeyEmptyIff(rawEmail);
    KeyEmptyIff(otherEmail);
  }

  /** A second sign-up with the same key is refused and changes nothing. */
  lemma SignupTwice(st: State, rawName: string, rawEmail: string, password: string,
                    otherName: string, otherEmail: string, otherPassword: string)
    requires Signup(st, rawName, rawEmail, password).outcome == SignedUp
    requires Key(otherEmail) == Key(rawEmail)
    requires !AllWhitespace(otherName) && Utf16Length(otherPassword) >= MinPasswordLength
    ensures var st' := Signup(st, rawName, rawEmail, password).state;
      Signup(st', otherName, otherEmail, otherPassword) == Step(AccountExists, st')
  {
    KeyEmptyIff(rawEmail);
    KeyEmptyIff(otherEmail);
  }
}
