/** The session state machine of the account provider: the state record, the
    fourteen actions, the reducer that applies one action, and the start-up
    decision that restores a session from a stored token. Everything here is
    pure; the provider's callbacks that dispatch actions and touch storage are
    in module AccountSession. */
module Account {
  import opened Wrappers
  import opened Text

  /** A string-typed value that may be `undefined` at run time (a missing JSON
      property, an optional field). */
  type Str = Option<string>

  /** JavaScript truthiness of such a value: defined and not the empty string. */
  predicate Truthy(a: Str) {
    a.Some? && a.value != ""
  }

  /** `a || b` on such values. */
  function Or(a: Str, b: Str): (r: Str)
    ensures Truthy(a) ==> r == a
    ensures !Truthy(a) ==> r == b
  {
    if Truthy(a) then a else b
  }

  /** The signed-in user record. */
  datatype User = User(
    id: Str,
    createdAt: Str,
    lastLoginAt: Str,
    ownerAddress: Str,
    walletAddress: Str)

  /** A `Partial<User>`: for each field, whether the key is present (`Some`)
      and, if so, the value it carries (which may itself be `undefined`). */
  datatype UserPatch = UserPatch(
    id: Option<Str>,
    createdAt: Option<Str>,
    lastLoginAt: Option<Str>,
    ownerAddress: Option<Str>,
    walletAddress: Option<Str>)

  /** What the registration endpoint returns: `userAddress`, `generatedWallet`,
      and `user.id` / `user.createdAt` (undefined when `user` is absent). */
  datatype RegisterResponse = RegisterResponse(
    userAddress: Str,
    generatedWallet: Str,
    userId: Str,
    userCreatedAt: Str)

  datatype Action =
    | LoginStart
    | LoginSuccess(user: User)
    | LoginFailure(message: string)
    | Logout
    | UpdateUser(patch: UserPatch)
    | ClearError
    | SetLoading(loading: bool)
    | SetRegistrationStatus(registered: bool)
    | CheckRegistrationStart
    | ShowRegistrationModal
    | HideRegistrationModal
    | RegistrationStart
    | RegistrationSuccess(result: RegisterResponse)
    | RegistrationFailure(message: string)

  /** The `type` tag each action carries. */
  function Tag(a: Action): string {
    match a
    case LoginStart => "LOGIN_START"
    case LoginSuccess(_) => "LOGIN_SUCCESS"
    case LoginFailure(_) => "LOGIN_FAILURE"
    case Logout => "LOGOUT"
    case UpdateUser(_) => "UPDATE_USER"
    case ClearError => "CLEAR_ERROR"
    case SetLoading(_) => "SET_LOADING"
    case SetRegistrationStatus(_) => "SET_REGISTRATION_STATUS"
    case CheckRegistrationStart => "CHECK_REGISTRATION_START"
    case ShowRegistrationModal => "SHOW_REGISTRATION_MODAL"
    case HideRegistrationModal => "HIDE_REGISTRATION_MODAL"
    case RegistrationStart => "REGISTRATION_START"
    case RegistrationSuccess(_) => "REGISTRATION_SUCCESS"
    case RegistrationFailure(_) => "REGISTRATION_FAILURE"
  }

  /** The session. `isRegistered` is three-valued (`None` while unknown);
      `actionType` is the debugging `type` field, the tag of the last action. */
  datatype State = State(
    user: Option<User>,
    isAuthenticated: bool,
    isLoading: bool,
    error: Option<string>,
    isRegistered: Option<bool>,
    showRegistrationModal: bool,
    isRegistering: bool,
    actionType: Option<string>)

  const Initial: State := State(None, false, false, None, None, false, false, None)

  /** The session invariant: an authenticated session has a user. */
  predicate Valid(s: State) {
    s.isAuthenticated ==> s.user.Some?
  }

  /** The fields of the state other than the debugging tag. */
  datatype Field =
    | UserField | AuthenticatedField | LoadingField | ErrorField
    | RegisteredField | ModalField | RegisteringField

  /** `t` differs from `s` at most in the fields `fs` (and the tag). */
  predicate ChangesOnly(s: State, t: State, fs: set<Field>) {
    && (UserField !in fs ==> s.user == t.user)
    && (AuthenticatedField !in fs ==> s.isAuthenticated == t.isAuthenticated)
    && (LoadingField !in fs ==> s.isLoading == t.isLoading)
    && (ErrorField !in fs ==> s.error == t.error)
    && (RegisteredField !in fs ==> s.isRegistered == t.isRegistered)
    && (ModalField !in fs ==> s.showRegistrationModal == t.showRegistrationModal)
    && (RegisteringField !in fs ==> s.isRegistering == t.isRegistering)
  }

  /** The fields each case of the reducer names besides `type`. */
  function Touched(a: Action): set<Field> {
    match a
    case LoginStart => {LoadingField, ErrorField}
    case LoginSuccess(_) => {UserField, AuthenticatedField, LoadingField, ErrorField}
    case LoginFailure(_) => {UserField, AuthenticatedField, LoadingField, ErrorField}
    case CheckRegistrationStart => {LoadingField, ErrorField}
    case SetRegistrationStatus(_) => {RegisteredField, LoadingField, ModalField}
    case ShowRegistrationModal => {ModalField}
    case HideRegistrationModal => {ModalField}
    case RegistrationStart => {RegisteringField, ErrorField}
    case RegistrationSuccess(_) => {RegisteringField, RegisteredField, ModalField, ErrorField}
    case RegistrationFailure(_) => {RegisteringField, ErrorField}
    case Logout => {UserField, AuthenticatedField, ErrorField, RegisteredField, ModalField, RegisteringField}
    case UpdateUser(_) => {UserField}
    case ClearError => {ErrorField}
    case SetLoading(_) => {LoadingField}
  }

  /** `{ ...user, ...patch }`: every key present in the patch wins. */
  function Merge(u: User, p: UserPatch): (m: User)
    ensures p.id.Some? ==> m.id == p.id.value
    ensures p.id.None? ==> m.id == u.id
    ensures p.createdAt.Some? ==> m.createdAt == p.createdAt.value
    ensures p.createdAt.None? ==> m.createdAt == u.createdAt
    ensures p.lastLoginAt.Some? ==> m.lastLoginAt == p.lastLoginAt.value
    ensures p.lastLoginAt.None? ==> m.lastLoginAt == u.lastLoginAt
    ensures p.ownerAddress.Some? ==> m.ownerAddress == p.ownerAddress.value
    ensures p.ownerAddress.None? ==> m.ownerAddress == u.ownerAddress
    ensures p.walletAddress.Some? ==> m.walletAddress == p.walletAddress.value
    ensures p.walletAddress.None? ==> m.walletAddress == u.walletAddress
  {
    User(
      if p.id.Some? then p.id.value else u.id,
      if p.createdAt.Some? then p.createdAt.value else u.createdAt,
      if p.lastLoginAt.Some? then p.lastLoginAt.value else u.lastLoginAt,
      if p.ownerAddress.Some? then p.ownerAddress.value else u.ownerAddress,
      if p.walletAddress.Some? then p.walletAddress.value else u.walletAddress)
  }

  /** The reducer. Every action records its own tag, changes only the fields
      its case names, and keeps the session invariant. */
  function Reduce(s: State, a: Action): (r: State)
    ensures r.actionType == Some(Tag(a))
    ensures Valid(s) ==> Valid(r)
  {
    var s := s.(actionType := Some(Tag(a)));
    match a
    case LoginStart =>
      s.(isLoading := true, error := None)
    case LoginSuccess(u) =>
      s.(user := Some(u), isAuthenticated := true, isLoading := false, error := None)
    case LoginFailure(m) =>
      s.(user := None, isAuthenticated := false, isLoading := false, error := Some(m))
    case CheckRegistrationStart =>
      s.(isLoading := true, error := None)
    case SetRegistrationStatus(b) =>
      s.(isRegistered := Some(b), isLoading := false, showRegistrationModal := b == false)
    case ShowRegistrationModal =>
      s.(showRegistrationModal := true)
    case HideRegistrationModal =>
      s.(showRegistrationModal := false)
    case RegistrationStart =>
      s.(isRegistering := true, error := None)
    case RegistrationSuccess(_) =>
      s.(isRegistering := false, isRegistered := Some(true), showRegistrationModal := false, error := None)
    case RegistrationFailure(m) =>
      s.(isRegistering := false, error := Some(m))
    case Logout =>
      s.(user := None, isAuthenticated := false, error := None, isRegistered := None,
         showRegistrationModal := false, isRegistering := false)
    case UpdateUser(p) =>
      s.(user := if s.user.Some? then Some(Merge(s.user.value, p)) else None)
    case ClearError =>
      s.(error := None)
    case SetLoading(b) =>
      s.(isLoading := b)
  }

  /** Every action changes only the fields its case names. */
  lemma ReduceChangesOnly(s: State, a: Action)
    ensures ChangesOnly(s, Reduce(s, a), Touched(a))
  {
  }

  /** Dispatching a sequence of actions, first to last. */
  function Run(s: State, acts: seq<Action>): (r: State)
    ensures Valid(s) ==> Valid(r)
    ensures acts != [] ==> r.actionType == Some(Tag(acts[|acts| - 1]))
    decreases |acts|
  {
    if acts == [] then s else Run(Reduce(s, acts[0]), acts[1..])
  }

  lemma RunTwo(s: State, a: Action, b: Action)
    ensures Run(s, [a, b]) == Reduce(Reduce(s, a), b)
  {
    assert [a, b][1..] == [b];
    assert [b][1..] == [];
    assert Run(Reduce(s, a), [b]) == Run(Reduce(Reduce(s, a), b), []);
  }

  lemma RunThree(s: State, a: Action, b: Action, c: Action)
    ensures Run(s, [a, b, c]) == Reduce(Reduce(Reduce(s, a), b), c)
  {
    assert [a, b, c][1..] == [b, c];
    RunTwo(Reduce(s, a), b, c);
  }

  lemma InitialIsValid()
    ensures Valid(Initial)
    ensures Initial.isRegistered == None && !Initial.isAuthenticated
  {
  }

  /** Every state reachable from the initial one by dispatching actions keeps
      the invariant. */
  lemma ReachableIsValid(acts: seq<Action>)
    ensures Valid(Run(Initial, acts))
  {
    InitialIsValid();
  }

  lemma LoginSuccessEffect(s: State, u: User)
    ensures var r := Reduce(s, LoginSuccess(u));
      && r.user == Some(u) && r.isAuthenticated && !r.isLoading && r.error == None
      && r.isRegistered == s.isRegistered
      && r.showRegistrationModal == s.showRegistrationModal
      && r.isRegistering == s.isRegistering
  {
  }

  /** A failed login leaves the session signed out: the user is cleared, not kept. */
  lemma LoginFailureEffect(s: State, m: string)
    ensures var r := Reduce(s, LoginFailure(m));
      && r.user == None && !r.isAuthenticated && !r.isLoading && r.error == Some(m)
      && r.isRegistered == s.isRegistered
      && r.showRegistrationModal == s.showRegistrationModal
      && r.isRegistering == s.isRegistering
  {
  }

  /** The registration status decides the modal outright, whatever it was. */
  lemma RegistrationStatusEffect(s: State, b: bool)
    ensures var r := Reduce(s, SetRegistrationStatus(b));
      && r.isRegistered == Some(b) && !r.isLoading
      && r.showRegistrationModal == !b
      && r.user == s.user && r.isAuthenticated == s.isAuthenticated && r.error == s.error
  {
  }

  lemma RegistrationSuccessEffect(s: State, res: RegisterResponse)
    ensures var r := Reduce(s, RegistrationSuccess(res));
      && r.isRegistered == Some(true) && !r.isRegistering
      && !r.showRegistrationModal && r.error == None
      && r.user == s.user && r.isAuthenticated == s.isAuthenticated
  {
  }

  /** A failed registration keeps the modal as it was, so the user may retry. */
  lemma RegistrationFailureEffect(s: State, m: string)
    ensures var r := Reduce(s, RegistrationFailure(m));
      && r.showRegistrationModal == s.showRegistrationModal
      && !r.isRegistering && r.error == Some(m)
      && r.isRegistered == s.isRegistered
  {
  }

  /** Logging out restores the initial session in every field except
      `isLoading`, which it leaves as it was. */
  lemma LogoutEffect(s: State)
    ensures Reduce(s, Logout) == Initial.(isLoading := s.isLoading, actionType := Some("LOGOUT"))
  {
  }

  /** Updating the user merges the patch over a present user and never creates
      one, so it cannot authenticate a session. */
  lemma UpdateUserEffect(s: State, p: UserPatch)
    ensures var r := Reduce(s, UpdateUser(p));
      && (s.user.None? ==> r.user == None)
      && (s.user.Some? ==> r.user == Some(Merge(s.user.value, p)))
      && r.isAuthenticated == s.isAuthenticated
  {
  }

  lemma ClearErrorEffect(s: State)
    ensures Reduce(s, ClearError) == s.(error := None, actionType := Some("CLEAR_ERROR"))
  {
  }

  /** A successful login: start, success, then the forced registration status. */
  lemma LoginFlowEffect(s: State, u: User)
    ensures var r := Run(s, [LoginStart, LoginSuccess(u), SetRegistrationStatus(true)]);
      && r.isAuthenticated && r.user == Some(u) && !r.isLoading && r.error == None
      && r.isRegistered == Some(true) && !r.showRegistrationModal
      && r.isRegistering == s.isRegistering
  {
    RunThree(s, LoginStart, LoginSuccess(u), SetRegistrationStatus(true));
  }

  /** A wallet that is not registered: the check opens the modal; a completed
      registration then closes it and marks the wallet registered. */
  lemma RegistrationScenario(res: RegisterResponse, p: UserPatch)
    ensures var checked := Run(Initial, [CheckRegistrationStart, SetRegistrationStatus(false)]);
      && checked.showRegistrationModal && checked.isRegistered == Some(false)
      && var done := Run(checked, [RegistrationStart, RegistrationSuccess(res), UpdateUser(p)]);
      && !done.showRegistrationModal && done.isRegistered == Some(true) && !done.isRegistering
      && done.user == None
  {
    RunTwo(Initial, CheckRegistrationStart, SetRegistrationStatus(false));
    var checked := Run(Initial, [CheckRegistrationStart, SetRegistrationStatus(false)]);
    RunThree(checked, RegistrationStart, RegistrationSuccess(res), UpdateUser(p));
  }

  // ---------------------------------------------------------------------
  // Restoring a session at start-up from the stored token

  const TokenKey: string := "authToken"
  const UserKey: string := "userData"

  /** The claims read from the token's middle segment: `exp` (seconds), `sub`,
      `address`. An `exp` that is missing or not a number is `None`. */
  datatype Claims = Claims(exp: Option<int>, sub: Str, address: Str)

  /** The stored user record as parsed; absent properties are `None`. A record
      that parses to `null` has every property absent. */
  datatype StoredUser = StoredUser(id: Str, ownerAddress: Str, walletAddress: Str, createdAt: Str)

  /** `localStorage.getItem(key)` is truthy: present and not empty. */
  predicate Present(store: map<string, string>, key: string) {
    key in store && store[key] != ""
  }

  /** The token carries a non-zero expiry, in seconds, that lies after `now`,
      in milliseconds: the expiry second is later than the current second. */
  predicate Unexpired(c: Claims, now: int)
    ensures Unexpired(c, now) <==> c.exp.Some? && c.exp.value != 0 && c.exp.value > now / 1000
  {
    assert now == now / 1000 * 1000 + now % 1000;
    c.exp.Some? && c.exp.value != 0 && c.exp.value * 1000 > now
  }

  /** The claims of a token, if it has exactly three dot-separated segments
      and its middle one decodes; `decode` stands for `JSON.parse(atob(_))`,
      `None` when either throws. */
  function Payload(token: string, decode: string -> Option<Claims>): (c: Option<Claims>)
    ensures multiset(token)['.'] == 2 ==> |Split(token, '.')| == 3 && c == decode(Split(token, '.')[1])
    ensures multiset(token)['.'] != 2 ==> c.None?
  {
    var parts := Split(token, '.');
    SplitCount(token, '.');
    if |parts| == 3 then decode(parts[1]) else None
  }

  /** The user restored from the stored record, each field falling back to the
      token's claims or to a default, and stamped with the current time. */
  function RestoredUser(stored: StoredUser, claims: Claims, isoNow: string): (u: User)
    ensures Truthy(stored.id) ==> u.id == stored.id
    ensures !Truthy(stored.id) ==> u.id == claims.sub
    ensures Truthy(stored.ownerAddress) ==> u.ownerAddress == stored.ownerAddress
    ensures !Truthy(stored.ownerAddress) && Truthy(claims.address) ==> u.ownerAddress == claims.address
    ensures !Truthy(stored.ownerAddress) && !Truthy(claims.address) ==> u.ownerAddress == claims.sub
    ensures Truthy(stored.walletAddress) ==> u.walletAddress == stored.walletAddress
    ensures !Truthy(stored.walletAddress) ==> u.walletAddress == Some("")
    ensures u.createdAt.Some? && (Truthy(stored.createdAt) ==> u.createdAt == stored.createdAt)
    ensures !Truthy(stored.createdAt) ==> u.createdAt == Some(isoNow)
    ensures u.lastLoginAt == Some(isoNow)
  {
    User(
      id := Or(stored.id, claims.sub),
      createdAt := Or(stored.createdAt, Some(isoNow)),
      lastLoginAt := Some(isoNow),
      ownerAddress := Or(Or(stored.ownerAddress, claims.address), claims.sub),
      walletAddress := Or(stored.walletAddress, Some("")))
  }

  /** What start-up does with storage: nothing, discard both keys, or sign in
      the restored user. */
  datatype Rehydration = NoChange | Discard | Restore(user: User)

  /** The start-up decision. `now` is `Date.now()` in milliseconds, `isoNow`
      the current ISO time stamp, `parseUser` stands for `JSON.parse` of the
      stored record (`None` when it throws). */
  function Rehydrate(
    store: map<string, string>, now: int, isoNow: string,
    decode: string -> Option<Claims>, parseUser: string -> Option<StoredUser>): (r: Rehydration)
    ensures !Present(store, TokenKey) ==> r == NoChange
    ensures Present(store, TokenKey) && multiset(store[TokenKey])['.'] != 2 ==> r == Discard
    ensures r.Discard? <==>
      Present(store, TokenKey) &&
      (Payload(store[TokenKey], decode).None? || !Unexpired(Payload(store[TokenKey], decode).value, now))
    ensures r.Restore? ==>
      && Present(store, TokenKey) && multiset(store[TokenKey])['.'] == 2
      && Payload(store[TokenKey], decode).Some?
      && Unexpired(Payload(store[TokenKey], decode).value, now)
      && Present(store, UserKey) && parseUser(store[UserKey]).Some?
      && r.user == RestoredUser(parseUser(store[UserKey]).value, Payload(store[TokenKey], decode).value, isoNow)
    ensures r.NoChange? && Present(store, TokenKey) ==>
      !Present(store, UserKey) || parseUser(store[UserKey]).None?
  {
    if !Present(store, TokenKey) then NoChange
    else
      match Payload(store[TokenKey], decode)
      case None => Discard
      case Some(claims) =>
        if !Unexpired(claims, now) then Discard
        else if !Present(store, UserKey) then NoChange
        else
          match parseUser(store[UserKey])
          case None => NoChange
          case Some(stored) => Restore(RestoredUser(stored, claims, isoNow))
  }

  /** A token whose expiry has passed is discarded, however the stored user looks. */
  lemma ExpiredTokenDiscarded(
    store: map<string, string>, now: int, isoNow: string,
    decode: string -> Option<Claims>, parseUser: string -> Option<StoredUser>)
    requires Present(store, TokenKey)
    requires Payload(store[TokenKey], decode).Some?
    requires !Unexpired(Payload(store[TokenKey], decode).value, now)
    ensures Rehydrate(store, now, isoNow, decode, parseUser) == Discard
  {
  }
}
