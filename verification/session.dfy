/** The account provider's callbacks: each one dispatches a fixed sequence of
    actions to the session and reads or writes the browser's storage. The
    wallet, the backend and the clock are outside the model: their results
    arrive as parameters. */
module AccountSession {
  import opened Wrappers
  import opened Text
  import opened Account

  /** The `user` object of a login response. */
  datatype LoginUser = LoginUser(id: Str, ownerAddress: Str, walletAddress: Str, createdAt: Str)

  /** A login response: the session token (possibly missing) and the user. */
  datatype LoginResponse = LoginResponse(token: Str, user: LoginUser)

  /** How an awaited chain of calls (sign the message, then call the backend)
      ends: with its value, or with what it threw. */
  datatype Outcome<T> = Done(value: T) | Threw(thrown: Thrown)

  const NoAddressMessage: string := "No wallet address found"

  /** The payload of the `LOGIN_SUCCESS` dispatched after a login. */
  function SignedInUser(u: LoginUser, isoNow: string): (r: User)
    ensures r.lastLoginAt == Some(isoNow)
    ensures r.id == u.id && r.ownerAddress == u.ownerAddress
    ensures r.walletAddress == u.walletAddress && r.createdAt == u.createdAt
  {
    User(u.id, u.createdAt, Some(isoNow), u.ownerAddress, u.walletAddress)
  }

  /** The patch of the `UPDATE_USER` dispatched after a registration: every key
      but `lastLoginAt` is present; `id` falls back to the registered address,
      the wallet to the empty string, the creation time to now. */
  function RegistrationPatch(res: RegisterResponse, isoNow: string): (p: UserPatch)
    ensures p.lastLoginAt.None?
    ensures p.id == Some(if Truthy(res.userId) then res.userId else res.userAddress)
    ensures p.ownerAddress == Some(res.userAddress)
    ensures Truthy(res.generatedWallet) ==> p.walletAddress == Some(res.generatedWallet)
    ensures !Truthy(res.generatedWallet) ==> p.walletAddress == Some(Some(""))
    ensures Truthy(res.userCreatedAt) ==> p.createdAt == Some(res.userCreatedAt)
    ensures !Truthy(res.userCreatedAt) ==> p.createdAt == Some(Some(isoNow))
  {
    UserPatch(
      id := Some(Or(res.userId, res.userAddress)),
      createdAt := Some(Or(res.userCreatedAt, Some(isoNow))),
      lastLoginAt := None,
      ownerAddress := Some(res.userAddress),
      walletAddress := Some(Or(res.generatedWallet, Some(""))))
  }

  class Session {
    /** The reducer's state. */
    var state: State
    /** `localStorage` */
    var localStore: map<string, string>
    /** `sessionStorage` */
    var sessionStore: map<string, string>
    /** Whether the wallet connector reports a connection. */
    var walletConnected: bool

    constructor (localStore: map<string, string>, sessionStore: map<string, string>, walletConnected: bool)
      ensures state == Initial
      ensures this.localStore == localStore && this.sessionStore == sessionStore
      ensures this.walletConnected == walletConnected
    {
      state := Initial;
      this.localStore := localStore;
      this.sessionStore := sessionStore;
      this.walletConnected := walletConnected;
    }

    /** `dispatch`: the reducer applied to the current state. */
    method Dispatch(a: Action)
      modifies this`state
      ensures state == Reduce(old(state), a)
    {
      state := Reduce(state, a);
    }

    /** Run once on mount: restore the session from the stored token, or
        discard a token that is malformed or expired. */
    method CheckExistingToken(
      now: int, isoNow: string,
      decode: string -> Option<Claims>, parseUser: string -> Option<StoredUser>)
      modifies this`state, this`localStore
      ensures match Rehydrate(old(localStore), now, isoNow, decode, parseUser)
        case NoChange => state == old(state) && localStore == old(localStore)
        case Discard => state == old(state) && localStore == old(localStore) - {TokenKey, UserKey}
        case Restore(u) => state == Reduce(old(state), LoginSuccess(u)) && localStore == old(localStore)
    {
      if !(TokenKey in localStore && localStore[TokenKey] != "") {
        return;
      }
      var token := localStore[TokenKey];
      var parts := Split(token, '.');
      if |parts| == 3 {
        var payload := decode(parts[1]);
        if payload.None? {
          // decoding threw: the outer catch removes both keys
          localStore := localStore - {TokenKey, UserKey};
          return;
        }
        var claims := payload.value;
        if Unexpired(claims, now) {
          if UserKey in localStore && localStore[UserKey] != "" {
            var stored := parseUser(localStore[UserKey]);
            if stored.Some? {
              Dispatch(LoginSuccess(RestoredUser(stored.value, claims, isoNow)));
              return;
            }
            // parsing the stored user threw: logged and nothing else
          }
        } else {
          localStore := localStore - {TokenKey, UserKey};
        }
      } else {
        localStore := localStore - {TokenKey, UserKey};
      }
    }

    /** Ask the backend whether the wallet is registered. Without a configured
        backend nothing is dispatched; a failed check is reported as a failed
        login. */
    method CheckRegistration(apiConfigured: bool, response: Outcome<bool>) returns (result: Option<bool>)
      modifies this`state
      ensures !apiConfigured ==> state == old(state) && result == None
      ensures apiConfigured && response.Done? ==>
        && state == Reduce(Reduce(old(state), CheckRegistrationStart), SetRegistrationStatus(response.value))
        && result == Some(response.value)
        && state.showRegistrationModal == !response.value
      ensures apiConfigured && response.Threw? ==>
        && state == Reduce(Reduce(old(state), CheckRegistrationStart),
                           LoginFailure(MessageOf(response.thrown, "Registration check failed")))
        && result == None
        && !state.isAuthenticated && state.user == None
    {
      result := None;
      if !apiConfigured {
        return;
      }
      Dispatch(CheckRegistrationStart);
      match response
      case Done(registered) =>
        Dispatch(SetRegistrationStatus(registered));
        result := Some(registered);
      case Threw(t) =>
        Dispatch(LoginFailure(MessageOf(t, "Registration check failed")));
    }

    /** Sign in with the connected wallet. On success the token and the
        serialised user (`stringify` stands for `JSON.stringify`) are stored
        when a token came back, and the session is authenticated and marked
        registered; on failure the error is dispatched and thrown again. */
    method Login(
      address: Str, isoNow: string, response: Outcome<LoginResponse>,
      stringify: LoginUser -> string) returns (rethrown: Option<Thrown>)
      modifies this`state, this`localStore
      ensures !Truthy(address) ==>
        state == Reduce(old(state), LoginFailure(NoAddressMessage)) &&
        localStore == old(localStore) && rethrown == None
      ensures Truthy(address) && response.Done? ==>
        && state == Reduce(Reduce(Reduce(old(state), LoginStart),
                                  LoginSuccess(SignedInUser(response.value.user, isoNow))),
                           SetRegistrationStatus(true))
        && state.isAuthenticated && state.isRegistered == Some(true) && !state.showRegistrationModal
        && rethrown == None
        && localStore == if Truthy(response.value.token)
                         then old(localStore)[TokenKey := response.value.token.value]
                                             [UserKey := stringify(response.value.user)]
                         else old(localStore)
      ensures Truthy(address) && response.Threw? ==>
        && state == Reduce(Reduce(old(state), LoginStart),
                           LoginFailure(MessageOf(response.thrown, "Login failed")))
        && !state.isAuthenticated && state.user == None
        && rethrown == Some(response.thrown)
        && localStore == old(localStore)
    {
      rethrown := None;
      if !Truthy(address) {
        Dispatch(LoginFailure(NoAddressMessage));
        return;
      }
      Dispatch(LoginStart);
      match response
      case Done(result) =>
        if Truthy(result.token) {
          localStore := localStore[TokenKey := result.token.value];
          localStore := localStore[UserKey := stringify(result.user)];
        }
        Dispatch(LoginSuccess(SignedInUser(result.user, isoNow)));
        Dispatch(SetRegistrationStatus(true));
      case Threw(t) =>
        Dispatch(LoginFailure(MessageOf(t, "Login failed")));
        rethrown := Some(t);
    }

    /** Sign out: clear the stored token and user, disconnect the wallet and
        reset the session. */
    method Logout()
      modifies this
      ensures state == Reduce(old(state), Account.Logout)
      ensures localStore == old(localStore) - {TokenKey, UserKey}
      ensures sessionStore == old(sessionStore) - {TokenKey}
      ensures !walletConnected
    {
      localStore := localStore - {TokenKey, UserKey};
      sessionStore := sessionStore - {TokenKey};
      if walletConnected {
        walletConnected := false;
      }
      Dispatch(Account.Logout);
    }

    method UpdateUserData(patch: UserPatch)
      modifies this`state
      ensures state == Reduce(old(state), UpdateUser(patch))
    {
      Dispatch(UpdateUser(patch));
    }

    method ClearErrorMessage()
      modifies this`state
      ensures state == Reduce(old(state), ClearError)
    {
      Dispatch(ClearError);
    }

    method OpenRegistrationModal()
      modifies this`state
      ensures state == Reduce(old(state), ShowRegistrationModal)
    {
      Dispatch(ShowRegistrationModal);
    }

    method CloseRegistrationModal()
      modifies this`state
      ensures state == Reduce(old(state), HideRegistrationModal)
    {
      Dispatch(HideRegistrationModal);
    }

    /** Register the connected wallet. On success the session is marked
        registered, the modal closes, and the returned fields are merged into
        the user if there is one; on failure the modal stays as it was. */
    method CreateAccount(address: Str, isoNow: string, response: Outcome<RegisterResponse>)
      modifies this`state
      ensures !Truthy(address) ==> state == Reduce(old(state), RegistrationFailure(NoAddressMessage))
      ensures Truthy(address) && response.Done? ==>
        && state == Reduce(Reduce(Reduce(old(state), RegistrationStart),
                                  RegistrationSuccess(response.value)),
                           UpdateUser(RegistrationPatch(response.value, isoNow)))
        && state.isRegistered == Some(true) && !state.isRegistering
        && !state.showRegistrationModal && state.error == None
        && (old(state).user.None? ==> state.user == None)
      ensures Truthy(address) && response.Threw? ==>
        && state == Reduce(Reduce(old(state), RegistrationStart),
                           RegistrationFailure(MessageOf(response.thrown, "Registration failed")))
        && state.showRegistrationModal == old(state).showRegistrationModal
        && !state.isRegistering
    {
      if !Truthy(address) {
        Dispatch(RegistrationFailure(NoAddressMessage));
        return;
      }
      Dispatch(RegistrationStart);
      match response
      case Done(result) =>
        Dispatch(RegistrationSuccess(result));
        Dispatch(UpdateUser(RegistrationPatch(result, isoNow)));
      case Threw(t) =>
        Dispatch(RegistrationFailure(MessageOf(t, "Registration failed")));
    }
  }
}
