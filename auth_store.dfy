/** The web client's credential store: a cached runtime value, the browser's
    key-value storage, and the build-time environment, consulted in that
    order. */
module AuthStore {
  import opened Wrappers

  /** A credentials object `{username, password, source}`; a field that is
      absent or empty in a stored object is `""`. */
  datatype Credentials = Credentials(username: string, password: string, source: string)

  /** The key the credentials are stored under. */
  const StorageKey: string := "cev-basic-auth"

  /** Both fields are truthy (non-empty). */
  predicate Complete(c: Credentials)
  {
    c.username != "" && c.password != ""
  }

  /** The module's mutable state: `runtimeCredentials` and `localStorage`
      (each stored value as its parsed object). */
  datatype AuthState = AuthState(runtime: Option<Credentials>, storage: map<string, Credentials>)

  /** `readFromStorage`: the stored object when it has both fields. */
  function ReadFromStorage(storage: map<string, Credentials>): (r: Option<Credentials>)
    ensures r.Some? <==> StorageKey in storage && Complete(storage[StorageKey])
    ensures r.Some? ==> r.value == storage[StorageKey]
  {
    if StorageKey in storage && Complete(storage[StorageKey]) then Some(storage[StorageKey]) else None
  }

  /** `getEnvCredentials`: `VITE_API_USERNAME` and `VITE_API_PASSWORD`
      (`""` when unset), tagged `env`, when both are set. */
  function EnvCredentials(envUsername: string, envPassword: string): (r: Option<Credentials>)
    ensures r.Some? <==> envUsername != "" && envPassword != ""
    ensures r.Some? ==> r.value == Credentials(envUsername, envPassword, "env")
  {
    if envUsername != "" && envPassword != "" then Some(Credentials(envUsername, envPassword, "env")) else None
  }

  /** `getAuthCredentials`: the result and the state after it. */
  function GetStep(s: AuthState, envUsername: string, envPassword: string): (Option<Credentials>, AuthState)
  {
    if s.runtime.Some? && Complete(s.runtime.value) then (s.runtime, s)
    else
      match ReadFromStorage(s.storage)
      case Some(stored) => (Some(stored), s.(runtime := Some(stored)))
      case None =>
        match EnvCredentials(envUsername, envPassword)
        case Some(env) => (Some(env), s.(runtime := Some(env)))
        case None => (None, s)
  }

  /** `clearAuthCredentials`. */
  function ClearStep(s: AuthState): (Option<Credentials>, AuthState)
  {
    (None, AuthState(None, s.storage - {StorageKey}))
  }

  /** `setAuthCredentials`. */
  function SetStep(s: AuthState, username: string, password: string): (Option<Credentials>, AuthState)
  {
    if username == "" || password == "" then ClearStep(s)
    else
      var c := Credentials(username, password, "user");
      (Some(c), AuthState(Some(c), s.storage[StorageKey := c]))
  }

  // ------------------------------------------------------------------
  // Properties of the three operations.
  // ------------------------------------------------------------------

  /** Complete runtime credentials are returned as they are, whatever the
      storage and the environment hold, and nothing changes. */
  lemma RuntimeFirst(c: Credentials, storage: map<string, Credentials>, envUsername: string, envPassword: string)
    requires Complete(c)
    ensures GetStep(AuthState(Some(c), storage), envUsername, envPassword)
            == (Some(c), AuthState(Some(c), storage))
  {
  }

  /** Without complete runtime credentials, complete stored ones are cached
      and returned; stored ones missing a field are passed over. */
  lemma StoredSecond(s: AuthState, envUsername: string, envPassword: string)
    requires !(s.runtime.Some? && Complete(s.runtime.value))
    ensures StorageKey in s.storage && Complete(s.storage[StorageKey]) ==>
              GetStep(s, envUsername, envPassword)
              == (Some(s.storage[StorageKey]), s.(runtime := Some(s.storage[StorageKey])))
    ensures !(StorageKey in s.storage && Complete(s.storage[StorageKey])) ==>
              GetStep(s, envUsername, envPassword).0 == EnvCredentials(envUsername, envPassword)
  {
  }

  /** Then the environment's credentials are cached with source `env`; with
      none of the three, the result is null and the state is unchanged. */
  lemma EnvThird(s: AuthState, envUsername: string, envPassword: string)
    requires !(s.runtime.Some? && Complete(s.runtime.value))
    requires ReadFromStorage(s.storage).None?
    ensures envUsername != "" && envPassword != "" ==>
              GetStep(s, envUsername, envPassword)
              == (Some(Credentials(envUsername, envPassword, "env")),
                  s.(runtime := Some(Credentials(envUsername, envPassword, "env"))))
    ensures !(envUsername != "" && envPassword != "") ==> GetStep(s, envUsername, envPassword) == (None, s)
  {
  }

  /** Whatever `get` returns is complete, and the storage is never written. */
  lemma GetResultComplete(s: AuthState, envUsername: string, envPassword: string)
    ensures var (r, s') := GetStep(s, envUsername, envPassword);
            (r.Some? ==> Complete(r.value)) && s'.storage == s.storage
  {
  }

  /** A second `get` returns the same as the first and changes nothing. */
  lemma GetIdempotent(s: AuthState, envUsername: string, envPassword: string)
    ensures var (r1, s1) := GetStep(s, envUsername, envPassword);
            GetStep(s1, envUsername, envPassword) == (r1, s1)
  {
  }

  /** `set` with an empty field is exactly `clear`. */
  lemma SetEmptyIsClear(s: AuthState, username: string, password: string)
    requires username == "" || password == ""
    ensures SetStep(s, username, password) == ClearStep(s)
    ensures SetStep(s, username, password).0 == None
  {
  }

  /** After `set` with both fields, `get` returns them with source `user`,
      and so does a fresh page that only has the storage; other storage
      keys are untouched. */
  lemma SetThenGet(s: AuthState, username: string, password: string, envUsername: string, envPassword: string)
    requires username != "" && password != ""
    ensures var (r, s1) := SetStep(s, username, password);
            var c := Credentials(username, password, "user");
            r == Some(c)
            && GetStep(s1, envUsername, envPassword).0 == Some(c)
            && GetStep(AuthState(None, s1.storage), envUsername, envPassword).0 == Some(c)
            && forall k :: k != StorageKey ==> (k in s1.storage <==> k in s.storage)
                                               && (k in s.storage ==> s1.storage[k] == s.storage[k])
  {
  }

  /** After `clear`, `get` falls back to the environment, or to null. */
  lemma ClearThenGet(s: AuthState, envUsername: string, envPassword: string)
    ensures var (r, s1) := ClearStep(s);
            r == None && s1.runtime == None && StorageKey !in s1.storage
            && GetStep(s1, envUsername, envPassword).0 == EnvCredentials(envUsername, envPassword)
  {
  }

  // ------------------------------------------------------------------
  // The module as an object.
  // ------------------------------------------------------------------

  /** The module-level `runtimeCredentials`, the page's `localStorage` and
      the environment it was built with. */
  class CredentialStore {
    var runtime: Option<Credentials>
    var storage: map<string, Credentials>
    const envUsername: string
    const envPassword: string

    /** A freshly loaded page: no runtime value yet. */
    constructor (storage0: map<string, Credentials>, envUsername0: string, envPassword0: string)
      ensures runtime == None && storage == storage0
      ensures envUsername == envUsername0 && envPassword == envPassword0
    {
      runtime := None;
      storage := storage0;
      envUsername := envUsername0;
      envPassword := envPassword0;
    }

    function State(): AuthState
      reads this
    {
      AuthState(runtime, storage)
    }

    /** `getAuthCredentials`. */
    method Get() returns (r: Option<Credentials>)
      modifies this
      ensures (r, State()) == GetStep(old(State()), envUsername, envPassword)
    {
      if runtime.Some? && runtime.value.username != "" && runtime.value.password != "" {
        return runtime;
      }
      var stored := ReadFromStorage(storage);
      if stored.Some? {
        runtime := stored;
        return stored;
      }
      var envCredentials := EnvCredentials(envUsername, envPassword);
      if envCredentials.Some? {
        runtime := envCredentials;
        return envCredentials;
      }
      return None;
    }

    /** `setAuthCredentials`. */
    method Set(username: string, password: string) returns (r: Option<Credentials>)
      modifies this
      ensures (r, State()) == SetStep(old(State()), username, password)
    {
      if username == "" || password == "" {
        r := Clear();
        return;
      }
      runtime := Some(Credentials(username, password, "user"));
      storage := storage[StorageKey := runtime.value];
      return runtime;
    }

    /** `clearAuthCredentials`. */
    method Clear() returns (r: Option<Credentials>)
      modifies this
      ensures (r, State()) == ClearStep(old(State()))
    {
      runtime := None;
      storage := storage - {StorageKey};
      return None;
    }
  }
}
