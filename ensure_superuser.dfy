/** The `ensure_superuser` management command: pick the desired username,
    password and email, then create or repair that superuser, saving only
    when something changed. */
module EnsureSuperuser {
  import opened Wrappers

  /** A stored password: unusable (a row created without one) or the hash of
      a raw password. Salting is not modelled: the hash of `raw` is
      `Hashed(raw)`. */
  datatype Password = Unusable | Hashed(raw: string)

  /** `make_password`, used by `set_password`. */
  function MakePassword(raw: string): Password
  {
    Hashed(raw)
  }

  /** `check_password`: only the hash of the same raw password checks. */
  predicate CheckPassword(p: Password, raw: string)
  {
    p.Hashed? && p.raw == raw
  }

  lemma MakeThenCheck(raw: string, other: string)
    ensures CheckPassword(MakePassword(raw), raw)
    ensures CheckPassword(MakePassword(raw), other) <==> other == raw
    ensures !CheckPassword(Unusable, raw)
  {
  }

  datatype User = User(username: string, email: string, isStaff: bool, isSuperuser: bool, password: Password)

  /** An option or environment variable: `None` when not given. */
  type Setting = Option<string>

  /** `options.get(name) or os.environ.get(NAME)`. */
  function Pick(cli: Setting, env: Setting): (r: Setting)
    ensures cli.Some? && cli.value != "" ==> r == cli
    ensures !(cli.Some? && cli.value != "") ==> r == env
  {
    if cli.Some? && cli.value != "" then cli else env
  }

  /** Truthy: given and non-empty. */
  predicate Given(s: Setting)
  {
    s.Some? && s.value != ""
  }

  datatype Status = Skipped | Created | Updated

  /** The line the command writes. */
  function Report(status: Status, username: string): string
  {
    match status
    case Skipped => "Missing credentials; skipping ensure_superuser."
    case Created => "Superuser '" + username + "' created successfully."
    case Updated => "Superuser '" + username + "' updated successfully."
  }

  /** The command-line options and the environment, per field. */
  datatype Inputs = Inputs(cliUsername: Setting, cliPassword: Setting, cliEmail: Setting,
                           envUsername: Setting, envPassword: Setting, envEmail: Setting)

  /** The desired username, password and email, when all three are given. */
  function Desired(inp: Inputs): Option<(string, string, string)>
  {
    var u := Pick(inp.cliUsername, inp.envUsername);
    var p := Pick(inp.cliPassword, inp.envPassword);
    var e := Pick(inp.cliEmail, inp.envEmail);
    if Given(u) && Given(p) && Given(e) then Some((u.value, p.value, e.value)) else None
  }

  /** The table is keyed by each user's own username (it is unique). */
  predicate KeyedByName(users: map<string, User>)
  {
    forall k :: k in users ==> users[k].username == k
  }

  /** The row `get_or_create` inserts: the defaults, no usable password. */
  function NewUser(username: string, email: string): User
  {
    User(username, email, true, true, Unusable)
  }

  /** A user that is a superuser and staff with this email and password. */
  predicate Reconciled(user: User, email: string, password: string)
  {
    user.email == email && user.isStaff && user.isSuperuser && CheckPassword(user.password, password)
  }

  /** The user as it should end up: the email, both flags, and the password
      kept when it already checks. */
  function Repaired(user: User, email: string, password: string): (r: User)
    ensures Reconciled(r, email, password) && r.username == user.username
    ensures r == user <==> Reconciled(user, email, password)
  {
    User(user.username, email, true, true,
         if CheckPassword(user.password, password) then user.password else MakePassword(password))
  }

  /** The user table after a run, the status, and whether `save` was called. */
  datatype Outcome = Outcome(users: map<string, User>, status: Status, saved: bool)

  /** What `handle` does to the user table, keyed by username. */
  function Reconcile(users: map<string, User>, inp: Inputs): Outcome
  {
    match Desired(inp)
    case None => Outcome(users, Skipped, false)
    case Some((username, password, email)) =>
      var created := username !in users;
      var user := if created then NewUser(username, email) else users[username];
      var saved := !Reconciled(user, email, password);
      Outcome(users[username := Repaired(user, email, password)],
              if created then Created else Updated, saved)
  }

  // ------------------------------------------------------------------
  // Properties.
  // ------------------------------------------------------------------

  /** A given command-line option beats the environment variable; an empty
      or absent option falls back to it. */
  lemma CliOverEnv(inp: Inputs)
    ensures Given(inp.cliUsername) ==> Pick(inp.cliUsername, inp.envUsername) == inp.cliUsername
    ensures Given(inp.cliPassword) ==> Pick(inp.cliPassword, inp.envPassword) == inp.cliPassword
    ensures Given(inp.cliEmail) ==> Pick(inp.cliEmail, inp.envEmail) == inp.cliEmail
    ensures !Given(inp.cliEmail) ==> Pick(inp.cliEmail, inp.envEmail) == inp.envEmail
  {
  }

  /** A missing input skips the run: nothing is created, changed or saved. */
  lemma MissingInputSkips(users: map<string, User>, inp: Inputs)
    requires !Given(Pick(inp.cliUsername, inp.envUsername)) || !Given(Pick(inp.cliPassword, inp.envPassword))
             || !Given(Pick(inp.cliEmail, inp.envEmail))
    ensures Reconcile(users, inp) == Outcome(users, Skipped, false)
  {
  }

  /** After a run that is not skipped, the user exists with the desired
      email, both flags set and a password that checks; no other user is
      touched and no other user is added. */
  lemma RunReconciles(users: map<string, User>, inp: Inputs)
    requires Desired(inp).Some? && KeyedByName(users)
    ensures var (username, password, email) := Desired(inp).value;
            var out := Reconcile(users, inp);
            username in out.users && Reconciled(out.users[username], email, password)
            && KeyedByName(out.users)
            && out.users.Keys == users.Keys + {username}
            && forall k :: k in users && k != username ==> out.users[k] == users[k]
  {
  }

  /** `save` is called exactly when the row differed from its repaired form;
      a new user always needs it (it has no usable password yet). */
  lemma SavedIffChanged(users: map<string, User>, inp: Inputs)
    requires Desired(inp).Some?
    ensures var (username, password, email) := Desired(inp).value;
            var out := Reconcile(users, inp);
            (username in users ==> (out.saved <==> out.users[username] != users[username]))
            && (username !in users ==> out.saved)
  {
    var (username, password, email) := Desired(inp).value;
    var user := if username in users then users[username] else NewUser(username, email);
    assert Repaired(user, email, password) == user <==> Reconciled(user, email, password);
  }

  /** The status is `created` exactly when no user had the username. */
  lemma CreatedIffNew(users: map<string, User>, inp: Inputs)
    requires Desired(inp).Some?
    ensures var out := Reconcile(users, inp);
            (out.status == Created <==> Desired(inp).value.0 !in users)
            && (out.status == Updated <==> Desired(inp).value.0 in users)
  {
  }

  /** Running the command again with the same inputs saves nothing, changes
      nothing and reports `updated`. */
  lemma SecondRunIsQuiet(users: map<string, User>, inp: Inputs)
    requires Desired(inp).Some? && KeyedByName(users)
    ensures var first := Reconcile(users, inp);
            var second := Reconcile(first.users, inp);
            second.users == first.users && !second.saved && second.status == Updated
  {
    var (username, password, email) := Desired(inp).value;
    var first := Reconcile(users, inp);
    RunReconciles(users, inp);
    assert Reconciled(first.users[username], email, password);
  }

  // ------------------------------------------------------------------
  // The command, step by step.
  // ------------------------------------------------------------------

  /** The user table the command works on, and how many times `save` was
      called on a user. */
  class UserTable {
    var users: map<string, User>
    var saves: nat

    ghost predicate Valid()
      reads this
    {
      KeyedByName(users)
    }

    constructor (users0: map<string, User>)
      requires KeyedByName(users0)
      ensures Valid() && users == users0 && saves == 0
    {
      users := users0;
      saves := 0;
    }

    /** `User.objects.get_or_create(username=..., defaults=...)`. */
    method GetOrCreate(username: string, email: string) returns (user: User, created: bool)
      requires Valid()
      modifies this
      ensures Valid() && user.username == username
      ensures created <==> username !in old(users)
      ensures user == if created then NewUser(username, email) else old(users)[username]
      ensures users == old(users)[username := user] && saves == old(saves)
    {
      if username in users {
        user := users[username];
        created := false;
      } else {
        user := NewUser(username, email);
        users := users[username := user];
        created := true;
      }
    }

    /** `user.save()`. */
    method SaveUser(user: User)
      requires Valid()
      modifies this
      ensures Valid()
      ensures users == old(users)[user.username := user] && saves == old(saves) + 1
    {
      users := users[user.username := user];
      saves := saves + 1;
    }

    /** `Command.handle`: returns the line it writes. */
    method Handle(inp: Inputs) returns (status: Status, report: string)
      requires Valid()
      modifies this
      ensures Valid()
      ensures var out := Reconcile(old(users), inp);
              users == out.users && status == out.status
              && saves == old(saves) + (if out.saved then 1 else 0)
      ensures report == Report(status, if Desired(inp).Some? then Desired(inp).value.0 else "")
    {
      var username := Pick(inp.cliUsername, inp.envUsername);
      var password := Pick(inp.cliPassword, inp.envPassword);
      var email := Pick(inp.cliEmail, inp.envEmail);
      if !Given(username) || !Given(password) || !Given(email) {
        return Skipped, Report(Skipped, "");
      }
      var user, created := GetOrCreate(username.value, email.value);
      var updated := false;
      if user.email != email.value {
        user := user.(email := email.value);
        updated := true;
      }
      if !user.isSuperuser || !user.isStaff {
        user := user.(isSuperuser := true, isStaff := true);
        updated := true;
      }
      if !CheckPassword(user.password, password.value) {
        user := user.(password := MakePassword(password.value));
        updated := true;
      }
      if updated {
        SaveUser(user);
      }
      status := if created then Created else Updated;
      report := Report(status, username.value);
    }
  }
}
