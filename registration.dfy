/** `register`: the e-mail check, then the username check, then one insert. */
module Registration {
  import opened Wrappers
  import opened Records

  /** What the registration form carries besides the password. */
  datatype RegistrationForm = RegistrationForm(email: string, username: string, profile: Profile)

  /** The result `register` reports: which check rejected the form, or the new user's key. */
  datatype RegisterOutcome = EmailTaken | UsernameTaken | Registered(id: nat)

  predicate EmailInUse(users: seq<User>, email: string)
  {
    exists i :: 0 <= i < |users| && users[i].email == email
  }

  predicate UsernameInUse(users: seq<User>, username: string)
  {
    exists i :: 0 <= i < |users| && users[i].username == username
  }

  /** The uniqueness the schema declares for `email` and `username`. */
  ghost predicate UniqueAccounts(users: seq<User>)
  {
    forall i, j :: 0 <= i < j < |users| ==>
      users[i].email != users[j].email && users[i].username != users[j].username
  }

  /** The row a successful registration inserts, with the column defaults of the `User` model. */
  function NewUser(id: nat, form: RegistrationForm, passwordHash: string, now: int): User
  {
    User(id, form.email, form.username, passwordHash, form.profile, now, None, false, true)
  }

  /** The outcome of `register` and the users table after it. */
  function Register(users: seq<User>, form: RegistrationForm, passwordHash: string, now: int): (RegisterOutcome, seq<User>)
  {
    if EmailInUse(users, form.email) then (EmailTaken, users)
    else if UsernameInUse(users, form.username) then (UsernameTaken, users)
    else
      var id := NextId(users, UserKey);
      (Registered(id), users + [NewUser(id, form, passwordHash, now)])
  }

  /**
   * A taken e-mail is rejected whatever the username, a free e-mail with a
   * taken username is rejected, and a rejection leaves the table alone;
   * otherwise exactly one user is added, with the form's e-mail and username,
   * a fresh key and the default preferences.
   */
  lemma RegisterOutcomes(users: seq<User>, form: RegistrationForm, passwordHash: string, now: int)
    ensures var (outcome, after) := Register(users, form, passwordHash, now);
            (outcome == EmailTaken <==> EmailInUse(users, form.email)) &&
            (outcome == UsernameTaken <==> !EmailInUse(users, form.email) && UsernameInUse(users, form.username)) &&
            (!outcome.Registered? ==> after == users)
    ensures var (outcome, after) := Register(users, form, passwordHash, now);
            outcome.Registered? ==>
              |after| == |users| + 1 && after[..|users|] == users &&
              var u := after[|users|];
              u.id == outcome.id && !HasUser(users, u.id) &&
              u.email == form.email && u.username == form.username &&
              !u.isDarkMode && u.notificationsEnabled
  {
  }

  /** Registration keeps e-mails and usernames unique and user keys increasing. */
  lemma RegisterKeepsUnique(users: seq<User>, form: RegistrationForm, passwordHash: string, now: int)
    requires UniqueAccounts(users) && IdsIncreasing(users, UserKey)
    ensures UniqueAccounts(Register(users, form, passwordHash, now).1)
    ensures IdsIncreasing(Register(users, form, passwordHash, now).1, UserKey)
  {
    var (outcome, after) := Register(users, form, passwordHash, now);
    if outcome.Registered? {
      InsertKeepsIdsIncreasing(users, UserKey, after[|users|]);
      forall i, j | 0 <= i < j < |after|
        ensures after[i].email != after[j].email && after[i].username != after[j].username
      {
        if j == |users| {
          assert after[i] == users[i];
        }
      }
    }
  }
}
