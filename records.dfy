/**
 * The rows of the application's tables (`User`, `Report`, `ReportPhoto`,
 * `Vote`) as plain values, foreign keys as explicit ids, and the way SQLite
 * numbers new rows.
 */
module Records {
  import opened Wrappers

  /** A coordinate as submitted; converting it to a float is not modelled. */
  type Coordinate = string

  /** The status every new report starts in. */
  const DEFAULT_STATUS: string := "pendente"

  /** The profile attributes a user supplies at registration. */
  datatype Profile = Profile(
    name: string,
    surname: string,
    birthDate: Option<int>,
    gender: string,
    race: string,
    phone: string,
    cpf: string,
    city: string)

  datatype User = User(
    id: nat,
    email: string,
    username: string,
    passwordHash: string,
    profile: Profile,
    createdAt: int,
    profileImage: Option<string>,
    isDarkMode: bool,
    notificationsEnabled: bool)

  datatype Report = Report(
    id: nat,
    title: string,
    description: string,
    category: string,
    latitude: Option<Coordinate>,
    longitude: Option<Coordinate>,
    address: Option<string>,
    status: string,
    createdAt: int,
    userId: nat)

  datatype ReportPhoto = ReportPhoto(id: nat, filename: string, reportId: nat)

  /** A user's vote on a report; its type is whatever string the request carried. */
  datatype Vote = Vote(id: nat, voteType: string, userId: nat, reportId: nat)

  function UserKey(u: User): nat { u.id }
  function ReportKey(r: Report): nat { r.id }
  function PhotoKey(p: ReportPhoto): nat { p.id }
  function VoteKey(v: Vote): nat { v.id }

  /**
   * The primary key SQLite gives the next row of a table: one more than the
   * largest key present, or 1 when the table is empty.
   */
  function NextId<T>(rows: seq<T>, key: T -> nat): (id: nat)
    ensures forall i :: 0 <= i < |rows| ==> key(rows[i]) < id
    ensures rows == [] ==> id == 1
    ensures rows != [] ==> exists i :: 0 <= i < |rows| && key(rows[i]) + 1 == id
    decreases |rows|
  {
    if rows == [] then 1
    else
      var last := rows[|rows| - 1];
      var rest := NextId(rows[..|rows| - 1], key);
      assert forall i :: 0 <= i < |rows| - 1 ==> rows[..|rows| - 1][i] == rows[i];
      Max(rest, key(last) + 1)
  }

  /** Primary keys grow along the table, so no key occurs twice. */
  ghost predicate IdsIncreasing<T>(rows: seq<T>, key: T -> nat)
  {
    forall i, j :: 0 <= i < j < |rows| ==> key(rows[i]) < key(rows[j])
  }

  /** Inserting a row with the next key keeps the keys increasing. */
  lemma InsertKeepsIdsIncreasing<T>(rows: seq<T>, key: T -> nat, row: T)
    requires IdsIncreasing(rows, key)
    requires key(row) == NextId(rows, key)
    ensures IdsIncreasing(rows + [row], key)
  {
  }

  /** Deleting a row keeps the keys increasing. */
  lemma DeleteKeepsIdsIncreasing<T>(rows: seq<T>, key: T -> nat, k: nat)
    requires IdsIncreasing(rows, key)
    requires k < |rows|
    ensures IdsIncreasing(rows[..k] + rows[k + 1..], key)
  {
    var rest := rows[..k] + rows[k + 1..];
    forall i, j | 0 <= i < j < |rest| ensures key(rest[i]) < key(rest[j]) {
      var i' := if i < k then i else i + 1;
      var j' := if j < k then j else j + 1;
      assert rest[i] == rows[i'] && rest[j] == rows[j'];
    }
  }

  /** Some user has primary key `id`. */
  predicate HasUser(users: seq<User>, id: nat)
  {
    exists i :: 0 <= i < |users| && users[i].id == id
  }

  /** A table whose first rows carry the same keys still has every user key it had. */
  lemma HasUserKept(users: seq<User>, users': seq<User>, id: nat)
    requires HasUser(users, id)
    requires |users| <= |users'| && forall i :: 0 <= i < |users| ==> users'[i].id == users[i].id
    ensures HasUser(users', id)
  {
    var i :| 0 <= i < |users| && users[i].id == id;
    assert users'[i].id == id;
  }

  /** Some report has primary key `id`. */
  predicate HasReport(reports: seq<Report>, id: nat)
  {
    exists i :: 0 <= i < |reports| && reports[i].id == id
  }

  /** The position of the user with primary key `id` (the first one, should there be several). */
  function FindUser(users: seq<User>, id: nat): (k: Option<nat>)
    ensures k.Some? <==> HasUser(users, id)
    ensures k.Some? ==> k.value < |users| && users[k.value].id == id &&
                        forall j :: 0 <= j < k.value ==> users[j].id != id
  {
    if users == [] then None
    else if users[0].id == id then Some(0)
    else match FindUser(users[1..], id)
      case None =>
        assert forall j :: 0 < j < |users| ==> users[j] == users[1..][j - 1];
        None
      case Some(j) => Some(j + 1)
  }

  /** With increasing keys, the user found for `id` is the only one with that key. */
  lemma FindUserUnique(users: seq<User>, id: nat, i: nat)
    requires IdsIncreasing(users, UserKey)
    requires i < |users| && users[i].id == id
    ensures FindUser(users, id) == Some(i)
  {
  }

  /** The user after `toggle_dark_mode`: the dark-mode flag is negated and nothing else changes. */
  function FlipDarkMode(u: User): (v: User)
    ensures v.isDarkMode != u.isDarkMode
    ensures v.(isDarkMode := u.isDarkMode) == u
  {
    u.(isDarkMode := !u.isDarkMode)
  }

  /** The user after `toggle_notifications`: the notifications flag is negated and nothing else changes. */
  function FlipNotifications(u: User): (v: User)
    ensures v.notificationsEnabled != u.notificationsEnabled
    ensures v.(notificationsEnabled := u.notificationsEnabled) == u
  {
    u.(notificationsEnabled := !u.notificationsEnabled)
  }

  /** Toggling a preference twice restores the user, and the two toggles touch different flags. */
  lemma FlipsAreInvolutions(u: User)
    ensures FlipDarkMode(FlipDarkMode(u)) == u
    ensures FlipNotifications(FlipNotifications(u)) == u
    ensures FlipDarkMode(u).notificationsEnabled == u.notificationsEnabled
    ensures FlipNotifications(u).isDarkMode == u.isDarkMode
  {
  }
}
