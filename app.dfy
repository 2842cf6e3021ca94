/**
 * The application's tables and the request handlers that change them:
 * `register`, `new_report`, `vote_report`, `toggle_dark_mode`,
 * `toggle_notifications`, and the read handler `api_reports`.
 * The logged-in user is an explicit `userId`; the clock is an explicit `now`.
 */
module App {
  import opened Wrappers
  import opened Records
  import opened Uploads
  import opened Votes
  import opened Registration
  import opened Photos
  import opened Queries

  class Store {
    var users: seq<User>
    var reports: seq<Report>
    var photos: seq<ReportPhoto>
    var votes: seq<Vote>

    /**
     * The tables' invariants: unique e-mails and usernames, increasing
     * primary keys, every report's author and every photo's report present,
     * at most one vote per user and report.
     */
    ghost predicate Valid()
      reads this
    {
      && UniqueAccounts(users)
      && IdsIncreasing(users, UserKey)
      && IdsIncreasing(reports, ReportKey)
      && IdsIncreasing(photos, PhotoKey)
      && IdsIncreasing(votes, VoteKey)
      && AuthorsKnown(reports, users)
      && PhotosKnown(photos, reports)
      && AtMostOnePerPair(votes)
    }

    /** An empty database. */
    constructor ()
      ensures Valid()
      ensures users == [] && reports == [] && photos == [] && votes == []
    {
      users, reports, photos, votes := [], [], [], [];
    }

    /** Every report still finds its author once the users table keeps all its keys. */
    static lemma AuthorsStayKnown(reports: seq<Report>, users: seq<User>, users': seq<User>)
      requires AuthorsKnown(reports, users)
      requires |users| <= |users'| && forall i :: 0 <= i < |users| ==> users'[i].id == users[i].id
      ensures AuthorsKnown(reports, users')
    {
      forall i | 0 <= i < |reports| ensures HasUser(users', reports[i].userId) {
        HasUserKept(users, users', reports[i].userId);
      }
    }

    /** `register`: reject a taken e-mail, then a taken username, else insert one user. */
    method Register(form: RegistrationForm, passwordHash: string, now: int) returns (outcome: RegisterOutcome)
      requires Valid()
      modifies this
      ensures Valid()
      ensures (outcome, users) == Registration.Register(old(users), form, passwordHash, now)
      ensures reports == old(reports) && photos == old(photos) && votes == old(votes)
    {
      if EmailInUse(users, form.email) {
        return EmailTaken;
      }
      if UsernameInUse(users, form.username) {
        return UsernameTaken;
      }
      var id := NextId(users, UserKey);
      users := users + [NewUser(id, form, passwordHash, now)];
      outcome := Registered(id);
      RegisterKeepsUnique(old(users), form, passwordHash, now);
      AuthorsStayKnown(reports, old(users), users);
    }

    /**
     * `new_report`: insert the report, in status "pendente", then one photo
     * row per upload that passes `allowed_file`.
     */
    method NewReport(userId: nat, title: string, description: string, category: string,
                     latitude: Option<Coordinate>, longitude: Option<Coordinate>, address: Option<string>,
                     uploads: seq<string>, now: int) returns (reportId: nat)
      requires Valid() && HasUser(users, userId)
      modifies this
      ensures Valid()
      ensures reportId == NextId(old(reports), ReportKey)
      ensures reports == old(reports) +
                [Report(reportId, title, description, category, latitude, longitude, address, DEFAULT_STATUS, now, userId)]
      ensures photos == AddPhotos(old(photos), uploads, reportId)
      ensures PhotoCount(photos, reportId) == |Accepted(uploads)|
      ensures users == old(users) && votes == old(votes)
    {
      reportId := NextId(reports, ReportKey);
      var report := Report(reportId, title, description, category, latitude, longitude, address, DEFAULT_STATUS, now, userId);
      reports := reports + [report];
      var i := 0;
      while i < |uploads|
        invariant 0 <= i <= |uploads|
        invariant AddPhotos(photos, uploads[i..], reportId) == AddPhotos(old(photos), uploads, reportId)
        invariant users == old(users) && votes == old(votes) && reports == old(reports) + [report]
      {
        assert uploads[i..][1..] == uploads[i + 1..];
        if AllowedFile(uploads[i]) {
          photos := photos + [ReportPhoto(NextId(photos, PhotoKey), uploads[i], reportId)];
        }
        i := i + 1;
      }
      assert uploads[i..] == [];
      InsertKeepsIdsIncreasing(old(reports), ReportKey, report);
      AddPhotosKeepsIdsIncreasing(old(photos), uploads, reportId);
      PhotosOfNewReport(old(reports), old(photos), uploads, report);
      AuthorsOfNewReport(old(reports), users, report);
    }

    /** The new report's photos point at it, and it has exactly one per accepted upload. */
    static lemma PhotosOfNewReport(reports: seq<Report>, photos: seq<ReportPhoto>, uploads: seq<string>, report: Report)
      requires PhotosKnown(photos, reports)
      requires report.id == NextId(reports, ReportKey)
      ensures PhotosKnown(AddPhotos(photos, uploads, report.id), reports + [report])
      ensures PhotoCount(AddPhotos(photos, uploads, report.id), report.id) == |Accepted(uploads)|
    {
      var after := AddPhotos(photos, uploads, report.id);
      var reports' := reports + [report];
      AddPhotosRows(photos, uploads, report.id);
      AddPhotosCount(photos, uploads, report.id);
      forall j | 0 <= j < |photos| ensures photos[j].reportId != report.id {
        var k :| 0 <= k < |reports| && reports[k].id == photos[j].reportId;
        assert ReportKey(reports[k]) < report.id;
      }
      PhotoCountOfUnreferenced(photos, report.id);
      forall j | 0 <= j < |after| ensures HasReport(reports', after[j].reportId) {
        if j < |photos| {
          assert after[j] == photos[j];
          var k :| 0 <= k < |reports| && reports[k].id == photos[j].reportId;
          assert reports'[k] == reports[k];
        } else {
          var i := j - |photos|;
          assert 0 <= i < |Accepted(uploads)| && Accepted(uploads)[i] in Accepted(uploads);
          assert after[|photos| + i].reportId == report.id;
          assert reports'[|reports|] == report;
        }
      }
    }

    /** A report by a present user keeps every author present. */
    static lemma AuthorsOfNewReport(reports: seq<Report>, users: seq<User>, report: Report)
      requires AuthorsKnown(reports, users) && HasUser(users, report.userId)
      ensures AuthorsKnown(reports + [report], users)
    {
      var reports' := reports + [report];
      forall j | 0 <= j < |reports'| ensures HasUser(users, reports'[j].userId) {
        if j < |reports| {
          assert reports'[j] == reports[j];
        }
      }
    }

    /**
     * `vote_report`: no vote of the user on the report adds one; a vote of
     * the same type is deleted; a vote of another type takes the new type.
     */
    method VoteReport(userId: nat, reportId: nat, voteType: string)
      requires Valid() && HasUser(users, userId)
      modifies this
      ensures Valid()
      ensures votes == ToggleVote(old(votes), userId, reportId, voteType)
      ensures VoteOf(votes, userId, reportId) ==
              if old(VoteOf(votes, userId, reportId)) == Some(voteType) then None else Some(voteType)
      ensures OtherPairs(votes, userId, reportId) == OtherPairs(old(votes), userId, reportId)
      ensures users == old(users) && reports == old(reports) && photos == old(photos)
    {
      var existing := FindVote(votes, userId, reportId);
      match existing {
        case Some(k) =>
          if votes[k].voteType == voteType {
            votes := votes[..k] + votes[k + 1..];
          } else {
            votes := votes[k := votes[k].(voteType := voteType)];
          }
        case None =>
          votes := votes + [Vote(NextId(votes, VoteKey), voteType, userId, reportId)];
      }
      ToggleVoteKeepsOnePerPair(old(votes), userId, reportId, voteType);
      ToggleVoteKeepsIdsIncreasing(old(votes), userId, reportId, voteType);
      ToggleVoteState(old(votes), userId, reportId, voteType);
      ToggleVoteFrame(old(votes), userId, reportId, voteType);
    }

    /** `toggle_dark_mode`: negate the logged-in user's dark-mode flag and answer its new value. */
    method ToggleDarkMode(userId: nat) returns (darkMode: bool)
      requires Valid() && HasUser(users, userId)
      modifies this
      ensures Valid()
      ensures var k := FindUser(old(users), userId).value;
              users == old(users)[k := FlipDarkMode(old(users)[k])] && darkMode == users[k].isDarkMode
      ensures reports == old(reports) && photos == old(photos) && votes == old(votes)
    {
      var k := FindUser(users, userId).value;
      users := users[k := FlipDarkMode(users[k])];
      darkMode := users[k].isDarkMode;
      AuthorsStayKnown(reports, old(users), users);
      assert forall i :: 0 <= i < |users| ==> UserKey(users[i]) == UserKey(old(users)[i]);
    }

    /** `toggle_notifications`: negate the logged-in user's notifications flag and answer its new value. */
    method ToggleNotifications(userId: nat) returns (notifications: bool)
      requires Valid() && HasUser(users, userId)
      modifies this
      ensures Valid()
      ensures var k := FindUser(old(users), userId).value;
              users == old(users)[k := FlipNotifications(old(users)[k])] && notifications == users[k].notificationsEnabled
      ensures reports == old(reports) && photos == old(photos) && votes == old(votes)
    {
      var k := FindUser(users, userId).value;
      users := users[k := FlipNotifications(users[k])];
      notifications := users[k].notificationsEnabled;
      AuthorsStayKnown(reports, old(users), users);
      assert forall i :: 0 <= i < |users| ==> UserKey(users[i]) == UserKey(old(users)[i]);
    }

    /** `api_reports`: the 50 newest reports in their API view, built one element at a time. */
    method ApiReports() returns (data: seq<ReportJson>)
      requires Valid()
      ensures data == ApiPayload(reports, users, photos)
    {
      var recent := Recent(reports, API_LIMIT);
      RecentAuthorsKnown(reports, users, API_LIMIT);
      data := [];
      for i := 0 to |recent|
        invariant |data| == i
        invariant forall j :: 0 <= j < i ==> data[j] == ToJson(recent[j], users, photos)
      {
        data := data + [ToJson(recent[i], users, photos)];
      }
    }
  }
}
