/**
 * The read side: newest-first listings with their limits (`index`,
 * `dashboard`, `api_reports`), `search`, and the JSON projection of
 * `api_reports`.
 */
module Queries {
  import opened Wrappers
  import opened Text
  import opened Records
  import opened Photos

  const INDEX_LIMIT: nat := 10
  const DASHBOARD_LIMIT: nat := 20
  const API_LIMIT: nat := 50
  /** How much of a description the API shows before the ellipsis. */
  const SUMMARY_LENGTH: nat := 100

  /** `order_by(Report.created_at.desc())` holds of the sequence. */
  ghost predicate NewestFirstOrder(rs: seq<Report>)
  {
    forall i, j :: 0 <= i < j < |rs| ==> rs[i].createdAt >= rs[j].createdAt
  }

  /** Places `r` before the first report that is not newer than it. */
  function InsertByDate(r: Report, rs: seq<Report>): seq<Report>
  {
    if rs == [] || rs[0].createdAt <= r.createdAt then [r] + rs
    else [rs[0]] + InsertByDate(r, rs[1..])
  }

  /**
   * The reports ordered by creation time, newest first. SQL leaves the order
   * of equal timestamps open; this ordering keeps them in table order.
   */
  function NewestFirst(rs: seq<Report>): seq<Report>
  {
    if rs == [] then [] else InsertByDate(rs[0], NewestFirst(rs[1..]))
  }

  lemma {:induction false} InsertByDateCounts(r: Report, rs: seq<Report>)
    ensures multiset(InsertByDate(r, rs)) == multiset(rs) + multiset{r}
  {
    if rs != [] && rs[0].createdAt > r.createdAt {
      InsertByDateCounts(r, rs[1..]);
      assert rs == [rs[0]] + rs[1..];
    }
  }

  /** Inserting a report no newer than `t` among reports no newer than `t` gives reports no newer than `t`. */
  lemma {:induction false} InsertByDateBounded(r: Report, rs: seq<Report>, t: int)
    requires r.createdAt <= t
    requires forall x :: x in rs ==> x.createdAt <= t
    ensures forall x :: x in InsertByDate(r, rs) ==> x.createdAt <= t
  {
    if rs != [] && rs[0].createdAt > r.createdAt {
      InsertByDateBounded(r, rs[1..], t);
    }
  }

  lemma {:induction false} InsertByDateOrder(r: Report, rs: seq<Report>)
    requires NewestFirstOrder(rs)
    ensures NewestFirstOrder(InsertByDate(r, rs))
  {
    if rs != [] && rs[0].createdAt > r.createdAt {
      var rest := rs[1..];
      InsertByDateOrder(r, rest);
      InsertByDateBounded(r, rest, rs[0].createdAt);
      var ins := InsertByDate(r, rest);
      var out := [rs[0]] + ins;
      forall i, j | 0 <= i < j < |out| ensures out[i].createdAt >= out[j].createdAt {
        assert out[j] == ins[j - 1];
        if i > 0 {
          assert out[i] == ins[i - 1];
        }
      }
    }
  }

  /** NewestFirst is a newest-first arrangement of exactly the given reports. */
  lemma {:induction false} NewestFirstSorts(rs: seq<Report>)
    ensures multiset(NewestFirst(rs)) == multiset(rs)
    ensures |NewestFirst(rs)| == |rs|
    ensures NewestFirstOrder(NewestFirst(rs))
  {
    if rs != [] {
      NewestFirstSorts(rs[1..]);
      InsertByDateCounts(rs[0], NewestFirst(rs[1..]));
      InsertByDateOrder(rs[0], NewestFirst(rs[1..]));
      assert rs == [rs[0]] + rs[1..];
    }
    assert |multiset(NewestFirst(rs))| == |multiset(rs)|;
  }

  /** The `limit` newest reports, as `.order_by(created_at.desc()).limit(limit)` returns them. */
  function Recent(rs: seq<Report>, limit: nat): seq<Report>
  {
    var sorted := NewestFirst(rs);
    sorted[..Min(limit, |sorted|)]
  }

  /**
   * A limited listing holds min(limit, |rs|) reports, is a prefix of the
   * full newest-first order, and lists only reports of the table.
   */
  lemma RecentIsNewestPrefix(rs: seq<Report>, limit: nat)
    ensures |Recent(rs, limit)| == Min(limit, |rs|)
    ensures Recent(rs, limit) <= NewestFirst(rs)
    ensures NewestFirstOrder(Recent(rs, limit))
    ensures multiset(Recent(rs, limit)) <= multiset(rs)
  {
    var sorted := NewestFirst(rs);
    NewestFirstSorts(rs);
    var n := Min(limit, |sorted|);
    assert sorted == sorted[..n] + sorted[n..];
    assert multiset(sorted) == multiset(sorted[..n]) + multiset(sorted[n..]);
  }

  /** Every report a limited listing leaves out is no newer than any report it lists. */
  lemma RecentOmitsOnlyOlder(rs: seq<Report>, limit: nat)
    ensures forall x, y :: x in multiset(rs) - multiset(Recent(rs, limit)) && y in Recent(rs, limit) ==>
              x.createdAt <= y.createdAt
  {
    var sorted := NewestFirst(rs);
    NewestFirstSorts(rs);
    var n := Min(limit, |sorted|);
    var listed := sorted[..n];
    var rest := sorted[n..];
    assert sorted == listed + rest;
    assert multiset(rs) == multiset(listed) + multiset(rest);
    forall x: Report, y: Report | x in multiset(rs) - multiset(listed) && y in listed
      ensures x.createdAt <= y.createdAt
    {
      assert multiset(rest)[x] > 0;
      OrderedSplit(sorted, n, x, y);
    }
  }

  /** In a newest-first sequence nothing after position `n` is newer than anything before it. */
  lemma OrderedSplit(sorted: seq<Report>, n: nat, x: Report, y: Report)
    requires NewestFirstOrder(sorted) && n <= |sorted|
    requires x in sorted[n..] && y in sorted[..n]
    ensures x.createdAt <= y.createdAt
  {
    var j :| 0 <= j < |sorted[n..]| && sorted[n..][j] == x;
    var i :| 0 <= i < n && sorted[..n][i] == y;
    assert sorted[n + j] == x && sorted[i] == y;
  }

  /** The front page lists the 10 newest reports. */
  function IndexReports(rs: seq<Report>): seq<Report>
  {
    Recent(rs, INDEX_LIMIT)
  }

  /** The dashboard's community list shows the 20 newest reports. */
  function DashboardRecent(rs: seq<Report>): seq<Report>
  {
    Recent(rs, DASHBOARD_LIMIT)
  }

  /** The listings hold at most 10, 20 and 50 reports, each a prefix of the full newest-first order. */
  lemma ListingLimits(rs: seq<Report>)
    ensures |IndexReports(rs)| <= INDEX_LIMIT && IndexReports(rs) <= NewestFirst(rs)
    ensures |DashboardRecent(rs)| <= DASHBOARD_LIMIT && DashboardRecent(rs) <= NewestFirst(rs)
    ensures |Recent(rs, API_LIMIT)| <= API_LIMIT && Recent(rs, API_LIMIT) <= NewestFirst(rs)
    ensures |rs| >= API_LIMIT ==> |Recent(rs, API_LIMIT)| == API_LIMIT
  {
    RecentIsNewestPrefix(rs, INDEX_LIMIT);
    RecentIsNewestPrefix(rs, DASHBOARD_LIMIT);
    RecentIsNewestPrefix(rs, API_LIMIT);
  }

  /** The reports for which `keep` holds, in table order. */
  function Filter(rs: seq<Report>, keep: Report -> bool): seq<Report>
  {
    if rs == [] then []
    else (if keep(rs[0]) then [rs[0]] else []) + Filter(rs[1..], keep)
  }

  /** Filter keeps every copy of a report that passes and no copy of one that does not. */
  lemma {:induction false} FilterCounts(rs: seq<Report>, keep: Report -> bool)
    ensures forall x :: multiset(Filter(rs, keep))[x] == if keep(x) then multiset(rs)[x] else 0
  {
    if rs != [] {
      FilterCounts(rs[1..], keep);
      assert rs == [rs[0]] + rs[1..];
    }
  }

  /** The reports of user `userId`, newest first: the dashboard's own list. */
  function UserReports(rs: seq<Report>, userId: nat): seq<Report>
  {
    NewestFirst(Filter(rs, OwnedBy(userId)))
  }

  function OwnedBy(userId: nat): Report -> bool
  {
    (r: Report) => r.userId == userId
  }

  /**
   * The dashboard's own list is exactly the user's reports, each as often as
   * in the table, newest first.
   */
  lemma UserReportsAreOwn(rs: seq<Report>, userId: nat)
    ensures forall x :: x in UserReports(rs, userId) <==> x in rs && x.userId == userId
    ensures forall x :: multiset(UserReports(rs, userId))[x] == if x.userId == userId then multiset(rs)[x] else 0
    ensures NewestFirstOrder(UserReports(rs, userId))
  {
    FilterCounts(rs, OwnedBy(userId));
    NewestFirstSorts(Filter(rs, OwnedBy(userId)));
    forall x ensures x in UserReports(rs, userId) <==> x in rs && x.userId == userId {
      assert x in UserReports(rs, userId) <==> x in multiset(UserReports(rs, userId));
      assert x in rs <==> x in multiset(rs);
    }
  }

  /**
   * The search conditions, one per non-empty parameter: the text in the title
   * or the description, the city in the address (a report without an address
   * never matches a city), the category equal.
   */
  predicate Matches(r: Report, query: string, city: string, category: string)
  {
    && (query == "" || LikeContains(r.title, query) || LikeContains(r.description, query))
    && (city == "" || (r.address.Some? && LikeContains(r.address.value, city)))
    && (category == "" || r.category == category)
  }

  function MatchesAll(query: string, city: string, category: string): Report -> bool
  {
    (r: Report) => Matches(r, query, city, category)
  }

  /** `search`: the matching reports, newest first. */
  function Search(rs: seq<Report>, query: string, city: string, category: string): seq<Report>
  {
    NewestFirst(Filter(rs, MatchesAll(query, city, category)))
  }

  /**
   * Every report returned matches every non-empty condition, every matching
   * report is returned (as often as it is in the table), and the results are
   * newest first.
   */
  lemma SearchSoundAndComplete(rs: seq<Report>, query: string, city: string, category: string)
    ensures forall x :: x in Search(rs, query, city, category) <==> x in rs && Matches(x, query, city, category)
    ensures forall x :: Matches(x, query, city, category) ==>
              multiset(Search(rs, query, city, category))[x] == multiset(rs)[x]
    ensures NewestFirstOrder(Search(rs, query, city, category))
  {
    var keep := MatchesAll(query, city, category);
    FilterCounts(rs, keep);
    NewestFirstSorts(Filter(rs, keep));
    forall x ensures x in Search(rs, query, city, category) <==> x in rs && Matches(x, query, city, category) {
      assert x in Search(rs, query, city, category) <==> x in multiset(Search(rs, query, city, category));
      assert x in rs <==> x in multiset(rs);
    }
  }

  /** An empty parameter imposes no condition: searching with none lists every report, newest first. */
  lemma SearchWithoutFilters(rs: seq<Report>)
    ensures Search(rs, "", "", "") == NewestFirst(rs)
  {
    FilterKeepsAll(rs, MatchesAll("", "", ""));
  }

  lemma {:induction false} FilterKeepsAll(rs: seq<Report>, keep: Report -> bool)
    requires forall x :: keep(x)
    ensures Filter(rs, keep) == rs
  {
    if rs != [] {
      FilterKeepsAll(rs[1..], keep);
    }
  }

  /** The API's description: its first 100 characters followed by an ellipsis. */
  function Summary(description: string): string
  {
    description[..Min(SUMMARY_LENGTH, |description|)] + "..."
  }

  /**
   * The ellipsis is always appended: a description of at most 100 characters
   * is kept whole, a longer one is cut to its first 100.
   */
  lemma SummaryShape(description: string)
    ensures |description| <= SUMMARY_LENGTH ==> Summary(description) == description + "..."
    ensures |description| > SUMMARY_LENGTH ==>
              |Summary(description)| == SUMMARY_LENGTH + 3 &&
              Summary(description)[..SUMMARY_LENGTH] == description[..SUMMARY_LENGTH]
    ensures Summary(description)[|Summary(description)| - 3..] == "..."
  {
  }

  /** One element of the `/api/reports` answer. */
  datatype ReportJson = ReportJson(
    id: nat,
    title: string,
    description: string,
    category: string,
    latitude: Option<Coordinate>,
    longitude: Option<Coordinate>,
    address: Option<string>,
    status: string,
    createdAt: int,
    author: string,
    photoCount: nat)

  /** Every report's author is a user of the table. */
  ghost predicate AuthorsKnown(rs: seq<Report>, users: seq<User>)
  {
    forall i :: 0 <= i < |rs| ==> HasUser(users, rs[i].userId)
  }

  /** A limited listing's authors are users of the table. */
  lemma RecentAuthorsKnown(rs: seq<Report>, users: seq<User>, limit: nat)
    requires AuthorsKnown(rs, users)
    ensures AuthorsKnown(Recent(rs, limit), users)
  {
    var recent := Recent(rs, limit);
    RecentIsNewestPrefix(rs, limit);
    forall i | 0 <= i < |recent| ensures HasUser(users, recent[i].userId) {
      assert recent[i] in multiset(rs);
      var k :| 0 <= k < |rs| && rs[k] == recent[i];
    }
  }

  /** The API view of report `r`: its columns, a summary of its description, its author's username and its number of photos. */
  function ToJson(r: Report, users: seq<User>, photos: seq<ReportPhoto>): ReportJson
    requires HasUser(users, r.userId)
  {
    var author := users[FindUser(users, r.userId).value];
    ReportJson(r.id, r.title, Summary(r.description), r.category, r.latitude, r.longitude,
               r.address, r.status, r.createdAt, author.username, PhotoCount(photos, r.id))
  }

  /** The `/api/reports` answer: the 50 newest reports, newest first, in their API view. */
  function ApiPayload(rs: seq<Report>, users: seq<User>, photos: seq<ReportPhoto>): seq<ReportJson>
    requires AuthorsKnown(rs, users)
  {
    var recent := Recent(rs, API_LIMIT);
    RecentAuthorsKnown(rs, users, API_LIMIT);
    seq(|recent|, i requires 0 <= i < |recent| => ToJson(recent[i], users, photos))
  }

  /**
   * The answer has one element per listed report, at most 50, ordered newest
   * first; each carries its report's key, title, timestamp, category,
   * coordinates, address and status, the summary of its description, the
   * username of its author and the number of photos that belong to it.
   */
  lemma ApiPayloadShape(rs: seq<Report>, users: seq<User>, photos: seq<ReportPhoto>)
    requires AuthorsKnown(rs, users)
    ensures var p := ApiPayload(rs, users, photos);
            |p| == Min(API_LIMIT, |rs|) &&
            (forall i, j :: 0 <= i < j < |p| ==> p[i].createdAt >= p[j].createdAt) &&
            forall i :: 0 <= i < |p| ==>
              var r := Recent(rs, API_LIMIT)[i];
              r in rs && p[i].id == r.id && p[i].title == r.title && p[i].createdAt == r.createdAt &&
              p[i].description == Summary(r.description) && p[i].category == r.category &&
              p[i].latitude == r.latitude && p[i].longitude == r.longitude &&
              p[i].address == r.address && p[i].status == r.status &&
              (exists k :: 0 <= k < |users| && users[k].id == r.userId && p[i].author == users[k].username) &&
              p[i].photoCount == PhotoCount(photos, r.id)
  {
    var recent := Recent(rs, API_LIMIT);
    RecentIsNewestPrefix(rs, API_LIMIT);
    RecentAuthorsKnown(rs, users, API_LIMIT);
    var p := ApiPayload(rs, users, photos);
    forall i | 0 <= i < |p|
      ensures exists k :: 0 <= k < |users| && users[k].id == recent[i].userId && p[i].author == users[k].username
    {
      assert HasUser(users, recent[i].userId);
      var k := FindUser(users, recent[i].userId).value;
      assert 0 <= k < |users| && users[k].id == recent[i].userId && p[i].author == users[k].username;
    }
    forall i | 0 <= i < |p| ensures recent[i] in rs {
      assert recent[i] in multiset(rs);
    }
    forall i, j | 0 <= i < j < |p| ensures p[i].createdAt >= p[j].createdAt {
      assert p[i].createdAt == recent[i].createdAt && p[j].createdAt == recent[j].createdAt;
    }
  }
}
