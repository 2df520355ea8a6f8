/** The browser client's connection to the Jira REST API: the constructor
    derives the search URL and the Basic authorisation header, `getJQL`
    builds the query, and `getIssues` pages through the search results, ten
    issues a request, reports progress, shapes each issue into a table row and
    sorts the rows by issue number. The server is a function from the page
    offset to the issues it returns there. */
module JiraApi {
  import opened Wrappers
  import opened Text
  import Base64
  import Sorting
  import opened Comparators
  import opened Arithmetic

  /** Issues asked for per request (`fetchCount`). */
  const FetchCount: int := 10

  /** The offset at which the loop stops after fetching that page. */
  const LastOffset: int := 100

  datatype Header = Header(name: string, value: string)

  /** The fields of a `JiraAPI` object; none of them changes after construction. */
  datatype JiraApi = JiraApi(
    username: string,
    password: string,
    project: string,
    originURL: string,
    searchURL: string,
    headers: seq<Header>)

  /** `new JiraAPI(jiraUrl, username, password, project)`, given the origin
      of `jiraUrl`. None where `btoa` throws: the credentials hold a character
      above U+00FF. */
  function NewJiraApi(origin: string, username: string, password: string, project: string): (r: Option<JiraApi>)
    ensures r.Some? <==> Base64.Btoa(username + ":" + password).Some?
    ensures r.Some? ==> r.value.username == username && r.value.password == password && r.value.project == project
    ensures r.Some? ==> r.value.originURL == origin && r.value.searchURL == origin + "/rest/api/2/search"
  {
    match Base64.Btoa(username + ":" + password)
    case None => None
    case Some(credentials) =>
      Some(JiraApi(username, password, project, origin, origin + "/rest/api/2/search",
                   [Header("Content-Type", "application/json"), Header("Authorization", "Basic " + credentials)]))
  }

  /** The client sends JSON and authorises with "Basic " followed by the
      base 64 encoding of "username:password", which decodes back to them. */
  lemma AuthorizationHeader(origin: string, username: string, password: string, project: string)
    requires NewJiraApi(origin, username, password, project).Some?
    ensures var api := NewJiraApi(origin, username, password, project).value;
            |api.headers| == 2 &&
            api.headers[0] == Header("Content-Type", "application/json") &&
            api.headers[1].name == "Authorization" &&
            |api.headers[1].value| >= 6 && api.headers[1].value[..6] == "Basic " &&
            Base64.Decode(api.headers[1].value[6..]) == Base64.Latin1Bytes(username + ":" + password)
  {
    var api := NewJiraApi(origin, username, password, project).value;
    var credentials := Base64.Btoa(username + ":" + password).value;
    assert api.headers[1].value == "Basic " + credentials;
    assert api.headers[1].value[6..] == credentials;
    Base64.BtoaDecodes(username + ":" + password);
  }

  /** `getJQL`: the words "project =" and the project, joined by a space,
      which is the one clause "project = " + the project. */
  function GetJql(api: JiraApi): (jql: string)
    ensures jql == "project = " + api.project
  {
    var parts := ["project =", api.project];
    assert parts[..1] == ["project ="];
    assert Join(" ", parts[..1]) == "project =";
    Join(" ", parts)
  }

  datatype NameAndIcon = NameAndIcon(name: string, iconUrl: string)

  /** The fields of one issue of a search reply that the client reads. */
  datatype RawIssue = RawIssue(
    key: string,
    issueType: NameAndIcon,
    priority: NameAndIcon,
    status: string,
    summary: string,
    labels: seq<string>,
    created: string,
    duedate: Option<string>,
    updated: string)

  /** One row of the issue table. */
  datatype Row = Row(
    issueType: NameAndIcon,
    key: Key,
    priority: NameAndIcon,
    status: string,
    summary: string,
    tags: seq<string>,
    dateCreated: string,
    dateRelease: Option<string>,
    dateUpdated: string)

  /** The row built from an issue: its key links to `origin/browse/KEY` and
      the release date is the due date. */
  function ToRow(origin: string, e: RawIssue): Row {
    Row(e.issueType, Key(e.key, origin + "/browse/" + e.key), e.priority, e.status, e.summary,
        e.labels, e.created, e.duedate, e.updated)
  }

  /** The comparator the rows are sorted with. */
  function RowOrder(a: Row, b: Row): int {
    KeyOrder(a.key, b.key)
  }

  /** The offsets requested from `i` on: one per step of ten while below
      `total`, the last one being the first at or beyond 100. */
  function PageStartsFrom(i: int, total: int): seq<int>
    decreases total - i
  {
    if i >= total then []
    else if i >= LastOffset then [i]
    else [i] + PageStartsFrom(i + FetchCount, total)
  }

  function PageStarts(total: int): seq<int> {
    PageStartsFrom(0, total)
  }

  /** The number of requests: ceil(total / 10), at most 11. */
  function PageCount(total: int): int {
    if total <= 0 then 0
    else if (total + FetchCount - 1) / FetchCount < 11 then (total + FetchCount - 1) / FetchCount
    else 11
  }

  lemma {:induction false} PageStartsFromShape(j: nat, total: int)
    requires j <= 10
    ensures var ps := PageStartsFrom(FetchCount * j, total);
            |ps| == (if FetchCount * j >= total then 0 else PageCount(total) - j) &&
            forall k | 0 <= k < |ps| :: ps[k] == FetchCount * (j + k) && ps[k] < total
    decreases 10 - j
  {
    var ps := PageStartsFrom(FetchCount * j, total);
    if FetchCount * j >= total {
    } else if j == 10 {
      assert ps == [100];
    } else {
      PageStartsFromShape(j + 1, total);
      var rest := PageStartsFrom(FetchCount * (j + 1), total);
      assert ps == [FetchCount * j] + rest;
      forall k | 0 <= k < |ps| ensures ps[k] == FetchCount * (j + k) && ps[k] < total {
        if k > 0 {
          assert ps[k] == rest[k - 1];
        }
      }
    }
  }

  /** The requests go to offsets 0, 10, 20, ... below `total`, and there are
      min(ceil(total / 10), 11) of them. */
  lemma PageStartsShape(total: int)
    ensures var ps := PageStarts(total);
            |ps| == PageCount(total) &&
            forall k | 0 <= k < |ps| :: ps[k] == FetchCount * k && 0 <= ps[k] < total
  {
    PageStartsFromShape(0, total);
  }

  lemma TwentyFiveIssues()
    ensures PageStarts(25) == [0, 10, 20]
  {
  }

  lemma ManyIssues()
    ensures PageStarts(1000) == [0, 10, 20, 30, 40, 50, 60, 70, 80, 90, 100]
  {
  }

  /** `Math.round(len / total * 100)` on the exact quotient: the integer
      nearest to 100 * len / total, halves rounded up. */
  function Progress(len: int, total: int): int
    requires total > 0
  {
    (200 * len + total) / (2 * total)
  }

  /** The progress is the rounded percentage: 100 * len / total lies in
      [p - 1/2, p + 1/2). */
  lemma ProgressRounds(len: int, total: int)
    requires total > 0
    ensures var p := Progress(len, total);
            2 * total * p <= 200 * len + total < 2 * total * p + 2 * total
  {
    var x, d := 200 * len + total, 2 * total;
    assert x == d * (x / d) + x % d;
  }

  /** All issues fetched is 100 per cent. */
  lemma ProgressComplete(total: int)
    requires total > 0
    ensures Progress(total, total) == 100
  {
    var p := Progress(total, total);
    ProgressRounds(total, total);
    assert 2 * total * (p - 100) == 2 * total * p - 200 * total;
    MulBelowOne(2 * total, p - 100);
    MulAboveMinusOne(2 * total, p - 100);
  }

  /** Fetching more never lowers the progress. */
  lemma ProgressMonotone(a: int, b: int, total: int)
    requires total > 0 && a <= b
    ensures Progress(a, total) <= Progress(b, total)
  {
    DivMonotone(200 * a + total, 200 * b + total, 2 * total);
  }

  /** Up to all issues fetched, progress lies between 0 and 100. */
  lemma ProgressBounds(len: int, total: int)
    requires total > 0 && 0 <= len <= total
    ensures 0 <= Progress(len, total) <= 100
  {
    ProgressMonotone(len, total, total);
    ProgressComplete(total);
    var p := Progress(len, total);
    ProgressRounds(len, total);
    MulAboveMinusOne(2 * total, p);
  }

  /** The rows of one page, in order. */
  function PageRows(origin: string, page: seq<RawIssue>): (rows: seq<Row>)
    ensures |rows| == |page|
    ensures forall k | 0 <= k < |page| :: rows[k] == ToRow(origin, page[k])
    decreases |page|
  {
    if page == [] then [] else PageRows(origin, page[..|page| - 1]) + [ToRow(origin, page[|page| - 1])]
  }

  /** All rows fetched by the requests to `starts`, page after page. */
  function Fetched(origin: string, server: int -> seq<RawIssue>, starts: seq<int>): seq<Row>
    decreases |starts|
  {
    if starts == [] then []
    else Fetched(origin, server, starts[..|starts| - 1]) + PageRows(origin, server(starts[|starts| - 1]))
  }

  /** The progress reported after each of the requests to `starts`. */
  function Reports(origin: string, server: int -> seq<RawIssue>, starts: seq<int>, total: int): (r: seq<int>)
    requires starts == [] || total > 0
    ensures |r| == |starts|
    decreases |starts|
  {
    if starts == [] then []
    else Reports(origin, server, starts[..|starts| - 1], total) + [Progress(|Fetched(origin, server, starts)|, total)]
  }

  /** `getIssues`: the offsets requested, the progress reports in order and
      the sorted rows. */
  method GetIssues(api: JiraApi, total: int, server: int -> seq<RawIssue>)
      returns (rows: seq<Row>, requests: seq<int>, progress: seq<int>)
    ensures requests == PageStarts(total)
    ensures requests == [] || total > 0
    ensures progress == [0] + Reports(api.originURL, server, requests, total) + [100]
    ensures rows == Sorting.Sort(Fetched(api.originURL, server, requests), RowOrder)
  {
    var origin := api.originURL;
    progress := [0];
    var result: seq<Row> := [];
    requests := [];
    var i := 0;
    ghost var all := PageStarts(total);
    while i < total
      invariant 0 <= i
      invariant requests == [] || total > 0
      invariant requests + PageStartsFrom(i, total) == all
      invariant result == Fetched(origin, server, requests)
      invariant progress == [0] + Reports(origin, server, requests, total)
      decreases total - i
    {
      var fetched := PushRows(result, origin, server(i));
      LoopStep(origin, server, total, all, i, requests, result, progress, fetched);
      result := fetched;
      requests := requests + [i];
      progress := progress + [Progress(|result|, total)];
      if i >= LastOffset {
        break;
      }
      i := i + FetchCount;
    }
    progress := progress + [100];
    rows := Sorting.Sort(result, RowOrder);
  }

  /** The inner loop of `getIssues`: one row pushed per issue of the page. */
  method PushRows(result: seq<Row>, origin: string, page: seq<RawIssue>) returns (r: seq<Row>)
    ensures r == result + PageRows(origin, page)
  {
    r := result;
    var k := 0;
    while k < |page|
      invariant 0 <= k <= |page|
      invariant r == result + PageRows(origin, page[..k])
    {
      assert page[..k + 1][..k] == page[..k];
      r := r + [ToRow(origin, page[k])];
      k := k + 1;
    }
    assert page[..|page|] == page;
  }

  lemma FetchedSnoc(origin: string, server: int -> seq<RawIssue>, starts: seq<int>, i: int)
    ensures Fetched(origin, server, starts + [i]) == Fetched(origin, server, starts) + PageRows(origin, server(i))
  {
    assert (starts + [i])[..|starts|] == starts;
  }

  lemma ReportsSnoc(origin: string, server: int -> seq<RawIssue>, starts: seq<int>, i: int, total: int)
    requires total > 0
    ensures Reports(origin, server, starts + [i], total)
            == Reports(origin, server, starts, total) + [Progress(|Fetched(origin, server, starts + [i])|, total)]
  {
    assert (starts + [i])[..|starts|] == starts;
  }

  /** One round of the loop of `GetIssues` keeps its invariant. */
  lemma LoopStep(origin: string, server: int -> seq<RawIssue>, total: int, all: seq<int>, i: int,
                 requests: seq<int>, result: seq<Row>, progress: seq<int>, fetched: seq<Row>)
    requires 0 <= i < total
    requires requests + PageStartsFrom(i, total) == all
    requires result == Fetched(origin, server, requests)
    requires progress == [0] + Reports(origin, server, requests, total)
    requires fetched == result + PageRows(origin, server(i))
    ensures fetched == Fetched(origin, server, requests + [i])
    ensures progress + [Progress(|fetched|, total)] == [0] + Reports(origin, server, requests + [i], total)
    ensures i >= LastOffset ==> requests + [i] == all
    ensures i < LastOffset ==> (requests + [i]) + PageStartsFrom(i + FetchCount, total) == all
  {
    FetchedSnoc(origin, server, requests, i);
    ReportsSnoc(origin, server, requests, i, total);
    PageStartsAdvance(requests, i, total, all);
    var r := Reports(origin, server, requests, total);
    assert ([0] + r) + [Progress(|fetched|, total)] == [0] + (r + [Progress(|fetched|, total)]);
  }

  /** The offsets left after requesting `i`. */
  lemma PageStartsAdvance(requests: seq<int>, i: int, total: int, all: seq<int>)
    requires i < total
    requires requests + PageStartsFrom(i, total) == all
    ensures i >= LastOffset ==> requests + [i] == all
    ensures i < LastOffset ==> (requests + [i]) + PageStartsFrom(i + FetchCount, total) == all
  {
    if i < LastOffset {
      var rest := PageStartsFrom(i + FetchCount, total);
      assert PageStartsFrom(i, total) == [i] + rest;
      assert requests + ([i] + rest) == (requests + [i]) + rest;
    }
  }

  /** With no issues nothing is requested, progress goes from 0 straight to
      100 and the table is empty. */
  lemma NoIssues(origin: string, server: int -> seq<RawIssue>, total: int)
    requires total <= 0
    ensures PageStarts(total) == []
    ensures [0] + Reports(origin, server, PageStarts(total), total) + [100] == [0, 100]
    ensures Sorting.Sort(Fetched(origin, server, PageStarts(total)), RowOrder) == []
  {
  }

  ghost predicate NonDecreasing(r: seq<int>) {
    forall i, j | 0 <= i < j < |r| :: r[i] <= r[j]
  }

  /** Progress never goes down from one page to the next. */
  lemma {:induction false} ReportsMonotone(origin: string, server: int -> seq<RawIssue>, starts: seq<int>, total: int)
    requires total > 0
    ensures NonDecreasing(Reports(origin, server, starts, total))
    decreases |starts|
  {
    if starts != [] {
      var init := starts[..|starts| - 1];
      ReportsMonotone(origin, server, init, total);
      var r := Reports(origin, server, starts, total);
      var r0 := Reports(origin, server, init, total);
      assert r == r0 + [Progress(|Fetched(origin, server, starts)|, total)];
      forall i | 0 <= i < |r0| ensures r0[i] <= r[|r| - 1] {
        FetchedPrefix(origin, server, starts, i + 1);
        ReportAt(origin, server, starts, i, total);
        assert r0[i] == r[i];
        ProgressMonotone(|Fetched(origin, server, starts[..i + 1])|, |Fetched(origin, server, starts)|, total);
      }
      forall i, j | 0 <= i < j < |r| ensures r[i] <= r[j] {
        assert r[i] == r0[i];
        if j < |r0| {
          assert r[j] == r0[j];
        } else {
          assert j == |r| - 1;
        }
      }
    }
  }

  /** The i-th report is the progress after the first i + 1 requests. */
  lemma {:induction false} ReportAt(origin: string, server: int -> seq<RawIssue>, starts: seq<int>, i: int, total: int)
    requires total > 0 && 0 <= i < |starts|
    ensures Reports(origin, server, starts, total)[i] == Progress(|Fetched(origin, server, starts[..i + 1])|, total)
    decreases |starts|
  {
    var init := starts[..|starts| - 1];
    if i < |starts| - 1 {
      ReportAt(origin, server, init, i, total);
      assert init[..i + 1] == starts[..i + 1];
    } else {
      assert starts[..i + 1] == starts;
    }
  }

  /** Later requests only add rows behind the earlier ones. */
  lemma {:induction false} FetchedPrefix(origin: string, server: int -> seq<RawIssue>, starts: seq<int>, n: int)
    requires 0 <= n <= |starts|
    ensures |Fetched(origin, server, starts[..n])| <= |Fetched(origin, server, starts)|
    ensures Fetched(origin, server, starts[..n]) <= Fetched(origin, server, starts)
    decreases |starts|
  {
    if n < |starts| {
      var init := starts[..|starts| - 1];
      FetchedPrefix(origin, server, init, n);
      assert init[..n] == starts[..n];
    } else {
      assert starts[..n] == starts;
    }
  }

  /** Every row of `rows` links to its issue under `origin`. */
  ghost predicate LinksUnder(origin: string, rows: seq<Row>) {
    forall k | 0 <= k < |rows| :: rows[k].key.href == origin + "/browse/" + rows[k].key.code
  }

  /** Every fetched row links to its issue under the origin. */
  lemma {:induction false} FetchedLinks(origin: string, server: int -> seq<RawIssue>, starts: seq<int>)
    ensures LinksUnder(origin, Fetched(origin, server, starts))
    decreases |starts|
  {
    if starts != [] {
      var init := starts[..|starts| - 1];
      FetchedLinks(origin, server, init);
      var f0, page := Fetched(origin, server, init), PageRows(origin, server(starts[|starts| - 1]));
      var f := Fetched(origin, server, starts);
      assert f == f0 + page;
      forall k | 0 <= k < |f| ensures f[k].key.href == origin + "/browse/" + f[k].key.code {
        if k < |f0| {
          assert f[k] == f0[k];
        } else {
          assert f[k] == page[k - |f0|];
        }
      }
    }
  }

  /** Every key of `rows` carries a number. */
  ghost predicate AllNumbered(rows: seq<Row>) {
    forall k | 0 <= k < |rows| :: KeyNumber(rows[k].key.code).Some?
  }

  /** The table holds exactly the fetched rows. */
  lemma TableIsPermutation(origin: string, server: int -> seq<RawIssue>, starts: seq<int>)
    ensures multiset(Sorting.Sort(Fetched(origin, server, starts), RowOrder)) == multiset(Fetched(origin, server, starts))
  {
    Sorting.SortPermutation(Fetched(origin, server, starts), RowOrder);
  }

  /** Every row of the table links to its issue under the origin. */
  lemma TableLinks(origin: string, server: int -> seq<RawIssue>, starts: seq<int>)
    ensures LinksUnder(origin, Sorting.Sort(Fetched(origin, server, starts), RowOrder))
  {
    var f := Fetched(origin, server, starts);
    var rows := Sorting.Sort(f, RowOrder);
    FetchedLinks(origin, server, starts);
    Sorting.SortMembers(f, RowOrder);
    forall k | 0 <= k < |rows| ensures rows[k].key.href == origin + "/browse/" + rows[k].key.code {
      assert rows[k] in f;
      var m :| 0 <= m < |f| && f[m] == rows[k];
    }
  }

  /** When every key carries a number the table is in key order. */
  lemma TableSorted(rows: seq<Row>)
    requires AllNumbered(rows)
    ensures Sorting.Sorted(Sorting.Sort(rows, RowOrder), RowOrder)
  {
    RowOrderConsistent(rows);
    Sorting.SortSorted(rows, RowOrder);
  }

  /** Rows whose keys carry equal numbers keep the order they were fetched in. */
  lemma TableStable(rows: seq<Row>, z: Row)
    requires AllNumbered(rows) && KeyNumber(z.key.code).Some?
    ensures Sorting.Equivalents(Sorting.Sort(rows, RowOrder), z, RowOrder) == Sorting.Equivalents(rows, z, RowOrder)
  {
    var all := rows + [z];
    forall k | 0 <= k < |all| ensures KeyNumber(all[k].key.code).Some? {
      if k < |rows| {
        assert all[k] == rows[k];
      }
    }
    RowOrderConsistent(all);
    Sorting.SortStable(rows, z, RowOrder);
  }

  lemma RowOrderConsistent(s: seq<Row>)
    requires AllNumbered(s)
    ensures Sorting.ConsistentOn(RowOrder, s)
  {
    forall a, b | a in s && b in s
      ensures Sorting.Sign(RowOrder(a, b)) == -Sorting.Sign(RowOrder(b, a))
    {
      KeyOrderAntisymmetric(a.key, b.key);
    }
    forall a, b, c | a in s && b in s && c in s && Sorting.Le(RowOrder, a, b) && Sorting.Le(RowOrder, b, c)
      ensures Sorting.Le(RowOrder, a, c)
    {
      var i :| 0 <= i < |s| && s[i] == a;
      var j :| 0 <= j < |s| && s[j] == b;
      var k :| 0 <= k < |s| && s[k] == c;
      KeyOrderTransitive(a.key, b.key, c.key);
    }
  }
}
