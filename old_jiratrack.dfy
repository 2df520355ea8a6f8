/** The earlier command-line script: it lists the issues a user was assigned
    in a project, flattens each issue's changelog and comments into one
    time-ordered history, and replays that history through a small state
    machine to decide whether the issue is still open, came back from
    testing, or was reopened after closing. Comment lines of the form
    `/name value` written by the user are collected as notes, grouped by
    value. HTTP, JSON, the terminal and the spreadsheet writer are not part
    of this model: the fetched changelog and comments are inputs. */
module OldJiraTrack {
  import opened Wrappers
  import opened Text
  import Sorting

  // ---------------------------------------------------------------------
  // The client object
  // ---------------------------------------------------------------------

  /** The fields `Jira.__init__` sets. */
  datatype Jira = Jira(targetProject: string, targetUsername: string, username: string, password: string,
                       host: string, issueUrl: string, searchUrl: string)

  /** `if host[-1] != '/': host += '/'`; None where `host[-1]` raises on an
      empty host. */
  function NormalizeHost(host: string): (r: Option<string>)
    ensures r.None? <==> host == []
    ensures r.Some? ==> |r.value| >= 1 && r.value[|r.value| - 1] == '/'
    ensures r.Some? && host[|host| - 1] == '/' ==> r.value == host
    ensures r.Some? && host[|host| - 1] != '/' ==> r.value == host + "/"
  {
    if host == [] then None
    else if host[|host| - 1] != '/' then Some(host + "/")
    else Some(host)
  }

  /** Normalising a normalised host changes nothing. */
  lemma NormalizeHostIdempotent(host: string)
    requires host != []
    ensures NormalizeHost(NormalizeHost(host).value) == NormalizeHost(host)
  {
  }

  /** `Jira(host, username, password, target_project, target_username)`. */
  function NewJira(host: string, username: string, password: string, targetProject: string, targetUsername: string): (r: Option<Jira>)
    ensures r.None? <==> host == []
    ensures r.Some? ==> r.value.host == NormalizeHost(host).value
    ensures r.Some? ==> r.value.targetProject == targetProject && r.value.targetUsername == targetUsername
    ensures r.Some? ==> r.value.username == username && r.value.password == password
  {
    match NormalizeHost(host)
    case None => None
    case Some(h) => Some(Jira(targetProject, targetUsername, username, password, h, h + "rest/api/2/issue/", h + "rest/api/2/search"))
  }

  /** The host without its trailing slash, if it has one. */
  function HostBase(host: string): string
    requires host != []
  {
    if host[|host| - 1] == '/' then host[..|host| - 1] else host
  }

  lemma NormalizeHostBase(host: string)
    requires host != []
    ensures NormalizeHost(host).value == HostBase(host) + "/"
  {
  }

  /** The search and issue endpoints sit under the host with exactly one
      slash between them, whether or not the host ended in one. */
  lemma EndpointsUnderHost(host: string, username: string, password: string, targetProject: string, targetUsername: string)
    requires host != []
    ensures NewJira(host, username, password, targetProject, targetUsername).value.searchUrl == HostBase(host) + "/rest/api/2/search"
    ensures NewJira(host, username, password, targetProject, targetUsername).value.issueUrl == HostBase(host) + "/rest/api/2/issue/"
  {
    NormalizeHostBase(host);
    assert "/" + "rest/api/2/search" == "/rest/api/2/search";
    assert "/" + "rest/api/2/issue/" == "/rest/api/2/issue/";
  }

  /** `_jql_list_of_issues(target_project, target_username)`. */
  function Jql(project: string, user: string): string {
    "project = " + project + " AND assignee was " + user
  }

  /** Reads a query of the `Jql` shape back into its project and user. */
  function ParseJql(q: string): Option<(string, string)> {
    if |q| < 10 || q[..10] != "project = " then None
    else
      var rest := q[10..];
      var sp := IndexOf(rest, ' ');
      if sp == -1 || |rest| - sp < 18 || rest[sp..sp + 18] != " AND assignee was " then None
      else Some((rest[..sp], rest[sp + 18..]))
  }

  /** The query names exactly the project and the user: for a project key
      without spaces both read back from it. */
  lemma JqlRoundTrip(project: string, user: string)
    requires ' ' !in project
    ensures ParseJql(Jql(project, user)) == Some((project, user))
  {
    var q := Jql(project, user);
    assert q[..10] == "project = ";
    var rest := q[10..];
    assert rest == project + " AND assignee was " + user;
    assert rest[|project|] == ' ';
    assert rest[..|project|] == project;
    assert IndexOf(rest, ' ') == |project|;
    assert rest[|project|..|project| + 18] == " AND assignee was ";
    assert rest[|project| + 18..] == user;
  }

  // ---------------------------------------------------------------------
  // The issue history
  // ---------------------------------------------------------------------

  /** One changed field of a changelog entry; `toString` may be null. */
  datatype ChangeItem = ChangeItem(field: string, toString: Option<string>)
  /** One changelog entry: when, by whom, and the fields it changed. */
  datatype Changelog = Changelog(created: string, author: string, items: seq<ChangeItem>)
  datatype Comment = Comment(created: string, author: string, body: string)
  /** One entry of the flattened history. */
  datatype Entry = Entry(time: string, author: string, field: string, value: string)

  /** A changed field as a history entry: field name and new value lower-cased,
      a null value taken as the empty string. */
  function ItemEntry(created: string, author: string, item: ChangeItem): Entry {
    Entry(created, author, Lower(item.field), Lower(item.toString.GetOr("")))
  }

  /** The entries of the changed fields of one changelog entry. */
  function ItemEntries(created: string, author: string, items: seq<ChangeItem>): seq<Entry>
    decreases |items|
  {
    if items == [] then []
    else ItemEntries(created, author, items[..|items| - 1]) + [ItemEntry(created, author, items[|items| - 1])]
  }

  /** The entries of all changed fields of the changelog, in order. */
  function ChangeEntries(changelog: seq<Changelog>): seq<Entry>
    decreases |changelog|
  {
    if changelog == [] then []
    else
      var h := changelog[|changelog| - 1];
      ChangeEntries(changelog[..|changelog| - 1]) + ItemEntries(h.created, h.author, h.items)
  }

  function CommentEntry(c: Comment): Entry {
    Entry(c.created, c.author, "comment", c.body)
  }

  function CommentEntries(comments: seq<Comment>): seq<Entry>
    decreases |comments|
  {
    if comments == [] then []
    else CommentEntries(comments[..|comments| - 1]) + [CommentEntry(comments[|comments| - 1])]
  }

  /** `key=lambda e: e["time"]`: entries ordered by their time stamp text. */
  function TimeOrder(a: Entry, b: Entry): int {
    Compare(a.time, b.time)
  }

  /** The inner loop over a changelog entry's items. */
  method AppendItems(history: seq<Entry>, h: Changelog) returns (r: seq<Entry>)
    ensures r == history + ItemEntries(h.created, h.author, h.items)
  {
    r := history;
    for k := 0 to |h.items|
      invariant r == history + ItemEntries(h.created, h.author, h.items[..k])
    {
      assert h.items[..k + 1][..k] == h.items[..k];
      r := r + [ItemEntry(h.created, h.author, h.items[k])];
    }
    assert h.items[..|h.items|] == h.items;
  }

  /** `get_issue_history` after the fetch: one entry per changed field, then
      one per comment, stably sorted by time. */
  method GetIssueHistory(changelog: seq<Changelog>, comments: seq<Comment>) returns (history: seq<Entry>)
    ensures history == Sorting.Sort(ChangeEntries(changelog) + CommentEntries(comments), TimeOrder)
  {
    history := [];
    for i := 0 to |changelog|
      invariant history == ChangeEntries(changelog[..i])
    {
      assert changelog[..i + 1][..i] == changelog[..i];
      history := AppendItems(history, changelog[i]);
    }
    assert changelog[..|changelog|] == changelog;
    for i := 0 to |comments|
      invariant history == ChangeEntries(changelog) + CommentEntries(comments[..i])
    {
      assert comments[..i + 1][..i] == comments[..i];
      history := history + [CommentEntry(comments[i])];
    }
    assert comments[..|comments|] == comments;
    history := Sorting.Sort(history, TimeOrder);
  }

  /** The number of changed fields in the changelog. */
  function ItemCount(changelog: seq<Changelog>): nat
    decreases |changelog|
  {
    if changelog == [] then 0 else ItemCount(changelog[..|changelog| - 1]) + |changelog[|changelog| - 1].items|
  }

  lemma {:induction false} ItemEntriesShape(created: string, author: string, items: seq<ChangeItem>)
    ensures |ItemEntries(created, author, items)| == |items|
    ensures forall k | 0 <= k < |items| :: ItemEntries(created, author, items)[k] == ItemEntry(created, author, items[k])
    decreases |items|
  {
    if items != [] {
      ItemEntriesShape(created, author, items[..|items| - 1]);
    }
  }

  /** Every changed field is one entry, stamped with its changelog entry's
      time and author, with lower-cased field name and value. */
  lemma {:induction false} ChangeEntriesShape(changelog: seq<Changelog>)
    ensures |ChangeEntries(changelog)| == ItemCount(changelog)
    ensures forall e | e in ChangeEntries(changelog) :: e.field == Lower(e.field) && e.value == Lower(e.value)
    decreases |changelog|
  {
    if changelog != [] {
      var h := changelog[|changelog| - 1];
      ChangeEntriesShape(changelog[..|changelog| - 1]);
      ItemEntriesShape(h.created, h.author, h.items);
      forall e | e in ItemEntries(h.created, h.author, h.items) ensures e.field == Lower(e.field) && e.value == Lower(e.value) {
        var k :| 0 <= k < |h.items| && ItemEntries(h.created, h.author, h.items)[k] == e;
        LowerIdempotent(h.items[k].field);
        LowerIdempotent(h.items[k].toString.GetOr(""));
      }
    }
  }

  /** Each comment is one entry with field "comment" and its body verbatim. */
  lemma {:induction false} CommentEntriesShape(comments: seq<Comment>)
    ensures |CommentEntries(comments)| == |comments|
    ensures forall k | 0 <= k < |comments| :: CommentEntries(comments)[k] == Entry(comments[k].created, comments[k].author, "comment", comments[k].body)
    decreases |comments|
  {
    if comments != [] {
      CommentEntriesShape(comments[..|comments| - 1]);
    }
  }

  lemma TimeOrderConsistent(s: seq<Entry>)
    ensures Sorting.ConsistentOn(TimeOrder, s)
  {
    forall a, b | a in s && b in s ensures Sorting.Sign(TimeOrder(a, b)) == -Sorting.Sign(TimeOrder(b, a)) {
      CompareAntisymmetric(a.time, b.time);
    }
    forall a, b, c | a in s && b in s && c in s && Sorting.Le(TimeOrder, a, b) && Sorting.Le(TimeOrder, b, c)
      ensures Sorting.Le(TimeOrder, a, c)
    {
      CompareTransitive(a.time, b.time, c.time);
    }
  }

  /** The history holds every entry exactly once, in time order, and entries
      with equal time stamps keep their collection order (fields before
      comments, each in input order). */
  lemma HistorySpec(entries: seq<Entry>, z: Entry)
    ensures multiset(Sorting.Sort(entries, TimeOrder)) == multiset(entries)
    ensures Sorting.Sorted(Sorting.Sort(entries, TimeOrder), TimeOrder)
    ensures Sorting.Equivalents(Sorting.Sort(entries, TimeOrder), z, TimeOrder) == Sorting.Equivalents(entries, z, TimeOrder)
  {
    Sorting.SortPermutation(entries, TimeOrder);
    TimeOrderConsistent(entries);
    Sorting.SortSorted(entries, TimeOrder);
    TimeOrderConsistent(entries + [z]);
    Sorting.SortStable(entries, z, TimeOrder);
  }

  // ---------------------------------------------------------------------
  // Custom fields written in comments
  // ---------------------------------------------------------------------

  /** A comment line `/name value`: longer than two characters, starting
      with a slash, with a space whose remainder is not empty. The name runs
      from after the slash to the first space. */
  function ParseCustomField(line: string): Option<(string, string)> {
    var sp := IndexOf(line, ' ');
    if |line| > 2 && line[0] == '/' && sp != -1 && |line[sp + 1..]| != 0 then Some((line[1..sp], line[sp + 1..]))
    else None
  }

  /** A line is a custom field exactly when it is `/` + a name without spaces
      + a space + a non-empty value, and those are what it yields. */
  lemma ParseCustomFieldIff(line: string, name: string, value: string)
    ensures ParseCustomField(line) == Some((name, value)) <==>
            line == "/" + name + " " + value && ' ' !in name && value != ""
  {
    var sp := IndexOf(line, ' ');
    if ParseCustomField(line) == Some((name, value)) {
      assert line == [line[0]] + line[1..sp] + [line[sp]] + line[sp + 1..];
      assert ' ' !in line[..sp];
      assert forall c | c in name :: c in line[..sp];
    }
    if line == "/" + name + " " + value && ' ' !in name && value != "" {
      assert line[|name| + 1] == ' ';
      assert line[..|name| + 1] == "/" + name;
      assert IndexOf(line, ' ') == |name| + 1;
      assert line[1..|name| + 1] == name;
      assert line[|name| + 2..] == value;
    }
  }

  /** The fields after the lines of one comment: each custom-field line sets
      its name, a later line overriding an earlier one. */
  function CommentFields(fields: map<string, string>, lines: seq<string>): map<string, string>
    decreases |lines|
  {
    if lines == [] then fields
    else SetCustomField(CommentFields(fields, lines[..|lines| - 1]), lines[|lines| - 1])
  }

  /** The fields after one line: a custom-field line sets its name. */
  function SetCustomField(fields: map<string, string>, line: string): map<string, string> {
    match ParseCustomField(line)
    case Some((name, value)) => fields[name := value]
    case None => fields
  }

  /** The value of the last line among `lines` that sets `name`, if any. */
  function LastFieldValue(lines: seq<string>, name: string): Option<string>
    decreases |lines|
  {
    if lines == [] then None
    else
      var p := ParseCustomField(lines[|lines| - 1]);
      if p.Some? && p.value.0 == name then Some(p.value.1) else LastFieldValue(lines[..|lines| - 1], name)
  }

  /** After a comment, a name holds the value of the last line setting it, or
      what it held before where no line does. */
  lemma {:induction false} CommentFieldsLastWins(fields: map<string, string>, lines: seq<string>, name: string)
    ensures LastFieldValue(lines, name).Some? ==>
              name in CommentFields(fields, lines) && CommentFields(fields, lines)[name] == LastFieldValue(lines, name).value
    ensures LastFieldValue(lines, name).None? ==>
              (name in CommentFields(fields, lines) <==> name in fields) &&
              (name in fields ==> CommentFields(fields, lines)[name] == fields[name])
    decreases |lines|
  {
    if lines != [] {
      CommentFieldsLastWins(fields, lines[..|lines| - 1], name);
    }
  }

  /** Some line of the comment is a custom field. */
  predicate AnyCustomField(lines: seq<string>)
    decreases |lines|
  {
    lines != [] && (AnyCustomField(lines[..|lines| - 1]) || ParseCustomField(lines[|lines| - 1]).Some?)
  }

  // ---------------------------------------------------------------------
  // The state machine of `analyze`
  // ---------------------------------------------------------------------

  /** A status value meaning work started. */
  predicate StartsWork(value: string) {
    Contains(value, "in progress") || Contains(value, "разработка")
  }

  /** A status value meaning the work went to testing. */
  predicate EntersTesting(value: string) {
    Contains(value, "test backlog")
  }

  /** The closing test as the script writes it, `got and field == "status"
      and "closed" in value or "resolved" in value`: Python binds `and`
      tighter than `or`, so any entry whose value mentions "resolved" closes
      the issue, whoever wrote it and whatever field it is. */
  predicate Closes(got: bool, e: Entry) {
    (got && e.field == "status" && Contains(e.value, "closed")) || Contains(e.value, "resolved")
  }

  /** `state_target_user_got_issue`, `..._done_issue`, `state_issue_is_closed`,
      `has_returned_from_testing`, `has_returned_from_prod`. */
  datatype Flags = Flags(got: bool, done: bool, closed: bool, returned: bool, reopened: bool)

  const NoFlags := Flags(false, false, false, false, false)

  /** The flags agree with each other: work only counts as done once the
      target user got the issue, a return from testing needs the work done,
      and a return from production needs the issue taken and closed. */
  predicate FlagsConsistent(f: Flags) {
    (f.done ==> f.got) && (f.returned ==> f.done) && (f.reopened ==> f.got && f.closed)
  }

  /** One entry of the history replayed: no flag is ever cleared, and the
      flags stay consistent. */
  function StepFlags(target: string, f: Flags, e: Entry): (r: Flags)
    ensures (f.got ==> r.got) && (f.done ==> r.done) && (f.closed ==> r.closed)
    ensures (f.returned ==> r.returned) && (f.reopened ==> r.reopened)
    ensures FlagsConsistent(f) ==> FlagsConsistent(r)
  {
    var own := e.author == target;
    var f1 := if own && e.field == "status" && StartsWork(e.value) then
                (if f.got then f.(returned := f.returned || f.done, reopened := f.reopened || f.closed) else f.(got := true))
              else f;
    var f2 := if own && e.field == "status" && EntersTesting(e.value) then f1.(got := true, done := true) else f1;
    if Closes(f2.got, e) then f2.(closed := true) else f2
  }

  /** The flags after replaying the history from the start. */
  function RunFlags(target: string, h: seq<Entry>): (r: Flags)
    ensures FlagsConsistent(r)
    decreases |h|
  {
    if h == [] then NoFlags else StepFlags(target, RunFlags(target, h[..|h| - 1]), h[|h| - 1])
  }

  /** The custom fields after replaying the history: the target user's
      comments only. */
  function StepFields(target: string, fields: map<string, string>, e: Entry): map<string, string> {
    if e.author == target && e.field == "comment" then CommentFields(fields, SplitLines(e.value)) else fields
  }

  function RunFields(target: string, h: seq<Entry>): map<string, string>
    decreases |h|
  {
    if h == [] then map[] else StepFields(target, RunFields(target, h[..|h| - 1]), h[|h| - 1])
  }

  /** `result["time"]`: set by the first custom-field comment of the target
      user while still unset, and reset by every status entry of theirs that
      starts work. `simplify` is `simplfy_time`. */
  function StepTime(target: string, simplify: string -> string, time: Option<string>, e: Entry): Option<string> {
    if e.author == target && e.field == "comment" && time.None? && AnyCustomField(SplitLines(e.value)) then Some(simplify(e.time))
    else if e.author == target && e.field == "status" && StartsWork(e.value) then Some(simplify(e.time))
    else time
  }

  function RunTime(target: string, simplify: string -> string, h: seq<Entry>): Option<string>
    decreases |h|
  {
    if h == [] then None else StepTime(target, simplify, RunTime(target, simplify, h[..|h| - 1]), h[|h| - 1])
  }

  /** The entry at `i` is the target user starting work on the issue. */
  predicate WorkStartAt(target: string, h: seq<Entry>, i: int)
    requires 0 <= i < |h|
  {
    h[i].author == target && h[i].field == "status" && StartsWork(h[i].value)
  }

  /** The issue is closed exactly when some entry passes the closing test,
      judged with the "got" flag as it stands after that entry. */
  lemma {:induction false} ClosedIff(target: string, h: seq<Entry>)
    ensures RunFlags(target, h).closed <==>
            exists i | 0 <= i < |h| :: Closes(RunFlags(target, h[..i + 1]).got, h[i])
    decreases |h|
  {
    if h != [] {
      var n := |h| - 1;
      var init := h[..n];
      ClosedIff(target, init);
      assert h[..n + 1] == h;
      forall i | 0 <= i < n ensures h[..i + 1] == init[..i + 1] && h[i] == init[i] {
      }
      if RunFlags(target, h).closed && !Closes(RunFlags(target, h).got, h[n]) {
        assert RunFlags(target, init).closed;
        var i :| 0 <= i < n && Closes(RunFlags(target, init[..i + 1]).got, init[i]);
        assert Closes(RunFlags(target, h[..i + 1]).got, h[i]);
      }
      if !RunFlags(target, h).closed {
        forall i | 0 <= i < |h| ensures !Closes(RunFlags(target, h[..i + 1]).got, h[i]) {
          if i < n {
            assert !Closes(RunFlags(target, init[..i + 1]).got, init[i]);
          }
        }
      }
    }
  }

  /** Whatever the author and the field, an entry that mentions "resolved"
      closes the issue, and a closed issue stays closed. */
  lemma ResolvedCloses(target: string, h: seq<Entry>, e: Entry)
    ensures Contains(e.value, "resolved") ==> RunFlags(target, h + [e]).closed
    ensures RunFlags(target, h).closed ==> RunFlags(target, h + [e]).closed
  {
    assert (h + [e])[..|h|] == h;
  }

  /** A comment by someone else that only says "resolved" closes the issue:
      the closing test is not confined to the status field. */
  lemma ResolvedCommentCloses()
    ensures RunFlags("dev", [Entry("2020-07-21T16:33:37.000+0300", "qa", "comment", "resolved")]).closed
  {
    var e := Entry("2020-07-21T16:33:37.000+0300", "qa", "comment", "resolved");
    assert OccursAt(e.value, "resolved", 0);
    assert [e][..0] == [];
  }

  /** The target user starts work at `i` while "got" and "done" hold. */
  ghost predicate ReturnAt(target: string, h: seq<Entry>, i: int)
    requires 0 <= i < |h|
  {
    WorkStartAt(target, h, i) && RunFlags(target, h[..i]).got && RunFlags(target, h[..i]).done
  }

  /** The target user starts work at `i` while "got" and "closed" hold. */
  ghost predicate ReopenAt(target: string, h: seq<Entry>, i: int)
    requires 0 <= i < |h|
  {
    WorkStartAt(target, h, i) && RunFlags(target, h[..i]).got && RunFlags(target, h[..i]).closed
  }

  /** What happened at an entry does not depend on the entries after it. */
  lemma PrefixAgrees(target: string, h: seq<Entry>, i: int)
    requires 0 <= i < |h| - 1
    ensures ReturnAt(target, h, i) == ReturnAt(target, h[..|h| - 1], i)
    ensures ReopenAt(target, h, i) == ReopenAt(target, h[..|h| - 1], i)
  {
    assert h[..i] == h[..|h| - 1][..i];
  }

  /** The issue came back from testing exactly when the target user started
      work on it again while "got" and "done" both held. */
  lemma {:induction false} ReturnedIff(target: string, h: seq<Entry>)
    ensures RunFlags(target, h).returned <==> exists i | 0 <= i < |h| :: ReturnAt(target, h, i)
    decreases |h|
  {
    if h != [] {
      var n := |h| - 1;
      var init := h[..n];
      ReturnedIff(target, init);
      forall i | 0 <= i < n ensures ReturnAt(target, h, i) == ReturnAt(target, init, i) {
        PrefixAgrees(target, h, i);
      }
      assert RunFlags(target, h).returned == (RunFlags(target, init).returned || ReturnAt(target, h, n));
    }
  }

  /** The issue was reopened exactly when the target user started work on it
      again while "got" and "closed" both held. */
  lemma {:induction false} ReopenedIff(target: string, h: seq<Entry>)
    ensures RunFlags(target, h).reopened <==> exists i | 0 <= i < |h| :: ReopenAt(target, h, i)
    decreases |h|
  {
    if h != [] {
      var n := |h| - 1;
      var init := h[..n];
      ReopenedIff(target, init);
      forall i | 0 <= i < n ensures ReopenAt(target, h, i) == ReopenAt(target, init, i) {
        PrefixAgrees(target, h, i);
      }
      assert RunFlags(target, h).reopened == (RunFlags(target, init).reopened || ReopenAt(target, h, n));
    }
  }

  // ---------------------------------------------------------------------
  // group_dict and pretty_list
  // ---------------------------------------------------------------------

  /** `k` is not greater than any element of `s`. */
  predicate IsLeast(k: string, s: set<string>) {
    forall j | j in s :: Compare(k, j) <= 0
  }

  lemma {:induction false} LeastExists(s: set<string>)
    requires s != {}
    ensures exists k :: k in s && IsLeast(k, s)
    decreases |s|
  {
    var x :| x in s;
    CompareZeroIffEqual(x, x);
    if s != {x} {
      var rest := s - {x};
      LeastExists(rest);
      var m :| m in rest && IsLeast(m, rest);
      if Compare(x, m) <= 0 {
        forall j | j in s ensures Compare(x, j) <= 0 {
          if j != x {
            CompareTransitive(x, m, j);
          }
        }
      } else {
        CompareAntisymmetric(x, m);
        assert IsLeast(m, s);
      }
    }
  }

  lemma LeastUnique(s: set<string>)
    ensures forall a, b | a in s && IsLeast(a, s) && b in s && IsLeast(b, s) :: a == b
  {
    forall a, b | a in s && IsLeast(a, s) && b in s && IsLeast(b, s) ensures a == b {
      assert Compare(a, b) <= 0 && Compare(b, a) <= 0;
      CompareAntisymmetric(a, b);
      CompareZeroIffEqual(a, b);
    }
  }

  /** The least key of a non-empty set in Python's string order. */
  function LeastKey(s: set<string>): string
    requires s != {}
  {
    LeastExists(s);
    LeastUnique(s);
    var k :| k in s && IsLeast(k, s);
    k
  }

  /** `sorted(d.items())`: the pairs of the dictionary by ascending key. */
  function SortedItems(d: map<string, string>): seq<(string, string)>
    decreases |d.Keys|
  {
    if d.Keys == {} then []
    else
      var k := LeastKey(d.Keys);
      assert (d - {k}).Keys == d.Keys - {k};
      [(k, d[k])] + SortedItems(d - {k})
  }

  /** Keys strictly ascending. */
  ghost predicate Ascending(items: seq<(string, string)>) {
    forall i, j | 0 <= i < j < |items| :: Compare(items[i].0, items[j].0) < 0
  }

  /** Every sorted pair is a pair of the dictionary. */
  lemma {:induction false} SortedItemsSound(d: map<string, string>)
    ensures forall p | p in SortedItems(d) :: p.0 in d && d[p.0] == p.1
    decreases |d.Keys|
  {
    if d.Keys != {} {
      var k := LeastKey(d.Keys);
      var rest := d - {k};
      assert rest.Keys == d.Keys - {k};
      SortedItemsSound(rest);
      assert SortedItems(d) == [(k, d[k])] + SortedItems(rest);
    }
  }

  /** Every pair of the dictionary is among the sorted pairs. */
  lemma {:induction false} SortedItemsComplete(d: map<string, string>)
    ensures forall k | k in d :: (k, d[k]) in SortedItems(d)
    decreases |d.Keys|
  {
    if d.Keys != {} {
      var k := LeastKey(d.Keys);
      var rest := d - {k};
      assert rest.Keys == d.Keys - {k};
      SortedItemsComplete(rest);
      var r := SortedItems(d);
      assert r == [(k, d[k])] + SortedItems(rest);
      forall q | q in d ensures (q, d[q]) in r {
        if q != k {
          assert q in rest && rest[q] == d[q];
        }
      }
    }
  }

  /** The keys of the sorted pairs ascend strictly. */
  lemma {:induction false} SortedItemsAscending(d: map<string, string>)
    ensures Ascending(SortedItems(d))
    decreases |d.Keys|
  {
    if d.Keys != {} {
      var k := LeastKey(d.Keys);
      var rest := d - {k};
      assert rest.Keys == d.Keys - {k};
      SortedItemsAscending(rest);
      SortedItemsSound(rest);
      var tail := SortedItems(rest);
      var r := SortedItems(d);
      assert r == [(k, d[k])] + tail;
      forall j | 0 <= j < |tail| ensures Compare(k, tail[j].0) < 0 {
        assert tail[j] in tail;
        CompareZeroIffEqual(k, tail[j].0);
      }
      forall i, j | 0 <= i < j < |r| ensures Compare(r[i].0, r[j].0) < 0 {
        assert r[j] == tail[j - 1];
        if i > 0 {
          assert r[i] == tail[i - 1];
        }
      }
    }
  }

  /** One group of `group_dict`'s result: a value and the keys holding it. */
  datatype Group = Group(value: string, keys: seq<string>)

  /** The index of the group holding `value`, or -1. */
  function FindGroup(groups: seq<Group>, value: string): (r: int)
    ensures -1 <= r < |groups|
    ensures r == -1 ==> forall j | 0 <= j < |groups| :: groups[j].value != value
    ensures r != -1 ==> groups[r].value == value
    decreases |groups|
  {
    if groups == [] then -1
    else if groups[|groups| - 1].value == value then |groups| - 1
    else FindGroup(groups[..|groups| - 1], value)
  }

  /** `v[value].append(key)` on the list of groups in insertion order: the
      key goes to the end of its value's group, a missing group being
      opened at the end. */
  function AddToGroup(groups: seq<Group>, value: string, key: string): seq<Group> {
    var i := FindGroup(groups, value);
    if i == -1 then groups + [Group(value, [key])] else groups[i := Group(value, groups[i].keys + [key])]
  }

  /** The groups after appending every pair in order. */
  function Grouped(items: seq<(string, string)>): seq<Group>
    decreases |items|
  {
    if items == [] then []
    else AddToGroup(Grouped(items[..|items| - 1]), items[|items| - 1].1, items[|items| - 1].0)
  }

  ghost predicate DistinctValues(groups: seq<Group>) {
    forall i, j | 0 <= i < j < |groups| :: groups[i].value != groups[j].value
  }

  /** Adding keeps one group per value. */
  lemma AddToGroupDistinct(groups: seq<Group>, value: string, key: string)
    requires DistinctValues(groups)
    ensures DistinctValues(AddToGroup(groups, value, key))
  {
  }

  /** Soundness: a key sits in a group only if it held that group's value. */
  ghost predicate GroupsSound(groups: seq<Group>, items: seq<(string, string)>) {
    forall i, k | 0 <= i < |groups| && k in groups[i].keys :: (k, groups[i].value) in items
  }

  /** Completeness: every pair is in the group of its value. */
  ghost predicate GroupsComplete(groups: seq<Group>, items: seq<(string, string)>) {
    forall p | p in items :: exists i | 0 <= i < |groups| :: groups[i].value == p.1 && p.0 in groups[i].keys
  }

  /** The keys of every group ascend. */
  ghost predicate GroupKeysAscending(groups: seq<Group>) {
    forall i, a, b | 0 <= i < |groups| && 0 <= a < b < |groups[i].keys| :: Compare(groups[i].keys[a], groups[i].keys[b]) < 0
  }

  lemma {:induction false} GroupedDistinct(items: seq<(string, string)>)
    ensures DistinctValues(Grouped(items))
    decreases |items|
  {
    if items != [] {
      var n := |items| - 1;
      GroupedDistinct(items[..n]);
      AddToGroupDistinct(Grouped(items[..n]), items[n].1, items[n].0);
    }
  }

  lemma {:induction false} GroupedSound(items: seq<(string, string)>)
    ensures GroupsSound(Grouped(items), items)
    decreases |items|
  {
    if items != [] {
      var n := |items| - 1;
      var init, last := items[..n], items[n];
      GroupedSound(init);
      var g := Grouped(init);
      var r := Grouped(items);
      assert items == init + [last];
      var f := FindGroup(g, last.1);
      forall i, k | 0 <= i < |r| && k in r[i].keys ensures (k, r[i].value) in items {
        if i < |g| && i != f {
          assert r[i] == g[i];
        } else if i == f {
          assert r[i].keys == g[i].keys + [last.0];
          if k != last.0 {
            assert k in g[i].keys;
          }
        }
      }
    }
  }

  lemma {:induction false} GroupedComplete(items: seq<(string, string)>)
    ensures GroupsComplete(Grouped(items), items)
    decreases |items|
  {
    if items != [] {
      var n := |items| - 1;
      var init, last := items[..n], items[n];
      GroupedComplete(init);
      var g := Grouped(init);
      var r := Grouped(items);
      assert items == init + [last];
      var f := FindGroup(g, last.1);
      forall p | p in items ensures exists i | 0 <= i < |r| :: r[i].value == p.1 && p.0 in r[i].keys {
        if p in init {
          var i :| 0 <= i < |g| && g[i].value == p.1 && p.0 in g[i].keys;
          assert r[i].value == p.1 && p.0 in r[i].keys;
        } else if f == -1 {
          assert r[|g|] == Group(last.1, [last.0]);
        } else {
          assert r[f].value == p.1 && p.0 in r[f].keys;
        }
      }
    }
  }

  lemma {:induction false} GroupedAscending(items: seq<(string, string)>)
    requires Ascending(items)
    ensures GroupKeysAscending(Grouped(items))
    decreases |items|
  {
    if items != [] {
      var n := |items| - 1;
      var init, last := items[..n], items[n];
      assert Ascending(init);
      GroupedAscending(init);
      GroupedSound(init);
      var g := Grouped(init);
      var r := Grouped(items);
      var f := FindGroup(g, last.1);
      if f != -1 {
        var keys := g[f].keys;
        forall a | 0 <= a < |keys| ensures Compare(keys[a], last.0) < 0 {
          assert keys[a] in g[f].keys;
          var m :| 0 <= m < n && init[m] == (keys[a], g[f].value);
          assert items[m].0 == keys[a];
        }
        forall i, a, b | 0 <= i < |r| && 0 <= a < b < |r[i].keys| ensures Compare(r[i].keys[a], r[i].keys[b]) < 0 {
          if i == f {
            assert r[i].keys == keys + [last.0];
            if b < |keys| {
              assert r[i].keys[a] == keys[a] && r[i].keys[b] == keys[b];
            } else {
              assert r[i].keys[a] == keys[a];
            }
          } else {
            assert r[i] == g[i];
          }
        }
      }
    }
  }

  /** `group_dict(d)`: the dictionary inverted, keys listed under their
      value in ascending order, values in the order their first key comes. */
  method GroupDict(d: map<string, string>) returns (groups: seq<Group>)
    ensures groups == Grouped(SortedItems(d))
  {
    var items := SortedItems(d);
    groups := [];
    for i := 0 to |items|
      invariant groups == Grouped(items[..i])
    {
      assert items[..i + 1][..i] == items[..i];
      groups := AddToGroup(groups, items[i].1, items[i].0);
    }
    assert items[..|items|] == items;
  }

  /** Every key of the dictionary is in exactly one group, the one of its
      value; each value has one group; the keys of a group ascend. */
  lemma GroupDictSpec(d: map<string, string>)
    ensures var groups := Grouped(SortedItems(d));
            && DistinctValues(groups)
            && (forall i, k | 0 <= i < |groups| && k in groups[i].keys :: k in d && d[k] == groups[i].value)
            && (forall k | k in d :: exists i | 0 <= i < |groups| :: groups[i].value == d[k] && k in groups[i].keys)
            && (forall i, j, k | 0 <= i < |groups| && 0 <= j < |groups| && k in groups[i].keys && k in groups[j].keys :: i == j)
            && GroupKeysAscending(groups)
  {
    var items := SortedItems(d);
    SortedItemsSound(d);
    SortedItemsComplete(d);
    SortedItemsAscending(d);
    GroupedDistinct(items);
    GroupedSound(items);
    GroupedComplete(items);
    GroupedAscending(items);
    var groups := Grouped(items);
    forall k | k in d ensures exists i | 0 <= i < |groups| :: groups[i].value == d[k] && k in groups[i].keys {
      assert (k, d[k]) in items;
    }
    forall i, k | 0 <= i < |groups| && k in groups[i].keys ensures k in d && d[k] == groups[i].value {
      assert (k, groups[i].value) in items;
    }
  }

  /** `pretty_list(l)`: "", the one element, or "a, b и c". */
  function PrettyList(l: seq<string>): string {
    if |l| == 0 then ""
    else if |l| == 1 then l[0]
    else Join(", ", l[..|l| - 1]) + " и " + l[|l| - 1]
  }

  /** Two elements are joined with " и ". */
  lemma PrettyListPair(a: string, b: string)
    ensures PrettyList([a, b]) == a + " и " + b
  {
    assert [a, b][..1] == [a];
  }

  /** From three elements on, the first is followed by ", " and the list of
      the others; with `PrettyListPair` this puts commas between the
      elements and " и " before the last, for every list. */
  lemma PrettyListCons(a: string, rest: seq<string>)
    requires |rest| >= 2
    ensures PrettyList([a] + rest) == a + ", " + PrettyList(rest)
  {
    var l := [a] + rest;
    var init := rest[..|rest| - 1];
    assert l[..|l| - 1] == [a] + init;
    assert l[|l| - 1] == rest[|rest| - 1];
    JoinCons(", ", a, init);
  }

  lemma PrettyListExample()
    ensures PrettyList(["a", "b", "c"]) == "a, b и c"
  {
    assert ["a", "b", "c"][..2] == ["a", "b"];
    assert ["a", "b"][..1] == ["a"];
  }

  /** One note: the keys of a group, then its value. */
  function Note(g: Group): string {
    PrettyList(g.keys) + " " + g.value
  }

  function Notes(groups: seq<Group>): seq<string>
    decreases |groups|
  {
    if groups == [] then [] else Notes(groups[..|groups| - 1]) + [Note(groups[|groups| - 1])]
  }

  /** The loop building `result["custom_fields"]`: a comma is added before
      every note but the first. */
  method NotesText(groups: seq<Group>) returns (text: string)
    ensures text == Join(", ", Notes(groups))
  {
    text := "";
    for i := 0 to |groups|
      invariant text == Join(", ", Notes(groups[..i]))
      invariant i > 0 <==> text != ""
    {
      assert groups[..i + 1][..i] == groups[..i];
      var notes := Notes(groups[..i]);
      var note := Note(groups[i]);
      assert note[|note| - |groups[i].value| - 1] == ' ';
      assert Notes(groups[..i + 1]) == notes + [note];
      assert (notes + [note])[..|notes|] == notes;
      if text != "" {
        text := text + ", ";
      }
      text := text + note;
    }
    assert groups[..|groups|] == groups;
  }

  // ---------------------------------------------------------------------
  // analyze
  // ---------------------------------------------------------------------

  /** The record `analyze` returns. */
  datatype Analysis = Analysis(url: string, time: Option<string>, open: bool, returned: bool, reopened: bool, customFields: string)

  /** One line of a comment of the target user: a custom field is set, and
      the time too while it is still unset. */
  method ApplyLine(fields: map<string, string>, time: Option<string>, stamp: string, line: string)
      returns (newFields: map<string, string>, newTime: Option<string>)
    ensures newFields == SetCustomField(fields, line)
    ensures newTime == if time.None? && ParseCustomField(line).Some? then Some(stamp) else time
  {
    newFields, newTime := fields, time;
    var spacePos := IndexOf(line, ' ');
    if |line| > 2 && line[0] == '/' && spacePos != -1 {
      var value := line[spacePos + 1..];
      if |value| != 0 {
        newFields := newFields[line[1..spacePos] := value];
        if newTime.None? {
          newTime := Some(stamp);
        }
      }
    }
  }

  /** The loop over the lines of one comment of the target user. */
  method ApplyComment(fields: map<string, string>, time: Option<string>, stamp: string, lines: seq<string>)
      returns (newFields: map<string, string>, newTime: Option<string>)
    ensures newFields == CommentFields(fields, lines)
    ensures newTime == if time.None? && AnyCustomField(lines) then Some(stamp) else time
  {
    newFields, newTime := fields, time;
    for k := 0 to |lines|
      invariant newFields == CommentFields(fields, lines[..k])
      invariant newTime == if time.None? && AnyCustomField(lines[..k]) then Some(stamp) else time
    {
      assert lines[..k + 1][..k] == lines[..k];
      newFields, newTime := ApplyLine(newFields, newTime, stamp, lines[k]);
    }
    assert lines[..|lines|] == lines;
  }

  /** The body of the loop of `analyze` for one entry. */
  method AnalyzeEntry(target: string, simplify: string -> string, f: Flags, fields: map<string, string>, time: Option<string>, e: Entry)
      returns (f': Flags, fields': map<string, string>, time': Option<string>)
    ensures f' == StepFlags(target, f, e)
    ensures fields' == StepFields(target, fields, e)
    ensures time' == StepTime(target, simplify, time, e)
  {
    var got, done, closed, returned, reopened := f.got, f.done, f.closed, f.returned, f.reopened;
    fields', time' := fields, time;
    if e.author == target {
      if e.field == "comment" {
        fields', time' := ApplyComment(fields', time', simplify(e.time), SplitLines(e.value));
      }
      if e.field == "status" && StartsWork(e.value) {
        time' := Some(simplify(e.time));
        if got {
          if done {
            returned := true;
          }
          if closed {
            reopened := true;
          }
        } else {
          got := true;
        }
      }
      if e.field == "status" && EntersTesting(e.value) {
        got := true;
        done := true;
      }
    }
    if Closes(got, e) {
      closed := true;
    }
    f' := Flags(got, done, closed, returned, reopened);
  }

  /** `analyze(issue_name, issue_history)`: the issue's link, the flags after
      replaying the history, and the notes grouped by value. */
  method Analyze(jira: Jira, simplify: string -> string, issueName: string, history: seq<Entry>) returns (result: Analysis)
    ensures result.url == jira.host + "browse/" + issueName
    ensures result.time == RunTime(jira.targetUsername, simplify, history)
    ensures result.open == !RunFlags(jira.targetUsername, history).closed
    ensures result.returned == RunFlags(jira.targetUsername, history).returned
    ensures result.reopened == RunFlags(jira.targetUsername, history).reopened
    ensures result.customFields == Join(", ", Notes(Grouped(SortedItems(RunFields(jira.targetUsername, history)))))
  {
    var target := jira.targetUsername;
    var flags := NoFlags;
    var fields: map<string, string> := map[];
    var time: Option<string> := None;
    for n := 0 to |history|
      invariant flags == RunFlags(target, history[..n])
      invariant fields == RunFields(target, history[..n])
      invariant time == RunTime(target, simplify, history[..n])
    {
      assert history[..n + 1][..n] == history[..n];
      flags, fields, time := AnalyzeEntry(target, simplify, flags, fields, time, history[n]);
    }
    assert history[..|history|] == history;
    var groups := GroupDict(fields);
    var notes := NotesText(groups);
    result := Analysis(jira.host + "browse/" + issueName, time, !flags.closed, flags.returned, flags.reopened, notes);
  }

  // ---------------------------------------------------------------------
  // The spreadsheet name
  // ---------------------------------------------------------------------

  /** `output_to_xlsx`'s file name: "Jira <date>" by default (`today` is the
      formatted current date), with ".xlsx" appended unless already there. */
  function XlsxFilename(filename: Option<string>, today: string): (r: string)
    ensures EndsWith(r, ".xlsx")
  {
    var name := filename.GetOr("Jira " + today);
    if !EndsWith(name, ".xlsx") then name + ".xlsx" else name
  }

  /** The suffix is added once: a name that has it is kept, any other gets
      exactly ".xlsx" more, and naming the result again changes nothing. */
  lemma XlsxFilenameOnce(name: string, today: string)
    ensures EndsWith(name, ".xlsx") ==> XlsxFilename(Some(name), today) == name
    ensures !EndsWith(name, ".xlsx") ==> XlsxFilename(Some(name), today) == name + ".xlsx"
    ensures XlsxFilename(Some(XlsxFilename(Some(name), today)), today) == XlsxFilename(Some(name), today)
  {
  }
}
