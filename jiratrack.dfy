/** The later command-line script. It builds the client the same way as the
    earlier one and collects the same history, then replays each issue's
    history in its main loop with the same state machine, printing one line
    per issue and counting the issues that came back from testing and the
    ones reopened. It also renders a duration as hours and minutes with the
    Russian plural of "hour". Output is modelled as the data each printed
    line carries. */
module JiraTrack {
  import opened Wrappers
  import opened Text
  import opened Arithmetic
  import Old = OldJiraTrack

  // ---------------------------------------------------------------------
  // The client object
  // ---------------------------------------------------------------------

  /** The fields `Jira.__init__` sets; the host is not kept. */
  datatype Jira = Jira(targetProject: string, targetUsername: string, username: string, password: string,
                       issueUrl: string, searchUrl: string)

  /** `Jira(host, username, password, target_project, target_username)`;
      None where `host[-1]` raises on an empty host. */
  function NewJira(host: string, username: string, password: string, targetProject: string, targetUsername: string): (r: Option<Jira>)
    ensures r.None? <==> host == []
    ensures r.Some? ==> r.value.targetProject == targetProject && r.value.targetUsername == targetUsername
    ensures r.Some? ==> r.value.username == username && r.value.password == password
  {
    if host == [] then None
    else
      var h := if host[|host| - 1] != '/' then host + "/" else host;
      Some(Jira(targetProject, targetUsername, username, password, h + "rest/api/2/issue/", h + "rest/api/2/search"))
  }

  /** The endpoints are the ones the earlier script derives from the same
      host: one slash between host and path. */
  lemma SameEndpointsAsOld(host: string, username: string, password: string, targetProject: string, targetUsername: string)
    requires host != []
    ensures NewJira(host, username, password, targetProject, targetUsername).value.searchUrl
            == Old.NewJira(host, username, password, targetProject, targetUsername).value.searchUrl
            == Old.HostBase(host) + "/rest/api/2/search"
    ensures NewJira(host, username, password, targetProject, targetUsername).value.issueUrl
            == Old.NewJira(host, username, password, targetProject, targetUsername).value.issueUrl
            == Old.HostBase(host) + "/rest/api/2/issue/"
  {
    Old.EndpointsUnderHost(host, username, password, targetProject, targetUsername);
  }

  // ---------------------------------------------------------------------
  // pretty_format
  // ---------------------------------------------------------------------

  /** The duration in seconds: `delta.days` days and `delta.seconds` seconds. */
  function TotalSeconds(days: int, seconds: int): int {
    86400 * days + seconds
  }

  /** `int(hours)`: the hours of the duration, truncated toward zero. */
  function Hours(days: int, seconds: int): int {
    var t := TotalSeconds(days, seconds);
    if t >= 0 then t / 3600 else -((-t) / 3600)
  }

  /** `int(mins)`: the minutes within the hour, from `delta.seconds` alone. */
  function Minutes(seconds: int): int {
    (seconds / 60) % 60
  }

  /** The plural of "hour" chosen by the last digit of `str(int(hours))`:
      1 gives "час", 2 to 4 give "часа", anything else "часов". */
  function HourWord(hours: int): string {
    var last := (if hours < 0 then -hours else hours) % 10;
    if last == 1 then "час" else if 2 <= last <= 4 then "часа" else "часов"
  }

  /** `pretty_format(delta)` for a `timedelta` of `days` days and `seconds`
      seconds (0 to 86399, as `timedelta` keeps them). The script divides
      as floating point; on these operands the whole-hour test and the
      truncations agree with the integer arithmetic used here. */
  function PrettyFormat(days: int, seconds: int): string
    requires 0 <= seconds < 86400
  {
    var t := TotalSeconds(days, seconds);
    var h := Hours(days, seconds);
    if t % 3600 != 0 then
      if t < 3600 then DecimalString(Minutes(seconds)) + " минут"
      else DecimalString(h) + " " + HourWord(h) + " " + DecimalString(Minutes(seconds)) + " минут"
    else DecimalString(h) + " " + HourWord(h)
  }

  /** The plural follows the last digit only, so 11 and 21 take "час". */
  lemma HourWordByLastDigit()
    ensures HourWord(1) == "час" && HourWord(11) == "час" && HourWord(21) == "час"
    ensures HourWord(2) == "часа" && HourWord(12) == "часа" && HourWord(34) == "часа"
    ensures HourWord(5) == "часов" && HourWord(10) == "часов" && HourWord(0) == "часов"
  {
  }

  /** A whole number of hours is rendered as that number and the plural; a
      day counts 24 hours. */
  lemma WholeHours(days: nat, seconds: int)
    requires 0 <= seconds < 86400 && seconds % 3600 == 0
    ensures var h := 24 * days + seconds / 3600;
            PrettyFormat(days, seconds) == DecimalString(h) + " " + HourWord(h)
  {
    var h := 24 * days + seconds / 3600;
    assert seconds == 3600 * (seconds / 3600);
    assert TotalSeconds(days, seconds) == 3600 * h;
    DivModUnique(TotalSeconds(days, seconds), 3600, h, 0);
  }

  /** Under an hour, only the minutes are rendered. */
  lemma UnderAnHour(seconds: int)
    requires 0 < seconds < 3600
    ensures PrettyFormat(0, seconds) == DecimalString(seconds / 60) + " минут"
  {
    assert seconds / 60 < 60 by {
      DivMonotone(seconds, 3599, 60);
    }
  }

  /** An hour or more that is not a whole number of hours renders as the
      hours, their plural and the minutes within the hour. */
  lemma HoursAndMinutes(days: nat, seconds: int)
    requires 0 <= seconds < 86400 && seconds % 3600 != 0
    requires TotalSeconds(days, seconds) >= 3600
    ensures var h := 24 * days + seconds / 3600;
            PrettyFormat(days, seconds)
            == DecimalString(h) + " " + HourWord(h) + " " + DecimalString((seconds / 60) % 60) + " минут"
  {
    var h := 24 * days + seconds / 3600;
    assert seconds == 3600 * (seconds / 3600) + seconds % 3600;
    assert TotalSeconds(days, seconds) == 3600 * h + seconds % 3600;
    DivModUnique(TotalSeconds(days, seconds), 3600, h, seconds % 3600);
  }

  /** One more day is 24 more hours and leaves the minutes as they were. */
  lemma DayIsTwentyFourHours(days: nat, seconds: int)
    requires 0 <= seconds < 86400
    ensures Hours(days + 1, seconds) == Hours(days, seconds) + 24
    ensures TotalSeconds(days + 1, seconds) % 3600 == TotalSeconds(days, seconds) % 3600
  {
    var t := TotalSeconds(days, seconds);
    assert TotalSeconds(days + 1, seconds) == t + 3600 * 24;
    DivModUnique(t + 3600 * 24, 3600, t / 3600 + 24, t % 3600);
  }

  /** Eleven hours read "11 час". */
  lemma ElevenHours()
    ensures PrettyFormat(0, 39600) == "11 час"
  {
    assert Hours(0, 39600) == 11;
    assert DecimalString(11) == "11" by {
      assert NatDigits(1) == "1";
      assert NatDigits(11) == NatDigits(1) + [DigitChar(1)];
    }
  }

  // ---------------------------------------------------------------------
  // The main loop
  // ---------------------------------------------------------------------

  /** One line of a comment of the target user. */
  method ParseLine(fields: map<string, string>, line: string) returns (newFields: map<string, string>)
    ensures newFields == Old.SetCustomField(fields, line)
  {
    newFields := fields;
    var spacePos := IndexOf(line, ' ');
    if |line| > 2 && line[0] == '/' && spacePos != -1 {
      var value := line[spacePos + 1..];
      if |value| != 0 {
        newFields := newFields[line[1..spacePos] := value];
      }
    }
  }

  /** The loop over the lines of one comment of the target user. */
  method ParseComment(fields: map<string, string>, lines: seq<string>) returns (newFields: map<string, string>)
    ensures newFields == Old.CommentFields(fields, lines)
  {
    newFields := fields;
    for k := 0 to |lines|
      invariant newFields == Old.CommentFields(fields, lines[..k])
    {
      assert lines[..k + 1][..k] == lines[..k];
      newFields := ParseLine(newFields, lines[k]);
    }
    assert lines[..|lines|] == lines;
  }

  /** The body of the per-entry loop of `main`. */
  method ReplayEntry(target: string, f: Old.Flags, fields: map<string, string>, e: Old.Entry)
      returns (f': Old.Flags, fields': map<string, string>)
    ensures f' == Old.StepFlags(target, f, e)
    ensures fields' == Old.StepFields(target, fields, e)
  {
    var got, done, closed, returned, reopened := f.got, f.done, f.closed, f.returned, f.reopened;
    fields' := fields;
    if e.author == target {
      if e.field == "comment" {
        fields' := ParseComment(fields', SplitLines(e.value));
      }
      if e.field == "status" && Old.StartsWork(e.value) {
        if got {
          if done {
            returned := true;
          }
          if closed {
            reopened := true;
          }
        } else {
          got := true;
        }
      }
      if e.field == "status" && Old.EntersTesting(e.value) {
        got := true;
        done := true;
      }
    }
    if Old.Closes(got, e) {
      closed := true;
    }
    f' := Old.Flags(got, done, closed, returned, reopened);
  }

  /** The per-entry loop of `main` for one issue: the same flags and fields
      as the earlier script's `analyze`, with the same closing test. */
  method ReplayHistory(target: string, history: seq<Old.Entry>) returns (flags: Old.Flags, fields: map<string, string>)
    ensures flags == Old.RunFlags(target, history)
    ensures fields == Old.RunFields(target, history)
  {
    flags := Old.NoFlags;
    fields := map[];
    for n := 0 to |history|
      invariant flags == Old.RunFlags(target, history[..n])
      invariant fields == Old.RunFields(target, history[..n])
    {
      assert history[..n + 1][..n] == history[..n];
      flags, fields := ReplayEntry(target, flags, fields, history[n]);
    }
    assert history[..|history|] == history;
  }

  /** What `main` prints for one issue: its link, whether it is not yet
      closed, came back from testing, was reopened, and its notes. */
  datatype IssueReport = IssueReport(url: string, open: bool, returned: bool, reopened: bool, notes: seq<string>)

  function Report(target: string, issue: string, history: seq<Old.Entry>): IssueReport {
    var flags := Old.RunFlags(target, history);
    IssueReport("https://jira-new.neoflex.ru/browse/" + issue, !flags.closed, flags.returned, flags.reopened,
                Old.Notes(Old.Grouped(Old.SortedItems(Old.RunFields(target, history)))))
  }

  /** `f` applied to the pairs of `zip(xs, ys)`, in order. */
  function ZipWith<A, B, C>(f: (A, B) -> C, xs: seq<A>, ys: seq<B>): (r: seq<C>)
    requires |xs| == |ys|
    ensures |r| == |xs|
    ensures forall i | 0 <= i < |xs| :: r[i] == f(xs[i], ys[i])
    decreases |xs|
  {
    if xs == [] then []
    else
      var n := |xs| - 1;
      ZipWith(f, xs[..n], ys[..n]) + [f(xs[n], ys[n])]
  }

  function ReportOf(target: string): (string, seq<Old.Entry>) -> IssueReport {
    (issue, history) => Report(target, issue, history)
  }

  /** The reports of the issues, in order. */
  function Reports(target: string, issues: seq<string>, histories: seq<seq<Old.Entry>>): seq<IssueReport>
    requires |histories| == |issues|
  {
    ZipWith(ReportOf(target), issues, histories)
  }

  /** The number of reported issues that came back from testing. */
  function CountReturned(reports: seq<IssueReport>): nat
    decreases |reports|
  {
    if reports == [] then 0
    else CountReturned(reports[..|reports| - 1]) + (if reports[|reports| - 1].returned then 1 else 0)
  }

  /** The number of reported issues reopened. */
  function CountReopened(reports: seq<IssueReport>): nat
    decreases |reports|
  {
    if reports == [] then 0
    else CountReopened(reports[..|reports| - 1]) + (if reports[|reports| - 1].reopened then 1 else 0)
  }

  /** The counters after one more report. */
  lemma CountsSnoc(reports: seq<IssueReport>, r: IssueReport)
    ensures CountReturned(reports + [r]) == CountReturned(reports) + (if r.returned then 1 else 0)
    ensures CountReopened(reports + [r]) == CountReopened(reports) + (if r.reopened then 1 else 0)
  {
    assert (reports + [r])[..|reports|] == reports;
  }

  /** Neither count exceeds the number of issues; each is the total exactly
      when every issue carries the flag, and nought exactly when none does. */
  lemma {:induction false} CountsBounded(reports: seq<IssueReport>)
    ensures CountReturned(reports) <= |reports| && CountReopened(reports) <= |reports|
    ensures CountReturned(reports) == |reports| <==> forall i | 0 <= i < |reports| :: reports[i].returned
    ensures CountReturned(reports) == 0 <==> forall i | 0 <= i < |reports| :: !reports[i].returned
    ensures CountReopened(reports) == |reports| <==> forall i | 0 <= i < |reports| :: reports[i].reopened
    ensures CountReopened(reports) == 0 <==> forall i | 0 <= i < |reports| :: !reports[i].reopened
    decreases |reports|
  {
    if reports != [] {
      var n := |reports| - 1;
      var init := reports[..n];
      CountsBounded(init);
      assert forall i | 0 <= i < n :: init[i] == reports[i];
    }
  }

  /** The notes line of one issue: for each group of fields with one value,
      the field names and that value. */
  method NotesOf(groups: seq<Old.Group>) returns (notes: seq<string>)
    ensures notes == Old.Notes(groups)
  {
    notes := [];
    for g := 0 to |groups|
      invariant notes == Old.Notes(groups[..g])
    {
      assert groups[..g + 1][..g] == groups[..g];
      notes := notes + [Old.PrettyList(groups[g].keys) + " " + groups[g].value];
    }
    assert groups[..|groups|] == groups;
  }

  /** One pass of the issue loop of `main`: the history replayed, the fields
      grouped and the line for the issue built. */
  method ReportIssue(target: string, issue: string, history: seq<Old.Entry>) returns (report: IssueReport)
    ensures report == Report(target, issue, history)
  {
    var flags, fields := ReplayHistory(target, history);
    var groups := Old.GroupDict(fields);
    var notes := NotesOf(groups);
    report := IssueReport("https://jira-new.neoflex.ru/browse/" + issue, !flags.closed, flags.returned, flags.reopened, notes);
  }

  /** `main` after the fetch: one report per issue, the number of issues,
      and the two counters. */
  method ReportIssues(jira: Jira, issues: seq<string>, histories: seq<seq<Old.Entry>>)
      returns (reports: seq<IssueReport>, countTotal: int, countReturnedFromTesting: int, countReturnedFromProd: int)
    requires |histories| == |issues|
    ensures reports == Reports(jira.targetUsername, issues, histories)
    ensures countTotal == |issues|
    ensures countReturnedFromTesting == CountReturned(reports)
    ensures countReturnedFromProd == CountReopened(reports)
  {
    var target := jira.targetUsername;
    countTotal := |issues|;
    countReturnedFromTesting := 0;
    countReturnedFromProd := 0;
    reports := [];
    for i := 0 to |issues|
      invariant reports == Reports(target, issues[..i], histories[..i])
      invariant countReturnedFromTesting == CountReturned(reports)
      invariant countReturnedFromProd == CountReopened(reports)
    {
      assert issues[..i + 1][..i] == issues[..i];
      assert histories[..i + 1][..i] == histories[..i];
      var report := ReportIssue(target, issues[i], histories[i]);
      if report.returned {
        countReturnedFromTesting := countReturnedFromTesting + 1;
      }
      if report.reopened {
        countReturnedFromProd := countReturnedFromProd + 1;
      }
      CountsSnoc(reports, report);
      reports := reports + [report];
    }
    assert issues[..|issues|] == issues;
    assert histories[..|histories|] == histories;
  }

  /** What `main` prints: the report of each issue in order, and counters
      that never exceed the number of issues. */
  lemma ReportIssuesSpec(target: string, issues: seq<string>, histories: seq<seq<Old.Entry>>)
    requires |histories| == |issues|
    ensures var reports := Reports(target, issues, histories);
            |reports| == |issues| &&
            (forall i | 0 <= i < |issues| :: reports[i].url == "https://jira-new.neoflex.ru/browse/" + issues[i]) &&
            (forall i | 0 <= i < |issues| :: reports[i].returned == Old.RunFlags(target, histories[i]).returned) &&
            (forall i | 0 <= i < |issues| :: reports[i].reopened == Old.RunFlags(target, histories[i]).reopened) &&
            CountReturned(reports) <= |issues| && CountReopened(reports) <= |issues|
  {
    forall i | 0 <= i < |issues|
      ensures Reports(target, issues, histories)[i] == Report(target, issues[i], histories[i])
    {
      assert ReportOf(target)(issues[i], histories[i]) == Report(target, issues[i], histories[i]);
    }
    CountsBounded(Reports(target, issues, histories));
  }
}
