# JiraTrack in Dafny

JiraTrack helps a team lead see how their developers' Jira issues went. It
has two parts:

- a **browser client**: a form that queries Jira, then a table of the
  project's issues;
- two **command-line scripts** that replay each issue's history and report
  its state:
  - whether it is still not closed;
  - whether it came back from testing;
  - whether it was reopened after being closed;
  - which custom fields the developer noted in comments.

This project models the logic of both parts and proves what the code
promises about it.

The browser client:

- **JiraApi**: the client object and the paging loop of `getIssues` (page
  offsets, progress reports, row shaping, the final sort by issue number).
  The server's replies are input data.
- **Base64**: section 4 of RFC 4648, as used by `btoa` for the Basic
  authorisation header.
- **Comparators**: `keyComparator` and `dateComparator`. Date parsing is a
  function parameter.
- **Utils**: `splitList`, a balanced, order-preserving chunking with left or
  right overflow.
- **TagsInput** and **FilterInput**: the two list-editing widgets, as classes
  whose handlers rewrite the state and record what they hand to `onChange`.
- **MainForm**:
  - the two validators;
  - the save rule, with local storage as a map;
  - the defaults applied on load;
  - the assignee trim on submit;
  - the column count and the 24-column span arithmetic.

The scripts:

- **OldJiraTrack** (`old_jiratrack.py`):
  - URL normalisation and the JQL;
  - the flattening of change items and comments into a history sorted by
    time;
  - the `analyze` state machine over that history (got, done, closed, and the
    return and reopen flags), keeping Python's precedence in the closing test;
  - `/name value` custom fields parsed from comments;
  - `group_dict`, `pretty_list`, and the spreadsheet file name.
- **JiraTrack** (`jiratrack.py`):
  - the client;
  - `pretty_format`, which renders hours and minutes with the Russian plural
    of "hour";
  - the per-issue loop and the counters of `main`.

  This script's `get_issue_history` (jiratrack.py:91-117), `group_dict`
  (jiratrack.py:140-144) and `pretty_list` (jiratrack.py:147-153) are the same
  as the old script's. The model uses the OldJiraTrack members for them.

Helper modules model the built-ins the code relies on:

- **Text**: JavaScript `trim` and `\s`; Python `find`, `in`, `lower`,
  `splitlines`, `str(int)` and `", ".join`; JavaScript `parseInt`.
- **Sorting**: the stable sort of `Array.prototype.sort` and Python's
  `sorted`.
- **Lists**: `filter` by value and by index.
- **Wrappers**: `Option`.
- **Arithmetic**: division facts.

`keyComparator` takes the number after the **first** hyphen of a key, since
the code calls `indexOf("-")`.

## Model

| member | source | states |
|---|---|---|
| JiraApi.NewJiraApi | src/JiraAPI.ts:12-24 | the object exists exactly when `btoa` accepts `username:password`; it keeps the three inputs and takes the search URL as origin + "/rest/api/2/search" |
| JiraApi.AuthorizationHeader | src/JiraAPI.ts:19-21 | the headers are the JSON content type and "Basic " + the RFC 4648 encoding of the bytes of `username:password` |
| JiraApi.GetJql | src/JiraAPI.ts:26-31 | joining "project =" and the project with a space gives exactly "project = " + the project |
| JiraApi.PageStartsFromShape | src/JiraAPI.ts:52-56 | from offset 10·j on, the loop requests offsets 10 apart, every one below the total, stopping after the first at or above 100 |
| JiraApi.PageStartsShape | src/JiraAPI.ts:52-94 | the requested offsets are 0, 10, 20, … below the total; for a positive total there are min(ceil(total/10), 11) of them |
| JiraApi.TwentyFiveIssues | src/JiraAPI.ts:52-56 | 25 issues take three requests, at 0, 10 and 20 |
| JiraApi.ManyIssues | src/JiraAPI.ts:92-94 | the break after offset 100 caps the requests at eleven |
| JiraApi.Progress | src/JiraAPI.ts:91 | `Math.round(len / total * 100)` as (200·len + total) div (2·total); its meaning is stated by the four lemmas below |
| JiraApi.ProgressRounds | src/JiraAPI.ts:91 | the progress after a page is the percentage fetched, rounded half up |
| JiraApi.ProgressComplete | src/JiraAPI.ts:91 | all issues fetched gives exactly 100 |
| JiraApi.ProgressMonotone | src/JiraAPI.ts:91 | more rows fetched never gives lower progress |
| JiraApi.ProgressBounds | src/JiraAPI.ts:91 | up to the total, progress stays between 0 and 100 |
| JiraApi.PageRows | src/JiraAPI.ts:70-90 | a page gives one row per issue, in order, each built from its issue |
| JiraApi.Reports | src/JiraAPI.ts:91 | one progress report per request |
| JiraApi.GetIssues | src/JiraAPI.ts:45-101 | it requests exactly the page offsets above; it reports 0, then the progress after each page, then 100; it returns the fetched rows sorted by key order |
| JiraApi.PushRows | src/JiraAPI.ts:70-90 | the inner loop appends the rows of the page to the result |
| JiraApi.FetchedSnoc | src/JiraAPI.ts:53-90 | one more request adds the rows of its page behind the earlier ones |
| JiraApi.ReportsSnoc | src/JiraAPI.ts:91 | one more request adds the progress over all rows fetched so far |
| JiraApi.LoopStep | src/JiraAPI.ts:52-95 | one round of the loop keeps the relation between the offsets still to request, the rows and the reports |
| JiraApi.PageStartsAdvance | src/JiraAPI.ts:52-94 | after requesting offset i, what remains is the offsets from i + 10, or nothing once i reaches 100 |
| JiraApi.NoIssues | src/JiraAPI.ts:49-52 | with no issues nothing is requested, progress goes 0 then 100, and the table is empty |
| JiraApi.ReportsMonotone | src/JiraAPI.ts:91 | successive progress reports never decrease |
| JiraApi.ReportAt | src/JiraAPI.ts:91 | report i is the progress over the rows of the first i + 1 pages |
| JiraApi.FetchedPrefix | src/JiraAPI.ts:70-71 | the rows of the first requests are a prefix of all rows |
| JiraApi.FetchedLinks | src/JiraAPI.ts:73 | every fetched row links to origin + "/browse/" + its key |
| JiraApi.TableIsPermutation | src/JiraAPI.ts:99 | the table holds exactly the fetched rows |
| JiraApi.TableLinks | src/JiraAPI.ts:73 | every row of the sorted table keeps its link |
| JiraApi.TableSorted | src/JiraAPI.ts:99 | when every key carries a number, the table is in ascending key order |
| JiraApi.TableStable | src/JiraAPI.ts:99 | rows whose keys carry the same number keep the order they were fetched in |
| JiraApi.RowOrderConsistent | src/JiraAPI.ts:99 | on numbered keys the row comparator is antisymmetric and transitive |
| Base64.CharOf | src/JiraAPI.ts:21 | each 6-bit value maps to a character of the base 64 alphabet |
| Base64.ValueOf | src/JiraAPI.ts:21 | a character has a value exactly when it is in the alphabet; the value maps back to that character |
| Base64.ValueOfCharOf | src/JiraAPI.ts:21 | mapping a value to its character and back gives the value |
| Base64.Encode | src/JiraAPI.ts:21 | the encoding has four characters per started group of three bytes, all from the alphabet or "=" |
| Base64.GroupRoundTrip | src/JiraAPI.ts:21 | the four 6-bit values of three bytes reassemble into those bytes |
| Base64.DecodeStep | src/JiraAPI.ts:21 | four alphabet characters decode as one full group followed by the rest |
| Base64.DecodeFullGroup | src/JiraAPI.ts:21 | an encoded full group in front decodes to its three bytes |
| Base64.DecodeOneByte | src/JiraAPI.ts:21 | a group padded with "==" decodes to its one byte |
| Base64.DecodeTwoBytes | src/JiraAPI.ts:21 | a group padded with "=" decodes to its two bytes |
| Base64.DecodeEncode | src/JiraAPI.ts:21 | decoding inverts encoding for every byte string |
| Base64.DecodeEncodeGroups | src/JiraAPI.ts:21 | decoding inverts encoding for byte strings of three bytes or more |
| Base64.Latin1Bytes | src/JiraAPI.ts:21 | a string has a byte image exactly when every character is below 256; the image holds the character codes |
| Base64.Btoa | src/JiraAPI.ts:21 | `btoa` succeeds exactly when every character is below 256 |
| Base64.BtoaDecodes | src/JiraAPI.ts:21 | decoding the output of `btoa` gives back the character codes |
| Comparators.KeyComparator | src/components/Comparators.ts:10-14 | NaN (None) exactly when a key has no number; otherwise negative, zero or positive as the first key's number is below, equal to or above the second's |
| Comparators.KeySuffix | src/components/Comparators.ts:11 | without a hyphen the whole key is the suffix; with one, the suffix is what follows the first hyphen |
| Comparators.KeyNumberOfNumeral | src/components/Comparators.ts:11 | a hyphen-free prefix, a hyphen and a decimal number give that number |
| Comparators.ComparatorOfNumbers | src/components/Comparators.ts:13 | two numbered keys compare by the difference of their numbers |
| Comparators.NineBeforeTen | src/components/Comparators.ts:10-14 | "P-9" sorts before "P-10": the order is numeric |
| Comparators.NineAfterTenAsStrings | src/components/Comparators.ts:10-14 | plain string order would put "P-10" first |
| Comparators.PrefixIgnored | src/components/Comparators.ts:11-12 | keys with equal numbers compare 0 whatever their prefixes and links |
| Comparators.KeyComparatorAntisymmetric | src/components/Comparators.ts:13 | swapping the keys negates the result; NaN stays NaN |
| Comparators.DifferenceAntisymmetric | src/components/Comparators.ts:13 | the difference with NaN propagation is antisymmetric |
| Comparators.KeyOrderAntisymmetric | src/components/Comparators.ts:13 | as the sort reads it, with NaN as 0, the order is antisymmetric on all keys |
| Comparators.KeyComparatorReflexive | src/components/Comparators.ts:13 | a numbered key compares 0 with itself; a key without a number gives NaN |
| Comparators.KeyOrderTransitive | src/components/Comparators.ts:13 | on numbered keys the order is transitive |
| Comparators.NaNTiesWithAll | src/components/Comparators.ts:11-13 | a key without a number ties with every key |
| Comparators.KeyOrderConsistent | src/components/Comparators.ts:10-14 | on numbered keys the comparator is a consistent total preorder |
| Comparators.DateComparator | src/components/Comparators.ts:16-20 | two parsed dates compare by the difference of their timestamps; two unparseable ones compare 0; an unparseable one is at or before any date at or after the epoch |
| Comparators.UnparseableDateFirst | src/components/Comparators.ts:17-19 | an unparseable date sorts at or before any date at or after the epoch |
| Comparators.UnparseableIsEpoch | src/components/Comparators.ts:17-19 | an unparseable date and the epoch compare equal |
| Comparators.DateComparatorConsistent | src/components/Comparators.ts:16-20 | the date comparator is antisymmetric and transitive on any dates |
| Utils.ChunkSizeNonNegative | src/utils.tsx:10-18 | no chunk size is negative |
| Utils.ChunkSizesBalanced | src/utils.tsx:10-18 | chunk sizes differ by at most one |
| Utils.TargetChunk | src/utils.tsx:12-16 | element i is counted into a chunk that exists |
| Utils.ChunkSizeStep | src/utils.tsx:17 | counting one more element adds one to its chunk only |
| Utils.CountChunkSizes | src/utils.tsx:6-18 | the sizes array has one entry per chunk, each n div c plus one for the first (left) or last (right) n mod c chunks, and the sizes sum to the length |
| Utils.TakeChunk | src/utils.tsx:23-26 | the inner loop takes the next `size` elements from the cursor and advances it |
| Utils.SplitList | src/utils.tsx:1-31 | `[list]` for at most one chunk; otherwise exactly `chunksCount` chunks; their concatenation is the list; sizes are balanced and follow the alignment |
| Utils.SumPrefixBound | src/utils.tsx:22-26 | the cursor never passes the end of the list |
| TagsInput.AddTag | src/components/TagsInput.tsx:46-51 | confirming keeps the list as a prefix and adds at most one tag |
| TagsInput.AddTagAppendsNewTags | src/components/TagsInput.tsx:46-51 | confirming appends the trimmed text exactly when it is not empty and not present; otherwise the list is unchanged |
| TagsInput.RemoveUndoesAdd | src/components/TagsInput.tsx:38-51 | removing a tag just added gives back the list |
| TagsInput.EditTag | src/components/TagsInput.tsx:59-69 | an edit keeps every tag before the edited index; at an index in range the list keeps its length or loses one tag |
| TagsInput.EmptyEditRemovesTag | src/components/TagsInput.tsx:63-64 | an empty edit removes exactly the edited tag |
| TagsInput.EditChangesOnlyIndex | src/components/TagsInput.tsx:66-69 | a non-empty edit touches only the edited index, and sets it exactly when the text is new or already there |
| TagsInput.AddTagKeepsNoDup | src/components/TagsInput.tsx:48 | adding keeps a duplicate-free list duplicate-free |
| TagsInput.EditTagKeepsNoDup | src/components/TagsInput.tsx:63-69 | editing keeps a duplicate-free list duplicate-free |
| TagsInput.RemoveTagSpec | src/components/TagsInput.tsx:38-40 | removal takes out every occurrence of the tag and no other element |
| TagsInput.TagsInput.constructor | src/components/TagsInput.tsx:22-28 | the list starts as the given items or empty, with no input shown or edited |
| TagsInput.TagsInput.ShowInput | src/components/TagsInput.tsx:134-140 | the "+" tag shows the new-tag input and changes nothing else |
| TagsInput.TagsInput.HandleRemove | src/components/TagsInput.tsx:38-40 | the list is filtered, and `onChange` is not called |
| TagsInput.TagsInput.HandleNewInputChange | src/components/TagsInput.tsx:42-44 | the typed text is stored |
| TagsInput.TagsInput.HandleNewInputConfirm | src/components/TagsInput.tsx:46-53 | the list becomes `AddTag` of it, reported only when it changed; the input is cleared and hidden either way |
| TagsInput.TagsInput.StartEdit | src/components/TagsInput.tsx:107-108 | clicking a tag makes it the edited one, with its text |
| TagsInput.TagsInput.HandleEditInputChange | src/components/TagsInput.tsx:55-57 | the edited text is stored and the unchanged list is reported |
| TagsInput.TagsInput.HandleEditInputConfirm | src/components/TagsInput.tsx:59-74 | with a tag being edited the list becomes `EditTag` of it and is reported; the edit state is cleared |
| TagsInput.TagsInput.HandleClear | src/components/TagsInput.tsx:76-78 | the list is emptied and reported |
| FilterInput.NewFilter | src/components/FilterInput.tsx:48-56 | the new filter has value 0 and the first operation ("==" by default); its condition is absent for an empty list and "and" otherwise; its category is the first category, if any |
| FilterInput.SetFieldOnlyTouchesField | src/components/FilterInput.tsx:67 | setting a field gives it the value and leaves the other fields alone |
| FilterInput.ChangeField | src/components/FilterInput.tsx:61-71 | only the chosen field of item i changes; every other item is kept |
| FilterInput.FilterInput.constructor | src/components/FilterInput.tsx:33-38 | the list starts as the given items or empty |
| FilterInput.FilterInput.HandleDelete | src/components/FilterInput.tsx:44-46 | exactly index i is removed and the rest keep their order; an index out of range changes nothing; the list is reported |
| FilterInput.FilterInput.HandleAdd | src/components/FilterInput.tsx:48-59 | exactly one default filter is appended and the list reported; an empty operation list throws and changes nothing |
| FilterInput.FilterInput.HandleFieldChange | src/components/FilterInput.tsx:61-71 | the list becomes `ChangeField` of it and is reported |
| FilterInput.FilterInput.HandleClear | src/components/FilterInput.tsx:73-75 | the list is emptied and reported |
| MainForm.ValidateNoSpaces | src/components/MainForm.tsx:12-21 | accepted exactly when the list is absent or no value contains white space |
| MainForm.ValidateOnlyDigits | src/components/MainForm.tsx:23-32 | accepted exactly when the list is absent or every value is non-empty and made of digits and white space |
| MainForm.SaveValuesToLocalStorage | src/components/MainForm.tsx:353-373 | dropped values (undefined, null, blank string, empty array) are removed; arrays are stored as JSON, other values as text; keys not submitted stay as they were |
| MainForm.SaveIdempotent | src/components/MainForm.tsx:353-373 | saving the same values twice leaves the storage as saving once |
| MainForm.WithDefaultSpec | src/components/MainForm.tsx:381-384 | one default adds its key, keeps a truthy stored value or else uses the default, and leaves other keys alone |
| MainForm.WithDefaultsKeys | src/components/MainForm.tsx:381-384 | after the defaults the four keys are present, beside the stored ones |
| MainForm.WithDefaultsValues | src/components/MainForm.tsx:381-384 | each key holds its stored value, or its default where that is falsy or missing |
| MainForm.ReadStorage | src/components/MainForm.tsx:376-379 | every stored key is read and parsed |
| MainForm.GetValuesFromLocalStorage | src/components/MainForm.tsx:375-386 | the result has the stored keys and the four defaulted ones; other keys are parsed as stored; status is ["all"], tagsMode and assigneeMode "any" and project "NEODEV" unless the stored value is truthy |
| MainForm.FinishedValues | src/components/MainForm.tsx:389-391 | a truthy assignee that is not a string throws on `trim`; otherwise a string assignee is trimmed and all other values are kept |
| MainForm.FinishedAssigneeTrimmed | src/components/MainForm.tsx:389-391 | the submitted assignee has no surrounding white space, and trimming again changes nothing |
| MainForm.HandleFormFinish | src/components/MainForm.tsx:388-394 | the trimmed values are both saved and submitted; a throwing trim leaves the storage unchanged |
| MainForm.ColumnsCount | src/components/MainForm.tsx:71 | at least one column; from a width of 600 on, the number of whole 600-pixel columns |
| MainForm.SumConstant | src/components/MainForm.tsx:398-399 | m columns of span a take m·a of the grid |
| MainForm.SpansFillGrid | src/components/MainForm.tsx:396-399 | with the last column taking the leftover, the spans sum to 24 |
| MainForm.SpansPositive | src/components/MainForm.tsx:398 | for at most 24 columns every span is at least 1 |
| MainForm.MainForm.constructor | src/components/MainForm.tsx:46-52 | one column and no chunks |
| MainForm.MainForm.CalculateFiltersChunks | src/components/MainForm.tsx:77-84 | the column count is stored; the filters are split into min(columns, number of filters) chunks that concatenate back to the filter list |
| MainForm.MainForm.UpdateDimensions | src/components/MainForm.tsx:69-75 | the column count follows the width; the chunks are recomputed when the count changes or there are none |
| MainForm.MainForm.RenderFillsGrid | src/components/MainForm.tsx:396-399 | the rendered column spans sum to 24 and each is at least 1 |
| OldJiraTrack.NormalizeHost | old_jiratrack.py:22-24 | an empty host fails; otherwise the host ends in exactly one added "/" if it had none, and is unchanged if it had one |
| OldJiraTrack.NormalizeHostIdempotent | old_jiratrack.py:23-24 | normalising twice is normalising once |
| OldJiraTrack.NewJira | old_jiratrack.py:16-26 | the client keeps the four inputs and the normalised host |
| OldJiraTrack.NormalizeHostBase | old_jiratrack.py:23-24 | the normalised host is its base followed by one "/" |
| OldJiraTrack.EndpointsUnderHost | old_jiratrack.py:25-26 | the search and issue URLs are the host base + "/rest/api/2/search" and + "/rest/api/2/issue/", with one slash |
| OldJiraTrack.Jql | old_jiratrack.py:36-37 | the query text "project = P AND assignee was U"; `JqlRoundTrip` reads P and U back from it |
| OldJiraTrack.JqlRoundTrip | old_jiratrack.py:37-38 | the query is "project = P AND assignee was U", from which P and U are read back |
| OldJiraTrack.AppendItems | old_jiratrack.py:99-106 | the inner loop appends one entry per change item |
| OldJiraTrack.GetIssueHistory | old_jiratrack.py:95-121 | the history is the change entries and then the comment entries, sorted by time |
| OldJiraTrack.ItemEntriesShape | old_jiratrack.py:99-106 | one entry per item, built from that item |
| OldJiraTrack.ChangeEntriesShape | old_jiratrack.py:98-106 | one entry per change item overall, with field and value lower-cased |
| OldJiraTrack.CommentEntriesShape | old_jiratrack.py:112-118 | one entry per comment, with field "comment" and the body verbatim |
| OldJiraTrack.TimeOrderConsistent | old_jiratrack.py:120 | ordering by time is a consistent comparator |
| OldJiraTrack.HistorySpec | old_jiratrack.py:120 | the sorted history is a permutation of the entries, in time order, with equal times in their original order |
| OldJiraTrack.ParseCustomFieldIff | old_jiratrack.py:144-148 | a line yields a field exactly when it is "/" + a space-free name + " " + a non-empty value, and yields those two |
| OldJiraTrack.CommentFieldsLastWins | old_jiratrack.py:143-148 | the last line naming a field sets its value; fields no line names keep their values |
| OldJiraTrack.StepFlags | old_jiratrack.py:140-167 | one entry never clears a flag and keeps the flags consistent: done needs got, returned needs done, reopened needs got and closed |
| OldJiraTrack.RunFlags | old_jiratrack.py:140-167 | the flags after the whole history are consistent in the same sense |
| OldJiraTrack.ClosedIff | old_jiratrack.py:166-167 | closed exactly when some entry, by anyone, satisfies (got and status and "closed") or "resolved" |
| OldJiraTrack.ResolvedCloses | old_jiratrack.py:166-167 | an entry mentioning "resolved" closes the issue whatever its field; closed stays closed |
| OldJiraTrack.ResolvedCommentCloses | old_jiratrack.py:166 | a "resolved" comment by another user closes an issue nobody took |
| OldJiraTrack.PrefixAgrees | old_jiratrack.py:140-167 | what happens at an entry does not depend on later entries |
| OldJiraTrack.ReturnedIff | old_jiratrack.py:152-156 | returned exactly when the target user starts work on the issue while got and done hold |
| OldJiraTrack.ReopenedIff | old_jiratrack.py:152-158 | reopened exactly when the target user starts work on the issue while got and closed hold |
| OldJiraTrack.LeastExists | old_jiratrack.py:190 | a non-empty key set has a least key |
| OldJiraTrack.LeastUnique | old_jiratrack.py:190 | the least key is unique |
| OldJiraTrack.SortedItemsSound | old_jiratrack.py:190 | every sorted item is a pair of the dictionary |
| OldJiraTrack.SortedItemsComplete | old_jiratrack.py:190 | every pair of the dictionary is among the sorted items |
| OldJiraTrack.SortedItemsAscending | old_jiratrack.py:190 | the keys of the items strictly ascend |
| OldJiraTrack.FindGroup | old_jiratrack.py:191 | the index of the group of a value, or -1 when there is none |
| OldJiraTrack.AddToGroupDistinct | old_jiratrack.py:191 | appending a key keeps one group per value |
| OldJiraTrack.GroupedDistinct | old_jiratrack.py:189-192 | there is one group per value |
| OldJiraTrack.GroupedSound | old_jiratrack.py:189-192 | each key sits under its own value |
| OldJiraTrack.GroupedComplete | old_jiratrack.py:189-192 | every key appears under its value |
| OldJiraTrack.GroupedAscending | old_jiratrack.py:190-191 | keys visited in ascending order stay ascending within each group |
| OldJiraTrack.GroupDict | old_jiratrack.py:188-192 | the loop builds the groups of the sorted items |
| OldJiraTrack.GroupDictSpec | old_jiratrack.py:188-192 | each key is in exactly one group, under its value; values are distinct; keys ascend within a group |
| OldJiraTrack.PrettyList | old_jiratrack.py:195-201 | `pretty_list`; characterised for every list by the two lemmas below |
| OldJiraTrack.PrettyListPair | old_jiratrack.py:201 | two elements are joined by " и " |
| OldJiraTrack.PrettyListCons | old_jiratrack.py:201 | from three elements on, the first is followed by ", " and the rendering of the rest: commas between the elements and " и " before the last |
| OldJiraTrack.PrettyListExample | old_jiratrack.py:201 | ["a", "b", "c"] gives "a, b и c" |
| OldJiraTrack.NotesText | old_jiratrack.py:176-179 | the notes are the group lines joined with ", " |
| OldJiraTrack.ApplyComment | old_jiratrack.py:143-150 | the lines set the custom fields; the time is set by the first custom field while it is still unset |
| OldJiraTrack.AnalyzeEntry | old_jiratrack.py:141-167 | one entry updates the flags, fields and time as the state machine says |
| OldJiraTrack.Analyze | old_jiratrack.py:123-181 | the result links to host + "browse/" + issue; open is not closed; return and reopen and the notes come from the replayed history |
| OldJiraTrack.XlsxFilename | old_jiratrack.py:216-220 | the file name always ends in ".xlsx" |
| OldJiraTrack.XlsxFilenameOnce | old_jiratrack.py:219-220 | ".xlsx" is appended only when missing, so applying the rule twice changes nothing |
| JiraTrack.NewJira | jiratrack.py:11-20 | an empty host fails; otherwise the client keeps the four inputs |
| JiraTrack.SameEndpointsAsOld | jiratrack.py:17-20 | the search and issue URLs are the old script's, under the host with one slash |
| JiraTrack.PrettyFormat | jiratrack.py:118-137 | `pretty_format` on whole seconds; its three cases are stated by `WholeHours`, `UnderAnHour` and `HoursAndMinutes` |
| JiraTrack.HourWordByLastDigit | jiratrack.py:125-130 | the plural follows the last digit: 1, 11 and 21 take "час", 2, 12 and 34 take "часа", 5, 10 and 0 take "часов" |
| JiraTrack.WholeHours | jiratrack.py:131-137 | a whole number of hours H, counting 24 per day, renders as "H" and its plural |
| JiraTrack.UnderAnHour | jiratrack.py:131-133 | less than an hour and not whole renders as "M минут" |
| JiraTrack.HoursAndMinutes | jiratrack.py:120-135 | an hour or more and not whole renders as "H <plural> M минут", with H = 24·days + seconds div 3600 and M = (seconds div 60) mod 60 |
| JiraTrack.DayIsTwentyFourHours | jiratrack.py:120-124 | one more day adds 24 hours and does not change whether the duration is whole |
| JiraTrack.ElevenHours | jiratrack.py:125-137 | eleven hours render as "11 час" |
| JiraTrack.ParseComment | jiratrack.py:200-205 | the comment lines set the fields as in the old script |
| JiraTrack.ReplayEntry | jiratrack.py:198-226 | one entry updates the flags and fields exactly as in the old script, with the same closing test |
| JiraTrack.ReplayHistory | jiratrack.py:190-226 | the per-issue loop gives the old script's flags and fields |
| JiraTrack.ZipWith | jiratrack.py:187 | pairing issues with histories gives one result per pair, in order |
| JiraTrack.NotesOf | jiratrack.py:239-240 | one note per group, in order |
| JiraTrack.ReportIssue | jiratrack.py:187-240 | the line of one issue: its link, the not-closed, returned and reopened flags, and its notes |
| JiraTrack.ReportIssues | jiratrack.py:183-242 | one report per issue in order, the total number of issues, and counters that count the reports with each flag |
| JiraTrack.CountsSnoc | jiratrack.py:231-236 | a counter grows by one exactly for an issue carrying its flag |
| JiraTrack.CountsBounded | jiratrack.py:183-186 | neither counter exceeds the total; each equals it exactly when every issue carries the flag, and is 0 exactly when none does |
| JiraTrack.ReportIssuesSpec | jiratrack.py:187-236 | report i links to "https://jira-new.neoflex.ru/browse/" + issue i and carries that issue's flags; both counters are at most the total |
| Text.Trim | src/components/TagsInput.tsx:47 | the trimmed text is a slice of the input, with no white space at either end |
| Text.TrimEmptyIffAllSpace | src/components/MainForm.tsx:362 | a text trims to "" exactly when it is all white space |
| Text.TrimIdempotent | src/components/MainForm.tsx:390 | trimming twice is trimming once |
| Text.IndexOf | old_jiratrack.py:144 | the first position of the character, or -1 when it is absent |
| Text.Lower | old_jiratrack.py:104-105 | the lower-cased text has the same length, each character lower-cased |
| Text.LowerIdempotent | old_jiratrack.py:104-105 | lower-casing twice is lower-casing once |
| Text.SplitLines | old_jiratrack.py:143 | no line contains a line break, and only the empty text has no lines |
| Text.SplitLinesOneLine | old_jiratrack.py:143 | a non-empty text without a line boundary is one line, itself |
| Text.SplitLinesBreak | old_jiratrack.py:143 | the text up to the first boundary character is the first line, and the lines of the rest follow |
| Text.SplitLinesCrLf | old_jiratrack.py:143 | "\r\n" ends one line, not two |
| Text.FirstBoundary | old_jiratrack.py:143 | the first boundary is the one right after a boundary-free prefix |
| Text.JoinCons | old_jiratrack.py:201 | joining puts the separator between neighbouring parts |
| Text.CompareAntisymmetric | old_jiratrack.py:120 | string comparison is antisymmetric |
| Text.CompareZeroIffEqual | old_jiratrack.py:190 | strings compare equal exactly when they are equal |
| Text.CompareTransitive | old_jiratrack.py:120 | string comparison is transitive |
| Text.DecimalStringLastDigit | jiratrack.py:125 | the last digit of `str(n)` is n mod 10 |
| Text.ParseIntDecimalString | src/components/Comparators.ts:11 | `parseInt` of a decimal numeral gives back the number |
| Sorting.SortPermutation | src/JiraAPI.ts:99 | sorting permutes the elements |
| Sorting.SortSorted | src/JiraAPI.ts:99 | with a consistent comparator the result is sorted |
| Sorting.SortStable | src/JiraAPI.ts:99 | elements comparing equal keep their relative order |

## Left out

- HTTP (`fetch`, `requests.get`) and JSON decoding of replies are not modelled. Issue pages, the total count, change logs and comments are inputs.
- `getTotalIssuesCount` is not modelled; the total is a parameter of `GetIssues`.
- `new URL(jiraUrl).origin` (WHATWG URL parsing): `NewJiraApi` takes the origin as a given string.
- `setProgress` being optional: every progress report is recorded as if a callback were given.
- JiraApi.Progress: `Math.round(len / total * 100)` is modelled as rounding half up on the exact rational, not on a double.
- `moment` date parsing: `dateComparator` takes the parser as a function parameter. `nameAndIconComparator`'s `localeCompare` is not modelled.
- Sorting.Sort: the stability and sortedness lemmas need a consistent comparator; a key without a number makes `keyComparator` inconsistent, and the order the browser then produces is not modelled.
- Integer width: JavaScript numbers are exact only up to 2^53; the model's integers are unbounded.
- `parseJSON` and `JSON.stringify` are function parameters; the local storage API itself is a map.
- MainForm.GetValuesFromLocalStorage: a `for … in` over `localStorage` also yields the storage object's enumerable built-in members; the model reads only the stored keys.
- TagsInput.EditTag: an edit index past the end writes past the array end in JavaScript; the model appends the value.
- FilterInput.FilterInput.HandleFieldChange: `handleFieldChange` takes `string | number`, and the number input can also pass a fraction or `null`; the model's values are strings and integers only.
- FilterInput.ChangeField: the source mutates the selected item in place, which aliases it with the previous state list; the model builds a new list of values.
- React rendering, `setState` scheduling, `componentDidUpdate`, resize events and the JSX layout are not modelled. The filter names are fixed labels standing for the rendered filter elements.
- `parallel_process` (concurrency) is not modelled; histories arrive as a list in issue order.
- `_url_issue_info`, `_url_issue_comments`, `get_issue_info`, `get_list_of_issues` and `_jql` paging are not modelled: they only build URLs for HTTP calls or make the calls.
- OldJiraTrack.Analyze: `simplfy_time` (`strptime`/`strftime`) is a function parameter.
- The "BAD ITEM" exit of `get_issue_history` is not modelled: a change item always carries a field and an optional `toString`.
- Text.Lower: Python's `lower` is modelled only for the capitals of Basic Latin, Latin-1 (À to Þ, without ×) and the Cyrillic block U+0400 to U+042F. Other scripts are left unchanged, and U+0130 (İ), which Python lower-cases to two characters, is not modelled.
- JiraTrack.ReplayEntry: the `int()` parsing of "timeoriginalestimate" and "timeestimate" values is left out, since their results are never used; the ValueError a non-numeric value raises is not modelled.
- JiraTrack.PrettyFormat: the float division of the script is modelled with integer arithmetic on the seconds, which gives the same results for a `timedelta`'s days and seconds.
- Terminal output, colouring, `getpass`, `tqdm`, the xlsx workbook, and the `%.2f` percentages (with their ZeroDivisionError when there are no issues) are not modelled. `main` is modelled as the data each printed line carries.
- Command-line argument handling of both scripts' `main` is not modelled.
- The Python dictionary `custom_fields` is a map: `group_dict` sorts the items, so insertion order does not matter.
- The browser's local storage is a map from keys to strings; the order of its keys is not modelled.
