/** The search form: its two field validators, the rule for saving the
    submitted values to local storage and the defaults applied when loading
    them, the trimming of the assignee on submit, and the layout arithmetic
    that splits the filters into columns of a 24-column grid. Local storage
    is a map from keys to strings; `JSON.stringify` and `parseJSON` are
    parameters. */
module MainForm {
  import opened Wrappers
  import opened Text
  import opened Arithmetic
  import Utils

  // ---------------------------------------------------------------------
  // Validators
  // ---------------------------------------------------------------------

  /** `/^[\d\s]+$/.test(value)`: not empty, digits and white space only. */
  predicate OnlyDigitsAndSpaces(value: string) {
    |value| > 0 && forall i | 0 <= i < |value| :: IsDigit(value[i]) || IsJsSpace(value[i])
  }

  /** `validateNoSpaces`: true (resolve) iff no value contains white space;
      an absent list is accepted. */
  method ValidateNoSpaces(values: Option<seq<string>>) returns (accepted: bool)
    ensures accepted <==> values.None? || forall k | 0 <= k < |values.value| :: !HasJsSpace(values.value[k])
  {
    if values.Some? {
      var vs := values.value;
      for k := 0 to |vs|
        invariant forall m | 0 <= m < k :: !HasJsSpace(vs[m])
      {
        if HasJsSpace(vs[k]) {
          return false;
        }
      }
    }
    return true;
  }

  /** `validateOnlyDigits`: true (resolve) iff every value is a non-empty
      run of digits and white space; an absent list is accepted. */
  method ValidateOnlyDigits(values: Option<seq<string>>) returns (accepted: bool)
    ensures accepted <==> values.None? || forall k | 0 <= k < |values.value| :: OnlyDigitsAndSpaces(values.value[k])
  {
    if values.Some? {
      var vs := values.value;
      for k := 0 to |vs|
        invariant forall m | 0 <= m < k :: OnlyDigitsAndSpaces(vs[m])
      {
        if !OnlyDigitsAndSpaces(vs[k]) {
          return false;
        }
      }
    }
    return true;
  }

  // ---------------------------------------------------------------------
  // Saving and loading the form values
  // ---------------------------------------------------------------------

  /** A value of the submitted form; `Obj` is any other object (a date),
      given with the text `String(value)` makes of it. */
  datatype FormValue = Undefined | Null | Bool(b: bool) | Num(n: int) | Str(s: string) | Arr(elems: seq<FormValue>) | Obj(text: string)

  /** JavaScript truthiness. */
  predicate Truthy(v: FormValue) {
    match v
    case Undefined => false
    case Null => false
    case Bool(b) => b
    case Num(n) => n != 0
    case Str(s) => s != ""
    case Arr(_) => true
    case Obj(_) => true
  }

  /** The values the save rule removes from the store instead of writing:
      undefined, null, a blank string and an empty array. */
  predicate Dropped(v: FormValue) {
    v.Undefined? || v.Null? || (v.Str? && Trim(v.s) == "") || (v.Arr? && v.elems == [])
  }

  /** The text `localStorage.setItem` stores: arrays go through
      `JSON.stringify` (`json`), everything else through `String`. */
  function StoredText(v: FormValue, json: seq<FormValue> -> string): string {
    match v
    case Undefined => "undefined"
    case Null => "null"
    case Bool(b) => if b then "true" else "false"
    case Num(n) => DecimalString(n)
    case Str(s) => s
    case Arr(elems) => json(elems)
    case Obj(text) => text
  }

  /** `stored` is the store left by saving `values` into `storage`: every
      dropped key removed, every other submitted key written, the keys not
      submitted untouched. */
  ghost predicate SavedAs(storage: map<string, string>, values: map<string, FormValue>,
                          json: seq<FormValue> -> string, stored: map<string, string>) {
    (forall k | k in values && Dropped(values[k]) :: k !in stored) &&
    (forall k | k in values && !Dropped(values[k]) :: k in stored && stored[k] == StoredText(values[k], json)) &&
    (forall k | k !in values :: (k in stored <==> k in storage) && (k in storage ==> stored[k] == storage[k]))
  }

  /** `saveValuesToLocalStorage(values)`, on a store passed in and returned. */
  method SaveValuesToLocalStorage(storage: map<string, string>, values: map<string, FormValue>,
                                  json: seq<FormValue> -> string) returns (stored: map<string, string>)
    ensures SavedAs(storage, values, json, stored)
  {
    stored := storage;
    var keys := values.Keys;
    while keys != {}
      invariant keys <= values.Keys
      invariant forall k | k in values && k !in keys && Dropped(values[k]) :: k !in stored
      invariant forall k | k in values && k !in keys && !Dropped(values[k]) :: k in stored && stored[k] == StoredText(values[k], json)
      invariant forall k | k !in values || k in keys :: (k in stored <==> k in storage) && (k in storage ==> stored[k] == storage[k])
      decreases |keys|
    {
      var key :| key in keys;
      var value := values[key];
      if Dropped(value) {
        stored := stored - {key};
      } else {
        stored := stored[key := StoredText(value, json)];
      }
      keys := keys - {key};
    }
  }

  /** Saving is idempotent: saving the same values again changes nothing. */
  lemma SaveIdempotent(storage: map<string, string>, values: map<string, FormValue>,
                       json: seq<FormValue> -> string, once: map<string, string>, twice: map<string, string>)
    requires SavedAs(storage, values, json, once) && SavedAs(once, values, json, twice)
    ensures twice == once
  {
    forall k ensures (k in twice <==> k in once) && (k in once ==> twice[k] == once[k]) {
      if k in values {
        if Dropped(values[k]) {
        } else {
          assert twice[k] == StoredText(values[k], json) == once[k];
        }
      }
    }
  }

  /** The keys that get a default when loading. */
  predicate IsDefaultKey(key: string) {
    key == "status" || key == "tagsMode" || key == "assigneeMode" || key == "project"
  }

  /** The defaults: `["all"]`, `"any"`, `"any"` and `"NEODEV"`. */
  function DefaultValue(key: string): FormValue {
    if key == "status" then Arr([Str("all")])
    else if key == "project" then Str("NEODEV")
    else Str("any")
  }

  /** What loading gives a key: the value read back, or the default for a
      default key whose value is missing or falsy. */
  function Loaded(read: map<string, FormValue>, key: string): FormValue
    requires key in read || IsDefaultKey(key)
  {
    if IsDefaultKey(key) && !(key in read && Truthy(read[key])) then DefaultValue(key) else read[key]
  }

  /** `result.key = result.key || default`. */
  function WithDefault(result: map<string, FormValue>, key: string): map<string, FormValue> {
    if key in result && Truthy(result[key]) then result else result[key := DefaultValue(key)]
  }

  /** The four defaulting assignments in order. */
  function WithDefaults(read: map<string, FormValue>): map<string, FormValue> {
    WithDefault(WithDefault(WithDefault(WithDefault(read, "status"), "tagsMode"), "assigneeMode"), "project")
  }

  lemma DefaultKeysDistinct()
    ensures "status" != "tagsMode" && "status" != "assigneeMode" && "status" != "project"
    ensures "tagsMode" != "assigneeMode" && "tagsMode" != "project" && "assigneeMode" != "project"
  {
    assert "status"[0] == 's' && "tagsMode"[0] == 't' && "assigneeMode"[0] == 'a' && "project"[0] == 'p';
  }

  /** One defaulting assignment touches its own key only. */
  lemma WithDefaultSpec(result: map<string, FormValue>, key: string)
    ensures WithDefault(result, key).Keys == result.Keys + {key}
    ensures WithDefault(result, key)[key] == if key in result && Truthy(result[key]) then result[key] else DefaultValue(key)
    ensures forall k | k in result && k != key :: WithDefault(result, key)[k] == result[k]
  {
  }

  /** The defaults add the four default keys and no other. */
  lemma WithDefaultsKeys(read: map<string, FormValue>)
    ensures WithDefaults(read).Keys == read.Keys + {"status", "tagsMode", "assigneeMode", "project"}
  {
    var r1 := WithDefault(read, "status");
    var r2 := WithDefault(r1, "tagsMode");
    var r3 := WithDefault(r2, "assigneeMode");
    WithDefaultSpec(read, "status");
    WithDefaultSpec(r1, "tagsMode");
    WithDefaultSpec(r2, "assigneeMode");
    WithDefaultSpec(r3, "project");
  }

  /** Each default applies to its own key once, and the other keys keep
      the value read. */
  lemma WithDefaultsValues(read: map<string, FormValue>, k: string)
    requires k in read || IsDefaultKey(k)
    ensures k in WithDefaults(read) && WithDefaults(read)[k] == Loaded(read, k)
  {
    var r1 := WithDefault(read, "status");
    var r2 := WithDefault(r1, "tagsMode");
    var r3 := WithDefault(r2, "assigneeMode");
    var r4 := WithDefault(r3, "project");
    WithDefaultSpec(read, "status");
    WithDefaultSpec(r1, "tagsMode");
    WithDefaultSpec(r2, "assigneeMode");
    WithDefaultSpec(r3, "project");
    DefaultKeysDistinct();
    if k == "status" {
      assert r4[k] == r1[k];
    } else if k == "tagsMode" {
      assert r4[k] == r2[k];
    } else if k == "assigneeMode" {
      assert r4[k] == r3[k];
    } else if k != "project" {
      assert r4[k] == read[k];
    }
  }

  /** The loop over the stored keys: each read back through `parse`. */
  method ReadStorage(storage: map<string, string>, parse: string -> FormValue) returns (read: map<string, FormValue>)
    ensures read.Keys == storage.Keys
    ensures forall k | k in storage :: read[k] == parse(storage[k])
  {
    read := map[];
    var keys := storage.Keys;
    while keys != {}
      invariant keys <= storage.Keys
      invariant read.Keys == storage.Keys - keys
      invariant forall k | k in read :: read[k] == parse(storage[k])
      decreases |keys|
    {
      var key :| key in keys;
      read := read[key := parse(storage[key])];
      keys := keys - {key};
    }
  }

  /** `getValuesFromLocalStorage()`: every stored key read back through
      `parseJSON` (`parse`), then the four defaults applied to the falsy
      or missing ones. */
  method GetValuesFromLocalStorage(storage: map<string, string>, parse: string -> FormValue)
      returns (result: map<string, FormValue>)
    ensures result.Keys == storage.Keys + {"status", "tagsMode", "assigneeMode", "project"}
    ensures forall k | k in storage && !IsDefaultKey(k) :: result[k] == parse(storage[k])
    ensures forall k | IsDefaultKey(k) ::
              result[k] == if k in storage && Truthy(parse(storage[k])) then parse(storage[k]) else DefaultValue(k)
  {
    var read := ReadStorage(storage, parse);
    result := WithDefaults(read);
    WithDefaultsKeys(read);
    forall k | k in read || IsDefaultKey(k) ensures result[k] == Loaded(read, k) {
      WithDefaultsValues(read, k);
    }
  }

  /** The values `handleFormFinish` submits: a truthy assignee trimmed; None
      where the assignee is truthy but not a string, so `trim` throws. */
  function FinishedValues(values: map<string, FormValue>): (r: Option<map<string, FormValue>>)
    ensures r.None? <==> "assignee" in values && Truthy(values["assignee"]) && !values["assignee"].Str?
    ensures r.Some? ==> r.value.Keys == values.Keys
    ensures r.Some? ==> forall k | k in values && k != "assignee" :: r.value[k] == values[k]
    ensures r.Some? && "assignee" in values && values["assignee"].Str? ==>
              r.value["assignee"] == Str(Trim(values["assignee"].s))
  {
    if "assignee" in values && Truthy(values["assignee"]) then
      match values["assignee"]
      case Str(s) => Some(values["assignee" := Str(Trim(s))])
      case _ => None
    else Some(values)
  }

  /** The submitted assignee carries no white space at either end. */
  lemma FinishedAssigneeTrimmed(values: map<string, FormValue>)
    requires FinishedValues(values).Some? && "assignee" in values && values["assignee"].Str?
    ensures var a := FinishedValues(values).value["assignee"].s;
            Trim(a) == a && (a == [] || (!IsJsSpace(a[0]) && !IsJsSpace(a[|a| - 1])))
  {
    var s := values["assignee"].s;
    assert FinishedValues(values).value["assignee"] == Str(Trim(s));
    TrimIdempotent(s);
  }

  /** `handleFormFinish(values)`: the values with the assignee trimmed are
      saved and submitted; `ok` is false where trimming throws. */
  method HandleFormFinish(storage: map<string, string>, values: map<string, FormValue>, json: seq<FormValue> -> string)
      returns (ok: bool, submitted: map<string, FormValue>, stored: map<string, string>)
    ensures ok <==> FinishedValues(values).Some?
    ensures ok ==> submitted == FinishedValues(values).value && SavedAs(storage, submitted, json, stored)
    ensures !ok ==> stored == storage
  {
    var finished := FinishedValues(values);
    if finished.None? {
      return false, values, storage;
    }
    submitted := finished.value;
    stored := SaveValuesToLocalStorage(storage, submitted, json);
    ok := true;
  }

  // ---------------------------------------------------------------------
  // Layout
  // ---------------------------------------------------------------------

  /** The number of form items split into columns. */
  const FilterNames: seq<string> := [
    "username", "password", "project", "issues", "tags", "assignee",
    "reopenFilters", "returnFilters", "dateCreated", "dateRelease", "dateUpdated", "status"
  ]

  /** `Math.max(Math.floor(width / 600), 1)`: one column per full 600 pixels,
      at least one. */
  function ColumnsCount(width: int): (c: int)
    ensures c >= 1
    ensures width >= 600 ==> 600 * c <= width < 600 * (c + 1)
    ensures width < 1200 ==> c == 1
  {
    if width / 600 > 1 then width / 600 else 1
  }

  /** `colSpan` and `leftoverSpan` for `columns` columns. */
  function ColSpan(columns: int): int
    requires columns >= 1
  {
    24 / columns
  }

  /** The spans of the `count` filter columns: `colSpan` each, the last one
      also taking the leftover. */
  function Spans(count: nat, columns: int): seq<int>
    requires count >= 1 && columns >= 1
  {
    var colSpan := ColSpan(columns);
    var leftover := 24 - colSpan * columns;
    seq(count - 1, _ => colSpan) + [colSpan + leftover]
  }

  lemma {:induction false} SumConstant(m: nat, a: int)
    ensures Utils.Sum(seq(m, _ => a)) == m * a
  {
    if m > 0 {
      assert seq(m, _ => a)[..m - 1] == seq(m - 1, _ => a);
      SumConstant(m - 1, a);
      assert (m - 1) * a + a == m * a;
    }
  }

  /** With one column per chunk the spans fill the 24-column grid exactly. */
  lemma SpansFillGrid(count: nat)
    requires count >= 1
    ensures Utils.Sum(Spans(count, count)) == 24
  {
    var colSpan := ColSpan(count);
    var s := Spans(count, count);
    assert s[..count - 1] == seq(count - 1, _ => colSpan);
    SumConstant(count - 1, colSpan);
    assert (count - 1) * colSpan + colSpan == count * colSpan;
    assert Utils.Sum(s) == (count - 1) * colSpan + s[count - 1];
  }

  /** Up to 24 columns every span is at least 1. */
  lemma SpansPositive(count: nat)
    requires 1 <= count <= 24
    ensures forall k | 0 <= k < count :: Spans(count, count)[k] >= 1
  {
    var colSpan := ColSpan(count);
    assert colSpan >= 1 by {
      assert count * (colSpan - 1) == 24 - 24 % count - count;
      MulAboveMinusOne(count, colSpan - 1);
    }
    assert 24 - colSpan * count >= 0;
  }

  /** The number of filter columns for `columns` grid columns:
      min(columns, number of filters). */
  function FilterColumns(columns: int): int {
    if columns < |FilterNames| then columns else |FilterNames|
  }

  class MainForm {
    var columnsCount: int
    var filtersChunks: seq<seq<string>>

    /** The layout state is consistent: at least one column; once laid out,
        the filters sit in min(columns, number of filters) chunks, left
        aligned, which laid end to end are the filters. */
    ghost predicate Valid()
      reads this
    {
      columnsCount >= 1 &&
      (filtersChunks != [] ==>
         |filtersChunks| == FilterColumns(columnsCount) && Utils.Flatten(filtersChunks) == FilterNames) &&
      (|filtersChunks| > 1 ==>
         forall j | 0 <= j < |filtersChunks| ::
           |filtersChunks[j]| == Utils.ChunkSize(|FilterNames|, |filtersChunks|, j, Utils.Left))
    }

    constructor()
      ensures Valid() && columnsCount == 1 && filtersChunks == []
    {
      columnsCount := 1;
      filtersChunks := [];
    }

    /** `calculateFiltersChunks(newColumnsCount)`: the filters split into
        min(columns, number of filters) chunks, left aligned. */
    method CalculateFiltersChunks(newColumnsCount: int)
      requires newColumnsCount >= 1
      modifies this
      ensures Valid()
      ensures columnsCount == newColumnsCount
      ensures |filtersChunks| == if newColumnsCount < |FilterNames| then newColumnsCount else |FilterNames|
      ensures Utils.Flatten(filtersChunks) == FilterNames
      ensures |filtersChunks| > 1 ==>
                forall j | 0 <= j < |filtersChunks| ::
                  |filtersChunks[j]| == Utils.ChunkSize(|FilterNames|, |filtersChunks|, j, Utils.Left)
    {
      var filtersColumnsCount := FilterColumns(newColumnsCount);
      var chunks := Utils.SplitList(FilterNames, filtersColumnsCount, Utils.Left);
      columnsCount := newColumnsCount;
      filtersChunks := chunks;
    }

    /** `updateDimensions`, given `window.innerWidth`. */
    method UpdateDimensions(width: int)
      requires Valid()
      modifies this
      ensures Valid() && filtersChunks != []
      ensures columnsCount == ColumnsCount(width)
      ensures |filtersChunks| == if ColumnsCount(width) < |FilterNames| then ColumnsCount(width) else |FilterNames|
      ensures old(columnsCount) == ColumnsCount(width) && old(filtersChunks) != [] ==>
                filtersChunks == old(filtersChunks)
    {
      var newColumnsCount := ColumnsCount(width);
      if columnsCount != newColumnsCount || |filtersChunks| == 0 {
        CalculateFiltersChunks(newColumnsCount);
      }
    }

    /** The spans `render` gives the filter columns. */
    ghost function RenderSpans(): seq<int>
      requires Valid() && filtersChunks != []
      reads this
    {
      var columns := if columnsCount < |filtersChunks| then columnsCount else |filtersChunks|;
      Spans(|filtersChunks|, columns)
    }

    /** In a consistent state the rendered filter columns fill the grid. */
    lemma RenderFillsGrid()
      requires Valid() && filtersChunks != []
      ensures Utils.Sum(RenderSpans()) == 24
      ensures forall k | 0 <= k < |RenderSpans()| :: RenderSpans()[k] >= 1
    {
      SpansFillGrid(|filtersChunks|);
      SpansPositive(|filtersChunks|);
    }
  }
}
