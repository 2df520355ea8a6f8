/** The numeric filter list widget: each filter is a comparison of a count
    with a value, joined to the previous filter by "and"/"or" and optionally
    restricted to a category. Handlers add a default filter, delete one by
    index, change one field of one filter and clear the list; each reports
    the new list to `onChange` (recorded in `notified`). */
module FilterInput {
  import opened Wrappers
  import opened Lists

  /** A value a field may be set to: `string | number`. */
  datatype Scalar = Str(s: string) | Num(n: int)

  /** `FilterValueType`; an absent optional field is None. */
  datatype FilterValue = FilterValue(condition: Option<Scalar>, operation: Scalar, value: Scalar, category: Option<Scalar>)

  /** A `{key, label}` pair of an operation or a category (`label` is a Dafny keyword). */
  datatype Choice = Choice(key: string, caption: string)

  /** The fields `handleFieldChange` is called with. */
  datatype Field = Condition | Operation | Value | Category

  const DefaultOperations: seq<Choice> := [
    Choice("==", "Равно"),
    Choice("!=", "Не равно"),
    Choice(">", "Больше"),
    Choice(">=", "Больше или равно"),
    Choice("<", "Меньше"),
    Choice("<=", "Меньше или равно")
  ]

  /** The filter `handleAdd` appends, or None where it throws because the
      operations given are an empty list. */
  function NewFilter(items: seq<FilterValue>, operations: Option<seq<Choice>>, categories: Option<seq<Choice>>): (r: Option<FilterValue>)
    ensures r.None? <==> operations == Some([])
    ensures r.Some? ==> r.value.value == Num(0)
    ensures r.Some? ==> r.value.operation == Str(operations.GetOr(DefaultOperations)[0].key)
    ensures r.Some? && operations.None? ==> r.value.operation == Str("==")
    ensures r.Some? ==> (r.value.condition == if items == [] then None else Some(Str("and")))
    ensures r.Some? ==> (r.value.category == if categories.Some? && categories.value != [] then Some(Str(categories.value[0].key)) else None)
  {
    var ops := operations.GetOr(DefaultOperations);
    if ops == [] then None
    else
      var firstCategory := if categories.Some? && |categories.value| > 0 then Some(Str(categories.value[0].key)) else None;
      Some(FilterValue(if |items| > 0 then Some(Str("and")) else None, Str(ops[0].key), Num(0), firstCategory))
  }

  /** `item[field]`, None where the field is absent. */
  function Get(item: FilterValue, field: Field): Option<Scalar> {
    match field
    case Condition => item.condition
    case Operation => Some(item.operation)
    case Value => Some(item.value)
    case Category => item.category
  }

  /** `item[field] = newValue`. */
  function SetField(item: FilterValue, field: Field, v: Scalar): FilterValue {
    match field
    case Condition => item.(condition := Some(v))
    case Operation => item.(operation := v)
    case Value => item.(value := v)
    case Category => item.(category := Some(v))
  }

  /** Setting a field gives it the new value and leaves the other fields as
      they were. */
  lemma SetFieldOnlyTouchesField(item: FilterValue, field: Field, v: Scalar, other: Field)
    ensures Get(SetField(item, field, v), field) == Some(v)
    ensures other != field ==> Get(SetField(item, field, v), other) == Get(item, other)
  {
  }

  /** `items.map((item, j) => i !== j ? item : (item[field] = newValue, item))`. */
  function ChangeField(items: seq<FilterValue>, field: Field, i: int, v: Scalar): (r: seq<FilterValue>)
    ensures |r| == |items|
    ensures forall j | 0 <= j < |items| && j != i :: r[j] == items[j]
    ensures 0 <= i < |items| ==> r[i] == SetField(items[i], field, v)
    decreases |items|
  {
    if items == [] then []
    else
      var n := |items| - 1;
      ChangeField(items[..n], field, i, v) + [if n == i then SetField(items[n], field, v) else items[n]]
  }

  class FilterInput {
    const operations: Option<seq<Choice>>
    const categories: Option<seq<Choice>>
    var items: seq<FilterValue>
    /** The lists handed to `onChange`, oldest first. */
    var notified: seq<seq<FilterValue>>

    /** `props.items || []`. */
    constructor(initial: Option<seq<FilterValue>>, operations: Option<seq<Choice>>, categories: Option<seq<Choice>>)
      ensures items == initial.GetOr([]) && notified == []
      ensures this.operations == operations && this.categories == categories
    {
      this.operations := operations;
      this.categories := categories;
      items := initial.GetOr([]);
      notified := [];
    }

    /** `handleDelete(i)`: the filter at index `i` is removed; an index out
        of range leaves the list as it is. */
    method HandleDelete(i: int)
      modifies this
      ensures items == WithoutIndex(old(items), i)
      ensures 0 <= i < |old(items)| ==> items == old(items)[..i] + old(items)[i + 1..]
      ensures !(0 <= i < |old(items)|) ==> items == old(items)
      ensures notified == old(notified) + [items]
    {
      WithoutIndexSlices(items, i);
      items := WithoutIndex(items, i);
      notified := notified + [items];
    }

    /** `handleAdd`: one default filter appended; false where the handler
        throws on an empty list of operations, nothing changing then. */
    method HandleAdd() returns (ok: bool)
      modifies this
      ensures ok <==> operations != Some([])
      ensures ok ==> items == old(items) + [NewFilter(old(items), operations, categories).value]
      ensures ok ==> notified == old(notified) + [items]
      ensures !ok ==> items == old(items) && notified == old(notified)
    {
      var newValue := NewFilter(items, operations, categories);
      if newValue.None? {
        return false;
      }
      items := items + [newValue.value];
      notified := notified + [items];
      return true;
    }

    /** `handleFieldChange(field, i, newValue)`: only that field of filter
        `i` takes the new value. */
    method HandleFieldChange(field: Field, i: int, newValue: Scalar)
      modifies this
      ensures items == ChangeField(old(items), field, i, newValue)
      ensures notified == old(notified) + [items]
    {
      items := ChangeField(items, field, i, newValue);
      notified := notified + [items];
    }

    /** `handleClear`: the empty list, reported. */
    method HandleClear()
      modifies this
      ensures items == [] && notified == old(notified) + [[]]
    {
      items := [];
      notified := notified + [items];
    }
  }
}
