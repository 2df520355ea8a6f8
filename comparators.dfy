/** The column comparators of the issue table: `keyComparator` orders issue
    keys such as "PROJ-12" by the number after the first hyphen, and
    `dateComparator` orders dates by their timestamp, unparseable dates
    counting as 0. */
module Comparators {
  import opened Wrappers
  import opened Text
  import Sorting

  /** The `key` cell of a row: the issue key and its link. */
  datatype Key = Key(code: string, href: string)

  /** `code.substring(code.indexOf("-") + 1)`: what follows the first hyphen,
      or the whole code when it has none. */
  function KeySuffix(code: string): (r: string)
    ensures |r| <= |code|
    ensures '-' !in code ==> r == code
    ensures '-' in code ==>
              var i := |code| - |r| - 1;
              0 <= i && code[i] == '-' && '-' !in code[..i] && r == code[i + 1..]
  {
    code[IndexOf(code, '-') + 1..]
  }

  /** `parseInt` of the suffix; None stands for NaN. */
  function KeyNumber(code: string): Option<int> {
    ParseInt(KeySuffix(code))
  }

  /** `keyComparator(a, b)`: the difference of the two numbers, None (NaN)
      when either of them is NaN. */
  function KeyComparator(a: Key, b: Key): (r: Option<int>)
    ensures r.Some? <==> KeyNumber(a.code).Some? && KeyNumber(b.code).Some?
    ensures r.Some? ==> (r.value < 0 <==> KeyNumber(a.code).value < KeyNumber(b.code).value)
    ensures r.Some? ==> (r.value == 0 <==> KeyNumber(a.code).value == KeyNumber(b.code).value)
  {
    Difference(KeyNumber(a.code), KeyNumber(b.code))
  }

  /** JavaScript subtraction where None is NaN. */
  function Difference(x: Option<int>, y: Option<int>): Option<int> {
    if x.Some? && y.Some? then Some(x.value - y.value) else None
  }

  /** How `Array.prototype.sort` reads a comparator's result: NaN counts as 0. */
  function SortOrder(r: Option<int>): int {
    r.GetOr(0)
  }

  /** The comparator the issue table sorts with. */
  function KeyOrder(a: Key, b: Key): int {
    SortOrder(KeyComparator(a, b))
  }

  /** The number of a key made of a hyphen-free prefix, a hyphen and a
      decimal numeral is that numeral's value. */
  lemma KeyNumberOfNumeral(prefix: string, n: int)
    requires '-' !in prefix
    ensures KeyNumber(prefix + "-" + DecimalString(n)) == Some(n)
  {
    var code := prefix + "-" + DecimalString(n);
    assert code[..|prefix|] == prefix && code[|prefix|] == '-';
    assert IndexOf(code, '-') == |prefix| by {
      assert '-' !in code[..|prefix|];
    }
    assert KeySuffix(code) == DecimalString(n);
    ParseIntDecimalString(n);
  }

  /** Keys that both carry a number compare by the difference of the numbers. */
  lemma ComparatorOfNumbers(a: Key, b: Key, m: int, n: int)
    requires KeyNumber(a.code) == Some(m) && KeyNumber(b.code) == Some(n)
    ensures KeyComparator(a, b) == Some(m - n)
  {
  }

  /** The order is numeric, not lexicographic: "P-9" comes before "P-10". */
  lemma NineBeforeTen(h1: string, h2: string)
    ensures KeyComparator(Key("P-9", h1), Key("P-10", h2)) == Some(-1)
  {
    assert "P-9" == "P" + "-" + DecimalString(9);
    assert "P-10" == "P" + "-" + DecimalString(10);
    KeyNumberOfNumeral("P", 9);
    KeyNumberOfNumeral("P", 10);
    ComparatorOfNumbers(Key("P-9", h1), Key("P-10", h2), 9, 10);
  }

  /** Plain string order puts "P-10" first. */
  lemma NineAfterTenAsStrings()
    ensures Compare("P-9", "P-10") > 0
  {
  }

  /** Only the number counts: the prefixes and links are ignored. */
  lemma PrefixIgnored(p: string, q: string, n: int, h1: string, h2: string)
    requires '-' !in p && '-' !in q
    ensures KeyComparator(Key(p + "-" + DecimalString(n), h1), Key(q + "-" + DecimalString(n), h2)) == Some(0)
  {
    KeyNumberOfNumeral(p, n);
    KeyNumberOfNumeral(q, n);
  }

  /** Swapping the arguments negates the result; NaN stays NaN. */
  lemma KeyComparatorAntisymmetric(a: Key, b: Key)
    ensures KeyComparator(a, b) == Negated(KeyComparator(b, a))
  {
    DifferenceAntisymmetric(KeyNumber(a.code), KeyNumber(b.code));
  }

  lemma DifferenceAntisymmetric(x: Option<int>, y: Option<int>)
    ensures Difference(x, y) == Negated(Difference(y, x))
  {
    if x.Some? && y.Some? {
      assert Negated(Some(y.value - x.value)) == Some(x.value - y.value);
    }
  }

  /** The sort order is antisymmetric on all keys, NaN reading as 0 both ways. */
  lemma KeyOrderAntisymmetric(a: Key, b: Key)
    ensures Sorting.Sign(KeyOrder(a, b)) == -Sorting.Sign(KeyOrder(b, a))
  {
    DifferenceAntisymmetric(KeyNumber(a.code), KeyNumber(b.code));
  }

  /** A key with a number compares equal to itself; one without gives NaN. */
  lemma KeyComparatorReflexive(a: Key)
    ensures KeyNumber(a.code).Some? ==> KeyComparator(a, a) == Some(0)
    ensures KeyNumber(a.code).None? ==> KeyComparator(a, a) == None
  {
    var x := KeyNumber(a.code);
    assert KeyComparator(a, a) == Difference(x, x);
  }

  /** On keys that all carry a number, the order is a total preorder. */
  lemma KeyOrderTransitive(a: Key, b: Key, c: Key)
    requires KeyNumber(a.code).Some? && KeyNumber(b.code).Some? && KeyNumber(c.code).Some?
    requires KeyOrder(a, b) <= 0 && KeyOrder(b, c) <= 0
    ensures KeyOrder(a, c) <= 0
  {
    var x, y, z := KeyNumber(a.code), KeyNumber(b.code), KeyNumber(c.code);
    assert KeyOrder(a, b) == x.value - y.value;
    assert KeyOrder(b, c) == y.value - z.value;
    assert KeyOrder(a, c) == x.value - z.value;
  }

  /** A key without a number ties with every key, so the preorder breaks
      down once such keys are involved. */
  lemma NaNTiesWithAll(a: Key, b: Key)
    requires KeyNumber(a.code).None?
    ensures KeyOrder(a, b) == 0 && KeyOrder(b, a) == 0
  {
    var x, y := KeyNumber(a.code), KeyNumber(b.code);
    assert KeyOrder(a, b) == SortOrder(Difference(x, y)) && KeyOrder(b, a) == SortOrder(Difference(y, x));
  }

  /** `KeyOrder` is a consistent comparator on keys that all carry a number. */
  lemma {:induction false} KeyOrderConsistent(s: seq<Key>)
    requires forall i | 0 <= i < |s| :: KeyNumber(s[i].code).Some?
    ensures Sorting.ConsistentOn(KeyOrder, s)
  {
    forall a, b | a in s && b in s
      ensures Sorting.Sign(KeyOrder(a, b)) == -Sorting.Sign(KeyOrder(b, a))
    {
      KeyOrderAntisymmetric(a, b);
    }
    forall a, b, c | a in s && b in s && c in s && Sorting.Le(KeyOrder, a, b) && Sorting.Le(KeyOrder, b, c)
      ensures Sorting.Le(KeyOrder, a, c)
    {
      var i :| 0 <= i < |s| && s[i] == a;
      var j :| 0 <= j < |s| && s[j] == b;
      var k :| 0 <= k < |s| && s[k] == c;
      KeyOrderTransitive(a, b, c);
    }
  }

  /** `moment(d).valueOf() || 0`: the timestamp `parse` gives the date, or 0
      when it gives none. The `|| 0` only replaces NaN (None): a timestamp of
      0 is 0 either way. */
  function DateValue(parse: string -> Option<int>, d: string): int {
    match parse(d)
    case None => 0
    case Some(t) => t
  }

  /** `dateComparator(a, b)`: two parsed dates compare by the difference of
      their timestamps, two unparseable ones compare equal, and an
      unparseable one sorts at or before any date at or after the epoch. */
  function DateComparator(parse: string -> Option<int>, a: string, b: string): (r: int)
    ensures parse(a).Some? && parse(b).Some? ==> r == parse(a).value - parse(b).value
    ensures parse(a).None? && parse(b).None? ==> r == 0
    ensures parse(a).None? && parse(b).Some? && parse(b).value >= 0 ==> r <= 0
  {
    DateValue(parse, a) - DateValue(parse, b)
  }

  /** An unparseable date sorts at or before every date at or after the epoch. */
  lemma UnparseableDateFirst(parse: string -> Option<int>, a: string, b: string)
    requires parse(a).None?
    requires parse(b).Some? && parse(b).value >= 0
    ensures DateComparator(parse, a, b) <= 0
    ensures DateComparator(parse, b, a) >= 0
  {
  }

  /** An unparseable date and the epoch compare equal. */
  lemma UnparseableIsEpoch(parse: string -> Option<int>, a: string, b: string)
    requires parse(a).None? && parse(b) == Some(0)
    ensures DateComparator(parse, a, b) == 0
  {
  }

  /** `dateComparator` is a consistent comparator on any dates. */
  lemma DateComparatorConsistent(parse: string -> Option<int>, s: seq<string>)
    ensures Sorting.ConsistentOn((a, b) => DateComparator(parse, a, b), s)
  {
  }
}
