/**
 * The JSON formatter's own logic: the optional recursive sorting of object
 * keys, the choice of indentation, and how a parse error or a successful
 * format is recorded.  JSON values are a datatype whose objects are
 * association lists that keep their members in order; `JSON.parse` and
 * `JSON.stringify` are supplied by the caller.
 */
module JsonFormat {
  import opened Wrappers

  datatype Json =
    | Null
    | Bool(b: bool)
    | Number(n: real)
    | String(s: string)
    | Array(elements: seq<Json>)
    | Object(members: seq<(string, Json)>)

  // ---------------------------------------------------------------------
  // Strings in `Array.prototype.sort` order
  // ---------------------------------------------------------------------

  /** a sorts strictly before b: lexicographic order on character codes. */
  predicate Below(a: string, b: string) {
    if |a| == 0 then |b| > 0
    else if |b| == 0 then false
    else if a[0] != b[0] then a[0] < b[0]
    else Below(a[1..], b[1..])
  }

  lemma {:induction false} BelowIrreflexive(a: string)
    ensures !Below(a, a)
    decreases |a|
  {
    if |a| > 0 {
      BelowIrreflexive(a[1..]);
    }
  }

  lemma {:induction false} BelowTotal(a: string, b: string)
    ensures a == b || Below(a, b) || Below(b, a)
    decreases |a|
  {
    if |a| > 0 && |b| > 0 && a[0] == b[0] {
      BelowTotal(a[1..], b[1..]);
      if a[1..] == b[1..] {
        assert a == [a[0]] + a[1..] && b == [b[0]] + b[1..];
      }
    }
  }

  lemma {:induction false} BelowAsymmetric(a: string, b: string)
    requires Below(a, b)
    ensures !Below(b, a)
    decreases |a|
  {
    if |a| > 0 && a[0] == b[0] {
      BelowAsymmetric(a[1..], b[1..]);
    }
  }

  lemma {:induction false} BelowTransitive(a: string, b: string, c: string)
    requires Below(a, b) && Below(b, c)
    ensures Below(a, c)
    decreases |a|
  {
    if |a| > 0 && a[0] == b[0] && b[0] == c[0] {
      BelowTransitive(a[1..], b[1..], c[1..]);
    }
  }

  /** Each string sorts strictly before the next. */
  predicate StrictlyAscending(s: seq<string>) {
    forall i :: 0 <= i < |s| - 1 ==> Below(s[i], s[i + 1])
  }

  predicate Distinct(s: seq<string>) {
    forall i, j :: 0 <= i < j < |s| ==> s[i] != s[j]
  }

  /** Insertion into an ascending list, before the first string that does not sort below x. */
  function Insert(x: string, s: seq<string>): seq<string> {
    if |s| == 0 then [x]
    else if Below(s[0], x) then [s[0]] + Insert(x, s[1..])
    else [x] + s
  }

  /** The reference sort of the key list (`Object.keys(obj).sort()`). */
  function SortStrings(s: seq<string>): seq<string> {
    if |s| == 0 then [] else Insert(s[0], SortStrings(s[1..]))
  }

  lemma {:induction false} InsertPermutes(x: string, s: seq<string>)
    ensures multiset(Insert(x, s)) == multiset(s) + multiset{x}
    decreases |s|
  {
    if |s| > 0 {
      if Below(s[0], x) {
        InsertPermutes(x, s[1..]);
        assert s == [s[0]] + s[1..];
      }
    }
  }

  lemma {:induction false} InsertAscending(x: string, s: seq<string>)
    requires StrictlyAscending(s) && x !in s
    ensures StrictlyAscending(Insert(x, s))
    ensures |Insert(x, s)| > 0 && (Insert(x, s)[0] == x || (|s| > 0 && Insert(x, s)[0] == s[0]))
    decreases |s|
  {
    if |s| > 0 {
      if Below(s[0], x) {
        assert s[1..] == s[1..] && x !in s[1..];
        InsertAscending(x, s[1..]);
        var r := Insert(x, s[1..]);
        if |s| > 1 && r[0] == s[1] {
          assert Below(s[0], s[1]);
        }
      } else {
        BelowTotal(x, s[0]);
      }
    }
  }

  /** The sort keeps the strings and, on distinct strings, leaves them strictly ascending. */
  lemma {:induction false} SortStringsCorrect(s: seq<string>)
    ensures multiset(SortStrings(s)) == multiset(s)
    ensures Distinct(s) ==> StrictlyAscending(SortStrings(s))
    decreases |s|
  {
    if |s| > 0 {
      SortStringsCorrect(s[1..]);
      InsertPermutes(s[0], SortStrings(s[1..]));
      assert s == [s[0]] + s[1..];
      if Distinct(s) {
        assert Distinct(s[1..]);
        assert s[0] !in s[1..];
        assert s[0] !in multiset(SortStrings(s[1..]));
        InsertAscending(s[0], SortStrings(s[1..]));
      }
    }
  }

  lemma SortStringsMembers(s: seq<string>)
    ensures forall k :: k in SortStrings(s) <==> k in s
  {
    SortStringsCorrect(s);
    forall k
      ensures k in SortStrings(s) <==> k in s
    {
      assert k in SortStrings(s) <==> k in multiset(SortStrings(s));
      assert k in s <==> k in multiset(s);
    }
  }

  /** Sorting an already ascending list changes nothing. */
  lemma {:induction false} SortStringsOfAscending(s: seq<string>)
    requires StrictlyAscending(s)
    ensures SortStrings(s) == s
    decreases |s|
  {
    if |s| > 0 {
      SortStringsOfAscending(s[1..]);
      if |s| > 1 {
        BelowAsymmetric(s[0], s[1]);
      }
      assert s == [s[0]] + s[1..];
    }
  }

  lemma {:induction false} AscendingIsDistinct(s: seq<string>)
    requires StrictlyAscending(s)
    ensures Distinct(s)
    ensures forall j :: 0 < j < |s| ==> Below(s[0], s[j])
    decreases |s|
  {
    if |s| > 1 {
      AscendingIsDistinct(s[1..]);
      forall j | 0 < j < |s|
        ensures Below(s[0], s[j])
      {
        if j > 1 {
          assert Below(s[1], s[j]) by { assert s[1..][j - 1] == s[j]; }
          BelowTransitive(s[0], s[1], s[j]);
        }
      }
      forall i, j | 0 <= i < j < |s|
        ensures s[i] != s[j]
      {
        if i == 0 {
          BelowIrreflexive(s[0]);
        } else {
          assert s[1..][i - 1] == s[i] && s[1..][j - 1] == s[j];
        }
      }
    }
  }

  // ---------------------------------------------------------------------
  // Objects as association lists
  // ---------------------------------------------------------------------

  /** `Object.keys(obj)`: the member names in order. */
  function Keys(ms: seq<(string, Json)>): (ks: seq<string>)
    ensures |ks| == |ms| && forall i :: 0 <= i < |ms| ==> ks[i] == ms[i].0
  {
    if |ms| == 0 then [] else [ms[0].0] + Keys(ms[1..])
  }

  /** Where `obj[key]` is found. */
  function IndexOf(ms: seq<(string, Json)>, key: string): (i: nat)
    requires key in Keys(ms)
    ensures i < |ms| && ms[i].0 == key
    ensures forall j :: 0 <= j < i ==> ms[j].0 != key
  {
    if ms[0].0 == key then 0
    else
      assert Keys(ms) == [ms[0].0] + Keys(ms[1..]);
      1 + IndexOf(ms[1..], key)
  }

  /** `result[key] = value`: replace the member of that name, or add one at the end. */
  function Put(ms: seq<(string, Json)>, key: string, value: Json): seq<(string, Json)> {
    if key in Keys(ms) then ms[IndexOf(ms, key) := (key, value)] else ms + [(key, value)]
  }

  // ---------------------------------------------------------------------
  // sortObjectKeys
  // ---------------------------------------------------------------------

  /**
   * sortObjectKeys: null and primitives unchanged, arrays element by
   * element, objects rebuilt from their sorted key list by a fold.
   */
  function SortKeys(j: Json): Json
    decreases j, 1, 0
  {
    match j
    case Array(es) => Array(seq(|es|, i requires 0 <= i < |es| => SortKeys(es[i])))
    case Object(ms) =>
      SortStringsMembers(Keys(ms));
      FoldKeys(ms, SortStrings(Keys(ms)), [])
    case _ => j
  }

  /** The `reduce` over the sorted keys, starting from `{}`. */
  function FoldKeys(ms: seq<(string, Json)>, keys: seq<string>, acc: seq<(string, Json)>): Json
    requires forall k :: k in keys ==> k in Keys(ms)
    decreases Object(ms), 0, |keys|
  {
    if |keys| == 0 then Object(acc)
    else
      var i := IndexOf(ms, keys[0]);
      FoldKeys(ms, keys[1..], Put(acc, keys[0], SortKeys(ms[i].1)))
  }

  // ---------------------------------------------------------------------
  // What sortObjectKeys promises
  // ---------------------------------------------------------------------

  /** No object, at any depth, names a member twice (as JSON.parse builds them). */
  predicate WellFormed(j: Json)
    decreases j
  {
    match j
    case Array(es) => forall i :: 0 <= i < |es| ==> WellFormed(es[i])
    case Object(ms) => Distinct(Keys(ms)) && forall i :: 0 <= i < |ms| ==> WellFormed(ms[i].1)
    case _ => true
  }

  /** Every object, at any depth, lists its keys in strictly ascending order. */
  predicate KeysSorted(j: Json)
    decreases j
  {
    match j
    case Array(es) => forall i :: 0 <= i < |es| ==> KeysSorted(es[i])
    case Object(ms) => StrictlyAscending(Keys(ms)) && forall i :: 0 <= i < |ms| ==> KeysSorted(ms[i].1)
    case _ => true
  }

  /** The members the fold adds for the given keys, each value sorted. */
  function SortedMembers(ms: seq<(string, Json)>, keys: seq<string>): (r: seq<(string, Json)>)
    requires forall k :: k in keys ==> k in Keys(ms)
    ensures |r| == |keys| && Keys(r) == keys
  {
    var r := seq(|keys|, i requires 0 <= i < |keys| => (keys[i], SortKeys(ms[IndexOf(ms, keys[i])].1)));
    assert Keys(r) == keys;
    r
  }

  lemma KeysOfAppend(acc: seq<(string, Json)>, m: (string, Json))
    ensures Keys(acc + [m]) == Keys(acc) + [m.0]
  {
  }

  lemma AppendAssoc<T>(a: seq<T>, b: seq<T>, c: seq<T>)
    ensures (a + b) + c == a + (b + c)
  {
  }

  lemma DistinctTail(keys: seq<string>)
    requires Distinct(keys) && |keys| > 0
    ensures Distinct(keys[1..]) && keys[0] !in keys[1..]
  {
    forall a, b | 0 <= a < b < |keys[1..]|
      ensures keys[1..][a] != keys[1..][b]
    {
      assert keys[1..][a] == keys[a + 1] && keys[1..][b] == keys[b + 1];
    }
  }

  lemma SortedMembersCons(ms: seq<(string, Json)>, keys: seq<string>)
    requires forall k :: k in keys ==> k in Keys(ms)
    requires |keys| > 0
    ensures SortedMembers(ms, keys) == [(keys[0], SortKeys(ms[IndexOf(ms, keys[0])].1))] + SortedMembers(ms, keys[1..])
  {
  }

  /** With fresh, distinct keys every step of the fold appends one member. */
  lemma {:induction false} FoldAppends(ms: seq<(string, Json)>, keys: seq<string>, acc: seq<(string, Json)>)
    requires forall k :: k in keys ==> k in Keys(ms)
    requires Distinct(keys) && forall k :: k in keys ==> k !in Keys(acc)
    ensures FoldKeys(ms, keys, acc) == Object(acc + SortedMembers(ms, keys))
    decreases |keys|
  {
    if |keys| > 0 {
      var m := (keys[0], SortKeys(ms[IndexOf(ms, keys[0])].1));
      var acc' := acc + [m];
      assert Put(acc, keys[0], m.1) == acc';
      KeysOfAppend(acc, m);
      DistinctTail(keys);
      assert forall k :: k in keys[1..] ==> k in keys;
      FoldAppends(ms, keys[1..], acc');
      SortedMembersCons(ms, keys);
      AppendAssoc(acc, [m], SortedMembers(ms, keys[1..]));
    }
  }

  /** With distinct keys the member of a name is the one IndexOf finds. */
  lemma {:induction false} IndexOfDistinct(ms: seq<(string, Json)>, j: nat)
    requires Distinct(Keys(ms)) && j < |ms|
    ensures ms[j].0 in Keys(ms) && IndexOf(ms, ms[j].0) == j
    decreases j
  {
    var ks := Keys(ms);
    assert ks[j] == ms[j].0;
    if j > 0 {
      assert ks[0] != ks[j];
      DistinctTail(ks);
      IndexOfDistinct(ms[1..], j - 1);
    }
  }

  /** sortObjectKeys on an object with distinct keys: the sorted key list, each value sorted. */
  lemma SortObjectMembers(ms: seq<(string, Json)>)
    requires Distinct(Keys(ms))
    ensures forall k :: k in SortStrings(Keys(ms)) ==> k in Keys(ms)
    ensures SortKeys(Object(ms)) == Object(SortedMembers(ms, SortStrings(Keys(ms))))
    ensures StrictlyAscending(SortStrings(Keys(ms)))
  {
    var keys := SortStrings(Keys(ms));
    SortedKeyList(Keys(ms));
    assert SortKeys(Object(ms)) == FoldKeys(ms, keys, []);
    FoldFromEmpty(ms, keys);
  }

  /** The `reduce` from `{}` over distinct keys builds exactly the sorted members. */
  lemma FoldFromEmpty(ms: seq<(string, Json)>, keys: seq<string>)
    requires forall k :: k in keys ==> k in Keys(ms)
    requires Distinct(keys)
    ensures FoldKeys(ms, keys, []) == Object(SortedMembers(ms, keys))
  {
    FoldAppends(ms, keys, []);
    assert [] + SortedMembers(ms, keys) == SortedMembers(ms, keys);
  }

  /** The sorted key list of distinct keys holds the same keys, strictly ascending and so distinct. */
  lemma SortedKeyList(ks: seq<string>)
    requires Distinct(ks)
    ensures forall k :: k in SortStrings(ks) <==> k in ks
    ensures StrictlyAscending(SortStrings(ks)) && Distinct(SortStrings(ks))
  {
    SortStringsMembers(ks);
    SortStringsCorrect(ks);
    AscendingIsDistinct(SortStrings(ks));
  }

  /** Null and primitives come back unchanged. */
  lemma SortKeysPrimitive(j: Json)
    requires !j.Array? && !j.Object?
    ensures SortKeys(j) == j
  {
  }

  /** An array keeps its length and order, each element sorted. */
  lemma SortKeysArray(es: seq<Json>)
    ensures SortKeys(Array(es)).Array?
    ensures |SortKeys(Array(es)).elements| == |es|
    ensures forall i :: 0 <= i < |es| ==> SortKeys(Array(es)).elements[i] == SortKeys(es[i])
  {
  }

  /**
   * An object keeps the same keys, now in strictly ascending order, and
   * the value under each key is the old value sorted.
   */
  lemma SortKeysObject(ms: seq<(string, Json)>)
    requires Distinct(Keys(ms))
    ensures SortKeys(Object(ms)).Object?
    ensures var r := SortKeys(Object(ms)).members;
      multiset(Keys(r)) == multiset(Keys(ms)) && StrictlyAscending(Keys(r))
      && forall i, j :: 0 <= i < |r| && 0 <= j < |ms| && r[i].0 == ms[j].0 ==> r[i].1 == SortKeys(ms[j].1)
  {
    SortObjectMembers(ms);
    SortStringsCorrect(Keys(ms));
    var r := SortKeys(Object(ms)).members;
    forall i, j | 0 <= i < |r| && 0 <= j < |ms| && r[i].0 == ms[j].0
      ensures r[i].1 == SortKeys(ms[j].1)
    {
      IndexOfDistinct(ms, j);
    }
  }

  /** The result of sorting has its keys sorted at every depth. */
  lemma {:induction false} SortKeysSorts(j: Json)
    requires WellFormed(j)
    ensures KeysSorted(SortKeys(j))
    decreases j
  {
    match j
    case Array(es) =>
      forall i | 0 <= i < |es|
        ensures KeysSorted(SortKeys(es[i]))
      {
        SortKeysSorts(es[i]);
      }
    case Object(ms) =>
      SortObjectMembers(ms);
      var r := SortKeys(Object(ms)).members;
      forall i | 0 <= i < |r|
        ensures KeysSorted(r[i].1)
      {
        var k := SortStrings(Keys(ms))[i];
        var x := IndexOf(ms, k);
        SortKeysSorts(ms[x].1);
      }
    case _ =>
  }

  /** Sorting a value whose keys are already sorted changes nothing. */
  lemma {:induction false} SortKeysOfSorted(j: Json)
    requires KeysSorted(j)
    ensures SortKeys(j) == j
    decreases j
  {
    match j
    case Array(es) =>
      forall i | 0 <= i < |es|
        ensures SortKeys(es[i]) == es[i]
      {
        SortKeysOfSorted(es[i]);
      }
      assert SortKeys(j).elements == es;
    case Object(ms) =>
      AscendingIsDistinct(Keys(ms));
      SortObjectMembers(ms);
      SortStringsOfAscending(Keys(ms));
      var r := SortedMembers(ms, Keys(ms));
      forall i | 0 <= i < |ms|
        ensures r[i] == ms[i]
      {
        IndexOfDistinct(ms, i);
        SortKeysOfSorted(ms[i].1);
      }
      assert r == ms;
    case _ =>
  }

  /** sortObjectKeys is idempotent. */
  lemma SortKeysIdempotent(j: Json)
    requires WellFormed(j)
    ensures SortKeys(SortKeys(j)) == SortKeys(j)
  {
    SortKeysSorts(j);
    SortKeysOfSorted(SortKeys(j));
  }

  // ---------------------------------------------------------------------
  // formatJson
  // ---------------------------------------------------------------------

  datatype FormatOptions = FormatOptions(indentSize: int, useTabs: bool, sortKeys: bool, compact: bool)

  /** The third argument of JSON.stringify: a number of spaces or a string. */
  datatype Indent = Spaces(count: int) | Text(unit: string)

  datatype Severity = Error | Warning

  datatype JsonError = JsonError(line: int, column: int, message: string, severity: Severity)

  const DefaultOptions := FormatOptions(4, false, false, false)

  /** Compact output wins over tabs, and tabs over the indent size. */
  function IndentValue(o: FormatOptions): (r: Indent)
    ensures o.compact ==> r == Spaces(0)
    ensures !o.compact && o.useTabs ==> r == Text("\t")
    ensures !o.compact && !o.useTabs ==> r == Spaces(o.indentSize)
  {
    if o.compact then Spaces(0)
    else if o.useTabs then Text("\t")
    else Spaces(o.indentSize)
  }

  /** The value handed to JSON.stringify: sorted only when the option asks for it. */
  function Prepared(o: FormatOptions, parsed: Json): Json {
    if o.sortKeys then SortKeys(parsed) else parsed
  }

  /**
   * With sorting off the parsed value is used as it is; with sorting on,
   * the value has its keys sorted at every depth and sorting it again
   * would change nothing.
   */
  lemma PreparedValue(o: FormatOptions, parsed: Json)
    requires WellFormed(parsed)
    ensures !o.sortKeys ==> Prepared(o, parsed) == parsed
    ensures o.sortKeys ==> KeysSorted(Prepared(o, parsed)) && SortKeys(Prepared(o, parsed)) == Prepared(o, parsed)
  {
    if o.sortKeys {
      SortKeysSorts(parsed);
      SortKeysIdempotent(parsed);
    }
  }

  /**
   * The formatter's state.  `JSON.parse` of the input is handed to
   * formatJson as a value (its SyntaxError message on failure), and
   * `JSON.stringify` as a function.
   */
  class Formatter {
    var jsonInput: string
    var formattedJson: string
    var errors: seq<JsonError>
    var formatOptions: FormatOptions

    constructor()
      ensures jsonInput == "" && formattedJson == "" && errors == [] && formatOptions == DefaultOptions
    {
      jsonInput := "";
      formattedJson := "";
      errors := [];
      formatOptions := DefaultOptions;
    }

    /**
     * formatJson: on a parse error, exactly one error at line 0, column 0
     * and the output left as it was; otherwise the stringified value and
     * no errors.
     */
    method FormatJson(parsed: Result<Json, string>, stringify: (Json, Indent) -> string)
      modifies this
      ensures jsonInput == old(jsonInput) && formatOptions == old(formatOptions)
      ensures parsed.Failure? ==>
        errors == [JsonError(0, 0, parsed.error, Error)] && formattedJson == old(formattedJson)
      ensures parsed.Success? ==>
        errors == [] && formattedJson == stringify(Prepared(formatOptions, parsed.value), IndentValue(formatOptions))
    {
      match parsed
      case Failure(message) =>
        errors := [JsonError(0, 0, message, Error)];
      case Success(value) =>
        var sortedData := if formatOptions.sortKeys then SortKeys(value) else value;
        var indentValue: Indent;
        if formatOptions.compact {
          indentValue := Spaces(0);
        } else if formatOptions.useTabs {
          indentValue := Text("\t");
        } else {
          indentValue := Spaces(formatOptions.indentSize);
        }
        formattedJson := stringify(sortedData, indentValue);
        errors := [];
    }

    /** The editor's onChange: `value || ''`. */
    method SetJsonInput(value: Option<string>)
      modifies this
      ensures jsonInput == (if value.None? then "" else value.value)
      ensures formattedJson == old(formattedJson) && errors == old(errors) && formatOptions == old(formatOptions)
    {
      jsonInput := if value.None? then "" else value.value;
    }

    /** The option controls: each updates one field of the options. */
    method SetIndentSize(size: int)
      modifies this
      ensures formatOptions == old(formatOptions).(indentSize := size)
      ensures jsonInput == old(jsonInput) && formattedJson == old(formattedJson) && errors == old(errors)
    {
      formatOptions := formatOptions.(indentSize := size);
    }

    method SetUseTabs(checked: bool)
      modifies this
      ensures formatOptions == old(formatOptions).(useTabs := checked)
      ensures jsonInput == old(jsonInput) && formattedJson == old(formattedJson) && errors == old(errors)
    {
      formatOptions := formatOptions.(useTabs := checked);
    }

    method SetSortKeys(checked: bool)
      modifies this
      ensures formatOptions == old(formatOptions).(sortKeys := checked)
      ensures jsonInput == old(jsonInput) && formattedJson == old(formattedJson) && errors == old(errors)
    {
      formatOptions := formatOptions.(sortKeys := checked);
    }

    method SetCompact(checked: bool)
      modifies this
      ensures formatOptions == old(formatOptions).(compact := checked)
      ensures jsonInput == old(jsonInput) && formattedJson == old(formattedJson) && errors == old(errors)
    {
      formatOptions := formatOptions.(compact := checked);
    }
  }
}
