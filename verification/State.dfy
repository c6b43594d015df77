/**
 * Derivation of the published state from the merged fields: internal/state/state.go.
 * Floating point numbers are reals; parsing and printing of scalars are parameters.
 */
module State {
  import opened Bytes
  import opened Fields

  /** The library calls: `strconv.ParseFloat`, `fmt.Sprint` and the ID sanitizer. */
  datatype Formats = Formats(
    parseFloat: string -> Option<real>,
    sprint: Any -> string,
    sanitizeID: string -> string)

  type Values = map<string, real>

  datatype Payload = Payload(
    deviceID: string, deviceName: string, sn: string, time: string, fields: FieldMap, values: Values)

  // ---------------------------------------------------------------- scalars

  function ParseNumber(formats: Formats, value: Any): Option<real> {
    match value
    case Float(r) => Some(r)
    case Int(i) => Some(i as real)
    case JsonNumber(digits) => formats.parseFloat(digits)
    case Text(s) => if s == "" then None else formats.parseFloat(s)
    case _ => None
  }

  function StringValue(formats: Formats, value: Any): string {
    match value
    case Text(s) => s
    case JsonNumber(digits) => digits
    case Null => ""
    case _ => formats.sprint(value)
  }

  /** `fields[key]`, where a missing key reads as nil. */
  function Lookup(fields: FieldMap, key: string): Any {
    if key in fields then fields[key] else Null
  }

  const MAX_INT: nat := 0x7fff_ffff_ffff_ffff

  predicate AllDigits(s: string) {
    forall i | 0 <= i < |s| :: '0' <= s[i] <= '9'
  }

  function DigitsValue(digits: string): nat
    requires AllDigits(digits)
  {
    if digits == "" then 0
    else 10 * DigitsValue(digits[..|digits| - 1]) + (digits[|digits| - 1] as int - '0' as int)
  }

  /** `strconv.Atoi` succeeds: an optional sign, at least one digit, and a 64-bit value. */
  predicate IsInteger(s: string) {
    s != "" &&
    var signed := s[0] == '-' || s[0] == '+';
    var digits := if signed then s[1..] else s;
    digits != "" && AllDigits(digits) &&
    DigitsValue(digits) <= (if s[0] == '-' then MAX_INT + 1 else MAX_INT)
  }

  predicate Numbered(key: string, prefix: string) {
    prefix <= key && key[|prefix|..] != "" && IsInteger(key[|prefix|..])
  }

  // ---------------------------------------------------------------- what the loops compute

  function NumericPart(formats: Formats, fields: FieldMap): Values {
    map key | key in fields && ParseNumber(formats, fields[key]).Some? :: ParseNumber(formats, fields[key]).value
  }

  function NumberedKeys(fields: FieldMap, prefix: string): set<string> {
    set key | key in fields && Numbered(key, prefix)
  }

  /** What a field adds to a total: its number, or nothing. */
  function Amount(formats: Formats, fields: FieldMap, key: string): real {
    match ParseNumber(formats, Lookup(fields, key))
    case Some(number) => number
    case None => 0.0
  }

  function ListTotal(formats: Formats, fields: FieldMap, keys: seq<string>): real {
    if keys == [] then 0.0
    else ListTotal(formats, fields, keys[..|keys| - 1]) + Amount(formats, fields, keys[|keys| - 1])
  }

  /** The sum over a set of keys, in no particular order. */
  ghost function SetTotal(formats: Formats, fields: FieldMap, keys: set<string>): real
    decreases |keys|
  {
    if keys == {} then 0.0
    else
      var key :| key in keys;
      SetTotal(formats, fields, keys - {key}) + Amount(formats, fields, key)
  }

  predicate Distinct(keys: seq<string>) {
    forall i, j | 0 <= i < j < |keys| :: keys[i] != keys[j]
  }

  /** `keys` enumerates `members`, each once. */
  predicate Lists(keys: seq<string>, members: set<string>) {
    Distinct(keys) && (set i | 0 <= i < |keys| :: keys[i]) == members
  }

  /** Which key is taken first does not matter. */
  lemma {:induction false} SetTotalTake(formats: Formats, fields: FieldMap, keys: set<string>, key: string)
    requires key in keys
    ensures SetTotal(formats, fields, keys) ==
            SetTotal(formats, fields, keys - {key}) + Amount(formats, fields, key)
    decreases |keys|
  {
    var other :| other in keys &&
      SetTotal(formats, fields, keys) ==
      SetTotal(formats, fields, keys - {other}) + Amount(formats, fields, other);
    if other != key {
      SetTotalTake(formats, fields, keys - {other}, key);
      SetTotalTake(formats, fields, keys - {key}, other);
      assert keys - {other} - {key} == keys - {key} - {other};
    }
  }

  /** Every enumeration of a set of keys adds up to the same total: map order and sorting are irrelevant. */
  lemma {:induction false} TotalIgnoresOrder(
    formats: Formats, fields: FieldMap, keys: seq<string>, members: set<string>)
    requires Lists(keys, members)
    ensures ListTotal(formats, fields, keys) == SetTotal(formats, fields, members)
    decreases |keys|
  {
    if keys != [] {
      var last := keys[|keys| - 1];
      ListsInit(keys, members);
      TotalIgnoresOrder(formats, fields, keys[..|keys| - 1], members - {last});
      SetTotalTake(formats, fields, members, last);
    }
  }

  lemma ListsInit(keys: seq<string>, members: set<string>)
    requires Lists(keys, members) && keys != []
    ensures keys[|keys| - 1] in members
    ensures Lists(keys[..|keys| - 1], members - {keys[|keys| - 1]})
  {
    var init := keys[..|keys| - 1];
    assert forall i | 0 <= i < |init| :: init[i] == keys[i];
  }

  // ---------------------------------------------------------------- sorted keys

  /** The lexicographic order of `sort.Strings`. */
  predicate AtMost(a: string, b: string)
    decreases |a|
  {
    a == "" || (b != "" && (a[0] < b[0] || (a[0] == b[0] && AtMost(a[1..], b[1..]))))
  }

  predicate Ascending(keys: seq<string>) {
    forall i, j | 0 <= i < j < |keys| :: AtMost(keys[i], keys[j])
  }

  lemma {:induction false} AtMostTotal(a: string, b: string)
    ensures AtMost(a, b) || AtMost(b, a)
    decreases |a|
  {
    if a != "" && b != "" {
      AtMostTotal(a[1..], b[1..]);
    }
  }

  lemma {:induction false} AtMostTransitive(a: string, b: string, c: string)
    requires AtMost(a, b) && AtMost(b, c)
    ensures AtMost(a, c)
    decreases |a|
  {
    if a != "" && a[0] == b[0] == c[0] {
      AtMostTransitive(a[1..], b[1..], c[1..]);
    }
  }

  lemma {:induction false} AtMostAntisymmetric(a: string, b: string)
    requires AtMost(a, b) && AtMost(b, a)
    ensures a == b
    decreases |a|
  {
    if a != "" {
      AtMostAntisymmetric(a[1..], b[1..]);
      assert a == [a[0]] + a[1..] && b == [b[0]] + b[1..];
    }
  }

  lemma AscendingSnoc(keys: seq<string>, key: string)
    requires Ascending(keys) && forall k | k in keys :: AtMost(k, key)
    ensures Ascending(keys + [key])
  {
    var more := keys + [key];
    assert forall i | 0 <= i < |keys| :: more[i] == keys[i] && keys[i] in keys;
  }

  lemma AllAtMost(keys: seq<string>, key: string)
    requires Ascending(keys) && keys != [] && AtMost(keys[|keys| - 1], key)
    ensures forall k | k in keys :: AtMost(k, key)
  {
    forall i | 0 <= i < |keys| - 1
      ensures AtMost(keys[i], key)
    {
      AtMostTransitive(keys[i], keys[|keys| - 1], key);
    }
  }

  /** `key` goes behind the keys that come before it. */
  function Insert(keys: seq<string>, key: string): seq<string> {
    if keys == [] || AtMost(keys[|keys| - 1], key) then keys + [key]
    else Insert(keys[..|keys| - 1], key) + [keys[|keys| - 1]]
  }

  lemma {:induction false} InsertAscends(keys: seq<string>, key: string)
    requires Ascending(keys)
    ensures Ascending(Insert(keys, key))
    ensures forall k | k in Insert(keys, key) :: k in keys || k == key
    decreases |keys|
  {
    if keys == [] || AtMost(keys[|keys| - 1], key) {
      if keys != [] {
        AllAtMost(keys, key);
      }
      AscendingSnoc(keys, key);
    } else {
      var init, last := keys[..|keys| - 1], keys[|keys| - 1];
      InsertAscends(init, key);
      AtMostTotal(key, last);
      AscendingSnoc(Insert(init, key), last);
    }
  }

  lemma {:induction false} InsertLists(keys: seq<string>, key: string, members: set<string>)
    requires Lists(keys, members) && key !in members
    ensures Lists(Insert(keys, key), members + {key})
    decreases |keys|
  {
    hide Lists;
    if keys == [] || AtMost(keys[|keys| - 1], key) {
      ListsSnoc(keys, members, key);
    } else {
      var last := keys[|keys| - 1];
      ListsInit(keys, members);
      InsertLists(keys[..|keys| - 1], key, members - {last});
      ListsSnoc(Insert(keys[..|keys| - 1], key), members - {last} + {key}, last);
      assert members - {last} + {key} + {last} == members + {key};
    }
  }

  /** What `sort.Strings` makes of the keys. */
  function Sorted(keys: seq<string>): seq<string> {
    if keys == [] then [] else Insert(Sorted(keys[..|keys| - 1]), keys[|keys| - 1])
  }

  /** Sorting puts the keys in order and keeps every one once. */
  lemma {:induction false} SortedLists(keys: seq<string>, members: set<string>)
    requires Lists(keys, members)
    ensures Lists(Sorted(keys), members) && Ascending(Sorted(keys))
    decreases |keys|
  {
    hide Lists, Ascending;
    if keys == [] {
      assert Ascending([]) by { NothingAscends(); }
    } else {
      var last := keys[|keys| - 1];
      ListsInit(keys, members);
      SortedLists(keys[..|keys| - 1], members - {last});
      InsertLists(Sorted(keys[..|keys| - 1]), last, members - {last});
      InsertAscends(Sorted(keys[..|keys| - 1]), last);
      assert members - {last} + {last} == members;
    }
  }

  lemma NothingAscends()
    ensures Ascending([])
  {
  }

  /** A set of keys has only one ascending enumeration, so the map order leaves no trace. */
  lemma {:induction false} AscendingIsUnique(a: seq<string>, b: seq<string>, members: set<string>)
    requires Lists(a, members) && Lists(b, members) && Ascending(a) && Ascending(b)
    ensures a == b
    decreases |a|
  {
    EmptyLists(a, members);
    EmptyLists(b, members);
    if a != [] {
      var p, q := a[|a| - 1], b[|b| - 1];
      LastIsGreatest(a, members, q);
      LastIsGreatest(b, members, p);
      AtMostAntisymmetric(p, q);
      ListsInit(a, members);
      ListsInit(b, members);
      AscendingIsUnique(a[..|a| - 1], b[..|b| - 1], members - {p});
    }
  }

  lemma EmptyLists(keys: seq<string>, members: set<string>)
    requires Lists(keys, members)
    ensures keys == [] <==> members == {}
  {
    if keys != [] {
      assert keys[0] in members;
    }
  }

  lemma LastIsGreatest(keys: seq<string>, members: set<string>, key: string)
    requires Lists(keys, members) && Ascending(keys) && keys != []
    ensures keys[|keys| - 1] in members
    ensures key in members ==> AtMost(key, keys[|keys| - 1])
  {
    if key in members {
      var i :| 0 <= i < |keys| && keys[i] == key;
      AtMostTotal(key, key);
    }
  }

  // ---------------------------------------------------------------- the published state

  /** One family of totals: written only if there is a numbered key. */
  ghost function WithTotal(
    formats: Formats, fields: FieldMap, values: Values, prefix: string, totalKey: string): Values
  {
    var keys := NumberedKeys(fields, prefix);
    if keys == {} then values else values[totalKey := SetTotal(formats, fields, keys)]
  }

  ghost function Derived(formats: Formats, fields: FieldMap): Values {
    var numeric := NumericPart(formats, fields);
    var ppv := WithTotal(formats, fields, numeric, "Ppv", "PpvTotal");
    var preal := WithTotal(formats, fields, ppv, "PrealL", "PrealTotal");
    WithTotal(formats, fields, preal, "PmeterL", "PmeterTotal")
  }

  ghost function Built(formats: Formats, fields: FieldMap, configuredID: string, configuredName: string): Payload {
    var sn := StringValue(formats, Lookup(fields, "SN"));
    Payload(
      if configuredID == "" && sn != "" then formats.sanitizeID("alphaess_" + sn) else configuredID,
      if configuredName == "" && sn != "" then "AlphaESS " + sn else configuredName,
      sn,
      StringValue(formats, Lookup(fields, "Time")),
      fields,
      Derived(formats, fields))
  }

  method Build(formats: Formats, fields: FieldMap, configuredID: string, configuredName: string) returns (p: Payload)
    ensures p == Built(formats, fields, configuredID, configuredName)
    ensures Describes(formats, fields, configuredID, configuredName, p)
  {
    BuiltDescribes(formats, fields, configuredID, configuredName);
    hide Describes;
    var copied := CopyMap(fields);
    var values := NumericValues(formats, copied);
    values := AddDerivedValues(formats, copied, values);

    var sn := StringValue(formats, Lookup(copied, "SN"));
    var deviceID := configuredID;
    if deviceID == "" && sn != "" {
      deviceID := formats.sanitizeID("alphaess_" + sn);
    }
    var deviceName := configuredName;
    if deviceName == "" && sn != "" {
      deviceName := "AlphaESS " + sn;
    }
    p := Payload(deviceID, deviceName, sn, StringValue(formats, Lookup(copied, "Time")), copied, values);
  }

  /** `for key, value := range` visits the keys in any order. */
  method CopyMap(input: FieldMap) returns (output: FieldMap)
    ensures output == input
  {
    output := map[];
    var todo := input.Keys;
    while todo != {}
      invariant todo <= input.Keys && output.Keys == input.Keys - todo
      invariant forall key | key in output :: output[key] == input[key]
      decreases todo
    {
      var key :| key in todo;
      output := output[key := input[key]];
      todo := todo - {key};
    }
  }

  method NumericValues(formats: Formats, fields: FieldMap) returns (values: Values)
    ensures values == NumericPart(formats, fields) && NumbersOf(formats, fields, values)
  {
    values := map[];
    var todo := fields.Keys;
    while todo != {}
      invariant todo <= fields.Keys
      invariant values.Keys == NumericPart(formats, fields).Keys - todo
      invariant forall key | key in values :: values[key] == NumericPart(formats, fields)[key]
      decreases todo
    {
      var key :| key in todo;
      var number := ParseNumber(formats, fields[key]);
      if number.Some? {
        values := values[key := number.value];
      }
      todo := todo - {key};
    }
  }

  method AddDerivedValues(formats: Formats, fields: FieldMap, values: Values) returns (out: Values)
    requires values == NumericPart(formats, fields)
    ensures out == Derived(formats, fields)
  {
    out := AddNumberedTotal(formats, fields, values, "Ppv", "PpvTotal");
    out := AddNumberedTotal(formats, fields, out, "PrealL", "PrealTotal");
    out := AddNumberedTotal(formats, fields, out, "PmeterL", "PmeterTotal");
  }

  method AddNumberedTotal(formats: Formats, fields: FieldMap, values: Values, prefix: string, totalKey: string)
    returns (out: Values)
    ensures out == WithTotal(formats, fields, values, prefix, totalKey)
  {
    out := values;
    var keys := MatchingNumberedKeys(fields, prefix);
    if |keys| > 0 {
      assert keys[0] in NumberedKeys(fields, prefix);
      var total := 0.0;
      for i := 0 to |keys|
        invariant total == ListTotal(formats, fields, keys[..i])
      {
        assert keys[..i + 1][..i] == keys[..i];
        assert keys[i] in NumberedKeys(fields, prefix);
        var number := ParseNumber(formats, fields[keys[i]]);
        if number.Some? {
          total := total + number.value;
        }
      }
      assert keys[..|keys|] == keys;
      TotalIgnoresOrder(formats, fields, keys, NumberedKeys(fields, prefix));
      out := out[totalKey := total];
    }
  }

  method MatchingNumberedKeys(fields: FieldMap, prefix: string) returns (keys: seq<string>)
    ensures Lists(keys, NumberedKeys(fields, prefix)) && Ascending(keys)
  {
    keys := [];
    var todo := fields.Keys;
    while todo != {}
      invariant todo <= fields.Keys
      invariant Lists(keys, NumberedKeys(fields, prefix) - todo)
      decreases todo
    {
      var key :| key in todo;
      ghost var before := NumberedKeys(fields, prefix) - todo;
      todo := todo - {key};
      if !(prefix <= key) {
        continue;
      }
      var suffix := key[|prefix|..];
      if suffix == "" {
        continue;
      }
      if IsInteger(suffix) {
        ListsSnoc(keys, before, key);
        keys := keys + [key];
      }
    }
    SortedLists(keys, NumberedKeys(fields, prefix));
    keys := Sorted(keys);
  }

  lemma ListsSnoc(keys: seq<string>, members: set<string>, key: string)
    requires Lists(keys, members) && key !in members
    ensures Lists(keys + [key], members + {key})
  {
    var more := keys + [key];
    forall i, j | 0 <= i < j < |more|
      ensures more[i] != more[j]
    {
      assert more[i] == keys[i];
    }
    assert more[|keys|] == key;
    assert forall i | 0 <= i < |keys| :: more[i] == keys[i];
  }

  // ---------------------------------------------------------------- what the totals mean

  /** A total: the sum over the numbered keys, or whatever numeric field of that name there is. */
  ghost predicate TotalIs(formats: Formats, fields: FieldMap, values: Values, prefix: string, totalKey: string) {
    var keys := NumberedKeys(fields, prefix);
    if keys != {} then totalKey in values && values[totalKey] == SetTotal(formats, fields, keys)
    else
      (totalKey in values <==> totalKey in NumericPart(formats, fields)) &&
      (totalKey in values ==> values[totalKey] == NumericPart(formats, fields)[totalKey])
  }

  /**
   * The three totals are the sums over exactly the fields with their own prefix and an integer
   * suffix, none affects another, and every other value is the number of the field of that name.
   */
  lemma TotalsAreIndependent(formats: Formats, fields: FieldMap)
    ensures var values := Derived(formats, fields);
            TotalIs(formats, fields, values, "Ppv", "PpvTotal") &&
            TotalIs(formats, fields, values, "PrealL", "PrealTotal") &&
            TotalIs(formats, fields, values, "PmeterL", "PmeterTotal") &&
            forall key | key !in {"PpvTotal", "PrealTotal", "PmeterTotal"} ::
              (key in values <==> key in NumericPart(formats, fields)) &&
              (key in values ==> values[key] == NumericPart(formats, fields)[key])
  {
    hide SetTotal, NumberedKeys, NumericPart;
    assert "PpvTotal"[1] == 'p' && "PrealTotal"[1] == 'r' && "PmeterTotal"[1] == 'm';
    var a, b, c := "PpvTotal", "PrealTotal", "PmeterTotal";
    assert a != b && b != c && a != c;
  }

  lemma LetterIsNoInteger(s: string)
    requires s != "" && s[0] == 'T'
    ensures !IsInteger(s)
  {
    assert !('0' <= s[0] <= '9');
    assert !AllDigits(s);
  }

  /** No key belongs to two families, and no total counts itself. */
  lemma FamiliesAreDisjoint(key: string)
    ensures !(Numbered(key, "Ppv") && Numbered(key, "PrealL"))
    ensures !(Numbered(key, "Ppv") && Numbered(key, "PmeterL"))
    ensures !(Numbered(key, "PrealL") && Numbered(key, "PmeterL"))
    ensures Numbered(key, "Ppv") || Numbered(key, "PrealL") || Numbered(key, "PmeterL") ==>
              key !in {"PpvTotal", "PrealTotal", "PmeterTotal"}
  {
    if "Ppv" <= key {
      assert key[1] == "Ppv"[1];
    }
    if "PrealL" <= key {
      assert key[1] == "PrealL"[1] && key[5] == "PrealL"[5];
    }
    if "PmeterL" <= key {
      assert key[1] == "PmeterL"[1] && key[6] == "PmeterL"[6];
    }
    if key == "PpvTotal" {
      assert key[3..][0] == 'T';
      LetterIsNoInteger(key[3..]);
    }
    if key == "PrealTotal" {
      assert key[5] == 'T';
    }
    if key == "PmeterTotal" {
      assert key[6] == 'T';
    }
  }

  // ---------------------------------------------------------------- the state, field by field

  /**
   * `numbers` has exactly the fields that are numbers, whatever kind of value holds them: a float or
   * an int itself, a JSON number or a non-empty text what it parses as.
   */
  predicate NumbersOf(formats: Formats, fields: FieldMap, numbers: Values) {
    && (forall key | key in numbers :: key in fields)
    && forall key | key in fields :: NumberOf(formats, fields[key], numbers, key)
  }

  predicate NumberOf(formats: Formats, value: Any, numbers: Values, key: string) {
    match value
    case Float(r) => key in numbers && numbers[key] == r
    case Int(i) => key in numbers && numbers[key] == i as real
    case JsonNumber(digits) => IsParsed((formats.parseFloat)(digits), numbers, key)
    case Text(text) => if text == "" then key !in numbers else IsParsed((formats.parseFloat)(text), numbers, key)
    case Null => key !in numbers
    case Other(_) => key !in numbers
  }

  predicate IsParsed(parsed: Option<real>, numbers: Values, key: string) {
    match parsed
    case Some(r) => key in numbers && numbers[key] == r
    case None => key !in numbers
  }

  /** How a field reads as a string; one that is missing or null reads as none. */
  predicate ReadsAs(formats: Formats, fields: FieldMap, key: string, text: string) {
    if key !in fields then text == ""
    else
      match fields[key]
      case Text(s) => text == s
      case JsonNumber(digits) => text == digits
      case Null => text == ""
      case _ => text == (formats.sprint)(fields[key])
  }

  /** The prefix, perhaps a sign, and digits that make a 64-bit integer. */
  ghost predicate FamilyKey(key: string, prefix: string) {
    exists sign, digits :: Spelled(key, prefix, sign, digits)
  }

  predicate Spelled(key: string, prefix: string, sign: string, digits: string) {
    && (sign == "" || sign == "+" || sign == "-")
    && digits != "" && AllDigits(digits)
    && key == prefix + sign + digits
    && DigitsValue(digits) <= (if sign == "-" then 9223372036854775808 else 9223372036854775807)
  }

  /** The sum of the numbers under these keys; a key without a number adds nothing. */
  ghost function SumOver(numbers: Values, keys: set<string>): real
    decreases |keys|
  {
    if keys == {} then 0.0
    else
      var key :| key in keys;
      SumOver(numbers, keys - {key}) + (if key in numbers then numbers[key] else 0.0)
  }

  /** The total of a family is there if the family is; otherwise its name is a field like any other. */
  ghost predicate HasTotal(fields: FieldMap, numbers: Values, values: Values, prefix: string, totalKey: string) {
    var family := set key | key in fields && FamilyKey(key, prefix);
    if family != {} then totalKey in values && values[totalKey] == SumOver(numbers, family)
    else SameAt(numbers, values, totalKey)
  }

  predicate SameAt(numbers: Values, values: Values, key: string) {
    (key in values <==> key in numbers) && (key in values ==> values[key] == numbers[key])
  }

  ghost predicate HasValues(formats: Formats, fields: FieldMap, numbers: Values, values: Values) {
    && NumbersOf(formats, fields, numbers)
    && HasTotal(fields, numbers, values, "Ppv", "PpvTotal")
    && HasTotal(fields, numbers, values, "PrealL", "PrealTotal")
    && HasTotal(fields, numbers, values, "PmeterL", "PmeterTotal")
    && forall key | key !in {"PpvTotal", "PrealTotal", "PmeterTotal"} :: SameAt(numbers, values, key)
  }

  /** The published state in terms of the fields alone. */
  ghost predicate Describes(
    formats: Formats, fields: FieldMap, configuredID: string, configuredName: string, p: Payload)
  {
    && p.fields == fields
    && ReadsAs(formats, fields, "SN", p.sn)
    && ReadsAs(formats, fields, "Time", p.time)
    && p.deviceID == (if configuredID != "" then configuredID
                      else if p.sn == "" then ""
                      else (formats.sanitizeID)("alphaess_" + p.sn))
    && p.deviceName == (if configuredName != "" then configuredName
                        else if p.sn == "" then ""
                        else "AlphaESS " + p.sn)
    && exists numbers :: HasValues(formats, fields, numbers, p.values)
  }

  lemma NumericPartIsNumbers(formats: Formats, fields: FieldMap)
    ensures NumbersOf(formats, fields, NumericPart(formats, fields))
  {
  }

  /** There is only one such map, so it does not matter which one a total is taken over. */
  lemma NumbersAreUnique(formats: Formats, fields: FieldMap, a: Values, b: Values)
    requires NumbersOf(formats, fields, a) && NumbersOf(formats, fields, b)
    ensures a == b
  {
    assert forall key | key in a :: key in b && a[key] == b[key];
    assert forall key | key in b :: key in a;
  }

  lemma NumberedIsFamily(key: string, prefix: string)
    ensures Numbered(key, prefix) <==> FamilyKey(key, prefix)
  {
    hide Numbered, Spelled;
    if Numbered(key, prefix) {
      var sign, digits := NumberedIsSpelled(key, prefix);
    }
    forall sign, digits | Spelled(key, prefix, sign, digits)
      ensures Numbered(key, prefix)
    {
      SpelledIsNumbered(key, prefix, sign, digits);
    }
  }

  lemma NumberedIsSpelled(key: string, prefix: string) returns (sign: string, digits: string)
    requires Numbered(key, prefix)
    ensures Spelled(key, prefix, sign, digits)
  {
    hide DigitsValue, AllDigits;
    var rest := key[|prefix|..];
    sign, digits := "", rest;
    if rest[0] == '-' || rest[0] == '+' {
      sign, digits := [rest[0]], rest[1..];
    }
    assert rest == sign + digits;
    assert key == prefix + rest;
    assert prefix + (sign + digits) == prefix + sign + digits;
  }

  lemma SpelledIsNumbered(key: string, prefix: string, sign: string, digits: string)
    requires Spelled(key, prefix, sign, digits)
    ensures Numbered(key, prefix)
  {
    hide DigitsValue;
    var rest := key[|prefix|..];
    assert '0' <= digits[0] <= '9';
    assert prefix + sign + digits == prefix + (sign + digits);
    assert rest == sign + digits;
    if sign == "" {
      assert rest == digits;
    } else {
      assert rest[0] == sign[0] && rest[1..] == digits;
    }
  }

  /** Any number of up to 18 digits counts. */
  lemma {:induction false} ShortDigitsFit(digits: string)
    requires AllDigits(digits) && |digits| <= 18
    ensures DigitsValue(digits) < Pow10(|digits|) <= 1000000000000000000
  {
    Pow10Fits(|digits|);
    if digits != "" {
      ShortDigitsFit(digits[..|digits| - 1]);
    }
  }

  function Pow10(n: nat): nat {
    if n == 0 then 1 else 10 * Pow10(n - 1)
  }

  lemma Pow10Fits(n: nat)
    requires n <= 18
    ensures Pow10(n) <= 1000000000000000000
  {
    assert Pow10(6) == 1000000;
    Pow10Grows(n, 18);
    assert Pow10(12) == 1000000 * Pow10(6);
    assert Pow10(18) == 1000000 * Pow10(12);
  }

  lemma {:induction false} Pow10Grows(m: nat, n: nat)
    requires m <= n
    ensures Pow10(m) <= Pow10(n)
    decreases n
  {
    if m < n {
      Pow10Grows(m, n - 1);
    }
  }

  lemma {:induction false} SetTotalIsSum(formats: Formats, fields: FieldMap, numbers: Values, keys: set<string>)
    requires NumbersOf(formats, fields, numbers) && keys <= fields.Keys
    ensures SetTotal(formats, fields, keys) == SumOver(numbers, keys)
    decreases |keys|
  {
    if keys != {} {
      var key :| key in keys &&
        SumOver(numbers, keys) == SumOver(numbers, keys - {key}) + (if key in numbers then numbers[key] else 0.0);
      SetTotalTake(formats, fields, keys, key);
      SetTotalIsSum(formats, fields, numbers, keys - {key});
    }
  }

  lemma TotalIsTotal(formats: Formats, fields: FieldMap, numbers: Values, values: Values,
                     prefix: string, totalKey: string)
    requires numbers == NumericPart(formats, fields) && TotalIs(formats, fields, values, prefix, totalKey)
    ensures HasTotal(fields, numbers, values, prefix, totalKey)
  {
    hide NumericPart, Numbered, FamilyKey, SetTotal, SumOver, NumbersOf;
    NumericPartIsNumbers(formats, fields);
    forall key
      ensures Numbered(key, prefix) <==> FamilyKey(key, prefix)
    {
      NumberedIsFamily(key, prefix);
    }
    assert NumberedKeys(fields, prefix) == set key | key in fields && FamilyKey(key, prefix);
    SetTotalIsSum(formats, fields, numbers, NumberedKeys(fields, prefix));
  }

  /** What is built is what the fields say, value by value and name by name. */
  lemma BuiltDescribes(formats: Formats, fields: FieldMap, configuredID: string, configuredName: string)
    ensures Describes(formats, fields, configuredID, configuredName,
                      Built(formats, fields, configuredID, configuredName))
  {
    hide NumericPart, Derived, TotalIs, HasTotal, NumbersOf;
    var numbers, values := NumericPart(formats, fields), Derived(formats, fields);
    NumericPartIsNumbers(formats, fields);
    TotalsAreIndependent(formats, fields);
    TotalIsTotal(formats, fields, numbers, values, "Ppv", "PpvTotal");
    TotalIsTotal(formats, fields, numbers, values, "PrealL", "PrealTotal");
    TotalIsTotal(formats, fields, numbers, values, "PmeterL", "PmeterTotal");
    assert HasValues(formats, fields, numbers, values);
  }
}
