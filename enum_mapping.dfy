/**
 * Serialising and deserialising enum values through a caller-supplied,
 * ordered table of name/value pairs. Both lookups scan the table in order
 * and stop at the first matching entry; a miss is reported with the
 * unknown-value exception, carrying the name or the integer value that
 * was not found.
 */
module EnumMapping {
  import StdToString

  /** One table entry: an enum value and its canonical label. */
  datatype NameValuePair<T> = NameValuePair(value: T, name: string)

  /** The exception thrown on a miss, with its two payloads. */
  datatype UnknownValueException =
    | FromName(name: string)  // thrown when no entry has the name
    | FromValue(value: int)   // thrown when no entry has the value
  {
    /** The text the exception is constructed with. */
    function Message(): string {
      match this
      case FromName(n) => "Unknown value: " + n
      case FromValue(v) => "Unknown name for enum value: " + StdToString.IntToString(v)
    }

    /**
     * The text `what()` shows: the message read as a C string, that is, up to
     * its first NUL. Only a name can hold a NUL; a value's message is shown whole.
     */
    function What(): (m: string)
      ensures m <= Message() && '\0' !in m
      ensures |m| < |Message()| ==> Message()[|m|] == '\0'
      ensures m == Message() <==> FromValue? || '\0' !in name
    {
      if FromValue? || '\0' !in name then
        assert '\0' !in Message() by {
          if FromValue? { StdToString.IntToStringHasNoNul(value); }
        }
        CStringOfNulFree(Message(), []);
        assert Message() + [] == Message();
        CString(Message())
      else
        CString(Message())
    }
  }

  /** A lookup either returns normally or throws the unknown-value exception. */
  datatype Result<T> = Ok(value: T) | Throws(error: UnknownValueException)

  /**
   * The position of the first element satisfying `p`, or `|a|` (the end
   * iterator) when there is none.
   */
  function FindIf<E>(a: seq<E>, p: E -> bool): (pos: nat)
    ensures pos <= |a|
    ensures pos < |a| ==> p(a[pos])
    ensures forall j :: 0 <= j < pos ==> !p(a[j])
  {
    if a == [] then 0
    else if p(a[0]) then 0
    else 1 + FindIf(a[1..], p)
  }

  /** A string read as a C string: everything before its first NUL. */
  function CString(s: string): (c: string)
    ensures c <= s && '\0' !in c
    ensures |c| < |s| ==> s[|c|] == '\0'
  {
    s[..FindIf(s, IsNul)]
  }

  /** The terminator of a C string. */
  predicate IsNul(c: char) {
    c == '\0'
  }

  /** A NUL-free prefix is read through whole. */
  lemma CStringOfNulFree(p: string, s: string)
    requires '\0' !in p
    ensures CString(p + s) == p + CString(s)
  {
    FindIfSplits(p, s, IsNul);
    var k := FindIf(s, IsNul);
    assert (p + s)[..|p| + k] == p + s[..k];
  }

  /**
   * `find_if` over a concatenation: a match in the first part is found there,
   * otherwise the search continues into the second part.
   */
  lemma {:induction false} FindIfSplits<E>(a: seq<E>, b: seq<E>, p: E -> bool)
    ensures FindIf(a + b, p) == if FindIf(a, p) < |a| then FindIf(a, p) else |a| + FindIf(b, p)
  {
    if a == [] {
      assert a + b == b;
    } else {
      assert (a + b)[0] == a[0];
      assert (a + b)[1..] == a[1..] + b;
      FindIfSplits(a[1..], b, p);
    }
  }

  /** The comparison `getNameForValue` hands to `find_if`. */
  function HasValue<T(==)>(value: T): NameValuePair<T> -> bool {
    (t: NameValuePair<T>) => t.value == value
  }

  /** The comparison `getValueForName` hands to `find_if`. */
  function HasName<T>(name: string): NameValuePair<T> -> bool {
    (t: NameValuePair<T>) => t.name == name
  }

  /** Entry `k` is the earliest entry whose value is `value`. */
  ghost predicate FirstWithValue<T>(a: seq<NameValuePair<T>>, value: T, k: int) {
    0 <= k < |a| && a[k].value == value &&
    forall j :: 0 <= j < k ==> a[j].value != value
  }

  /** Entry `k` is the earliest entry whose name is `name`. */
  ghost predicate FirstWithName<T>(a: seq<NameValuePair<T>>, name: string, k: int) {
    0 <= k < |a| && a[k].name == name &&
    forall j :: 0 <= j < k ==> a[j].name != name
  }

  /** No two entries share a value. */
  ghost predicate DistinctValues<T>(a: seq<NameValuePair<T>>) {
    forall i, j :: 0 <= i < j < |a| ==> a[i].value != a[j].value
  }

  /** No two entries share a name. */
  ghost predicate DistinctNames<T>(a: seq<NameValuePair<T>>) {
    forall i, j :: 0 <= i < j < |a| ==> a[i].name != a[j].name
  }

  /**
   * Serialise: the name of the first entry holding `value`; a miss throws
   * with the value's integer representation `toInt(value)`.
   */
  function GetNameForValue<T(==)>(a: seq<NameValuePair<T>>, value: T, toInt: T -> int): (r: Result<string>)
    ensures r.Ok? <==> exists k :: 0 <= k < |a| && a[k].value == value
    ensures r.Ok? ==> exists k :: FirstWithValue(a, value, k) && r.value == a[k].name
    ensures forall k :: FirstWithValue(a, value, k) ==> r == Ok(a[k].name)
    ensures r.Throws? ==> r.error == FromValue(toInt(value))
  {
    var pos := FindIf(a, HasValue(value));
    if pos != |a| then Ok(a[pos].name)
    else Throws(FromValue(toInt(value)))
  }

  /**
   * Deserialise: the value of the first entry whose name equals `name`
   * exactly; a miss throws with the name.
   */
  function GetValueForName<T>(a: seq<NameValuePair<T>>, name: string): (r: Result<T>)
    ensures r.Ok? <==> exists k :: 0 <= k < |a| && a[k].name == name
    ensures r.Ok? ==> exists k :: FirstWithName(a, name, k) && r.value == a[k].value
    ensures forall k :: FirstWithName(a, name, k) ==> r == Ok(a[k].value)
    ensures r.Throws? ==> r.error == FromName(name)
  {
    var pos := FindIf(a, HasName(name));
    if pos != |a| then Ok(a[pos].value)
    else Throws(FromName(name))
  }

  /** A successful serialisation returns the name of an entry holding the value. */
  lemma NameComesFromTable<T>(a: seq<NameValuePair<T>>, value: T, toInt: T -> int)
    requires GetNameForValue(a, value, toInt).Ok?
    ensures NameValuePair(value, GetNameForValue(a, value, toInt).value) in a
  {
    var k :| FirstWithValue(a, value, k) && GetNameForValue(a, value, toInt).value == a[k].name;
    assert a[k] == NameValuePair(value, a[k].name);
  }

  /** A successful deserialisation returns the value of an entry holding the name. */
  lemma ValueComesFromTable<T>(a: seq<NameValuePair<T>>, name: string)
    requires GetValueForName(a, name).Ok?
    ensures NameValuePair(GetValueForName(a, name).value, name) in a
  {
    var k :| FirstWithName(a, name, k) && GetValueForName(a, name).value == a[k].value;
    assert a[k] == NameValuePair(a[k].value, name);
  }

  /** With distinct values, every entry's value serialises to that entry's name. */
  lemma NameForEntryValue<T>(a: seq<NameValuePair<T>>, k: int, toInt: T -> int)
    requires DistinctValues(a) && 0 <= k < |a|
    ensures GetNameForValue(a, a[k].value, toInt) == Ok(a[k].name)
  {
    assert FirstWithValue(a, a[k].value, k);
  }

  /** With distinct names, every entry's name deserialises to that entry's value. */
  lemma ValueForEntryName<T>(a: seq<NameValuePair<T>>, k: int)
    requires DistinctNames(a) && 0 <= k < |a|
    ensures GetValueForName(a, a[k].name) == Ok(a[k].value)
  {
    assert FirstWithName(a, a[k].name, k);
  }

  /** Deserialise then serialise gives back the name, when values are distinct. */
  lemma NameRoundTrip<T>(a: seq<NameValuePair<T>>, name: string, toInt: T -> int)
    requires DistinctValues(a)
    requires GetValueForName(a, name).Ok?
    ensures GetNameForValue(a, GetValueForName(a, name).value, toInt) == Ok(name)
  {
    var k :| FirstWithName(a, name, k) && GetValueForName(a, name).value == a[k].value;
    NameForEntryValue(a, k, toInt);
  }

  /** Serialise then deserialise gives back the value, when names are distinct. */
  lemma ValueRoundTrip<T>(a: seq<NameValuePair<T>>, value: T, toInt: T -> int)
    requires DistinctNames(a)
    requires GetNameForValue(a, value, toInt).Ok?
    ensures GetValueForName(a, GetNameForValue(a, value, toInt).value) == Ok(value)
  {
    var k :| FirstWithValue(a, value, k) && GetNameForValue(a, value, toInt).value == a[k].name;
    ValueForEntryName(a, k);
  }

  /**
   * First match wins: entries after a matching prefix are never consulted,
   * and a miss in the prefix defers to the rest of the table.
   */
  lemma NameLookupSplits<T>(a: seq<NameValuePair<T>>, b: seq<NameValuePair<T>>, value: T, toInt: T -> int)
    ensures GetNameForValue(a + b, value, toInt) ==
            if GetNameForValue(a, value, toInt).Ok? then GetNameForValue(a, value, toInt)
            else GetNameForValue(b, value, toInt)
  {
    FindIfSplits(a, b, HasValue(value));
  }

  /** The same first-match composition for deserialisation. */
  lemma ValueLookupSplits<T>(a: seq<NameValuePair<T>>, b: seq<NameValuePair<T>>, name: string)
    ensures GetValueForName(a + b, name) ==
            if GetValueForName(a, name).Ok? then GetValueForName(a, name)
            else GetValueForName(b, name)
  {
    FindIfSplits(a, b, HasName(name));
  }

  /** A name miss and a value miss never report the same message. */
  lemma KindsHaveDistinctMessages(name: string, value: int)
    ensures FromName(name).What() != FromValue(value).What()
  {
    CStringOfNulFree("Unknown value: ", name);
    assert FromName(name).What()[8] == 'v';
    assert FromValue(value).What()[8] == 'n';
  }

  /**
   * Equal messages mean the same kind of miss and, for a value, the same
   * value; for a name, only the part before its first NUL is recovered.
   */
  lemma WhatIdentifiesPayload(e1: UnknownValueException, e2: UnknownValueException)
    requires e1.What() == e2.What()
    ensures e1.FromName? <==> e2.FromName?
    ensures e1.FromValue? ==> e1 == e2
    ensures e1.FromName? ==> CString(e1.name) == CString(e2.name)
  {
    var m := e1.What();
    match (e1, e2)
    case (FromName(n1), FromName(n2)) =>
      CStringOfNulFree("Unknown value: ", n1);
      CStringOfNulFree("Unknown value: ", n2);
      assert CString(n1) == m[15..] == CString(n2);
    case (FromName(n1), FromValue(v2)) =>
      KindsHaveDistinctMessages(n1, v2);
      assert false;
    case (FromValue(v1), FromName(n2)) =>
      KindsHaveDistinctMessages(n2, v1);
      assert false;
    case (FromValue(v1), FromValue(v2)) =>
      assert StdToString.IntToString(v1) == m[29..] == StdToString.IntToString(v2);
      StdToString.IntToStringInjective(v1, v2);
  }

  /** Conversely, names that agree up to their first NUL report the same message. */
  lemma SameVisibleNameSameWhat(n1: string, n2: string)
    requires CString(n1) == CString(n2)
    ensures FromName(n1).What() == FromName(n2).What()
  {
    CStringOfNulFree("Unknown value: ", n1);
    CStringOfNulFree("Unknown value: ", n2);
  }

  /** A name holding a NUL is reported only up to the NUL. */
  lemma WhatStopsAtNul()
    ensures FromName("No\0Taxis").What() == "Unknown value: No"
    ensures FromName("No\0Taxis").What() == FromName("No").What()
  {
    assert CString("\0Taxis") == [];
    assert CString("o\0Taxis") == "o";
    assert CString("No\0Taxis") == "No";
    SameVisibleNameSameWhat("No\0Taxis", "No");
  }
}
