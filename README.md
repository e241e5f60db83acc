# EnumMapping in Dafny

A model of EnumMapping, a small C++ helper that serialises and deserialises
`enum class` values through a caller-supplied table of `NameValuePair`
entries, and of the example program that uses it.

- `to_string.dfy`, module `StdToString`: the decimal rendering of `std::to_string(int)`.
  The exception message is built with it.
- `enum_mapping.dfy`, module `EnumMapping`: the table entry `NameValuePair<T>`.
  The exception `UnknownValueException` has two constructors, one per payload:
  `FromName(name)` and `FromValue(int)`. `Message()` is the text it is constructed with.
  `What()` is what `what()` shows: that text read as a C string, so it ends at the first NUL.
  Only a name can hold a NUL, because the name comes from a `std::string`.
  The search `std::find_if` is `FindIf`, which returns a position; `|a|` plays the end iterator.
  The two lookups are `GetNameForValue` and `GetValueForName`. The lemmas cover
  first-match search, misses, membership, round trips and how a lookup splits over `a + b`.
- `main.dfy`, module `ParkingAndColors`: the enums `ParkingPolicy` and `ColorOptions`.
  Each is a newtype over the 32-bit `int` range, which is the default underlying type of an
  `enum class`, so `ColorOptions(27)` can be written (`27 as ColorOptions`).
  The tables `ValidParkingPolicies` (5 entries) and `ValidColorOptions` (7 entries) are constants.
  Each scenario that the example program checks is a lemma.

A thrown exception is modelled as `Result<T>` with the constructors `Ok(value)` and `Throws(error)`.
The enum-to-`int` cast that `getNameForValue` applies on a miss is the parameter `toInt: T -> int`.
For the example enums it is `ParkingPolicyToInt` or `ColorOptionsToInt`.
A table is a `seq<NameValuePair<T>>` value. Both lookups are functions of it, so no lookup can change it.
That matches the source, which takes the table by value and whose pair fields are `const`.

## Model

| member | source | states |
|---|---|---|
| StdToString.NatToDecimal | src/enum_mapping.h:15 | the digits of a natural number are non-empty and all decimal digits, with no leading zero: a '0' first means the text is exactly "0" for zero |
| StdToString.DecimalRoundTrip | src/enum_mapping.h:15 | reading the written digits back gives the original number |
| StdToString.IntToString | src/enum_mapping.h:15 | `std::to_string` starts with '-' exactly for negative numbers. The remaining digits are non-empty, with no leading zero, so zero is exactly "0" |
| StdToString.IntToStringInjective | src/enum_mapping.h:15 | distinct integers have distinct decimal renderings |
| StdToString.IntToStringValue | src/enum_mapping.h:15 | the digits after the optional '-' spell the magnitude of the number |
| StdToString.IntToStringHasNoNul | src/enum_mapping.h:15 | a rendered integer holds no NUL, so a value's message is never cut short |
| EnumMapping.UnknownValueException.What | src/enum_mapping.h:14-15 | the text `what()` shows is a NUL-free prefix of the constructed message, stops only at a NUL, and is the whole message exactly when the payload is a value or a name without a NUL. Its other properties are `KindsHaveDistinctMessages`, `WhatIdentifiesPayload` and `SameVisibleNameSameWhat` |
| EnumMapping.CString | src/enum_mapping.h:14 | reading a string as a C string gives its longest NUL-free prefix, ending just before the first NUL |
| EnumMapping.CStringOfNulFree | src/enum_mapping.h:14 | a NUL-free prefix such as the message prefix is read through whole |
| EnumMapping.FindIfSplits | src/enum_mapping.h:30-33 | `find_if` over `a + b` finds a match in `a` there, and otherwise continues at the start of `b` |
| EnumMapping.FindIf | src/enum_mapping.h:30-33 | the returned position is the first element satisfying the predicate, or the end when no element does |
| EnumMapping.GetNameForValue | src/enum_mapping.h:28-40 | succeeds exactly when some entry holds the value. It returns the name of the earliest such entry; a miss throws `FromValue` with the value's integer cast |
| EnumMapping.GetValueForName | src/enum_mapping.h:42-54 | succeeds exactly when some entry's name equals the input. It returns the value of the earliest such entry; a miss throws `FromName` with the input name |
| EnumMapping.NameComesFromTable | src/enum_mapping.h:33-35 | a returned name forms, together with the queried value, an entry of the table |
| EnumMapping.ValueComesFromTable | src/enum_mapping.h:48-50 | a returned value forms, together with the queried name, an entry of the table |
| EnumMapping.NameForEntryValue | src/enum_mapping.h:29-35 | in a table with distinct values, every entry's value is written as that entry's name |
| EnumMapping.ValueForEntryName | src/enum_mapping.h:43-50 | in a table with distinct names, every entry's name reads as that entry's value |
| EnumMapping.NameRoundTrip | src/enum_mapping.h:29-54 | with distinct values, a name that reads successfully is written back as the same name |
| EnumMapping.ValueRoundTrip | src/enum_mapping.h:29-54 | with distinct names, a value that is written successfully reads back as the same value |
| EnumMapping.NameLookupSplits | src/enum_mapping.h:30-35 | writing against `a + b` gives the result against `a` when `a` holds the value, and otherwise the result against `b`. Duplicates later in the table are never seen |
| EnumMapping.ValueLookupSplits | src/enum_mapping.h:45-50 | reading against `a + b` gives the result against `a` when `a` has the name, and otherwise the result against `b`. Duplicates later in the table are never seen |
| EnumMapping.KindsHaveDistinctMessages | src/enum_mapping.h:14-15 | a name miss and a value miss never produce the same message |
| EnumMapping.WhatIdentifiesPayload | src/enum_mapping.h:12-16 | two exceptions with the same `what()` text are of the same kind. Value exceptions then carry the same value; name exceptions carry names that agree up to their first NUL |
| EnumMapping.SameVisibleNameSameWhat | src/enum_mapping.h:14 | names that agree up to their first NUL give the same `what()` text, the converse of the name case above |
| EnumMapping.WhatStopsAtNul | src/enum_mapping.h:14 | the name "No\0Taxis" is reported as "Unknown value: No", the same text as for "No" |
| ParkingAndColors.ParkingTableIsBijective | src/main.cpp:22-28 | the parking table has 5 entries, with pairwise distinct values and pairwise distinct names |
| ParkingAndColors.ColorTableIsBijective | src/main.cpp:30-38 | the color table has 7 entries, with pairwise distinct values and pairwise distinct names |
| ParkingAndColors.TablesRoundTrip | src/main.cpp:22-38 | both tables round-trip every accepted name and every named value |
| ParkingAndColors.ParsesOnlyPublicHolidays | src/main.cpp:45-48 | "OnlyPublicHolidays" reads as `OnlyPublicHolidays` without throwing |
| ParkingAndColors.WritesYellow | src/main.cpp:56-57 | `Yellow` is written as "Yellow" |
| ParkingAndColors.ParsesOnlyWeekends | src/main.cpp:61-63 | "OnlyWeekends" reads as `OnlyWeekends` |
| ParkingAndColors.ParsesWhite | src/main.cpp:65-67 | "White" reads as `White` |
| ParkingAndColors.WritesSevenDays | src/main.cpp:69-71 | `SevenDays` is written as "Sevendays", and the identifier's own spelling "SevenDays" does not read |
| ParkingAndColors.WritesRed | src/main.cpp:73-75 | `Red` is written as "Red" |
| ParkingAndColors.RejectsNoTaxis | src/main.cpp:77-78 | reading "NoTaxis" throws with that name, and the message is "Unknown value: NoTaxis" |
| ParkingAndColors.RejectsColor27 | src/main.cpp:80-81 | writing the out-of-range color 27 throws with 27, and the message is "Unknown name for enum value: 27" |

## Left out

- src/dumb_test_helpers.h is not part of this model. It only prints pass/fail lines to the console. The checks it reports are the lemmas of `ParkingAndColors`.
- The `std::cerr` report and `std::abort` in `main()` (src/main.cpp:49-52) are console and process I/O. Only the lookup result they guard is modelled.
- The C++ exception machinery and the `std::runtime_error` base class are not modelled. A throw is the `Throws` result, which carries the same payload. `What()` gives the text `what()` shows when it is read as a C string, up to the first NUL.
- The "any container supporting `find_if`" genericity is not modelled. The table is always a `seq`.
- The two template parameters of `getNameForValue` (the table type and the value type `V`) are not modelled separately. They become one type parameter `T`: the source's `==` between the entry value and `V` compiles only when the two are the same enum type.
- Rejecting a mismatched enum type at compile time (the commented-out src/main.cpp:85) has no lemma. Dafny's type checker gives this directly: a `ParkingPolicy` table cannot be searched with a `ColorOptions` value.
- Immutability of the table during a lookup has no separate lemma. Lookups are functions over an immutable `seq`, so this holds by construction.
- A table name in C++ is a `const char*`, so it cannot contain a NUL; a Dafny `string` can. The example tables contain none. The name passed to `getValueForName` is a `std::string` and may contain a NUL. `What()` models this, because `what()` shows that name only up to its first NUL.
- Comparing a table name with a `std::string` that holds a NUL is modelled as plain string equality. In C++ such a name never equals a `const char*` table name either, so the lookup outcome is the same.
