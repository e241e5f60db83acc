/**
 * The two example enums, their mapping tables, and the lookups the example
 * program checks against them.
 */
module ParkingAndColors {
  import opened EnumMapping
  import StdToString

  /**
   * Strongly typed enums whose underlying type is a 32-bit `int`: every
   * value of that range is representable, not only the named ones, so an
   * out-of-range value such as `ColorOptions(27)` can be passed to a lookup.
   */
  newtype ParkingPolicy = x: int | -0x8000_0000 <= x < 0x8000_0000
  newtype ColorOptions = x: int | -0x8000_0000 <= x < 0x8000_0000

  const NoParking: ParkingPolicy := 0
  const OnlyPublicHolidays: ParkingPolicy := 1
  const OnlyWeekends: ParkingPolicy := 2
  const OnlyWeekdays: ParkingPolicy := 3
  const SevenDays: ParkingPolicy := 4

  const Transparent: ColorOptions := 0
  const Red: ColorOptions := 1
  const Yellow: ColorOptions := 2
  const Green: ColorOptions := 3
  const Blue: ColorOptions := 4
  const White: ColorOptions := 5
  const Black: ColorOptions := 6

  /** `static_cast<int>` of each enum. */
  function ParkingPolicyToInt(p: ParkingPolicy): int { p as int }
  function ColorOptionsToInt(c: ColorOptions): int { c as int }

  /** Note the label of `SevenDays`, which differs in case from the enumerator. */
  const ValidParkingPolicies: seq<NameValuePair<ParkingPolicy>> := [
    NameValuePair(NoParking, "NoParking"),
    NameValuePair(OnlyPublicHolidays, "OnlyPublicHolidays"),
    NameValuePair(OnlyWeekends, "OnlyWeekends"),
    NameValuePair(OnlyWeekdays, "OnlyWeekdays"),
    NameValuePair(SevenDays, "Sevendays")
  ]

  const ValidColorOptions: seq<NameValuePair<ColorOptions>> := [
    NameValuePair(Transparent, "Transparent"),
    NameValuePair(Red, "Red"),
    NameValuePair(Yellow, "Yellow"),
    NameValuePair(Green, "Green"),
    NameValuePair(Blue, "Blue"),
    NameValuePair(White, "White"),
    NameValuePair(Black, "Black")
  ]

  /** The parking table has five entries with distinct values and distinct names. */
  lemma ParkingTableIsBijective()
    ensures |ValidParkingPolicies| == 5
    ensures DistinctValues(ValidParkingPolicies) && DistinctNames(ValidParkingPolicies)
  {
  }

  /** The color table has seven entries with distinct values and distinct names. */
  lemma ColorTableIsBijective()
    ensures |ValidColorOptions| == 7
    ensures DistinctValues(ValidColorOptions) && DistinctNames(ValidColorOptions)
  {
  }

  /** Both tables round-trip every name they accept and every value they name. */
  lemma TablesRoundTrip(name: string, p: ParkingPolicy, c: ColorOptions)
    ensures GetValueForName(ValidParkingPolicies, name).Ok? ==>
      GetNameForValue(ValidParkingPolicies, GetValueForName(ValidParkingPolicies, name).value, ParkingPolicyToInt) == Ok(name)
    ensures GetNameForValue(ValidParkingPolicies, p, ParkingPolicyToInt).Ok? ==>
      GetValueForName(ValidParkingPolicies, GetNameForValue(ValidParkingPolicies, p, ParkingPolicyToInt).value) == Ok(p)
    ensures GetValueForName(ValidColorOptions, name).Ok? ==>
      GetNameForValue(ValidColorOptions, GetValueForName(ValidColorOptions, name).value, ColorOptionsToInt) == Ok(name)
    ensures GetNameForValue(ValidColorOptions, c, ColorOptionsToInt).Ok? ==>
      GetValueForName(ValidColorOptions, GetNameForValue(ValidColorOptions, c, ColorOptionsToInt).value) == Ok(c)
  {
    ParkingTableIsBijective();
    ColorTableIsBijective();
    if GetValueForName(ValidParkingPolicies, name).Ok? {
      NameRoundTrip(ValidParkingPolicies, name, ParkingPolicyToInt);
    }
    if GetNameForValue(ValidParkingPolicies, p, ParkingPolicyToInt).Ok? {
      ValueRoundTrip(ValidParkingPolicies, p, ParkingPolicyToInt);
    }
    if GetValueForName(ValidColorOptions, name).Ok? {
      NameRoundTrip(ValidColorOptions, name, ColorOptionsToInt);
    }
    if GetNameForValue(ValidColorOptions, c, ColorOptionsToInt).Ok? {
      ValueRoundTrip(ValidColorOptions, c, ColorOptionsToInt);
    }
  }

  /** Reading the input "OnlyPublicHolidays" succeeds. */
  lemma ParsesOnlyPublicHolidays()
    ensures GetValueForName(ValidParkingPolicies, "OnlyPublicHolidays") == Ok(OnlyPublicHolidays)
  {
    ParkingTableIsBijective();
    ValueForEntryName(ValidParkingPolicies, 1);
  }

  /** Writing `Yellow` gives "Yellow". */
  lemma WritesYellow()
    ensures GetNameForValue(ValidColorOptions, Yellow, ColorOptionsToInt) == Ok("Yellow")
  {
    ColorTableIsBijective();
    NameForEntryValue(ValidColorOptions, 2, ColorOptionsToInt);
  }

  /** "OnlyWeekends" reads as `OnlyWeekends`. */
  lemma ParsesOnlyWeekends()
    ensures GetValueForName(ValidParkingPolicies, "OnlyWeekends") == Ok(OnlyWeekends)
  {
    ParkingTableIsBijective();
    ValueForEntryName(ValidParkingPolicies, 2);
  }

  /** "White" reads as `White`. */
  lemma ParsesWhite()
    ensures GetValueForName(ValidColorOptions, "White") == Ok(White)
  {
    ColorTableIsBijective();
    ValueForEntryName(ValidColorOptions, 5);
  }

  /** `SevenDays` is written with its table label "Sevendays", lower-case 'd'. */
  lemma WritesSevenDays()
    ensures GetNameForValue(ValidParkingPolicies, SevenDays, ParkingPolicyToInt) == Ok("Sevendays")
    ensures GetValueForName(ValidParkingPolicies, "SevenDays").Throws?
  {
    ParkingTableIsBijective();
    NameForEntryValue(ValidParkingPolicies, 4, ParkingPolicyToInt);
  }

  /** `Red` is written as "Red". */
  lemma WritesRed()
    ensures GetNameForValue(ValidColorOptions, Red, ColorOptionsToInt) == Ok("Red")
  {
    ColorTableIsBijective();
    NameForEntryValue(ValidColorOptions, 1, ColorOptionsToInt);
  }

  /** "NoTaxis" is not a parking policy: the lookup throws with that name. */
  lemma RejectsNoTaxis()
    ensures GetValueForName(ValidParkingPolicies, "NoTaxis") == Throws(FromName("NoTaxis"))
    ensures FromName("NoTaxis").What() == "Unknown value: NoTaxis"
  {
    assert FromName("NoTaxis").Message() == "Unknown value: NoTaxis";
    assert GetValueForName(ValidParkingPolicies, "NoTaxis").Throws? by {
      var a := ValidParkingPolicies;
      assert a[0].name != "NoTaxis" && a[1].name != "NoTaxis" && a[2].name != "NoTaxis";
      assert a[3].name != "NoTaxis" && a[4].name != "NoTaxis";
    }
  }

  /** The out-of-range color 27 has no name: the lookup throws with 27. */
  lemma RejectsColor27()
    ensures GetNameForValue(ValidColorOptions, 27 as ColorOptions, ColorOptionsToInt) == Throws(FromValue(27))
    ensures FromValue(27).What() == "Unknown name for enum value: 27"
  {
    var a := ValidColorOptions;
    assert forall k :: 0 <= k < |a| ==> a[k].value as int == k < 27;
    assert StdToString.IntToString(27) == "27" by {
      assert StdToString.NatToDecimal(2) == "2";
      assert StdToString.NatToDecimal(27) == StdToString.NatToDecimal(2) + "7";
    }
  }
}
