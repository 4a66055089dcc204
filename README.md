# Lunar year table and year labels

A verified Dafny model of `Lunars.java`, a small utility class for the
Chinese lunisolar calendar. The class holds a constant table `LUNAR_INFO`
with one packed 17-bit entry per lunar year from 1900 to 2049:

- bit 16 gives the length of the leap month (30 days if set, 29 if clear);
- bits 15 down to 4 give the lengths of ordinary months 1 to 12;
- bits 3..0 give the ordinary month after which the leap month comes
  (0 means the year has no leap month).

Four decoders read the table: `leapMonth`, `leapDays`, `monthDays` and
`yearDays`. Two lookups name a year: `animalsYear` gives its zodiac animal
and `cyclical` gives its stem-branch name in the sixty-year cycle.

The project has five modules:

- `Bits` (`bits.dfy`) covers natural numbers as binary digits:
  - single-bit tests, which stand for the Java mask tests `(x & mask) != 0`;
  - counting set bits, both by masks and by shifting;
  - packing and unpacking a sequence of bits.
- `JavaInt` (`java_int.dfy`) covers the two pieces of Java `int` arithmetic
  the label lookups depend on:
  - 32-bit wrap-around of `+` and `-`;
  - the truncating `%`, whose result has the sign of the dividend.
- `LunarTable` (`lunar_table.dfy`) covers:
  - the table and its well-formedness;
  - a `YearCode` datatype that unpacks one entry, with `Encode`/`Decode`
    round trips;
  - the four decoders. `yearDays` is a method with the source's mask loop,
    proved equal to the specification function `YearLength`.
- `Labels` (`labels.dfy`) covers the three name lists and the two label
  lookups, with their periods, distinctness and domains.
- `LunarAnchors` (`anchors.dfy`) works out the decoded values of two
  table years, 1900 and 1903, by hand.

Two behaviours of the code are worth stating on their own:

- **Year 1900.** Its table entry `0x04bd8` has low nibble 8, so 1900 has a
  leap month after month 8, 29 days long, and the year has 384 days
  (`LunarAnchors.Leap1900`, `LunarAnchors.Length1900`).
- **The month argument of `monthDays`.** `monthDays` does not check its
  month argument. It shifts `0x10000` right by the month, and Java uses
  only the low five bits of the shift distance. So:
  - month 0 reads the leap-length flag;
  - months 13..16 read bits of the leap-month index;
  - other distances give 29.

  `LunarTable.MonthDaysUnchecked` states this behaviour.

## Model

| member | source | states |
|---|---|---|
| LunarTable.TableWellFormed | src/main/java/net/guohaitao/sword/date/Lunars.java:12-29 | the table has 150 entries (1900..2049); every entry is below 0x20000, its leap-month index is at most 12, and no entry without a leap month sets the leap-length flag |
| LunarTable.EncodeDecode | src/main/java/net/guohaitao/sword/date/Lunars.java:12-29 | every 17-bit entry is rebuilt exactly from its leap-length flag, its twelve month flags and its leap-month index, so the packing loses nothing |
| LunarTable.DecodeEncode | src/main/java/net/guohaitao/sword/date/Lunars.java:12-29 | any leap flag, twelve month flags and leap index below 16 pack into one entry and unpack unchanged |
| LunarTable.LeapMonth | src/main/java/net/guohaitao/sword/date/Lunars.java:76-78 | `leapMonth` is at most 12 for every table year |
| LunarTable.LeapDays | src/main/java/net/guohaitao/sword/date/Lunars.java:61-67 | `leapDays` is 0 exactly when `leapMonth` is 0; otherwise it is 30 exactly when bit 16 of the entry is set, and 29 otherwise |
| LunarTable.LeapDaysMask | src/main/java/net/guohaitao/sword/date/Lunars.java:61-78 | `leapMonth` is the entry masked with 0xf, and `leapDays` is 0, 30 or 29 as that index is 0 and as the entry tested against 0x10000 is set or clear |
| LunarTable.MonthDays | src/main/java/net/guohaitao/sword/date/Lunars.java:87-89 | `monthDays` is 29 or 30 for every month argument, including unchecked ones |
| LunarTable.MonthDaysMask | src/main/java/net/guohaitao/sword/date/Lunars.java:87-89 | `monthDays` is 30 exactly when the shift distance is at most 16 and the entry divided by the mask `0x10000 >> month` is odd |
| LunarTable.MonthDaysDecoded | src/main/java/net/guohaitao/sword/date/Lunars.java:87-89 | for months 1..12, `monthDays` is 30 exactly when that month's flag (bit 16 - month) is set; it does not depend on the leap flag or the leap index |
| LunarTable.MonthDaysUnchecked | src/main/java/net/guohaitao/sword/date/Lunars.java:87-89 | with Java's five-bit shift distance, month 0 reads the leap-length flag (so in a leap year it equals `leapDays`), months 13..16 read bits of the leap-month index, and larger distances give 29 |
| LunarTable.SumMonthDays | src/main/java/net/guohaitao/sword/date/Lunars.java:45-53 | the sum of `monthDays` over months 1..n is 29n plus the number of set flags among those months' bits |
| LunarTable.YearLength | src/main/java/net/guohaitao/sword/date/Lunars.java:45-53 | a year has 348 days plus one per set month bit 15..4 plus `leapDays`; that is also the sum of its twelve `monthDays` plus `leapDays`; it is 348..360 without a leap month and 377..390 with one |
| LunarTable.YearDays | src/main/java/net/guohaitao/sword/date/Lunars.java:45-53 | the mask loop from 0x8000 down to 0x10 returns exactly `YearLength` |
| Bits.CountBitsShift | src/main/java/net/guohaitao/sword/date/Lunars.java:47-51 | testing bits lo..hi-1 one mask at a time counts as many bits as shifting right by lo and counting the low hi-lo bits |
| LunarAnchors.Leap1900 | src/main/java/net/guohaitao/sword/date/Lunars.java:61-78 | for 1900 (entry 0x04bd8): leap month after month 8, of 29 days |
| LunarAnchors.Length1900 | src/main/java/net/guohaitao/sword/date/Lunars.java:45-53 | 1900 has 384 days |
| LunarAnchors.Leap1903 | src/main/java/net/guohaitao/sword/date/Lunars.java:61-78 | for 1903 (entry 0x054d5): leap month after month 5, of 29 days |
| LunarAnchors.Month1903 | src/main/java/net/guohaitao/sword/date/Lunars.java:87-89 | month 5 of 1903 has 29 days |
| LunarAnchors.Length1903 | src/main/java/net/guohaitao/sword/date/Lunars.java:45-53 | 1903 has 383 days |
| JavaInt.Wrap | src/main/java/net/guohaitao/sword/date/Lunars.java:108 | Java `int` subtraction and addition wrap to the 32-bit range; the result agrees with the exact value modulo 2^32 and equals it when it fits |
| JavaInt.Rem | src/main/java/net/guohaitao/sword/date/Lunars.java:109 | Java `%` by a positive divisor: the result has the dividend's sign, is smaller than the divisor in magnitude, and differs from the dividend by a multiple of the divisor |
| JavaInt.RemIndex | src/main/java/net/guohaitao/sword/date/Lunars.java:98 | a Java remainder is a usable array index exactly when the dividend is non-negative or a multiple of the divisor, and it then equals the mathematical remainder |
| Labels.NamesAreChars | src/main/java/net/guohaitao/sword/date/Lunars.java:11-32 | every animal, stem and branch name is one character |
| Labels.NamesAreDistinctChars | src/main/java/net/guohaitao/sword/date/Lunars.java:11-32 | no two names within the animal list, the stem list or the branch list share a character |
| Labels.AnimalsYear | src/main/java/net/guohaitao/sword/date/Lunars.java:97-99 | `animalsYear` gives a name from the animal list; from year 4 on it is animal number (year - 1900) mod 12 |
| Labels.AnimalsYearDomain | src/main/java/net/guohaitao/sword/date/Lunars.java:97-99 | `animalsYear` has an index in range exactly for years from 4 on, for years 12k + 4 below 4, and for the four lowest `int` values (where `year - 4` wraps round); every other `int` year gives a negative index |
| Labels.AnimalsYearPeriod | src/main/java/net/guohaitao/sword/date/Lunars.java:97-99 | the animal of a year repeats twelve years later |
| Labels.AnimalsYearDistinct | src/main/java/net/guohaitao/sword/date/Lunars.java:97-99 | twelve consecutive years have twelve different animals |
| Labels.AnimalsYear1900 | src/main/java/net/guohaitao/sword/date/Lunars.java:97-99 | 1900 is a year of the rat (鼠) |
| Labels.Cyclical | src/main/java/net/guohaitao/sword/date/Lunars.java:107-110 | `cyclical` is two characters; from 1864 on it is stem (year - 4) mod 10 followed by branch (year - 4) mod 12 |
| Labels.CyclicalDomain | src/main/java/net/guohaitao/sword/date/Lunars.java:107-110 | both indices of `cyclical` are in range exactly for years from 1864 on, for years 60k + 1864 below that, and for the 1864 lowest `int` values (where `year - 1900` wraps round); every other `int` year makes an index negative |
| Labels.CyclicalPeriod | src/main/java/net/guohaitao/sword/date/Lunars.java:107-110 | the stem-branch name of a year repeats sixty years later |
| Labels.CyclicalDistinct | src/main/java/net/guohaitao/sword/date/Lunars.java:107-110 | sixty consecutive years have sixty different stem-branch names |
| Labels.BranchMatchesAnimal | src/main/java/net/guohaitao/sword/date/Lunars.java:97-110 | two years share the branch of their stem-branch name exactly when they share an animal |
| Labels.Cyclical1900 | src/main/java/net/guohaitao/sword/date/Lunars.java:107-110 | 1900 is named 庚子 |

## Left out

- The `@Nonnegative` annotations are left out. They are documentation only and Java does not enforce them.
- Out-of-range lookups are modelled as preconditions, not as thrown exceptions. A table year outside 1900..2049 or a negative label index makes the Java code throw `ArrayIndexOutOfBoundsException`. The model's preconditions (`InTable`, `AnimalIndex(year) >= 0`, `HasCyclical`) are exactly the inputs that do not throw.
- The private constructor is left out, because it has no behaviour.
- The table is `long[]` in the source and a sequence of naturals here. Every entry is below 0x20000, so the width never matters.
- The names are modelled as character strings. Their byte encoding is not part of the model.
- LunarTable.YearLength: the model proves 348..360 days (377..390 with a leap month), which follows from the encoding. It does not prove the tighter 353..355 (383..385) that the table's actual entries satisfy. Proving that would mean counting the bits of all 150 entries one by one.
- LunarTable.LeapMonth: the model proves the index is at most 12, which the encoding allows. It does not prove the smaller bound that the actual table entries reach.
