/** The packed lunar year table and the four decoders that read it:
    `leapMonth`, `leapDays`, `monthDays` and `yearDays`. */
module LunarTable {
  import opened Bits

  /** The lunar year that the first table entry describes. */
  const FirstYear: int := 1900

  // The table, one constant per ten years. Each entry packs one lunar year:
  // bit 16 is set when the leap month has 30 days (29 otherwise), bits 15
  // down to 4 do the same for ordinary months 1 to 12, and bits 3..0 give the
  // ordinary month the leap month follows, 0 when the year has none.
  const Row1900: seq<nat> := [0x04bd8, 0x04ae0, 0x0a570, 0x054d5, 0x0d260, 0x0d950, 0x16554, 0x056a0, 0x09ad0, 0x055d2]
  const Row1910: seq<nat> := [0x04ae0, 0x0a5b6, 0x0a4d0, 0x0d250, 0x1d255, 0x0b540, 0x0d6a0, 0x0ada2, 0x095b0, 0x14977]
  const Row1920: seq<nat> := [0x04970, 0x0a4b0, 0x0b4b5, 0x06a50, 0x06d40, 0x1ab54, 0x02b60, 0x09570, 0x052f2, 0x04970]
  const Row1930: seq<nat> := [0x06566, 0x0d4a0, 0x0ea50, 0x06e95, 0x05ad0, 0x02b60, 0x186e3, 0x092e0, 0x1c8d7, 0x0c950]
  const Row1940: seq<nat> := [0x0d4a0, 0x1d8a6, 0x0b550, 0x056a0, 0x1a5b4, 0x025d0, 0x092d0, 0x0d2b2, 0x0a950, 0x0b557]
  const Row1950: seq<nat> := [0x06ca0, 0x0b550, 0x15355, 0x04da0, 0x0a5d0, 0x14573, 0x052d0, 0x0a9a8, 0x0e950, 0x06aa0]
  const Row1960: seq<nat> := [0x0aea6, 0x0ab50, 0x04b60, 0x0aae4, 0x0a570, 0x05260, 0x0f263, 0x0d950, 0x05b57, 0x056a0]
  const Row1970: seq<nat> := [0x096d0, 0x04dd5, 0x04ad0, 0x0a4d0, 0x0d4d4, 0x0d250, 0x0d558, 0x0b540, 0x0b5a0, 0x195a6]
  const Row1980: seq<nat> := [0x095b0, 0x049b0, 0x0a974, 0x0a4b0, 0x0b27a, 0x06a50, 0x06d40, 0x0af46, 0x0ab60, 0x09570]
  const Row1990: seq<nat> := [0x04af5, 0x04970, 0x064b0, 0x074a3, 0x0ea50, 0x06b58, 0x055c0, 0x0ab60, 0x096d5, 0x092e0]
  const Row2000: seq<nat> := [0x0c960, 0x0d954, 0x0d4a0, 0x0da50, 0x07552, 0x056a0, 0x0abb7, 0x025d0, 0x092d0, 0x0cab5]
  const Row2010: seq<nat> := [0x0a950, 0x0b4a0, 0x0baa4, 0x0ad50, 0x055d9, 0x04ba0, 0x0a5b0, 0x15176, 0x052b0, 0x0a930]
  const Row2020: seq<nat> := [0x07954, 0x06aa0, 0x0ad50, 0x05b52, 0x04b60, 0x0a6e6, 0x0a4e0, 0x0d260, 0x0ea65, 0x0d530]
  const Row2030: seq<nat> := [0x05aa0, 0x076a3, 0x096d0, 0x04bd7, 0x04ad0, 0x0a4d0, 0x1d0b6, 0x0d250, 0x0d520, 0x0dd45]
  const Row2040: seq<nat> := [0x0b5a0, 0x056d0, 0x055b2, 0x049b0, 0x0a577, 0x0a4b0, 0x0aa50, 0x1b255, 0x06d20, 0x0ada0]

  const LunarInfo: seq<nat> :=
    Row1900 + Row1910 + Row1920 + Row1930 + Row1940
    + Row1950 + Row1960 + Row1970 + Row1980 + Row1990
    + Row2000 + Row2010 + Row2020 + Row2030 + Row2040

  /** The years the table covers, 1900 .. 2049; any other year makes the
      table lookup fail. */
  predicate InTable(year: int) {
    FirstYear <= year < FirstYear + |LunarInfo|
  }

  /** The packed entry of a table year. */
  function Entry(year: int): nat
    requires InTable(year)
  {
    LunarInfo[year - FirstYear]
  }

  /** An entry uses only its 17 meaningful bits, names a leap month 0 .. 12
      and sets no leap-length flag in a year without a leap month. */
  predicate EntryWellFormed(x: nat) {
    x < 0x20000 && x % 16 <= 12 && (x % 16 == 0 ==> !Bit(x, 16))
  }

  /** EntryWellFormed with the flag test written as a comparison; it is
      only a proof step, cheaper to check entry by entry on the constants. */
  predicate RawWellFormed(x: nat) {
    x < 0x20000 && x % 16 <= 12 && (x % 16 == 0 ==> x < 0x10000)
  }

  /** Every element of s is well formed. */
  predicate AllRaw(s: seq<nat>) {
    forall k :: 0 <= k < |s| ==> RawWellFormed(s[k])
  }

  /** Joining two well-formed runs of entries gives a well-formed run. */
  lemma AllRawAppend(a: seq<nat>, b: seq<nat>)
    requires AllRaw(a) && AllRaw(b)
    ensures AllRaw(a + b)
  {
    forall k | 0 <= k < |a + b|
      ensures RawWellFormed((a + b)[k])
    {
      if k >= |a| {
        assert (a + b)[k] == b[k - |a|];
      }
    }
  }

  // Each row of the table checked on its own keeps every proof small.
  lemma Row1900WellFormed()
    ensures AllRaw(Row1900)
  {
  }

  lemma Row1910WellFormed()
    ensures AllRaw(Row1910)
  {
  }

  lemma Row1920WellFormed()
    ensures AllRaw(Row1920)
  {
  }

  lemma Row1930WellFormed()
    ensures AllRaw(Row1930)
  {
  }

  lemma Row1940WellFormed()
    ensures AllRaw(Row1940)
  {
  }

  lemma Row1950WellFormed()
    ensures AllRaw(Row1950)
  {
  }

  lemma Row1960WellFormed()
    ensures AllRaw(Row1960)
  {
  }

  lemma Row1970WellFormed()
    ensures AllRaw(Row1970)
  {
  }

  lemma Row1980WellFormed()
    ensures AllRaw(Row1980)
  {
  }

  lemma Row1990WellFormed()
    ensures AllRaw(Row1990)
  {
  }

  lemma Row2000WellFormed()
    ensures AllRaw(Row2000)
  {
  }

  lemma Row2010WellFormed()
    ensures AllRaw(Row2010)
  {
  }

  lemma Row2020WellFormed()
    ensures AllRaw(Row2020)
  {
  }

  lemma Row2030WellFormed()
    ensures AllRaw(Row2030)
  {
  }

  lemma Row2040WellFormed()
    ensures AllRaw(Row2040)
  {
  }

  /** The whole table, joined row by row, is well formed. */
  lemma TableRaw()
    ensures |LunarInfo| == 150 && AllRaw(LunarInfo)
  {
    Row1900WellFormed();
    var t := Row1900;
    Row1910WellFormed();
    AllRawAppend(t, Row1910);
    t := t + Row1910;
    Row1920WellFormed();
    AllRawAppend(t, Row1920);
    t := t + Row1920;
    Row1930WellFormed();
    AllRawAppend(t, Row1930);
    t := t + Row1930;
    Row1940WellFormed();
    AllRawAppend(t, Row1940);
    t := t + Row1940;
    Row1950WellFormed();
    AllRawAppend(t, Row1950);
    t := t + Row1950;
    Row1960WellFormed();
    AllRawAppend(t, Row1960);
    t := t + Row1960;
    Row1970WellFormed();
    AllRawAppend(t, Row1970);
    t := t + Row1970;
    Row1980WellFormed();
    AllRawAppend(t, Row1980);
    t := t + Row1980;
    Row1990WellFormed();
    AllRawAppend(t, Row1990);
    t := t + Row1990;
    Row2000WellFormed();
    AllRawAppend(t, Row2000);
    t := t + Row2000;
    Row2010WellFormed();
    AllRawAppend(t, Row2010);
    t := t + Row2010;
    Row2020WellFormed();
    AllRawAppend(t, Row2020);
    t := t + Row2020;
    Row2030WellFormed();
    AllRawAppend(t, Row2030);
    t := t + Row2030;
    Row2040WellFormed();
    AllRawAppend(t, Row2040);
    t := t + Row2040;
    assert t == LunarInfo;
  }

  /** Every table entry is well formed. */
  lemma TableWellFormed()
    ensures |LunarInfo| == 150
    ensures forall i :: 0 <= i < |LunarInfo| ==> EntryWellFormed(LunarInfo[i])
  {
    TableRaw();
    Pow2Values();
    forall i | 0 <= i < |LunarInfo|
      ensures EntryWellFormed(LunarInfo[i])
    {
      var x := LunarInfo[i];
      assert RawWellFormed(x);
      ShrIsDiv(x, 16);
    }
  }

  /** The facts a table year carries, unpacked from its entry. */
  datatype YearCode = YearCode(
    leapLong: bool,          // the leap month, if any, has 30 days
    longMonths: seq<bool>,   // longMonths[m - 1]: ordinary month m has 30 days
    leapMonth: nat)          // the ordinary month the leap month follows, 0 if none

  predicate ValidCode(c: YearCode) {
    |c.longMonths| == 12 && c.leapMonth < 16
  }

  /** Unpacks an entry into its three fields. */
  function Decode(x: nat): (c: YearCode)
    ensures ValidCode(c)
  {
    YearCode(Bit(x, 16), ToBitsBE(x / 16, 12), x % 16)
  }

  /** Packs the three fields into one 17-bit entry. */
  function Encode(c: YearCode): (x: nat)
    requires ValidCode(c)
    ensures x < 0x20000
  {
    Pow2Values();
    (if c.leapLong then 0x10000 else 0) + 16 * FromBitsBE(c.longMonths) + c.leapMonth
  }

  /** Decoding loses nothing: every 17-bit entry is rebuilt from its fields. */
  lemma EncodeDecode(x: nat)
    requires x < 0x20000
    ensures Encode(Decode(x)) == x
  {
    var months, high := x / 16, x / 0x10000;
    assert Decode(x).leapLong <==> high == 1 by {
      ShrIsDiv(x, 16);
      Pow2Values();
    }
    assert FromBitsBE(Decode(x).longMonths) == months % 0x1000 by {
      FromToBits(months, 12);
      Pow2Values();
    }
    assert months / 0x1000 == high by {
      DivDiv(x, 16, 0x1000);
    }
    assert months == 0x1000 * high + months % 0x1000;
    assert x == 16 * months + x % 16;
  }

  /** Where the three fields sit in the packed entry: the leap month in
      the low four bits, the months above it, the flag above them. */
  lemma EncodeFields(c: YearCode)
    requires ValidCode(c)
    ensures Encode(c) % 16 == c.leapMonth
    ensures Encode(c) / 16 == 0x1000 * (if c.leapLong then 1 else 0) + FromBitsBE(c.longMonths)
    ensures Encode(c) / 0x10000 == if c.leapLong then 1 else 0
  {
    var high := if c.leapLong then 1 else 0;
    var months := FromBitsBE(c.longMonths);
    var x := Encode(c);
    assert months < 0x1000 && x == 0x10000 * high + 16 * months + c.leapMonth by {
      Pow2Values();
    }
    DivModUnique(x, 16, 0x1000 * high + months, c.leapMonth);
    DivModUnique(x, 0x10000, high, 16 * months + c.leapMonth);
  }

  /** Every well-formed set of fields is read back unchanged. */
  lemma DecodeEncode(c: YearCode)
    requires ValidCode(c)
    ensures Decode(Encode(c)) == c
  {
    var x := Encode(c);
    EncodeFields(c);
    assert Bit(x, 16) == c.leapLong by {
      ShrIsDiv(x, 16);
      Pow2Values();
    }
    assert ToBitsBE(x / 16, 12) == c.longMonths by {
      Pow2Values();
      ToBitsBEHigh(FromBitsBE(c.longMonths), 12, if c.leapLong then 1 else 0);
      ToFromBits(c.longMonths);
    }
  }

  /** Shifting right by four moves bit k + 4 to bit k. */
  lemma BitShift4(x: nat, k: nat)
    ensures Bit(x / 16, k) == Bit(x, k + 4)
  {
    BitHalf(x, k + 3);
    BitHalf(x / 2, k + 2);
    BitHalf(x / 2 / 2, k + 1);
    BitHalf(x / 2 / 2 / 2, k);
    assert x / 2 / 2 / 2 / 2 == x / 16;
  }

  /** Ordinary month m is described by bit 16 - m of the entry. */
  lemma DecodeMonth(x: nat, month: int)
    requires 1 <= month <= 12
    ensures Decode(x).longMonths[month - 1] == Bit(x, 16 - month)
  {
    ToBitsBEAt(x / 16, 12, month - 1);
    BitShift4(x, 12 - month);
  }

  /** `leapMonth`: the low four bits of the entry. */
  function LeapMonth(year: int): (m: nat)
    requires InTable(year)
    ensures m <= 12
  {
    TableWellFormed();
    Entry(year) % 16
  }

  /** `leapDays`: the length of the leap month, 0 when there is none. */
  function LeapDays(year: int): (d: nat)
    requires InTable(year)
    ensures d == 0 <==> LeapMonth(year) == 0
    ensures d != 0 ==> (d == 30 <==> Bit(Entry(year), 16))
    ensures d == 0 || d == 29 || d == 30
  {
    if LeapMonth(year) != 0 then
      (if Bit(Entry(year), 16) then 30 else 29)
    else
      0
  }

  /** `leapMonth` and `leapDays` as the Java expressions compute them: the
      entry masked with 0xf, and the entry tested against the mask 0x10000. */
  lemma LeapDaysMask(year: int)
    requires InTable(year)
    ensures LeapMonth(year) == Entry(year) % 16
    ensures LeapDays(year)
      == if Entry(year) % 16 == 0 then 0 else if (Entry(year) / 0x10000) % 2 == 1 then 30 else 29
  {
    ShrIsDiv(Entry(year), 16);
    Pow2Values();
  }

  /** `monthDays`: tests the entry against `0x10000 >> month`. The month is
      not checked; as with any Java `int` shift, only the low five bits of
      the distance count, and a distance above 16 leaves no bit in the mask. */
  function MonthDays(year: int, month: int): (d: nat)
    requires InTable(year)
    ensures d == 29 || d == 30
  {
    var shift := month % 32;
    if shift <= 16 && Bit(Entry(year), 16 - shift) then 30 else 29
  }

  /** `monthDays` as the Java expression computes it: the entry divided by
      the mask `0x10000 >> month` (a power of two while the distance is at
      most 16) is odd exactly when the month has 30 days. */
  lemma MonthDaysMask(year: int, month: int)
    requires InTable(year)
    ensures var shift := month % 32;
      MonthDays(year, month)
      == if shift <= 16 && (Entry(year) / Pow2(16 - shift)) % 2 == 1 then 30 else 29
  {
    var shift := month % 32;
    if shift <= 16 {
      ShrIsDiv(Entry(year), 16 - shift);
    }
  }

  /** For an ordinary month 1 .. 12, `monthDays` reads bit 16 - month
      (a proof step for MonthDaysDecoded and the anchor years). */
  lemma MonthDaysBit(year: int, month: int)
    requires InTable(year) && 1 <= month <= 12
    ensures MonthDays(year, month) == if Bit(Entry(year), 16 - month) then 30 else 29
  {
    assert month % 32 == month;
  }

  /** For an ordinary month 1 .. 12, `monthDays` reads that month's flag and
      nothing else: neither the leap-length flag nor the leap-month index. */
  lemma MonthDaysDecoded(year: int, month: int)
    requires InTable(year) && 1 <= month <= 12
    ensures MonthDays(year, month) == (if Decode(Entry(year)).longMonths[month - 1] then 30 else 29)
  {
    MonthDaysBit(year, month);
    DecodeMonth(Entry(year), month);
  }

  /** `monthDays` outside 1 .. 12: month 0 (and any multiple of 32) reads
      the leap-length flag, so in a leap year it gives the leap month's
      length; months 13 .. 16 read the leap-month index; the remaining shift
      distances leave an empty mask, so 29. */
  lemma MonthDaysUnchecked(year: int, month: int)
    requires InTable(year)
    ensures month % 32 == 0 ==> (MonthDays(year, month) == 30 <==> Bit(Entry(year), 16))
    ensures month % 32 == 0 && LeapMonth(year) != 0 ==> MonthDays(year, month) == LeapDays(year)
    ensures 13 <= month % 32 <= 16 ==>
              (MonthDays(year, month) == 30 <==> Bit(LeapMonth(year), 16 - month % 32))
    ensures month % 32 > 16 ==> MonthDays(year, month) == 29
  {
    var x, shift := Entry(year), month % 32;
    if 13 <= shift <= 16 {
      LowBit(x, 16 - shift);
    }
  }

  /** Bits 0 .. 3 of an entry are the bits of its low nibble. */
  lemma LowBit(x: nat, k: nat)
    requires k < 4
    ensures Bit(x, k) == Bit(x % 16, k)
  {
    BitOfMod(x, k, 4);
    Pow2Values();
  }

  /** The days of ordinary months 1 .. n of a year. */
  function SumMonthDays(year: int, n: nat): (total: nat)
    requires InTable(year) && n <= 12
    ensures total == 29 * n + CountBits(Entry(year), 16 - n, 16)
  {
    if n == 0 then 0
    else
      assert (n % 32) == n;
      SumMonthDays(year, n - 1) + MonthDays(year, n)
  }

  /** The length of a lunar year: twelve ordinary months plus the leap month. */
  function YearLength(year: int): (days: nat)
    requires InTable(year)
    ensures days == 348 + CountBits(Entry(year), 4, 16) + LeapDays(year)
    ensures LeapMonth(year) == 0 ==> 348 <= days <= 360
    ensures LeapMonth(year) != 0 ==> 377 <= days <= 390
  {
    SumMonthDays(year, 12) + LeapDays(year)
  }

  /** `yearDays`: 348 days plus one for every mask 0x8000, 0x4000, ..., 0x10
      that hits a set bit of the entry, plus the leap month's days. */
  method YearDays(year: int) returns (days: int)
    requires InTable(year)
    ensures days == YearLength(year)
  {
    var x := Entry(year);
    var i: nat := 0x8000;
    var sum := 348;
    ghost var k: nat := 15;
    Pow2Values();
    while i > 0x8
      invariant 3 <= k <= 15 && i == Pow2(k)
      invariant sum == 348 + CountBits(x, k + 1, 16)
      decreases k
    {
      ShrIsDiv(x, k);
      if (x / i) % 2 == 1 {
        sum := sum + 1;
      }
      i := i / 2;
      k := k - 1;
    }
    assert k == 3 by {
      if k > 3 {
        Pow2Monotone(4, k);
      }
    }
    days := sum + LeapDays(year);
  }

  /** The twelve month bits of an entry, counted by shifting. */
  lemma MonthBitCount(x: nat)
    ensures CountBits(x, 4, 16) == PopCount(x / 16, 12)
  {
    CountBitsShift(x, 4, 16);
    ShrIsDiv(x, 4);
    Pow2Values();
  }
}
