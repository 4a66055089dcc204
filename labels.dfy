/** The two label lookups of a lunar year: its zodiac animal (`animalsYear`)
    and its stem-branch name in the sexagenary cycle (`cyclical`). Both are
    Java array lookups at a Java `%` remainder of a Java `int` year, so a
    lookup exists exactly when that remainder is a valid, non-negative index. */
module Labels {
  import opened JavaInt

  /** The twelve zodiac animals, starting with the rat. */
  const Animals: seq<string> := ["鼠", "牛", "虎", "兔", "龙", "蛇", "马", "羊", "猴", "鸡", "狗", "猪"]

  /** The ten heavenly stems. */
  const Gan: seq<string> := ["甲", "乙", "丙", "丁", "戊", "己", "庚", "辛", "壬", "癸"]

  /** The twelve earthly branches. */
  const Zhi: seq<string> := ["子", "丑", "寅", "卯", "辰", "巳", "午", "未", "申", "酉", "戌", "亥"]

  /** Every name is one character. */
  lemma NamesAreChars()
    ensures forall i :: 0 <= i < |Animals| ==> |Animals[i]| == 1
    ensures forall i :: 0 <= i < |Gan| ==> |Gan[i]| == 1
    ensures forall i :: 0 <= i < |Zhi| ==> |Zhi[i]| == 1
  {
  }

  /** Within each list no two names share their character. */
  lemma NamesAreDistinctChars()
    ensures forall i, j :: 0 <= i < j < |Animals| ==> Animals[i][0] != Animals[j][0]
    ensures forall i, j :: 0 <= i < j < |Gan| ==> Gan[i][0] != Gan[j][0]
    ensures forall i, j :: 0 <= i < j < |Zhi| ==> Zhi[i][0] != Zhi[j][0]
  {
  }

  /** The index `(lunarYear - 4) % 12` that `animalsYear` computes. */
  function AnimalIndex(year: int): int {
    Rem(Wrap(year - 4), 12)
  }

  /** `animalsYear`: the zodiac animal of a year. */
  function AnimalsYear(year: int): (name: string)
    requires IsInt(year) && AnimalIndex(year) >= 0
    ensures name in Animals
    ensures year >= 4 ==> name == Animals[(year - 1900) % 12]
  {
    RemIndex(Wrap(year - 4), 12);
    ModPeriod(year - 1900, 12, 158);
    Animals[AnimalIndex(year)]
  }

  /** `animalsYear` has an animal for every year from 4 on, for years
      12k + 4 below 4 (where the remainder is 0), and for the four lowest
      `int` values, where `year - 4` wraps round to a large positive number;
      every other year gives a negative index. */
  lemma AnimalsYearDomain(year: int)
    requires IsInt(year)
    ensures AnimalIndex(year) >= 0 <==> year >= 4 || (year - 4) % 12 == 0 || year < MinInt + 4
  {
    if year < MinInt + 4 {
      WrapBelow(year - 4);
    } else {
      RemIndex(year - 4, 12);
    }
  }

  /** The animals repeat every twelve years. */
  lemma AnimalsYearPeriod(year: int)
    requires 4 <= year && IsInt(year + 12)
    ensures AnimalIndex(year) >= 0 && AnimalIndex(year + 12) >= 0
    ensures AnimalsYear(year + 12) == AnimalsYear(year)
  {
    RemIndex(year - 4, 12);
    RemIndex(year + 8, 12);
  }

  /** Twelve consecutive years have twelve different animals. */
  lemma AnimalsYearDistinct(y1: int, y2: int)
    requires 4 <= y1 < y2 < y1 + 12 && IsInt(y2)
    ensures AnimalIndex(y1) >= 0 && AnimalIndex(y2) >= 0
    ensures AnimalsYear(y1) != AnimalsYear(y2)
  {
    RemIndex(y1 - 4, 12);
    RemIndex(y2 - 4, 12);
    var i, j := (y1 - 1900) % 12, (y2 - 1900) % 12;
    assert i != j;
    NamesAreDistinctChars();
  }

  lemma AnimalsYear1900()
    ensures AnimalIndex(1900) >= 0 && AnimalsYear(1900) == "鼠"
  {
  }

  /** The number `lunarYear - 1900 + 36` that `cyclical` computes. */
  function CycleNumber(year: int): int {
    Wrap(Wrap(year - 1900) + 36)
  }

  /** Both indices `cyclical` uses are valid. */
  predicate HasCyclical(year: int) {
    Rem(CycleNumber(year), 10) >= 0 && Rem(CycleNumber(year), 12) >= 0
  }

  /** `cyclical`: the stem of the year followed by its branch. The cycle is
      anchored at year 4, whose name is the first stem with the first branch. */
  function Cyclical(year: int): (name: string)
    requires IsInt(year) && HasCyclical(year)
    ensures |name| == 2
    ensures year >= 1864 ==> name == Gan[(year - 4) % 10] + Zhi[(year - 4) % 12]
  {
    var n := CycleNumber(year);
    RemIndex(n, 10);
    RemIndex(n, 12);
    NamesAreChars();
    ModPeriod(year - 1864, 10, 186);
    ModPeriod(year - 1864, 12, 155);
    Gan[Rem(n, 10)] + Zhi[Rem(n, 12)]
  }

  /** `cyclical` has a name for every year from 1864 on, for years
      60k + 1864 below 1864, and for the 1864 lowest `int` values, where
      `year - 1900` wraps round to a large positive number; every other year
      makes one of the two indices negative. (Just above those, the wrap of
      `year - 1900` is undone by the wrap of `+ 36`.) */
  lemma CyclicalDomain(year: int)
    requires IsInt(year)
    ensures HasCyclical(year) <==> year >= 1864 || (year - 1864) % 60 == 0 || year < MinInt + 1864
  {
    if year < MinInt + 1864 {
      WrapBelow(year - 1900);
      return;
    }
    var n := year - 1864;
    if year < MinInt + 1900 {
      WrapBelow(year - 1900);
      WrapAbove(year - 1900 + 0x1_0000_0000 + 36);
    }
    assert CycleNumber(year) == n;
    RemIndex(n, 10);
    RemIndex(n, 12);
    if n % 10 == 0 && n % 12 == 0 {
      CommonMultiple(n);
    }
  }

  /** A multiple of both 10 and 12 is a multiple of 60. */
  lemma CommonMultiple(n: int)
    requires n % 10 == 0 && n % 12 == 0
    ensures n % 60 == 0
  {
    var k, m := n % 60, n / 60;
    assert n == k + 10 * (6 * m) && n == k + 12 * (5 * m);
    ModPeriod(k, 10, 6 * m);
    ModPeriod(k, 12, 5 * m);
    if k > 0 {
      SixtyIsFirstCommonMultiple(k);
    }
  }

  /** The stem-branch names repeat every sixty years. */
  lemma CyclicalPeriod(year: int)
    requires 1864 <= year && IsInt(year + 60)
    ensures HasCyclical(year) && HasCyclical(year + 60)
    ensures Cyclical(year + 60) == Cyclical(year)
  {
    RemIndex(year - 1864, 10);
    RemIndex(year - 1864, 12);
    RemIndex(year - 1804, 10);
    RemIndex(year - 1804, 12);
  }

  /** No distance from 1 to 59 is a multiple of both 10 and 12. */
  lemma SixtyIsFirstCommonMultiple(d: int)
    requires 0 < d < 60 && d % 10 == 0
    ensures d % 12 != 0
  {
    var q := d / 10;
    assert d == 10 * q && 1 <= q <= 5;
    assert q == 1 || q == 2 || q == 3 || q == 4 || q == 5;
  }

  /** Sixty consecutive years have sixty different names. */
  lemma CyclicalDistinct(y1: int, y2: int)
    requires 1864 <= y1 < y2 < y1 + 60 && IsInt(y2)
    ensures HasCyclical(y1) && HasCyclical(y2)
    ensures Cyclical(y1) != Cyclical(y2)
  {
    RemIndex(y1 - 1864, 10);
    RemIndex(y1 - 1864, 12);
    RemIndex(y2 - 1864, 10);
    RemIndex(y2 - 1864, 12);
    var s1, s2 := (y1 - 4) % 10, (y2 - 4) % 10;
    var b1, b2 := (y1 - 4) % 12, (y2 - 4) % 12;
    assert s1 != s2 || b1 != b2 by {
      if s1 == s2 && b1 == b2 {
        SameRemainder(y1 - 4, y2 - 4, 10);
        SameRemainder(y1 - 4, y2 - 4, 12);
        SixtyIsFirstCommonMultiple(y2 - y1);
      }
    }
    NamesAreChars();
    NamesAreDistinctChars();
    if s1 != s2 {
      assert Cyclical(y1)[0] == Gan[s1][0] && Cyclical(y2)[0] == Gan[s2][0];
    } else {
      assert Cyclical(y1)[1] == Zhi[b1][0] && Cyclical(y2)[1] == Zhi[b2][0];
    }
  }

  /** The branch of a year's name and its animal go together: two years
      share a branch exactly when they share an animal. */
  lemma BranchMatchesAnimal(y1: int, y2: int)
    requires 1864 <= y1 && 1864 <= y2 && IsInt(y1) && IsInt(y2)
    ensures HasCyclical(y1) && HasCyclical(y2) && AnimalIndex(y1) >= 0 && AnimalIndex(y2) >= 0
    ensures Cyclical(y1)[1] == Cyclical(y2)[1] <==> AnimalsYear(y1) == AnimalsYear(y2)
  {
    RemIndex(y1 - 1864, 10);
    RemIndex(y1 - 1864, 12);
    RemIndex(y2 - 1864, 10);
    RemIndex(y2 - 1864, 12);
    RemIndex(y1 - 4, 12);
    RemIndex(y2 - 4, 12);
    var b1, b2 := (y1 - 4) % 12, (y2 - 4) % 12;
    ModPeriod(y1 - 1900, 12, 158);
    ModPeriod(y2 - 1900, 12, 158);
    NamesAreChars();
    assert Cyclical(y1)[1] == Zhi[b1][0] && Cyclical(y2)[1] == Zhi[b2][0];
    NamesAreDistinctChars();
  }

  lemma Cyclical1900()
    ensures HasCyclical(1900) && Cyclical(1900) == "庚子"
  {
  }
}
