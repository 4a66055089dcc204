/** The two table years whose decoded values are worked out by hand. */
module LunarAnchors {
  import opened Bits
  import opened LunarTable

  /** The twelve month bits of the 1900 entry, counted one shift at a time. */
  lemma MonthCount1900(y0: nat)
    requires y0 == 0x4bd
    ensures PopCount(y0, 12) == 7
  {
    var y1 := y0 / 2;
    var y2 := y1 / 2;
    var y3 := y2 / 2;
    var y4 := y3 / 2;
    var y5 := y4 / 2;
    var y6 := y5 / 2;
    var y7 := y6 / 2;
    var y8 := y7 / 2;
    var y9 := y8 / 2;
    var y10 := y9 / 2;
    var y11 := y10 / 2;
    assert PopCount(y11, 1) == 0;
    assert PopCount(y10, 2) == 1;
    assert PopCount(y9, 3) == 1;
    assert PopCount(y8, 4) == 1;
    assert PopCount(y7, 5) == 2;
    assert PopCount(y6, 6) == 2;
    assert PopCount(y5, 7) == 3;
    assert PopCount(y4, 8) == 4;
    assert PopCount(y3, 9) == 5;
    assert PopCount(y2, 10) == 6;
    assert PopCount(y1, 11) == 6;
  }

  /** The twelve month bits of the 1903 entry, counted one shift at a time. */
  lemma MonthCount1903(y0: nat)
    requires y0 == 0x54d
    ensures PopCount(y0, 12) == 6
  {
    var y1 := y0 / 2;
    var y2 := y1 / 2;
    var y3 := y2 / 2;
    var y4 := y3 / 2;
    var y5 := y4 / 2;
    var y6 := y5 / 2;
    var y7 := y6 / 2;
    var y8 := y7 / 2;
    var y9 := y8 / 2;
    var y10 := y9 / 2;
    var y11 := y10 / 2;
    assert PopCount(y11, 1) == 0;
    assert PopCount(y10, 2) == 1;
    assert PopCount(y9, 3) == 1;
    assert PopCount(y8, 4) == 2;
    assert PopCount(y7, 5) == 2;
    assert PopCount(y6, 6) == 3;
    assert PopCount(y5, 7) == 3;
    assert PopCount(y4, 8) == 3;
    assert PopCount(y3, 9) == 4;
    assert PopCount(y2, 10) == 5;
    assert PopCount(y1, 11) == 5;
  }

  /** The first table year has a leap month after month 8, of 29 days. */
  lemma Leap1900()
    ensures LeapMonth(1900) == 8 && LeapDays(1900) == 29
  {
    LeapDaysMask(1900);
    assert Entry(1900) == 0x04bd8;
  }

  /** The first table year has 384 days. */
  lemma Length1900()
    ensures YearLength(1900) == 384
  {
    var x := Entry(1900);
    assert x == 0x04bd8;
    Leap1900();
    MonthBitCount(x);
    MonthCount1900(x / 16);
  }

  /** 1903 has a leap month after month 5, of 29 days. */
  lemma Leap1903()
    ensures LeapMonth(1903) == 5 && LeapDays(1903) == 29
  {
    LeapDaysMask(1903);
    assert Entry(1903) == 0x054d5;
  }

  /** Month 5 of 1903 has 29 days, whatever the length of its leap month. */
  lemma Month1903()
    ensures MonthDays(1903, 5) == 29
  {
    MonthDaysBit(1903, 5);
    var x := Entry(1903);
    assert x == 0x054d5;
    assert Shr(x, 11) == x / 0x800 by {
      ShrIsDiv(x, 11);
      Pow2Values();
    }
    assert x / 0x800 == 10;
    assert !Bit(Entry(1903), 16 - 5);
  }



  /** 1903 has 383 days. */
  lemma Length1903()
    ensures YearLength(1903) == 383
  {
    var x := Entry(1903);
    assert x == 0x054d5;
    Leap1903();
    MonthBitCount(x);
    MonthCount1903(x / 16);
  }
}
