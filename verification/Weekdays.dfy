// Days of the week: what a stored mask means, and the weekday of a calendar date.

module Weekdays {
  import opened Calendar
  import opened Resolve

  /** Any set of days of the week. */
  datatype Week = Week(mon: bool, tue: bool, wed: bool, thu: bool, fri: bool, sat: bool, sun: bool)

  function Weight(on: bool, weight: int): int {
    if on then weight else 0
  }

  /** The stored mask of a set of days. */
  function MaskOf(w: Week): int {
    Weight(w.mon, 1) + Weight(w.tue, 2) + Weight(w.wed, 4) + Weight(w.thu, 8)
    + Weight(w.fri, 16) + Weight(w.sat, 32) + Weight(w.sun, 64)
  }

  /** Days since Monday, 0 to 6. */
  predicate HasDay(w: Week, sinceMonday: int) {
    || (sinceMonday == 0 && w.mon)
    || (sinceMonday == 1 && w.tue)
    || (sinceMonday == 2 && w.wed)
    || (sinceMonday == 3 && w.thu)
    || (sinceMonday == 4 && w.fri)
    || (sinceMonday == 5 && w.sat)
    || (sinceMonday == 6 && w.sun)
  }

  function WeekOf(mask: int): Week {
    Week(Odd(mask), Odd(mask / 2), Odd(mask / 4), Odd(mask / 8), Odd(mask / 16), Odd(mask / 32), Odd(mask / 64))
  }

  predicate Odd(n: int) {
    n % 2 == 1
  }

  lemma Lowest(n: int, half: int)
    requires half == n / 2
    ensures n == 2 * half + Weight(Odd(n), 1)
  {
  }

  lemma Halves(n: int)
    ensures n / 2 / 2 == n / 4 && n / 4 / 2 == n / 8 && n / 8 / 2 == n / 16
    ensures n / 16 / 2 == n / 32 && n / 32 / 2 == n / 64 && n / 64 / 2 == n / 128
  {
  }

  /** Every stored mask is the mask of one set of days. */
  lemma MaskRoundTrip(mask: int)
    requires 0 <= mask <= 127
    ensures MaskOf(WeekOf(mask)) == mask
  {
    var m2, m4, m8, m16, m32, m64 := mask / 2, mask / 4, mask / 8, mask / 16, mask / 32, mask / 64;
    assert mask / 128 == 0;
    Halves(mask);
    Lowest(mask, m2);
    Lowest(m2, m4);
    Lowest(m4, m8);
    Lowest(m8, m16);
    Lowest(m16, m32);
    Lowest(m32, m64);
    Lowest(m64, 0);
    Doubled(mask, m2, m4, m8, m16, m32, m64);
  }

  lemma Doubled(mask: int, m2: int, m4: int, m8: int, m16: int, m32: int, m64: int)
    requires mask == 2 * m2 + Weight(Odd(mask), 1) && m2 == 2 * m4 + Weight(Odd(m2), 1)
    requires m4 == 2 * m8 + Weight(Odd(m4), 1) && m8 == 2 * m16 + Weight(Odd(m8), 1)
    requires m16 == 2 * m32 + Weight(Odd(m16), 1) && m32 == 2 * m64 + Weight(Odd(m32), 1)
    requires m64 == Weight(Odd(m64), 1)
    ensures mask == Weight(Odd(mask), 1) + Weight(Odd(m2), 2) + Weight(Odd(m4), 4) + Weight(Odd(m8), 8)
                    + Weight(Odd(m16), 16) + Weight(Odd(m32), 32) + Weight(Odd(m64), 64)
  {
    hide Odd;
  }

  /** Adding a lowest bit to twice a number: the number is the half. */
  lemma Unhalve(on: bool, half: int)
    ensures (Weight(on, 1) + 2 * half) / 2 == half && Odd(Weight(on, 1) + 2 * half) == on
  {
  }

  lemma WeekRoundTrip(w: Week)
    ensures WeekOf(MaskOf(w)) == w && 0 <= MaskOf(w) <= 127
  {
    var sun := Weight(w.sun, 1);
    var sat := Weight(w.sat, 1) + 2 * sun;
    var fri := Weight(w.fri, 1) + 2 * sat;
    var thu := Weight(w.thu, 1) + 2 * fri;
    var wed := Weight(w.wed, 1) + 2 * thu;
    var tue := Weight(w.tue, 1) + 2 * wed;
    var mask := Weight(w.mon, 1) + 2 * tue;
    Unhalve(w.mon, tue);
    Unhalve(w.tue, wed);
    Unhalve(w.wed, thu);
    Unhalve(w.thu, fri);
    Unhalve(w.fri, sat);
    Unhalve(w.sat, sun);
    Halves(mask);
    hide Odd;
    assert mask == MaskOf(w);
    assert Odd(sun) == w.sun by {
      Unhalve(w.sun, 0);
    }
  }

  lemma MaskCoversDay(mask: int, weekday: int)
    requires 1 <= weekday <= 7
    ensures MaskCovers(mask, weekday) <==> HasDay(WeekOf(mask), weekday - 1)
  {
    assert PowerOfTwo(0) == 1;
    assert PowerOfTwo(1) == 2;
    assert PowerOfTwo(2) == 4;
    assert PowerOfTwo(3) == 8;
    assert PowerOfTwo(4) == 16;
    assert PowerOfTwo(5) == 32;
    assert PowerOfTwo(6) == 64;
  }

  /** The mask of a set of days covers the ISO weekday of a day exactly when the set has it. */
  lemma MaskReading(w: Week, day: int)
    requires day >= FIRST_MODERN_DAY
    ensures MaskCovers(MaskOf(w), IsoWeekday(DateOfDay(day))) <==> HasDay(w, (day + 3) % 7)
  {
    WeekdayOfDay(day);
    MaskCoversDay(MaskOf(w), (day + 3) % 7 + 1);
    WeekRoundTrip(w);
  }

  /** Some set of days with this mask has the day. */
  ghost predicate InWeek(mask: int, sinceMonday: int) {
    exists w: Week :: MaskOf(w) == mask && HasDay(w, sinceMonday)
  }

  /** The mask names its own set of days and no other. */
  lemma OwnWeek(w: Week, sinceMonday: int)
    ensures InWeek(MaskOf(w), sinceMonday) <==> HasDay(w, sinceMonday)
  {
    hide HasDay, MaskOf, WeekOf;
    WeekRoundTrip(w);
    if v: Week :| MaskOf(v) == MaskOf(w) && HasDay(v, sinceMonday) {
      WeekRoundTrip(v);
    }
  }

  lemma MaskInWeek(mask: int, day: int)
    requires 0 <= mask <= 127 && day >= FIRST_MODERN_DAY
    ensures MaskCovers(mask, IsoWeekday(DateOfDay(day))) <==> InWeek(mask, (day + 3) % 7)
  {
    hide HasDay, MaskOf, WeekOf;
    MaskRoundTrip(mask);
    MaskReading(WeekOf(mask), day);
    if w: Week :| MaskOf(w) == mask && HasDay(w, (day + 3) % 7) {
      MaskReading(w, day);
    }
  }

  /** The same for an ISO weekday, 1 to 7. */
  lemma MaskInWeekday(mask: int, weekday: int)
    requires 0 <= mask <= 127 && 1 <= weekday <= 7
    ensures MaskCovers(mask, weekday) <==> InWeek(mask, weekday - 1)
  {
    hide HasDay, MaskOf, WeekOf;
    MaskRoundTrip(mask);
    MaskCoversDay(mask, weekday);
    if w: Week :| MaskOf(w) == mask && HasDay(w, weekday - 1) {
      WeekRoundTrip(w);
    }
  }
}
