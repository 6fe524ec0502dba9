/** Month arithmetic of the multi-month mode: one step forward or backward
    on the calendar, wrapping between December and January. */
module Months {

  /** _next_month: the following month; only 12 wraps (to 1). */
  function NextMonth(month: int): (r: int)
    ensures 1 <= month <= 12 ==> 1 <= r <= 12 && r == month % 12 + 1
    ensures month != 12 ==> r == month + 1
  {
    if month == 12 then 1 else month + 1
  }

  /** _prev_month: the preceding month; only 1 wraps (to 12). */
  function PrevMonth(month: int): (r: int)
    ensures 1 <= month <= 12 ==> 1 <= r <= 12 && NextMonth(r) == month
    ensures month != 1 ==> r == month - 1
  {
    if month == 1 then 12 else month - 1
  }

  /** On the calendar the two steps undo each other. */
  lemma NextPrevInverse(month: int)
    requires 1 <= month <= 12
    ensures PrevMonth(NextMonth(month)) == month
    ensures NextMonth(PrevMonth(month)) == month
  {
  }

  /** month_order: only the exact string "descending" steps backward. */
  predicate IsDescending(monthOrder: string) {
    monthOrder == "descending"
  }

  /** One step in the given direction. */
  function Step(month: int, descending: bool): int {
    if descending then PrevMonth(month) else NextMonth(month)
  }

  /** The month after i steps from start: the label of page group i. */
  function StepMonth(start: int, i: nat, descending: bool): (r: int)
    ensures 1 <= start <= 12 ==> 1 <= r <= 12
  {
    if i == 0 then start else Step(StepMonth(start, i - 1, descending), descending)
  }

  /** Moving one place around the twelve-month circle, in residues. */
  lemma ResidueStep(x: int)
    ensures (x + 1) % 12 == (if x % 12 == 11 then 0 else x % 12 + 1)
    ensures (x - 1) % 12 == (if x % 12 == 0 then 11 else x % 12 - 1)
  {
    var q, m := x / 12, x % 12;
    assert x == 12 * q + m && 0 <= m < 12;
    if m == 11 {
      assert x + 1 == 12 * (q + 1);
    } else {
      assert x + 1 == 12 * q + (m + 1);
    }
    if m == 0 {
      assert x - 1 == 12 * (q - 1) + 11;
    } else {
      assert x - 1 == 12 * q + (m - 1);
    }
  }

  /** On the calendar, i steps move start i places around the circle:
      forward, (start - 1 + i) mod 12 + 1; backward, (start - 1 - i) mod 12 + 1. */
  lemma {:induction false} StepMonthClosedForm(start: int, i: nat, descending: bool)
    requires 1 <= start <= 12
    ensures StepMonth(start, i, descending)
            == (if descending then (start - 1 - i) % 12 else (start - 1 + i) % 12) + 1
  {
    if i > 0 {
      StepMonthClosedForm(start, i - 1, descending);
      if descending {
        ResidueStep(start - 1 - i + 1);
        assert start - 1 - i + 1 - 1 == start - 1 - i;
      } else {
        ResidueStep(start - 1 + i - 1);
        assert start - 1 + i - 1 + 1 == start - 1 + i;
      }
    }
  }

  /** Twelve steps in either direction come back to the start month. */
  lemma TwelveStepsIdentity(start: int, descending: bool)
    requires 1 <= start <= 12
    ensures StepMonth(start, 12, descending) == start
  {
    StepMonthClosedForm(start, 12, descending);
    assert (start - 1 + 12) % 12 == start - 1;
    assert (start - 1 - 12) % 12 == start - 1;
  }

  /** The twelve labels of a multi-month document are twelve different months. */
  lemma StepMonthsDistinct(start: int, i: nat, j: nat, descending: bool)
    requires 1 <= start <= 12
    requires i < j < 12
    ensures StepMonth(start, i, descending) != StepMonth(start, j, descending)
  {
    StepMonthClosedForm(start, i, descending);
    StepMonthClosedForm(start, j, descending);
    if descending {
      assert (start - 1 - i) % 12 != (start - 1 - j) % 12;
    } else {
      assert (start - 1 + i) % 12 != (start - 1 + j) % 12;
    }
  }
}
