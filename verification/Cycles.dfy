/** Two-year election cycles: even years from 1976 to 2100. */
module Cycles {
  import opened Wrappers
  import opened Text

  type Cycle = y: int | 1976 <= y <= 2100 && y % 2 == 0 witness 1976

  function NewCycle(year: int): Option<Cycle> {
    if 1976 <= year <= 2100 && year % 2 == 0 then Some(year) else None
  }

  function CycleText(c: Cycle): (s: string)
    ensures |s| == 4
  {
    Digits(c, 4)
  }

  lemma CycleTextReadsBack(c: Cycle)
    ensures AllDigits(CycleText(c)) && ReadDigits(CycleText(c)) == c
  {
    assert Pow10(4) == 10 * Pow10(3) && Pow10(3) == 10 * Pow10(2) && Pow10(2) == 10 * Pow10(1) && Pow10(1) == 10 * Pow10(0);
    DigitsReadBack(c, 4);
  }

  /** The sixty-three cycles: every second year from 1976 on. */
  lemma CyclesAre(year: int)
    ensures NewCycle(year) == (if exists k: nat :: IsCycleNumber(year, k) then Some(year) else None)
  {
    if NewCycle(year).Some? {
      var k: nat := (year - 1976) / 2;
      assert IsCycleNumber(year, k);
    }
  }

  predicate IsCycleNumber(year: int, k: nat) {
    k < 63 && year == 1976 + 2 * k
  }
}
