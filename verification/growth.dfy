/** Growth classification and alert generation (CHMS/src/config/helpers.php:85-118, 185-212):
    a BMI rounded to hundredths, four fixed BMI bands, and an alert for every band but Normal. */
module Growth {
  import opened Wrappers
  import Php

  datatype GrowthStatus = Underweight | Normal | Overweight | Obese

  /** The label stored in `nutrition_status`. */
  function Label(s: GrowthStatus): string {
    match s
    case Underweight => "Underweight"
    case Normal => "Normal"
    case Overweight => "Overweight"
    case Obese => "Obese"
  }

  /** Position of a status on the thin-to-heavy scale. */
  function Rank(s: GrowthStatus): nat {
    match s
    case Underweight => 0
    case Normal => 1
    case Overweight => 2
    case Obese => 3
  }

  /** `x` is a whole number of hundredths. */
  predicate IsHundredths(x: real) {
    (x * 100.0).Floor as real == x * 100.0
  }

  /** `calculateBMI($weight, $height)`: 0 when the height is not positive, otherwise weight over
      height squared rounded to two decimals. */
  function CalculateBmi(weight: real, height: real): (bmi: real)
    ensures height <= 0.0 ==> bmi == 0.0
    ensures IsHundredths(bmi)
    ensures height > 0.0 ==> -0.005 <= bmi - weight / (height * height) <= 0.005
  {
    if height <= 0.0 then 0.0
    else
      var k := Php.Round(weight / (height * height) * 100.0);
      assert (k as real / 100.0) * 100.0 == k as real;
      k as real / 100.0
  }

  /** The four bands, applied to an already-computed BMI. */
  function Band(bmi: real): GrowthStatus {
    if bmi < 14.0 then Underweight
    else if bmi < 18.0 then Normal
    else if bmi < 20.0 then Overweight
    else Obese
  }

  /** `assessGrowthStatus($weight, $height, $ageMonths, $gender)`: the band of the rounded BMI.
      The age and gender are accepted and never consulted. */
  function AssessGrowthStatus(weight: real, height: real, ageMonths: int, gender: string): (s: GrowthStatus)
    ensures s == Underweight <==> CalculateBmi(weight, height) < 14.0
    ensures s == Normal <==> 14.0 <= CalculateBmi(weight, height) < 18.0
    ensures s == Overweight <==> 18.0 <= CalculateBmi(weight, height) < 20.0
    ensures s == Obese <==> 20.0 <= CalculateBmi(weight, height)
  {
    Band(CalculateBmi(weight, height))
  }

  /** Age and gender never change the classification. */
  lemma StatusIgnoresAgeAndGender(weight: real, height: real, a1: int, g1: string, a2: int, g2: string)
    ensures AssessGrowthStatus(weight, height, a1, g1) == AssessGrowthStatus(weight, height, a2, g2)
  {
  }

  /** A heavier BMI never gets a thinner label. */
  lemma BandMonotone(b1: real, b2: real)
    requires b1 <= b2
    ensures Rank(Band(b1)) <= Rank(Band(b2))
  {
  }

  /** A raw ratio just under 14 (from 13.995 on) rounds up to 14.00 and is classified Normal. */
  lemma RoundedBandBoundary(weight: real, height: real)
    requires height > 0.0
    requires 13.995 <= weight / (height * height) < 14.0
    ensures CalculateBmi(weight, height) == 14.0
    ensures AssessGrowthStatus(weight, height, 0, "") == Normal
  {
    var x := weight / (height * height) * 100.0;
    assert 1399.5 <= x < 1400.0;
    assert (x + 0.5).Floor == 1400;
  }

  /** A missing or non-positive height yields the BMI sentinel 0, which is always Underweight. */
  lemma NoHeightIsUnderweight(weight: real, height: real, ageMonths: int, gender: string)
    requires height <= 0.0
    ensures AssessGrowthStatus(weight, height, ageMonths, gender) == Underweight
  {
  }

  /** The alert `generateHealthAlert` returns, before it is stored. */
  datatype AlertDraft = AlertDraft(childId: int, alertType: string, message: string)

  const UnderweightMessage: string := "Child is underweight. Nutritional assessment recommended."
  const OverweightMessage: string := "Child is overweight. Dietary consultation recommended."

  /** `generateHealthAlert(...)`: no alert for a Normal child; an `underweight` alert with the
      nutritional-assessment message for an Underweight child; an `overweight` alert with the
      dietary message for an Overweight or an Obese child. */
  function GenerateHealthAlert(childId: int, weight: real, height: real, ageMonths: int, gender: string): (a: Option<AlertDraft>)
    ensures a.None? <==> 14.0 <= CalculateBmi(weight, height) < 18.0
    ensures a.Some? ==> a.value.childId == childId
    ensures a.Some? && a.value.alertType == "underweight" <==> CalculateBmi(weight, height) < 14.0
    ensures a.Some? && a.value.alertType == "overweight" <==> 18.0 <= CalculateBmi(weight, height)
    ensures a.Some? && a.value.alertType == "underweight" ==> a.value.message == UnderweightMessage
    ensures a.Some? && a.value.alertType == "overweight" ==> a.value.message == OverweightMessage
  {
    match AssessGrowthStatus(weight, height, ageMonths, gender)
    case Underweight => Some(AlertDraft(childId, "underweight", UnderweightMessage))
    case Overweight => Some(AlertDraft(childId, "overweight", OverweightMessage))
    case Obese => Some(AlertDraft(childId, "overweight", OverweightMessage))
    case Normal => None
  }

  /** 2.5 kg at 0.5 m: BMI 10.00, an underweight alert. */
  lemma SmallChildAlert()
    ensures CalculateBmi(2.5, 0.5) == 10.0
    ensures GenerateHealthAlert(7, 2.5, 0.5, 6, "female") == Some(AlertDraft(7, "underweight", UnderweightMessage))
  {
    assert 2.5 / (0.5 * 0.5) * 100.0 == 1000.0;
  }

  /** 6 kg at 0.55 m: BMI 19.83, an overweight alert. */
  lemma HeavyChildAlert()
    ensures CalculateBmi(6.0, 0.55) == 19.83
    ensures GenerateHealthAlert(7, 6.0, 0.55, 6, "male") == Some(AlertDraft(7, "overweight", OverweightMessage))
  {
    var x := 6.0 / (0.55 * 0.55) * 100.0;
    assert 1983.0 <= x + 0.5 < 1984.0;
    assert (x + 0.5).Floor == 1983;
  }

  /** 6 kg at 0.6 m: BMI 16.67, no alert. */
  lemma NormalChildNoAlert()
    ensures CalculateBmi(6.0, 0.6) == 16.67
    ensures GenerateHealthAlert(7, 6.0, 0.6, 6, "male") == None
  {
    var x := 6.0 / (0.6 * 0.6) * 100.0;
    assert 1667.0 <= x + 0.5 < 1668.0;
    assert (x + 0.5).Floor == 1667;
  }
}
