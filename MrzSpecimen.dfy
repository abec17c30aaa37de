/**
 * The specimen passport of ICAO Doc 9303 (holder "ERIKSSON, ANNA MARIA" of
 * the fictitious state Utopia), whose lower machine readable line is
 * `L898902C<3UTO6908061F9406236ZE184226B<<<<<14`, and the model's report on it.
 */
module MrzSpecimen {
  import opened Wrappers
  import opened JsText
  import opened CheckDigits
  import opened MrzDates
  import opened MrzValidation

  /** The specimen's lower line, assembled from its fields. */
  const Specimen: string :=
    Line("L898902C<", '3', "UTO", "690806", '1', 'F', "940623", '6', "ZE184226B" + "<<<<<", '1', '4')

  /** The specimen's layout, spelled out. */
  lemma SpecimenLayout()
    ensures |Specimen| == 44
    ensures Specimen[0..9] == "L898902C<" && Specimen[9] == '3'
    ensures Specimen[13..19] == "690806" && Specimen[19] == '1'
    ensures Specimen[21..27] == "940623" && Specimen[27] == '6'
    ensures Specimen[28..42] == "ZE184226B" + "<<<<<" && Specimen[42] == '1'
    ensures Specimen[43] == '4'
    ensures CompositeSpan(Specimen)
      == "L898902C<" + "3" + "690806" + "1" + "940623" + "6" + "ZE184226B" + "<<<<<" + "1"
  {
    LineLayout("L898902C<", '3', "UTO", "690806", '1', 'F', "940623", '6', "ZE184226B" + "<<<<<", '1', '4');
    var a, b, c, d := "L898902C<" + "3", "690806" + "1", "940623" + "6", "ZE184226B" + "<<<<<" + "1";
    assert a + b + c + d == "L898902C<" + "3" + "690806" + "1" + "940623" + "6" + "ZE184226B" + "<<<<<" + "1";
  }

  /** The weighted sums of the specimen's fields. */
  lemma SpecimenFieldSums()
    ensures WeightedSum("L898902C<") == 313
    ensures WeightedSum("690806") == 131
    ensures WeightedSum("940623") == 126
    ensures WeightedSum("ZE184226B" + "<<<<<") == 401
  {
    DocumentSum();
    DateSums();
    PersonalSum();
  }

  lemma DocumentSum()
    ensures WeightedSum("L898902C<") == 313
  {
    assert SumUpTo("L898902C<", 9, 0) == 313;
    WeightedSumByIndex("L898902C<");
  }

  lemma DateSums()
    ensures WeightedSum("690806") == 131
    ensures WeightedSum("940623") == 126
  {
    assert SumUpTo("690806", 6, 0) == 131;
    assert SumUpTo("940623", 6, 0) == 126;
    WeightedSumByIndex("690806");
    WeightedSumByIndex("940623");
  }

  lemma PersonalSum()
    ensures WeightedSum("ZE184226B" + "<<<<<") == 401
  {
    assert SumUpTo("ZE184226B", 9, 0) == 401;
    assert SumUpTo("<<<<<", 5, 9) == 0;
    WeightedSumByIndex("ZE184226B");
    WeightedSumAppend("ZE184226B", "<<<<<");
  }

  /** The weighted sum of the specimen's composite span, part by part. */
  lemma SpecimenCompositeSum()
    ensures WeightedSum("L898902C<" + "3" + "690806" + "1" + "940623" + "6" + "ZE184226B" + "<<<<<" + "1") == 904
  {
    SpecimenFieldSums();
    SpecimenPartSums();
    var a1 := "L898902C<" + "3";
    var a2 := a1 + "690806";
    var a3 := a2 + "1";
    var a4 := a3 + "940623";
    var a5 := a4 + "6";
    var a6 := a5 + "ZE184226B";
    var a7 := a6 + "<<<<<";
    WeightedSumAppend("L898902C<", "3");
    WeightedSumAppend(a1, "690806");
    WeightedSumAppend(a2, "1");
    WeightedSumAppend(a3, "940623");
    WeightedSumAppend(a4, "6");
    WeightedSumAppend(a5, "ZE184226B");
    WeightedSumAppend(a6, "<<<<<");
    WeightedSumAppend(a7, "1");
  }

  /** The weighted sums of the parts of the composite span, each weighted from
      its own offset. */
  lemma SpecimenPartSums()
    ensures SumUpTo("3", 1, 9) == 21
    ensures SumUpTo("690806", 6, 10) == 93
    ensures SumUpTo("1", 1, 16) == 3
    ensures SumUpTo("940623", 6, 17) == 66
    ensures SumUpTo("6", 1, 23) == 6
    ensures SumUpTo("ZE184226B", 9, 24) == 401
    ensures SumUpTo("<<<<<", 5, 33) == 0
    ensures SumUpTo("1", 1, 38) == 1
  {
  }

  /** Every check passes on the characters of the specimen. */
  lemma SpecimenChecksHold()
    ensures ChecksHold(Specimen)
  {
    SpecimenLayout();
    SpecimenFieldSums();
    SpecimenCompositeSum();
  }

  /** The specimen's expiry field reads as 23 June 1994 (month 5 counted from 0). */
  lemma SpecimenExpiry()
    ensures ParseDate(Specimen[21..27]) == Some(LocalDate(1994, 5, 23))
  {
    SpecimenLayout();
    ExpiryDigits(Specimen[21..27]);
  }

  lemma ExpiryDigits(s: string)
    requires s == "940623"
    ensures ParseDate(s) == Some(LocalDate(1994, 5, 23))
  {
    assert s[0] == '9' && s[1] == '4' && s[2] == '0' && s[3] == '6' && s[4] == '2' && s[5] == '3';
    ParseDateOfDigits(s);
  }

  /** All five check digits of the specimen are accepted. */
  lemma SpecimenFlags(now: int)
    ensures var r := ValidateMrz(Specimen, now);
      r.passportNumberValid && r.birthDateValid && r.expirationDateValid
      && r.personalNumberValid && r.finalCheckDigitValid
  {
    SpecimenChecksHold();
    ChecksPass(Specimen, now);
  }

  /** The specimen is valid exactly until local midnight at the start of 23 June
      1994. */
  lemma SpecimenValidity(now: int)
    ensures ValidateMrz(Specimen, now).valid <==> now <= TimeValue(LocalDate(1994, 5, 23))
  {
    SpecimenChecksHold();
    SpecimenExpiry();
    ValidIff(Specimen, now);
  }

  /** The first 10 characters of the specimen's personal number are shown. */
  lemma SpecimenDisplay(now: int)
    ensures ValidateMrz(Specimen, now).display
      == Some(Display("L898902C<", "ZE184226B" + "<", "940623"))
  {
    SpecimenShown();
    Displayed(Specimen, now);
  }

  /** The slices of the specimen the validator passes to the display setters. */
  lemma SpecimenShown()
    ensures |Specimen| == 44
    ensures Specimen[0..9] == "L898902C<" && Specimen[21..27] == "940623"
    ensures Specimen[28..38] == "ZE184226B" + "<"
  {
    SpecimenLayout();
    assert Specimen[28..38] == Specimen[28..42][..10];
    assert ("ZE184226B" + "<<<<<")[..10] == "ZE184226B" + "<";
  }
}
