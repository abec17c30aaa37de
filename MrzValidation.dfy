/**
 * `validateMRZ`: the checks run on the lower line of a passport's machine
 * readable zone (the TD3 layout of ICAO Doc 9303 Part 4, section 4.2.2).
 *
 *   positions  0..8   document number      check digit at  9
 *   positions 10..12  nationality          (not checked)
 *   positions 13..18  date of birth        check digit at 19
 *   position  20      sex                  (not checked)
 *   positions 21..26  date of expiry       check digit at 27
 *   positions 28..41  personal number      check digit at 42
 *   position  43      composite check digit over 0..9, 13..19 and 21..42
 *
 * The line is sliced with `substring` and read with `mrz[k]`, so a short line
 * is not rejected: slices are clamped and a missing check character parses as
 * NaN, which matches no digit. The current time is a parameter; the three
 * display setters become `display`, and `setMrzIsValid` receives `valid`.
 */
module MrzValidation {
  import opened Wrappers
  import opened JsText
  import opened CheckDigits
  import opened MrzDates

  /** The values `validateMRZ` passes to the display setters (the screen shows
      them only while the line is valid). */
  datatype Display = Display(passportNumber: string, personalNumber: string, expirationDate: string)

  /** The object `validateMRZ` returns, and the values it passes to the display
      setters (`None`: no setter is called, `setMrzIsValid` included). */
  datatype Report = Report(
    passportNumberValid: bool,
    birthDateValid: bool,
    expirationDateValid: bool,
    personalNumberValid: bool,
    finalCheckDigitValid: bool,
    expirationDateNotExpired: bool,
    valid: bool,
    display: Option<Display>)

  /** `parseInt(mrz[k])`; past the end of the line `mrz[k]` is undefined, and
      `parseInt(undefined)` is NaN. */
  function CheckCharAt(mrz: string, k: nat): (r: Option<int>)
    ensures r == if k < |mrz| && IsDigit(mrz[k]) then Some(DigitValue(mrz[k])) else None
  {
    if k < |mrz| then
      ParseIntOfChar(mrz[k]);
      ParseInt([mrz[k]])
    else None
  }

  /** `calculateCheckDigit(mrz.substring(start, pos)) === parseInt(mrz[pos])`:
      NaN equals no number. */
  predicate FieldValid(mrz: string, start: nat, pos: nat) {
    CheckCharAt(mrz, pos) == Some(CheckDigit(Substring(mrz, start, pos)))
  }

  /** The `combined` string: the four fields, each followed by its parsed check
      digit written back as text. */
  function Combined(mrz: string): string {
    FieldText(mrz, 0, 9) + FieldText(mrz, 13, 19) + FieldText(mrz, 21, 27) + FieldText(mrz, 28, 42)
  }

  /** One field of the composite input: the field's text followed by its parsed
      check digit written back as a number. */
  function FieldText(mrz: string, start: nat, pos: nat): string {
    Substring(mrz, start, pos) + NumberText(CheckCharAt(mrz, pos))
  }

  function ValidateMrz(mrz: string, now: int): (r: Report)
    ensures mrz == [] ==>
      !r.passportNumberValid && !r.birthDateValid && !r.expirationDateValid
      && !r.personalNumberValid && !r.finalCheckDigitValid
      && !r.expirationDateNotExpired && !r.valid && r.display == None
    ensures mrz != [] ==> r.display.Some?
    ensures r.valid <==>
      r.passportNumberValid && r.birthDateValid && r.expirationDateValid
      && r.personalNumberValid && r.finalCheckDigitValid && r.expirationDateNotExpired
  {
    if mrz == [] then
      Report(false, false, false, false, false, false, false, None)
    else
      var passportNumber := Substring(mrz, 0, 9);
      var expirationDate := Substring(mrz, 21, 27);
      var personalNumber := Substring(mrz, 28, 42);
      var isPassportNumberValid := FieldValid(mrz, 0, 9);
      var isBirthDateValid := FieldValid(mrz, 13, 19);
      var isExpirationDateValid := FieldValid(mrz, 21, 27);
      var isPersonalNumberValid := FieldValid(mrz, 28, 42);
      var isExpirationDateNotExpired := NotExpired(ParseDate(expirationDate), now);
      var isFinalCheckDigitValid := CheckCharAt(mrz, 43) == Some(CheckDigit(Combined(mrz)));
      var isValid := isPassportNumberValid && isBirthDateValid && isExpirationDateValid
        && isPersonalNumberValid && isFinalCheckDigitValid && isExpirationDateNotExpired;
      Report(isPassportNumberValid, isBirthDateValid, isExpirationDateValid,
        isPersonalNumberValid, isFinalCheckDigitValid, isExpirationDateNotExpired, isValid,
        Some(Display(passportNumber, Prefix(personalNumber, 10), expirationDate)))
  }

  // The four checked fields, for stating properties of all of them at once.

  datatype Field = DocumentNumber | BirthDate | ExpiryDate | PersonalNumber

  function Start(f: Field): nat {
    match f
    case DocumentNumber => 0
    case BirthDate => 13
    case ExpiryDate => 21
    case PersonalNumber => 28
  }

  function CheckPos(f: Field): nat {
    match f
    case DocumentNumber => 9
    case BirthDate => 19
    case ExpiryDate => 27
    case PersonalNumber => 42
  }

  function Flag(r: Report, f: Field): bool {
    match f
    case DocumentNumber => r.passportNumberValid
    case BirthDate => r.birthDateValid
    case ExpiryDate => r.expirationDateValid
    case PersonalNumber => r.personalNumberValid
  }

  /** The check of field `f` passes on the characters themselves: its check
      character is present, is a digit, and is the check digit of the field. */
  predicate FieldCheckHolds(mrz: string, f: Field) {
    CheckPos(f) < |mrz| && IsDigit(mrz[CheckPos(f)])
    && CheckDigit(mrz[Start(f)..CheckPos(f)]) == DigitValue(mrz[CheckPos(f)])
  }

  /** The span the composite check digit covers: every field with its check digit. */
  function CompositeSpan(mrz: string): string
    requires |mrz| >= 43
  {
    mrz[0..10] + mrz[13..20] + mrz[21..28] + mrz[28..43]
  }

  /** The composite check passes on the characters of the line. */
  predicate CompositeHolds(mrz: string) {
    44 <= |mrz| && IsDigit(mrz[43]) && CheckDigit(CompositeSpan(mrz)) == DigitValue(mrz[43])
  }

  /** Every check of the line passes on its characters. */
  predicate ChecksHold(mrz: string) {
    FieldCheckHolds(mrz, DocumentNumber) && FieldCheckHolds(mrz, BirthDate)
    && FieldCheckHolds(mrz, ExpiryDate) && FieldCheckHolds(mrz, PersonalNumber)
    && CompositeHolds(mrz)
  }

  lemma FieldValidIff(mrz: string, f: Field)
    ensures FieldValid(mrz, Start(f), CheckPos(f)) <==> FieldCheckHolds(mrz, f)
  {
    var pos := CheckPos(f);
    if pos < |mrz| {
      ParseIntOfChar(mrz[pos]);
      assert Substring(mrz, Start(f), pos) == mrz[Start(f)..pos];
    }
  }

  /** Each field flag is true exactly when the field's check passes on the
      characters of the line; a check character that is not a digit, or lies
      past the end of the line, always fails. */
  lemma FieldCheck(mrz: string, now: int, f: Field)
    requires mrz != []
    ensures Flag(ValidateMrz(mrz, now), f) <==> FieldCheckHolds(mrz, f)
  {
    FieldValidIff(mrz, f);
  }

  lemma FieldChecks(mrz: string, now: int)
    requires mrz != []
    ensures forall f :: Flag(ValidateMrz(mrz, now), f) <==> FieldCheckHolds(mrz, f)
  {
    forall f
      ensures Flag(ValidateMrz(mrz, now), f) <==> FieldCheckHolds(mrz, f)
    {
      FieldCheck(mrz, now, f);
    }
  }

  /** When the four check characters are digits, `combined` is exactly the span
      of the line the composite check digit covers. */
  lemma CombinedIsCompositeSpan(mrz: string)
    requires |mrz| >= 43
    requires IsDigit(mrz[9]) && IsDigit(mrz[19]) && IsDigit(mrz[27]) && IsDigit(mrz[42])
    ensures Combined(mrz) == CompositeSpan(mrz)
  {
    FieldTextOfDigit(mrz, 0, 9);
    FieldTextOfDigit(mrz, 13, 19);
    FieldTextOfDigit(mrz, 21, 27);
    FieldTextOfDigit(mrz, 28, 42);
  }

  /** A field followed by a digit check character is its own composite part. */
  lemma FieldTextOfDigit(mrz: string, start: nat, pos: nat)
    requires start <= pos < |mrz| && IsDigit(mrz[pos])
    ensures FieldText(mrz, start, pos) == mrz[start..pos + 1]
  {
    DigitTextRoundTrip(mrz[pos]);
    SliceSnoc(mrz, start, pos);
  }

  /** The composite flag, when the four check characters are digits. */
  lemma FinalCheck(mrz: string, now: int)
    requires |mrz| >= 43
    requires IsDigit(mrz[9]) && IsDigit(mrz[19]) && IsDigit(mrz[27]) && IsDigit(mrz[42])
    ensures ValidateMrz(mrz, now).finalCheckDigitValid <==> CompositeHolds(mrz)
  {
    CombinedIsCompositeSpan(mrz);
    if 43 < |mrz| {
      ParseIntOfChar(mrz[43]);
    }
  }

  /** The five check-digit flags all hold exactly when every check passes on the
      characters of the line; in particular a line shorter than 44 characters
      never passes. */
  lemma ChecksPass(mrz: string, now: int)
    ensures var r := ValidateMrz(mrz, now);
      r.passportNumberValid && r.birthDateValid && r.expirationDateValid
      && r.personalNumberValid && r.finalCheckDigitValid
      <==> ChecksHold(mrz)
  {
    var r := ValidateMrz(mrz, now);
    if mrz != [] {
      FieldCheck(mrz, now, DocumentNumber);
      FieldCheck(mrz, now, BirthDate);
      FieldCheck(mrz, now, ExpiryDate);
      FieldCheck(mrz, now, PersonalNumber);
      if r.passportNumberValid && r.birthDateValid && r.expirationDateValid && r.personalNumberValid {
        FinalCheck(mrz, now);
      } else if ChecksHold(mrz) {
        assert false;
      }
    }
  }

  /** The whole line is valid exactly when every check passes and the expiry date
      is not yet past. */
  lemma ValidIff(mrz: string, now: int)
    ensures ValidateMrz(mrz, now).valid <==>
      ChecksHold(mrz) && NotExpired(ParseDate(mrz[21..27]), now)
  {
    ChecksPass(mrz, now);
    if |mrz| >= 27 {
      assert Substring(mrz, 21, 27) == mrz[21..27];
    }
  }

  /** The expiry flag against a clock reading `time` milliseconds into the local
      day `today`: a document whose expiry field names a real calendar day counts
      as not expired while that day is still to come, and on the day itself only
      at exactly midnight. */
  lemma ExpiryFlagByCalendar(mrz: string, expiry: LocalDate, today: LocalDate, time: int)
    requires |mrz| >= 27 && ParseDate(mrz[21..27]) == Some(expiry)
    requires IsCalendarDate(expiry) && IsCalendarDate(today) && 0 <= time < MsPerDay
    ensures ValidateMrz(mrz, TimeValue(today) + time).expirationDateNotExpired
        <==> Before(today, expiry) || (expiry == today && time == 0)
  {
    assert Substring(mrz, 21, 27) == mrz[21..27];
    NotExpiredByCalendar(expiry, today, time);
  }

  /** What is shown: the document number and the expiry date as they stand, and
      only the first 10 of the 14 characters of the personal number. */
  lemma Displayed(mrz: string, now: int)
    requires |mrz| >= 42
    ensures ValidateMrz(mrz, now).display == Some(Display(mrz[0..9], mrz[28..38], mrz[21..27]))
  {
    assert Substring(mrz, 28, 42)[..10] == mrz[28..38];
  }

  /** The nationality (positions 10..12) and the sex (position 20) take part in no
      check: two lines that differ only there get the same report. */
  lemma UncheckedPositions(mrz: string, other: string, now: int)
    requires |mrz| == |other|
    requires forall k :: 0 <= k < |mrz| && !(10 <= k <= 12) && k != 20 ==> mrz[k] == other[k]
    ensures ValidateMrz(mrz, now) == ValidateMrz(other, now)
  {
    SameSlice(mrz, other, 0, 9);
    SameSlice(mrz, other, 13, 19);
    SameSlice(mrz, other, 21, 27);
    SameSlice(mrz, other, 28, 42);
    SameReport(mrz, other, now);
  }

  /** The report depends on the line only through the four fields and the five
      check characters. */
  lemma SameReport(mrz: string, other: string, now: int)
    requires mrz == [] <==> other == []
    requires Substring(mrz, 0, 9) == Substring(other, 0, 9)
    requires Substring(mrz, 13, 19) == Substring(other, 13, 19)
    requires Substring(mrz, 21, 27) == Substring(other, 21, 27)
    requires Substring(mrz, 28, 42) == Substring(other, 28, 42)
    requires CheckCharAt(mrz, 9) == CheckCharAt(other, 9)
    requires CheckCharAt(mrz, 19) == CheckCharAt(other, 19)
    requires CheckCharAt(mrz, 27) == CheckCharAt(other, 27)
    requires CheckCharAt(mrz, 42) == CheckCharAt(other, 42)
    requires CheckCharAt(mrz, 43) == CheckCharAt(other, 43)
    ensures ValidateMrz(mrz, now) == ValidateMrz(other, now)
  {
  }

  lemma SameSlice(mrz: string, other: string, start: nat, end: nat)
    requires |mrz| == |other| && start <= end
    requires forall k :: start <= k < end && k < |mrz| ==> mrz[k] == other[k]
    ensures Substring(mrz, start, end) == Substring(other, start, end)
  {
  }

  /** Characters after position 43 take part in no check and are never shown. */
  lemma TrailingCharacters(mrz: string, now: int)
    requires |mrz| >= 44
    ensures ValidateMrz(mrz, now) == ValidateMrz(mrz[..44], now)
  {
    var line := mrz[..44];
    assert Substring(mrz, 0, 9) == Substring(line, 0, 9);
    assert Substring(mrz, 13, 19) == Substring(line, 13, 19);
    assert Substring(mrz, 21, 27) == Substring(line, 21, 27);
    assert Substring(mrz, 28, 42) == Substring(line, 28, 42);
    SameReport(mrz, line, now);
  }

  // Single-character errors.

  /** The index in `CompositeSpan` of a line position the composite covers. */
  function SpanPos(k: nat): nat {
    if k < 10 then k else if k < 17 then k + 3 else k + 4
  }

  lemma CompositeSpanAt(mrz: string, k: nat)
    requires |mrz| >= 43 && k < 39
    ensures |CompositeSpan(mrz)| == 39
    ensures SpanPos(k) < 43 && CompositeSpan(mrz)[k] == mrz[SpanPos(k)]
  {
  }

  /** Changing one covered character of the line changes one character of the
      composite span. */
  lemma CompositeSpanUpdate(mrz: string, q: nat, c: char)
    requires |mrz| >= 43 && q < 39
    ensures SpanPos(q) < |mrz|
    ensures CompositeSpan(mrz[SpanPos(q) := c]) == CompositeSpan(mrz)[q := c]
  {
    var p := SpanPos(q);
    var m := mrz[p := c];
    var a, b := CompositeSpan(m), CompositeSpan(mrz)[q := c];
    CompositeSpanAt(mrz, 0);
    CompositeSpanAt(m, 0);
    forall k | 0 <= k < 39
      ensures a[k] == b[k]
    {
      CompositeSpanAt(mrz, k);
      CompositeSpanAt(m, k);
    }
  }

  /** The position a field character or field check character has in the
      composite span. */
  function SpanIndex(p: nat): nat
    requires p < 10 || 13 <= p < 20 || 21 <= p < 43
  {
    if p < 10 then p else if p < 20 then p - 3 else p - 4
  }

  lemma SpanIndexInverse(p: nat)
    requires p < 10 || 13 <= p < 20 || 21 <= p < 43
    ensures SpanIndex(p) < 39 && SpanPos(SpanIndex(p)) == p
  {
  }

  /** Two lines that agree on the characters of field `f` and its check character
      agree on that field's check. */
  lemma SameFieldCheck(mrz: string, other: string, f: Field)
    requires |mrz| == |other| && CheckPos(f) < |mrz|
    requires forall k :: Start(f) <= k <= CheckPos(f) ==> mrz[k] == other[k]
    ensures FieldCheckHolds(mrz, f) <==> FieldCheckHolds(other, f)
  {
    assert mrz[Start(f)..CheckPos(f)] == other[Start(f)..CheckPos(f)];
  }

  /** On a line whose checks all pass, changing one character of a field is caught
      by that field's check exactly when the values of the old and the new
      character differ modulo 10 (so `0`, `<`, `A`, `K` and `U` can stand for each
      other unnoticed); the other fields' checks still pass, and the composite
      check fails with the field's. */
  lemma FieldSubstitution(mrz: string, f: Field, p: nat, c: char)
    requires ChecksHold(mrz)
    requires Start(f) <= p < CheckPos(f)
    ensures var m := mrz[p := c];
      (FieldCheckHolds(m, f) <==> (CharacterValue(c) - CharacterValue(mrz[p])) % 10 == 0)
      && (forall g :: g != f ==> FieldCheckHolds(m, g))
      && (CompositeHolds(m) <==> (CharacterValue(c) - CharacterValue(mrz[p])) % 10 == 0)
      && (ChecksHold(m) <==> (CharacterValue(c) - CharacterValue(mrz[p])) % 10 == 0)
  {
    var m := mrz[p := c];
    OwnFieldSubstitution(mrz, f, p, c);
    ChecksHoldByField(m);
    forall g | g != f
      ensures FieldCheckHolds(m, g)
    {
      SameFieldCheck(mrz, m, g);
    }
    CompositeSubstitution(mrz, p, c);
  }

  lemma OwnFieldSubstitution(mrz: string, f: Field, p: nat, c: char)
    requires FieldCheckHolds(mrz, f)
    requires Start(f) <= p < CheckPos(f)
    ensures FieldCheckHolds(mrz[p := c], f) <==> (CharacterValue(c) - CharacterValue(mrz[p])) % 10 == 0
  {
    var m := mrz[p := c];
    var start, pos := Start(f), CheckPos(f);
    assert m[pos] == mrz[pos];
    assert m[start..pos] == mrz[start..pos][p - start := c];
    assert mrz[start..pos][p - start] == mrz[p];
    SubstitutionChangesCheckDigit(mrz[start..pos], p - start, c);
  }

  lemma ChecksHoldByField(mrz: string)
    ensures ChecksHold(mrz) <==> CompositeHolds(mrz) && forall g :: FieldCheckHolds(mrz, g)
  {
    if ChecksHold(mrz) {
      forall g
        ensures FieldCheckHolds(mrz, g)
      {
        match g
        case DocumentNumber =>
        case BirthDate =>
        case ExpiryDate =>
        case PersonalNumber =>
      }
    }
  }

  /** On a line whose composite check passes, changing one character the
      composite covers keeps it passing exactly when the old and the new
      character's values agree modulo 10. */
  lemma CompositeSubstitution(mrz: string, p: nat, c: char)
    requires CompositeHolds(mrz)
    requires p < 10 || 13 <= p < 20 || 21 <= p < 43
    ensures CompositeHolds(mrz[p := c]) <==> (CharacterValue(c) - CharacterValue(mrz[p])) % 10 == 0
  {
    var q := SpanIndex(p);
    SpanIndexInverse(p);
    CompositeSpanUpdate(mrz, q, c);
    CompositeSpanAt(mrz, q);
    SubstitutionChangesCheckDigit(CompositeSpan(mrz), q, c);
  }

  /** The same, read off the report: a change of a field character that the
      check digit catches clears that field's flag, the composite flag and the
      validity, and leaves the other field flags set. */
  lemma FieldSubstitutionDetected(mrz: string, now: int, f: Field, p: nat, c: char)
    requires ChecksHold(mrz)
    requires Start(f) <= p < CheckPos(f)
    requires (CharacterValue(c) - CharacterValue(mrz[p])) % 10 != 0
    ensures var r := ValidateMrz(mrz[p := c], now);
      !Flag(r, f) && !r.finalCheckDigitValid && !r.valid
      && forall g :: g != f ==> Flag(r, g)
  {
    var m := mrz[p := c];
    FieldSubstitution(mrz, f, p, c);
    FieldChecks(m, now);
    FinalCheck(m, now);
  }

  /** On a line whose checks all pass, changing the check character of field `f`
      makes that field's check fail, leaves the others passing, and, when the new
      character is a digit, makes the composite check fail too. */
  lemma CheckCharSubstitution(mrz: string, f: Field, c: char)
    requires ChecksHold(mrz)
    requires c != mrz[CheckPos(f)]
    ensures var m := mrz[CheckPos(f) := c];
      !FieldCheckHolds(m, f)
      && (forall g :: g != f ==> FieldCheckHolds(m, g))
      && (IsDigit(c) ==> !CompositeHolds(m))
  {
    var pos := CheckPos(f);
    var m := mrz[pos := c];
    assert m[Start(f)..pos] == mrz[Start(f)..pos];
    forall g | g != f
      ensures FieldCheckHolds(m, g)
    {
      SameFieldCheck(mrz, m, g);
    }
    if IsDigit(c) {
      CompositeSubstitution(mrz, pos, c);
    }
  }

  /** The same, read off the report. */
  lemma CheckCharSubstitutionDetected(mrz: string, now: int, f: Field, c: char)
    requires ChecksHold(mrz)
    requires c != mrz[CheckPos(f)]
    ensures var r := ValidateMrz(mrz[CheckPos(f) := c], now);
      !Flag(r, f) && !r.valid
      && (forall g :: g != f ==> Flag(r, g))
      && (IsDigit(c) ==> !r.finalCheckDigitValid)
  {
    var m := mrz[CheckPos(f) := c];
    CheckCharSubstitution(mrz, f, c);
    FieldChecks(m, now);
    if IsDigit(c) {
      FinalCheck(m, now);
    }
  }

  /** Changing the composite check character of a line whose checks pass clears
      the composite flag and leaves the field flags set. */
  lemma FinalCharSubstitutionDetected(mrz: string, now: int, c: char)
    requires ChecksHold(mrz)
    requires c != mrz[43]
    ensures var r := ValidateMrz(mrz[43 := c], now);
      !r.finalCheckDigitValid && !r.valid
      && forall f :: Flag(r, f)
  {
    var m := mrz[43 := c];
    assert CompositeSpan(m) == CompositeSpan(mrz);
    forall g
      ensures FieldCheckHolds(m, g)
    {
      SameFieldCheck(mrz, m, g);
    }
    FieldChecks(m, now);
    FinalCheck(m, now);
    if IsDigit(c) {
      DigitValueInjective(c, mrz[43]);
    }
  }

  // A line assembled from its fields.

  /** The lower line with the given fields and check characters, in the order
      of the layout. */
  function Line(document: string, documentCheck: char, nationality: string,
                birth: string, birthCheck: char, sex: char,
                expiry: string, expiryCheck: char,
                personal: string, personalCheck: char, compositeCheck: char): string
  {
    document + [documentCheck] + nationality + birth + [birthCheck] + [sex]
    + expiry + [expiryCheck] + personal + [personalCheck] + [compositeCheck]
  }

  /** Fields of the lengths the layout gives them land at the offsets the
      validator reads. */
  lemma LineLayout(document: string, documentCheck: char, nationality: string,
                   birth: string, birthCheck: char, sex: char,
                   expiry: string, expiryCheck: char,
                   personal: string, personalCheck: char, compositeCheck: char)
    requires |document| == 9 && |nationality| == 3 && |birth| == 6 && |expiry| == 6 && |personal| == 14
    ensures var line := Line(document, documentCheck, nationality, birth, birthCheck, sex,
                             expiry, expiryCheck, personal, personalCheck, compositeCheck);
      |line| == 44
      && line[0..9] == document && line[9] == documentCheck
      && line[13..19] == birth && line[19] == birthCheck
      && line[21..27] == expiry && line[27] == expiryCheck
      && line[28..42] == personal && line[42] == personalCheck
      && line[43] == compositeCheck
      && CompositeSpan(line) == (document + [documentCheck]) + (birth + [birthCheck])
                                + (expiry + [expiryCheck]) + (personal + [personalCheck])
  {
  }

  // Picking the lower line out of the recognised text.

  /** `mrzLines[mrzLines.length - 1]` of `text.split("\n")`: the text after the
      last line break, which is the lower line of a two-line zone. */
  function LastLine(text: string): (line: string)
    ensures '\n' !in line
    ensures |line| <= |text| && text[|text| - |line|..] == line
    ensures |line| == |text| || text[|text| - |line| - 1] == '\n'
  {
    var lines := Split(text, '\n');
    LastPartIsTail(text, '\n');
    lines[|lines| - 1]
  }

  /** Of lines joined by line breaks, the last one is picked. */
  lemma LastLineOfLines(lines: seq<string>)
    requires |lines| >= 1 && SeparatorFree(lines, '\n')
    ensures LastLine(Join(lines, '\n')) == lines[|lines| - 1]
  {
    SplitJoin(lines, '\n');
  }
}
