# MRZ lower-line validation

A Dafny model of the passport check in `AnalyzeId.js`. The app sends a photo of a
passport to a text-recognition service. From the text it gets back, it takes the
last line of the machine readable zone (MRZ). That line is the 44-character lower
line of a TD3 passport (ICAO Doc 9303 Part 4, section 4.2.2). The app then checks
that line:

- the document number (positions 0..8), the birth date (13..18), the expiry date
  (21..26) and the personal number (28..41) are each checked against the check
  character that follows them (positions 9, 19, 27, 42), using the 7-3-1 check
  digit of ICAO Doc 9303 Part 3, section 4.9;
- the composite check character (position 43) is compared with the check digit of
  the four fields, each followed by its parsed check digit written back as text;
- the expiry date `YYMMDD` is read as a local date, with years 50..99 in the 1900s
  and 00..49 in the 2000s, and compared with the current time;
- the document number, the first 10 characters of the personal number and the
  expiry date are passed to the display setters, and `valid` to `setMrzIsValid`
  (the screen shows the three values only while the line is valid). On empty
  input no setter is called, `setMrzIsValid` included, so the screen keeps what
  the previous line set.

Modules:

- `Wrappers`: `Option`. `None` stands for JavaScript's NaN.
- `JsText`: the JavaScript string behaviour the code relies on. This covers
  `substring` (which clamps and swaps its bounds), `slice`, `parseInt` (leading
  white space, a sign, the longest digit prefix, NaN otherwise), `String(n)` and
  `split`. `Join`, which the code never calls, is the inverse used to state the
  round-trip lemmas about `split`.
- `CheckDigits`: `getCharacterValue` and the loop of `calculateCheckDigit`, proved
  against a recursive weighted sum, plus the error-detection properties of that
  digit.
- `MrzDates`: `parseDate` and the time value ECMAScript's `new Date(y, m, d)` gives
  (MakeDay), with the ordering lemmas that turn the `>=` on time values into a
  comparison of calendar days.
- `MrzValidation`: `validateMRZ` as a function of the line and the current time.
  It also contains:
  - the characterisation of every flag by the characters of the line;
  - the single-character-error properties;
  - the layout of a line assembled from its fields;
  - the pick of the last line of the recognised text.
- `MrzSpecimen`: the specimen line `L898902C<3UTO6908061F9406236ZE184226B<<<<<14`
  of ICAO Doc 9303, with the model's report on it proved.

Three properties one might expect of this check do not hold of the code; the model
follows the code:

- Not every single-character change is caught.
  - A field character can be replaced by any character whose value is congruent
    modulo 10: `0`, `<`, `A`, `K` and `U` are interchangeable. `FieldSubstitution`
    states exactly when the change is caught.
  - Any change of a field check character clears that field's flag and `valid`.
    A digit always clears the composite flag as well; a non-digit puts `NaN` into
    `combined`, after which the composite flag may go either way.
- The composite check digit does not continue the weights of the individual
  fields: its 7-3-1 cycle starts again at the start of the concatenation. This is
  what section 4.2.2 of ICAO Doc 9303 Part 4 prescribes, and
  `CombinedIsCompositeSpan` shows that the concatenation is exactly positions
  0..9, 13..19 and 21..42 of the line.
- The expiry check compares local midnight at the start of the expiry day with the
  current time. A document therefore counts as expired during its own expiry day,
  except at exactly midnight (`NotExpiredByCalendar`).

## Model

| member | source | states |
|---|---|---|
| CheckDigits.CharacterValue | AnalyzeId.js:120-130 | the value of a character is between 0 and 35 |
| CheckDigits.CharacterValueMatchesSource | AnalyzeId.js:120-130 | a digit's value is what `parseInt` gives it; a capital letter's is its index in the alphabet plus 10, so from 10 to 35; every other character's is 0 |
| CheckDigits.AlphabetIndexOf | AnalyzeId.js:121-126 | `alphabet.indexOf(c)` of a capital letter is its distance from `A` |
| CheckDigits.IndexOf | AnalyzeId.js:126 | `indexOf` is -1 exactly when the character is absent; otherwise it is the first position holding it |
| CheckDigits.WeightedSum | AnalyzeId.js:134-139 | the value of `sum` after the loop: each character's value times the weight of its position, never negative; `CalculateCheckDigit` is proved to compute it, and `WeightedSumAppend`/`WeightedSumUpdate` give its behaviour under concatenation and replacement |
| CheckDigits.CalculateCheckDigit | AnalyzeId.js:132-142 | the loop returns the weighted sum of the input modulo 10, a digit from 0 to 9 |
| CheckDigits.CheckDigit | AnalyzeId.js:132-142 | the check digit lies in 0..9, and the empty input gives 0 |
| CheckDigits.Weight | AnalyzeId.js:133-138 | every weight is 7, 3 or 1 |
| CheckDigits.WeightedSumAppend | AnalyzeId.js:136-139 | in a concatenation, the characters of the second part keep the weights of their positions in the whole string |
| CheckDigits.WeightedSumUpdate | AnalyzeId.js:136-139 | replacing one character moves the sum by the change in value times that position's weight |
| CheckDigits.ShiftByWeight | AnalyzeId.js:138-141 | moving the sum by a multiple of a weight keeps its last digit exactly when the multiple is of 10 |
| CheckDigits.SubstitutionChangesCheckDigit | AnalyzeId.js:132-142 | changing one character changes the check digit exactly when the old and new values differ modulo 10 |
| CheckDigits.DigitSubstitutionDetected | AnalyzeId.js:132-142 | replacing a digit by a different digit always changes the check digit |
| JsText.Substring | AnalyzeId.js:168-174 | `substring` is the slice between the smaller and the larger bound when both are in range, the rest of the string from the smaller bound when the string ends between them, and empty when it ends before both |
| JsText.Prefix | AnalyzeId.js:213 | `slice(0, n)` is the prefix of length `min(n, length)` |
| JsText.ParseInt | AnalyzeId.js:145-176 | `parseInt(s, 10)`: skip leading white space, take one sign, read the longest digit prefix, NaN when it is empty; pinned down on the validator's arguments by `ParseIntOfChar`, `ParseIntOfTwoDigits` and `ParseIntOfShort` |
| JsText.ParseIntOfChar | AnalyzeId.js:169-176 | `parseInt` of one character is that digit's value when it is a digit, and NaN otherwise |
| JsText.ParseIntOfTwoDigits | AnalyzeId.js:145-147 | `parseInt` of two digits is their decimal value |
| JsText.ParseIntOfShort | AnalyzeId.js:145 | `parseInt` of at most two characters is NaN or a number between -9 and 99 |
| JsText.NumberText | AnalyzeId.js:191-199 | `String(x)` of a parsed check digit: NaN is written `"NaN"`, a number its decimal digits; `DigitTextRoundTrip` and `NatTextRoundTrip` show it inverts `parseInt` |
| JsText.DigitTextRoundTrip | AnalyzeId.js:191-199 | writing back the parsed value of a digit character yields that character |
| JsText.NatTextRoundTrip | AnalyzeId.js:191-199 | reading back the decimal text of a natural number yields the number |
| JsText.Split | AnalyzeId.js:103 | `split(sep)` gives at least one part and no part contains the separator; `JoinSplit`, `SplitJoin` and `LastPartIsTail` pin it down |
| JsText.JoinSplit | AnalyzeId.js:103 | joining the parts of `split` with the separator restores the text |
| JsText.SplitJoin | AnalyzeId.js:103 | splitting lines joined by a separator they do not contain gives back the lines |
| JsText.LastPartIsTail | AnalyzeId.js:103-104 | the last part of `split` is the text after the last separator |
| MrzDates.ParseDate | AnalyzeId.js:144-152 | a date `parseDate` builds has a year from 1950 to 2049 |
| MrzDates.DateOfParts | AnalyzeId.js:145-151 | a date is built only when the year, month and day are all numbers, and a year from -9 to 99 gives a full year from 1950 to 2049 |
| MrzDates.ParseDateOfDigits | AnalyzeId.js:144-152 | on six digits `YYMMDD` the year is `1900+YY` from 50 and `2000+YY` below, the month `MM-1` and the day `DD` |
| MrzDates.MakeDay | AnalyzeId.js:151 | ECMAScript's MakeDay for `new Date(fullYear, month, day)`: the month is carried into the year, then the day counts on from the first of that month, so out-of-range months and days roll over; `MakeDayOrder` and `DayWithinYear` pin it down on calendar dates |
| MrzDates.TimeValue | AnalyzeId.js:151 | the time value of `new Date(fullYear, month, day)` is a local midnight, a whole number of days |
| MrzDates.NotExpired | AnalyzeId.js:187-189 | `expirationDateObj >= currentDate`: an Invalid Date compares false, and a true result means the expiry's midnight is not before now; `NotExpiredByCalendar` reads it as a comparison of calendar days |
| MrzDates.MakeDayOrder | AnalyzeId.js:151-189 | on real calendar days, the day numbers of `new Date` compare exactly as the dates do, and are equal only for equal dates |
| MrzDates.DayFromYearIncreasing | AnalyzeId.js:151 | every year starts after all the days of each earlier year |
| MrzDates.NotExpiredByCalendar | AnalyzeId.js:187-189 | at a moment `time` into the day `today`, the expiry is not reached exactly when the expiry day is later, or is today and `time` is 0 |
| MrzValidation.ValidateMrz | AnalyzeId.js:154-225 | empty input gives every flag false and calls no setter; any other input passes the three fields to the display setters; `valid` is the conjunction of the six flags |
| MrzValidation.CheckCharAt | AnalyzeId.js:169-176 | `parseInt(mrz[k])` is the digit's value when position `k` holds a digit, and NaN when it holds anything else or lies past the end of the line |
| MrzValidation.FieldValid | AnalyzeId.js:178-185 | the `===` between a field's check digit and its parsed check character, false when that is NaN; `FieldValidIff` pins it down |
| MrzValidation.Combined | AnalyzeId.js:191-199 | the `combined` string, the four fields each followed by its parsed check character written back with `String`; `CombinedIsCompositeSpan` shows it is the line's positions 0..9, 13..19 and 21..42 when the check characters are digits |
| MrzValidation.FieldText | AnalyzeId.js:191-199 | one field of `combined` with its check character written back; `FieldTextOfDigit` shows it is the raw slice up to and including a digit check character |
| MrzValidation.FieldTextOfDigit | AnalyzeId.js:191-199 | a field followed by a digit check character contributes exactly its own characters and that digit to `combined` |
| MrzValidation.FieldValidIff | AnalyzeId.js:168-185 | a field's comparison succeeds exactly when its check character is a digit equal to the field's check digit |
| MrzValidation.FieldCheck | AnalyzeId.js:168-185 | on non-empty input, each field flag is set exactly when that field's check passes on the characters |
| MrzValidation.FieldChecks | AnalyzeId.js:168-185 | the same for all four fields at once |
| MrzValidation.CombinedIsCompositeSpan | AnalyzeId.js:191-199 | when the field check characters are digits, `combined` is positions 0..9, 13..19 and 21..42 of the line |
| MrzValidation.FinalCheck | AnalyzeId.js:191-201 | the composite flag is set exactly when position 43 is a digit equal to the check digit of that span |
| MrzValidation.ChecksPass | AnalyzeId.js:168-201 | the five check flags are all set exactly when every check passes on the characters of the line |
| MrzValidation.ValidIff | AnalyzeId.js:187-209 | the line is valid exactly when every check passes and the expiry date read from positions 21..26 is not before now |
| MrzValidation.ExpiryFlagByCalendar | AnalyzeId.js:187-189 | the expiry flag compares calendar days as `NotExpiredByCalendar` does |
| MrzValidation.Displayed | AnalyzeId.js:211-214 | the values passed to the display setters are positions 0..8, 28..37 and 21..26 of the line (the screen shows them only while the line is valid) |
| MrzValidation.UncheckedPositions | AnalyzeId.js:168-201 | the nationality and the sex take part in no check: lines that differ only there get the same report |
| MrzValidation.SameReport | AnalyzeId.js:168-224 | the report depends only on the four fields and the five check characters |
| MrzValidation.TrailingCharacters | AnalyzeId.js:168-176 | characters after position 43 do not change the report |
| MrzValidation.FieldSubstitution | AnalyzeId.js:178-201 | on a line that passes, changing one field character is caught by the field check and by the composite exactly when the values differ modulo 10; the other fields still pass |
| MrzValidation.OwnFieldSubstitution | AnalyzeId.js:178-185 | changing a character of a passing field keeps the field passing exactly when the values agree modulo 10 |
| MrzValidation.CompositeSubstitution | AnalyzeId.js:191-201 | changing a character the composite covers keeps it passing exactly when the values agree modulo 10 |
| MrzValidation.FieldSubstitutionDetected | AnalyzeId.js:178-209 | a caught change clears the field flag, the composite flag and `valid`, and leaves the other field flags set |
| MrzValidation.CheckCharSubstitution | AnalyzeId.js:169-201 | on a line that passes, any change of a field check character fails that field and no other field; a digit also fails the composite |
| MrzValidation.CheckCharSubstitutionDetected | AnalyzeId.js:169-209 | the same, read off the report: that flag and `valid` are cleared |
| MrzValidation.FinalCharSubstitutionDetected | AnalyzeId.js:176-209 | any change of the composite character clears the composite flag and `valid` and keeps the field flags set |
| MrzValidation.SameFieldCheck | AnalyzeId.js:178-185 | a field check depends only on the field and its check character |
| MrzValidation.LineLayout | AnalyzeId.js:168-176 | fields of lengths 9, 6, 6 and 14 placed in layout order land at the offsets the validator reads, and the composite span is the four fields with their check characters |
| MrzValidation.LastLine | AnalyzeId.js:103-104 | the picked line contains no line break and is the text after the last line break, or the whole text |
| MrzValidation.LastLineOfLines | AnalyzeId.js:103-104 | of lines joined by line breaks, the last one is picked |
| MrzSpecimen.SpecimenLayout | AnalyzeId.js:168-176 | the fields of the specimen line sit at the validator's offsets |
| MrzSpecimen.SpecimenChecksHold | AnalyzeId.js:178-201 | every check passes on the specimen line |
| MrzSpecimen.SpecimenExpiry | AnalyzeId.js:144-152 | the specimen's expiry date reads as 23 June 1994, with month index 5 |
| MrzSpecimen.SpecimenFlags | AnalyzeId.js:178-201 | on the specimen, all five check flags are set |
| MrzSpecimen.SpecimenValidity | AnalyzeId.js:187-209 | the specimen is valid exactly up to local midnight at the start of 23 June 1994 |
| MrzSpecimen.SpecimenShown | AnalyzeId.js:212-214 | the specimen's slices at 0..8, 21..26 and the first ten characters of 28..41 are `L898902C<`, `940623` and `ZE184226B<` |
| MrzSpecimen.SpecimenDisplay | AnalyzeId.js:211-214 | the specimen passes `L898902C<`, `ZE184226B<` and `940623` to the display setters |

## Left out

- The React Native component, its JSX and its styles: they are user interface, not validation logic.
- `pickImage`, the image picker and the file read: device I/O.
- `analyzeID`: the S3 upload, the Textract call, the iteration over the returned fields and the async flow are network I/O. Only the pick of the last line (lines 103-104) is modelled.
- `console.log`, `console.error` and `Alert.alert`: output only.
- The state setters are not modelled as state. On non-empty input `setMrzIsValid` receives `valid`, and the three display setters receive the values in `Report.display`. On empty input `Report.display` is `None` and no setter runs, so the previous line's values stay on screen; that retained screen state is not modelled.
- The JSX that shows the three values only while `mrzIsValid` is true (lines 335, 349 and 365) is user interface and not modelled.
- CheckCharSubstitution: states the composite outcome only for a digit replacement. For a non-digit, `combined` contains `NaN` and the composite flag depends on the rest of the line, so no single outcome holds.
- `new Date()` is a parameter `now`. It is local time in milliseconds since the epoch, so the time zone and daylight saving time are left out.
- ValidateMrz: a `null` or `undefined` argument cannot be represented. Only the empty string is modelled as falsy, the one falsy value that `split` can return.
- Strings are sequences of Dafny characters, not UTF-16 code units. Characters outside the Basic Multilingual Plane count as one position here.
- Numbers are unbounded integers, not doubles. The sums stay below 2^53 for every input shorter than about 3.6 × 10^13 characters.
- TimeValue: does not model `TimeClip` or the rule that maps years 0..99 passed to `new Date` into the 1900s. `parseDate` never passes such a year, because its year is always from 1950 to 2049.
- `parseInt` without a radix (lines 124 and 169-176) is modelled as radix 10. The two agree on the one-character strings passed there, which cannot start with `0x`.
