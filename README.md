# cparser: a verified model of the command-line parser core

cparser is a fixed-footprint command parser for embedded firmware. A line of
text such as `move D1.0 S5.0` is split into space-separated fields. The first
field names a command in a registry. Each later field starts with a parameter
letter followed by a value. The value is decoded according to the parameter's
declared type: a single letter, a signed 32-bit integer, or a real written in
fixed-point or scientific notation. The decoded values go into a small
letter-to-value dictionary, and the command's callback receives that
dictionary.

This project models the core of `cparser/src/cparser.c` and the dictionary of
`cparser/inc/dictionary.h`:

- `common.dfy`: an `Option` type and the configuration constants (5
  parameters, 25 commands, 5-character names, 6 fields).
- `decimal.dfy`: decimal digit strings and their values.
- `decoders.dfy`: the numeric decoders `parseUnsignedInteger`, `getSign`,
  `cropJerk`, `parseSignedInteger`, `parseFractional` and `parseFloat`. Each
  is a specification function over a half-open window `[start, end)` of the
  buffer, plus a method that runs the source's loops. The method is proved to
  compute the function.
- `decoder_props.dfy`: what the decoders accept and what they produce. This
  covers round trips through decimal text, exactly when a decode fails, what a
  fixed-point or scientific literal decodes to, and that a decoder reads
  nothing outside its window.
- `fields.dfy`: `parseFields`, both as a function and as the source's
  single-pass scan that fills a fixed array. It also characterises the fields
  exactly.
- `names.dfy`: `getLength` and `doesMatch` on NUL-terminated name buffers.
- `dictionary.dfy`: the dictionary as a class over two fixed arrays and a
  count, with `Add`, `Remove`, `Clear`, `DoesExist` and `Get`.
- `parser.dfy`: the registry as a class (`Cp_Reset`, `Cp_Register`,
  `Cp_FeedLine`). `Dispatch` is a function stating what feeding a line does:
  the line is rejected, a parameter fails to decode, or the callback runs with
  its bindings. `FeedLine` is proved to do exactly that to the dictionary.
- `dispatch_props.dfy`: when a line is accepted, what the callback's
  dictionary holds, and how registration order decides between commands.
- `test_lines.dfy`: the command table and lines of the repository's test
  program, with what feeding each line does.

The source's fixed-width arithmetic is modelled in the main decoders and in
`Dispatch`:

- the line length narrowed from 16 to 8 bits;
- the integer accumulator taken modulo 2^32;
- the unsigned product stored into an `int32`.

Two 8-bit loop counters wrap: the exponent counter of `parseFloat` and the
index of `cropJerk`. Each is modelled only by as-written members under
Findings. The exponent loop then runs forever. The `cropJerk` loop either runs
forever or wraps to index 0 and stops there, before the window start. The
unsigned decode that follows then reads from that index, meets the sign or
the exponent marker, and refuses it. `ParseFloat`,
`GetSign` and `Dispatch` use the corrected loops. On such inputs the source
either never returns or refuses the line, and the model gives a value. The
uint32 fraction divisor is not modelled (see Left out).

Reals are exact mathematical reals.

Two places where the code does something other than it appears to intend:

- **cropJerk when only zeros or spaces remain.** The clamp of the stop index
  to the last index is overwritten by the following assignment
  (`cparser/src/cparser.c:547-556`); had it taken effect, it would leave the
  window's last character for the unsigned decode. The model follows the
  loop as written whenever its 8-bit index does not wrap: the scan stops at
  or past the window end, and every caller treats that as an empty
  remainder. The wrapping index is the second row under Findings.
- **Marker test in parseFloat.** The source tests the marker's absolute index
  against 0, not against the window start (`cparser/src/cparser.c:295`). The
  model does the same (`MarkerAtWindowStartExample`). It makes no difference
  for `parseValue`, which always passes start 0.

## Model

| member | source | states |
|---|---|---|
| Decoders.ParseUnsignedInteger | cparser/src/cparser.c:465-495 | the loop computes `UnsignedDecode`: it fails exactly when the window holds a non-digit, and otherwise gives the window's decimal value modulo 2^32 (an empty window gives 0) |
| Decoders.UnsignedStep | cparser/src/cparser.c:476-484 | one step of `__value = __value * 10 + digit` keeps the accumulator equal to the value of the digits read so far, modulo 2^32 |
| DecoderProps.UnsignedDigitsIff | cparser/src/cparser.c:465-495 | a window decodes if and only if every character in it is a decimal digit |
| DecoderProps.UnsignedOfDecimalString | cparser/src/cparser.c:465-495 | the decimal text of any n decodes to n modulo 2^32 |
| DecoderProps.UnsignedRoundTrip | cparser/src/cparser.c:465-495 | every value below 2^32, written in decimal, decodes back to itself |
| DecoderProps.UnsignedNineDigits | cparser/src/cparser.c:476-484 | up to nine digits never reach the uint32 wrap: the value is exactly that of the digits |
| DecoderProps.UnsignedShift | cparser/src/cparser.c:465-495 | the unsigned decode of a window depends only on the characters inside it |
| DecoderProps.UnsignedLeadingZerosExample | cparser/src/cparser.c:465-495 | "007" decodes to 7 |
| DecoderProps.UnsignedRejectsExample | cparser/src/cparser.c:465-495 | "1a" is refused, and the empty window gives 0 |
| Decoders.Crop | cparser/src/cparser.c:542-557 | the stop index is the first index at or after the start that is neither '0' nor ' ', or the window end |
| Decoders.CropJerk | cparser/src/cparser.c:542-557 | the skipping loop stops where `Crop` says |
| Decoders.CropAsWrittenNeverEnds | cparser/src/cparser.c:542-557 | with the source's 8-bit index, when all 256 reachable characters are '0' or ' ' the loop never exits, however many iterations are allowed |
| DecoderProps.CropAsWrittenWraps | cparser/src/cparser.c:542-557 | when the characters from the start index to 255 are all '0' or ' ', the loop as written wraps to index 0 and stops at the first other character there, before the window start |
| DecoderProps.CropAsWrittenAgrees | cparser/src/cparser.c:542-557 | when a window of at most 256 characters holds a character other than '0' and ' ', the loop as written stops where `Crop` does |
| Decoders.GetSign | cparser/src/cparser.c:506-532 | the sign is -1 exactly when the window starts with '-'; on a non-empty window the stop index is past at most one sign and then past the cropped run |
| DecoderProps.SignShift | cparser/src/cparser.c:506-557 | the sign and the magnitude start depend only on the window's characters |
| Decoders.ParseSignedInteger | cparser/src/cparser.c:430-453 | the method computes `SignedDecode`: an empty window gives 0; otherwise the text after the sign and the cropped run must decode as unsigned, and the value is the uint32 product with the sign, stored into an int32 |
| Decoders.Wrap32 | cparser/src/cparser.c:445 | the value stored in the int32 is congruent to the product modulo 2^32 |
| DecoderProps.SignedDigits | cparser/src/cparser.c:430-453 | an optional sign followed by digits decodes to the digits' value modulo 2^32, with the sign applied, as an int32 |
| DecoderProps.SignedOfDigits | cparser/src/cparser.c:430-453 | the same, for a window whose text after the sign is all digits |
| DecoderProps.CropDigits | cparser/src/cparser.c:542-557 | cropping stops inside a run of digits, dropping only leading zeros, so the value of the run is unchanged |
| DecoderProps.IntegerRoundTrip | cparser/src/cparser.c:430-453 | every int32, written in decimal with '-' for negatives, decodes back to itself |
| DecoderProps.SignedFailsIff | cparser/src/cparser.c:430-453 | a window is refused if and only if some character after the sign and the cropped run is not a digit |
| DecoderProps.SignedShift | cparser/src/cparser.c:430-453 | the signed decode of a window depends only on the characters inside it |
| DecoderProps.SignedPositiveExample | cparser/src/cparser.c:430-453 | "10" decodes to 10 |
| DecoderProps.SignedNegativeExample | cparser/src/cparser.c:430-453 | "-42" decodes to -42 |
| DecoderProps.SignedTwoSignsExample | cparser/src/cparser.c:430-453 | "--5" is refused: only one sign is taken |
| DecoderProps.SignedDigitExample | cparser/src/cparser.c:430-453 | a single digit decodes to its value |
| Decoders.FindDot | cparser/src/cparser.c:366-374 | the decimal point is the first '.' after the sign, or the window end |
| Decoders.SeekDot | cparser/src/cparser.c:366-374 | the search loop finds `FindDot` |
| Decoders.ParseIntegral | cparser/src/cparser.c:376-386 | the integral part is the unsigned decode of the text before the point, or 0 when that text is empty |
| Decoders.FractionSnoc | cparser/src/cparser.c:394-407 | each digit after the point adds digit / 10^position, the step of `fraction += digit / divisor` |
| Decoders.FractionBelowOne | cparser/src/cparser.c:389-408 | the fraction part lies in [0, 1) |
| Decoders.ParseFractionDigits | cparser/src/cparser.c:389-408 | the digit loop refuses any non-digit and otherwise sums digit / 10^position |
| Decoders.ParseFraction | cparser/src/cparser.c:388-408 | the fraction is read only when a character follows the point; a trailing point means no fraction |
| Decoders.ParseFixedPoint | cparser/src/cparser.c:366-410 | after the sign, the result is sign * (integral + fraction), and the decode fails if either part fails |
| Decoders.ParseFractional | cparser/src/cparser.c:347-418 | the method computes `FractionalDecode`: an empty window, or one holding only a sign and cropped characters, gives 0; otherwise it gives the fixed-point decode |
| DecoderProps.FractionalFailsIff | cparser/src/cparser.c:347-418 | a window is refused if and only if it holds more than a sign and cropped characters, and some character between the crop and the first '.' or some character after that '.' is not a digit |
| DecoderProps.FractionalLiteral | cparser/src/cparser.c:347-418 | sign, digits, '.' and more decodes if and only if everything after the point is digits, to sign * (integral mod 2^32 + fraction) |
| DecoderProps.FractionalOfParts | cparser/src/cparser.c:347-418 | a window of sign, digits and a point splits into its integral and fraction parts |
| DecoderProps.FixedPointAt | cparser/src/cparser.c:366-410 | with the first point at `j`, the remainder splits there into its integral and fraction parts |
| DecoderProps.FractionalOfDigits | cparser/src/cparser.c:347-418 | a window of sign and digits with no point decodes to a whole number |
| DecoderProps.FractionalWhole | cparser/src/cparser.c:347-418 | a sign followed by digits, with no point, decodes to that signed whole number |
| DecoderProps.FixedPointBetween | cparser/src/cparser.c:410 | the fraction never carries: the magnitude lies in [integral, integral + 1) |
| DecoderProps.FractionalOneExample | cparser/src/cparser.c:347-418 | "1.0" decodes to 1 |
| DecoderProps.FractionalFiveExample | cparser/src/cparser.c:347-418 | "5.0" decodes to 5 |
| DecoderProps.FractionalQuarterExample | cparser/src/cparser.c:347-418 | "1.25" decodes to 1.25 |
| DecoderProps.FractionalNegativeExample | cparser/src/cparser.c:347-418 | "-0.5" decodes to -0.5 |
| DecoderProps.FractionalTwoPointsExample | cparser/src/cparser.c:389-408 | "1.2.3" is refused: a second point is not a digit |
| Decoders.FindMarker | cparser/src/cparser.c:267-274 | the marker is the first 'e' or 'E' in the window, or the window end |
| Decoders.ParseFloat | cparser/src/cparser.c:260-335 | the method computes `FloatDecode`: an empty window gives 0; no marker, or one only as the last character, means a fractional decode; otherwise a scientific decode |
| Decoders.ParseScientific | cparser/src/cparser.c:289-327 | the mantissa is the fractional decode before the marker (1 when the marker is at index 0) and the exponent is the signed decode after it; the value is mantissa * 10^exponent, and the decode fails if either part fails |
| Decoders.TenPow | cparser/src/cparser.c:313-324 | 10^p is positive for every integer p |
| Decoders.Scale | cparser/src/cparser.c:313-324 | the scaling loop, with an unbounded counter, gives mantissa * 10^power (this is the corrected loop; see Findings) |
| Decoders.ScaleAsWrittenNeverEnds | cparser/src/cparser.c:313-324 | with the source's 8-bit counter and abs(power) >= 256, the loop never exits, however many iterations are allowed |
| DecoderProps.ScaleAsWrittenAgrees | cparser/src/cparser.c:313-324 | for abs(power) < 256, the loop as written agrees with `Scale` |
| DecoderProps.TenPowNat | cparser/src/cparser.c:313-324 | 10^k for natural k is the natural power of ten |
| DecoderProps.TenPowInverse | cparser/src/cparser.c:313-324 | scaling down by 10^k undoes scaling up by 10^k |
| DecoderProps.FloatPlain | cparser/src/cparser.c:276-288 | with no marker before the last character, the float decode is the fractional decode |
| DecoderProps.FloatScientific | cparser/src/cparser.c:289-327 | with the first marker at `e` before the last character, the value is the scientific combination of the mantissa and exponent decodes |
| DecoderProps.MarkerAt | cparser/src/cparser.c:267-274 | the marker search stops at the first marker |
| DecoderProps.FloatHundredExample | cparser/src/cparser.c:260-335 | "1E2" decodes to 100 |
| DecoderProps.FloatBareExponentExample | cparser/src/cparser.c:302-305 | "e3" decodes to 1000: a marker at the start stands for a mantissa of 1 |
| DecoderProps.FloatTrailingMarkerExample | cparser/src/cparser.c:276-288 | "5e" is refused, because a trailing marker is no marker and 'e' is not a digit; the empty window gives 0 |
| DecoderProps.MarkerAtWindowStartExample | cparser/src/cparser.c:295-305 | the mantissa test uses the marker's buffer index: the window "e3" at index 1 of "xe3" gives 0, while "e3" alone gives 1000 |
| CommandParser.ParseValue | cparser/src/cparser.c:221-248 | a letter needs exactly one character; an integer is the signed decode and a real the float decode of the whole text; an unknown type never decodes |
| Fields.ScanTiles | cparser/src/cparser.c:143-172 | the fields the scan emits tile the rest of the line |
| Fields.TilesUnique | cparser/src/cparser.c:143-172 | a line has only one tiling |
| Fields.TokenizeIff | cparser/src/cparser.c:143-172 | the fields of a line are exactly a given list if and only if that list tiles the line: each field is non-empty, a field ends only at a space or at the line end, and a space after a field starts the next one |
| Fields.TilesShape | cparser/src/cparser.c:143-172 | a tiling from `p` starts at `p` and ends at the line end; its fields are non-empty, and each next field starts one past the space that ends the previous one |
| Fields.TokenizeShape | cparser/src/cparser.c:154-168 | a line has no field if and only if it is empty; otherwise the first field starts at 0 and the last ends at the line end, every field is non-empty, and consecutive fields are separated by exactly one space |
| Fields.TilesStartInside | cparser/src/cparser.c:143-172 | a tiling from `p` is non-empty if and only if `p` is inside the line |
| Fields.TilesJoin | cparser/src/cparser.c:143-172 | the texts of a tiling, joined with single spaces, give back the part of the line it covers |
| Fields.JoinStep | cparser/src/cparser.c:154-168 | one field, a space, then the join of the rest is the rest of the line |
| Fields.TokenizeJoin | cparser/src/cparser.c:143-172 | joining the field texts of a line with single spaces reproduces the line |
| Fields.DoubleSpaceExample | cparser/src/cparser.c:154 | in "a  b" the second space begins the second field: the fields are "a" and " b" |
| Fields.ParseFields | cparser/src/cparser.c:143-172 | the scan writes the fields into the array in order, with the count, and leaves the cells from the count on unchanged; when there are more than 6 it reports the overflow instead |
| Names.LengthFrom | cparser/src/cparser.c:567-578 | the scan from `i` stops at the first NUL, or at index 255 |
| Names.CLength | cparser/src/cparser.c:567-578 | the length is the index of the first NUL, or 255 when there is none before it |
| Names.NameOf | cparser/src/cparser.c:567-578 | the name is the text before the first NUL and holds no NUL |
| Names.NameOfTerminated | cparser/src/cparser.c:567-578 | a buffer holding a name shorter than 255 and then a NUL reads back as that name |
| Names.GetLength | cparser/src/cparser.c:567-578 | the loop computes `CLength` |
| Names.DoesMatch | cparser/src/cparser.c:183-208 | the result is true if and only if the field text equals the name before the NUL, with the same length and the same characters |
| Dictionaries.IndexOf | cparser/inc/dictionary.h:89-121 | the first index holding a key; None if and only if the key is absent |
| Dictionaries.Dictionary.constructor | cparser/inc/dictionary.h:21-28 | a new dictionary is empty |
| Dictionaries.Dictionary.Add | cparser/inc/dictionary.h:37-42 | the pair is appended after the pairs already there |
| Dictionaries.LookupAfterAdd | cparser/inc/dictionary.h:37-42 | after adding an absent key, Get of it gives the new value; Get of a present key, or of any other key, is as before |
| Dictionaries.IndexOfSnoc | cparser/inc/dictionary.h:37-42 | a key added at the end is found there only when it occurs nowhere before |
| Dictionaries.Dictionary.Remove | cparser/inc/dictionary.h:50-69 | the first pair with the key is overwritten by the last pair and the count drops by one; an absent key changes nothing |
| Dictionaries.SwapRemove | cparser/inc/dictionary.h:60-64 | removal by moving the last element into the slot shortens the sequence by one |
| Dictionaries.RemoveKeepsPairs | cparser/inc/dictionary.h:50-69 | removal keeps every other pair: the pairs after it are the pairs before, less the removed one, as a multiset |
| Dictionaries.SwapRemoveMultiset | cparser/inc/dictionary.h:60-64 | the swap removes exactly one occurrence of the removed element |
| Dictionaries.LookupAfterRemove | cparser/inc/dictionary.h:50-69 | with distinct keys, after removing a key Get of it gives NULL, and Get of every other key is unchanged |
| Dictionaries.Dictionary.Clear | cparser/inc/dictionary.h:76-79 | no pairs remain |
| Dictionaries.Dictionary.DoesExist | cparser/inc/dictionary.h:89-100 | the result is true if and only if some pair has the key |
| Dictionaries.Dictionary.Get | cparser/inc/dictionary.h:110-121 | the result is the value of the first pair with the key, and NULL if and only if no pair has it |
| Dictionaries.LookupSomeIff | cparser/inc/dictionary.h:89-121 | Get returns a value exactly when DoesExist is true |
| CommandParser.Parser.constructor | cparser/src/cparser.c:34-36 | the registry starts empty, and so does the dictionary |
| CommandParser.Parser.Reset | cparser/src/cparser.c:42-45 | no command remains registered, and the dictionary is untouched |
| CommandParser.Parser.Register | cparser/src/cparser.c:50-53 | the command is appended after those already registered |
| CommandParser.FindFrom | cparser/src/cparser.c:76-85 | the first command at or after index `i` whose name is the field's text, or None when no such command exists |
| CommandParser.Parser.FindCommandIndex | cparser/src/cparser.c:76-85 | the lookup loop finds the first registered command whose name matches the first field |
| CommandParser.Visible | cparser/src/cparser.c:63-69 | the line the scan reads is the first (length mod 256) characters, the 16-bit length narrowed to 8 bits |
| CommandParser.FieldFrom | cparser/src/cparser.c:103-109 | the first field at or after index `j` that starts with the letter, or None when there is none |
| CommandParser.FindField | cparser/src/cparser.c:103-125 | the field search loop skips the command name and finds the first field starting with the parameter's letter |
| CommandParser.ValueText | cparser/src/cparser.c:111 | the text decoded for a parameter is its field less the leading letter |
| CommandParser.StepParam | cparser/src/cparser.c:103-124 | one parameter is skipped when no field carries its letter, bound when its field decodes, and fails otherwise |
| CommandParser.BindFrom | cparser/src/cparser.c:101-126 | binding from parameter `i` on produces at most one binding per parameter |
| CommandParser.BindFromStep | cparser/src/cparser.c:101-126 | one pass of the parameter loop: a failed decode stops with what was bound before; a skipped parameter adds nothing; a decoded one is added after what was bound before |
| CommandParser.Parser.BindOne | cparser/src/cparser.c:101-126 | one pass of the loop leaves the dictionary holding what was bound so far, and stops exactly at a failed decode |
| CommandParser.Parser.Record | cparser/src/cparser.c:115 | Dictionary_Add of one decoded parameter appends its binding |
| CommandParser.Parser.BindParams | cparser/src/cparser.c:93-126 | on a cleared dictionary, the loop succeeds exactly when every parameter is satisfied, and leaves the dictionary holding the bindings made, in parameter order, including on failure |
| CommandParser.FieldsInLine | cparser/src/cparser.c:143-172 | every field of a line is non-empty and lies inside it |
| CommandParser.Dispatch | cparser/src/cparser.c:63-132 | an accepted line has 1 to 6 fields, and its command is the first registered one whose name is the text of the first field |
| CommandParser.Parser.FeedLine | cparser/src/cparser.c:63-132 | the result is TRUE exactly when `Dispatch` accepts, and the callback that runs is the matched command's. A rejected line leaves the dictionary unchanged. A failed one leaves it holding the parameters bound before the failure. An accepted one leaves it holding all the bindings |
| DispatchProps.BindFromOkIff | cparser/src/cparser.c:101-126 | binding from `i` on succeeds if and only if no later parameter fails |
| DispatchProps.BindOkIff | cparser/src/cparser.c:101-126 | binding succeeds if and only if every declared parameter either has no field or has a field that decodes |
| DispatchProps.AcceptedIff | cparser/src/cparser.c:63-132 | a line is accepted if and only if it has between 1 and 6 fields, its first field names a registered command, and every parameter of the first such command is satisfied |
| DispatchProps.LookupCons | cparser/inc/dictionary.h:110-121 | Get on bindings with a new first pair gives that pair's value for its key, and otherwise the result on the rest |
| DispatchProps.BindFromLookup | cparser/src/cparser.c:101-126 | with distinct letters, Get of a parameter's letter gives its decoded value or NULL, and Get of any other letter gives NULL |
| DispatchProps.AcceptedLookup | cparser/src/cparser.c:63-132 | in the callback's dictionary, Get of a parameter's letter gives the value decoded from its first field, or NULL when the line has no such field; Get of any other letter gives NULL |
| DispatchProps.AppendValid | cparser/src/cparser.c:50-53 | appending well-formed commands keeps the registry well-formed |
| DispatchProps.FindAppend | cparser/src/cparser.c:76-85 | the first matching command stays the first match when more commands are registered after it |
| DispatchProps.FirstRegisteredWins | cparser/src/cparser.c:63-132 | once a line reaches a command, registering more commands does not change what feeding it does |
| DispatchProps.EmptyRegistryRejects | cparser/src/cparser.c:42-45 | after Cp_Reset every line is rejected |
| TestLines.TableNames | tests/test.cpp:12-38 | the test program's four commands are well-formed and named delay, versi, move and pump |
| TestLines.TableFind | cparser/src/cparser.c:76-85 | each test command is found by its name, and an unknown name finds nothing |
| TestLines.DelayAccepted | tests/test.cpp:86-95 | "delay T1E2" runs delay's callback with T bound to 100 |
| TestLines.LongZeroCropHangs | cparser/src/cparser.c:542-557 | for "delay T0" and 256 spaces fed with length 264, only "delay T0" is split into fields, and the source's crop of the value "0" never stops |
| TestLines.LongZeroAccepted | cparser/src/cparser.c:542-557 | the same buffer, with the crop stopped at the window end, runs delay's callback with T bound to 0 |
| TestLines.LongNegZeroCropWraps | cparser/src/cparser.c:430-453 | for "versi V-0" and 256 spaces fed with length 265, only "versi V-0" is split into fields; after the sign, the source's crop of the value "-0" wraps and stops on the '-', which the unsigned decode refuses |
| TestLines.LongNegZeroAccepted | cparser/src/cparser.c:542-557 | the same buffer, with the crop stopped at the window end, runs versi's callback with V bound to 0 |
| TestLines.VersiAccepted | tests/test.cpp:96-105 | "versi V10" runs versi's callback with V bound to 10 |
| TestLines.MoveAccepted | tests/test.cpp:106-116 | "move D1.0 S5.0" runs move's callback with D bound to 1 and S to 5 |
| TestLines.PumpAccepted | tests/test.cpp:117-127 | "pump V1.25 MD" runs pump's callback with M bound to the letter D and V to 1.25, in declaration order |
| TestLines.UnknownRejected | cparser/src/cparser.c:87-91 | a line whose first field names no command is rejected |
| TestLines.MissingParamAccepted | cparser/src/cparser.c:101-131 | a parameter with no field is left unbound and the callback still runs |
| TestLines.PartialFailed | cparser/src/cparser.c:120-123 | a parameter that does not decode gives FALSE, no callback runs, and the dictionary keeps the bindings made before it |

## Left out

- Floating point: reals are exact. Rounding of float32 arithmetic is not
  modelled, including in the 10.0f / 0.1f scaling steps and the fraction sum.
- Decoders.ParseFractionDigits: the uint32 `divisor` in the fraction loop is
  unbounded here. In the source it wraps after nine digits, so fractions with
  ten or more digits differ.
- The byte arena `bulk_data` and the per-type sizes written by `parseValue`
  are not modelled. A decoded value is carried directly in the dictionary.
- Callbacks are not modelled. A command's callback is a number, and
  `FeedLine` returns the number of the one that runs.
- Reads past a window are not modelled:
  - Decoders.Crop: `cropJerk` scans on past the window end while it sees
    '0' or ' '; the model stops at the end. Where the scan wraps, it never
    ends or stops before the window start and the line is refused; that is
    the second row under Findings.
  - `parseValue` writes `input[0]` even for an empty letter field.
- Concurrency and re-entrancy are not modelled. The source has one static
  registry and dictionary, modelled as one object.
- CommandParser.Parser.Register: requires free capacity (fewer than 25
  commands). The source writes past its table with no check.
- CommandParser.Dispatch: a line of more than 6 fields is rejected. The source
  writes past its field array in that case, which is undefined behaviour.
- CommandParser.ValidCommand: requires at most 5 parameters, the size of the
  source's parameter array. A larger `numOfParams` is not modelled.
- Dictionaries.Dictionary.Add: requires free capacity (fewer than 5 pairs).
  `FeedLine` never adds more pairs than a command has parameters.
- CommandParser.Parser.FeedLine: requires a line shorter than 2^16, the range
  of the source's `uint16_t` length.
- Names.DoesMatch: requires the name buffer to hold a NUL or at least 256
  characters. The source reads until a NUL or index 255.
- CommandParser.ParseValue: the meaning of each decoded type is stated by
  `ValueDecode` itself. The properties of those decodes are the
  `DecoderProps` lemmas.
- Decoder windows are modelled as absolute indices into the same buffer, as
  in the source. The lemmas that a decode depends only on its window are
  proved for the integer decoders (`UnsignedShift`, `SignedShift`), not for
  the fractional and float decoders.

## Findings

| source | as written | input that shows it | evidently intended | confidence | as-written member | corrected member |
|---|---|---|---|---|---|---|
| cparser/src/cparser.c:313-324 | the exponent loop counts with a `uint8_t` against a `uint32_t` absolute power, so for abs(power) >= 256 the counter wraps from 255 to 0 and the loop never ends | "delay T1E256" (parameter text "1E256") | the loop runs abs(power) times and scales the mantissa by 10^power | not executed | Decoders.ScaleAsWrittenNeverEnds | Decoders.Scale |
| cparser/src/cparser.c:542-557 | `cropJerk` counts with a `uint8_t` index that the window end does not stop (the clamp is overwritten), so when the characters from the start to index 255 are all '0' or ' ' the index wraps from 255 to 0: the loop never ends when every reachable character is '0' or ' ', and otherwise stops before the window start, so the following unsigned decode reads the sign or exponent marker and refuses it (the same happens for "delay T1e0" followed by 256 spaces, fed with length 266) | "delay T0" followed by 256 spaces, fed with length 264, hangs (`TestLines.LongZeroCropHangs`); "versi V-0" followed by 256 spaces, fed with length 265, is refused (`TestLines.LongNegZeroCropWraps`) | the scan stays inside the window and never wraps; at the end the remainder is empty, as with the unwrapped loop | not executed | Decoders.CropAsWrittenNeverEnds | Decoders.Crop |
