# Passport batch validation (Advent of Code 2020, day 4)

A Dafny model of the passport checker in `code.go`. A batch file is a list of
lines. Blocks of lines separated by blank lines each describe one passport as
`key:value` tokens. `RecordIterator` groups the lines into blocks, and
`RecordFromString` turns each block into a `Record` of eight string fields.
`Part1` counts the records that have every required field (`IsValidv1`), and
`Part2` counts those whose required fields also pass their own checks
(`IsValidv2`).

Modules:

- `Wrappers`: the `Option` type. `None` stands for the panic that ends the program.
- `Strconv`: digit strings, `strconv.ParseInt` in base 10 with its 64-bit range check, and the decimal formatting used to state round trips.
- `Text`: the white space of `bufio.ScanWords` (`Words`), `strings.Split`, a `Join` to state round trips, and `strings.Title`.
- `Records`: the `Record` value and the two validity policies with their seven field checks.
- `Parsing`: `RecordFromString`. It is a loop over the words of a block, proved equal to a fold (`ParseTokens`) and to a field-by-field reference definition (`Outcome`).
- `Grouping`: `RecordIterator`. It is the line loop, proved equal to parsing the blocks that `Segments` cuts out of the lines.
- `Counting`: `Part1` and `Part2`. Each is a counting loop proved equal to `Tally`.

Some behaviours of the code are easy to misread. The model follows the code:

- A key reaches a field only through `strings.Title` and `FieldByName`. So `byr` and `Byr` set `Byr`, but `BYR` or `bYr` match nothing (`Parsing.KeyTable`).
- A key that names no field is not ignored. `FieldByName` returns the zero `reflect.Value`, and `SetString` on it panics, ending the program (`Parsing.UnknownKeyFails`).
- The stored value is `pieces[1]`: the text between the first colon and the second colon, if there is one. It is not everything after the first colon (`Parsing.TokenPieces`).
- A blank line always closes a block. Two passports separated by a blank line give two records. A block closed by a blank line carries that blank line as a trailing space (`Grouping.SegmentsGroupLines`).
- A second blank line in a row is a block of its own. It becomes an empty record, which neither part counts (`Grouping.ConsecutiveBlankLines`).
- Years go through `strconv.ParseInt`. A sign and leading zeros are accepted, so `01920` is a valid birth year (`Records.BirthYearBounds`).

## Model

| member | source | states |
|---|---|---|
| Records.IsValidv1 | code.go:23-31 | a record passes `IsValidv1` exactly when every field except `Cid` is non-empty |
| Records.IsValidv2 | code.go:34-42 | every record that passes `IsValidv2` also passes `IsValidv1` |
| Records.YearInRange | code.go:46-50 | a year field that passes is non-empty text ending in a digit; its exact meaning is given by `YearRoundTrip` |
| Records.ByrIsValid | code.go:45-51 | a valid birth year is never empty |
| Records.IyrIsValid | code.go:54-60 | a valid issue year is never empty |
| Records.EyrIsValid | code.go:63-69 | a valid expiration year is never empty |
| Records.HgtIsValid | code.go:72-92 | a valid height is longer than two characters and ends in `cm` or `in` |
| Records.HclIsValid | code.go:95-97 | a valid hair colour is non-empty and holds no upper-case letter |
| Records.PidIsValid | code.go:121-126 | a valid passport id is never empty |
| Records.CountryIdIgnored | code.go:14-16 | changing `Cid` changes the outcome of neither policy |
| Records.YearRoundTrip | code.go:45-51 | a year written as a 64-bit integer passes the range check exactly when the integer lies in the range |
| Records.BirthYearBounds | code.go:45-51 | `1919` and `2003` are rejected; `1920`, `2002` and `01920` are accepted |
| Records.IssueYearBounds | code.go:54-60 | `2009` and `2021` are rejected; `2010` and `2020` are accepted |
| Records.ExpirationYearBounds | code.go:63-69 | `2019` and `2031` are rejected; `2020` and `2030` are accepted |
| Records.HeightRoundTrip | code.go:72-92 | a height written as a number and a two-letter unit is valid exactly when the unit is `cm` and the number is 150..193, or the unit is `in` and the number is 59..76 |
| Records.HeightCentimetreBound | code.go:84-85 | `193cm` is valid and `194cm` is not |
| Records.HeightInchBound | code.go:82-83 | `76in` is valid and `77in` is not |
| Records.HeightNeedsUnit | code.go:81-89 | a height of more than two characters whose last two are neither `cm` nor `in` is invalid |
| Records.HeightWithoutUnit | code.go:76-89 | `170`, a number without a unit, is invalid |
| Records.HairColourIff | code.go:18 | a hair colour is valid exactly when it is `#` followed by some 24-bit number written as six lower-case hex digits |
| Records.HairColourLowerCase | code.go:95-97 | a hair colour with an upper-case hex letter after the `#` is invalid |
| Records.EclIsValid | code.go:99-118 | the search returns true exactly when the eye colour is one of the seven options |
| Records.PassportIdIff | code.go:19 | a passport id is valid exactly when it is some number below 10^9 written with exactly nine decimal digits, leading zeros included |
| Records.PassportIdExamples | code.go:121-126 | `000000001` is valid; the eight-digit and ten-digit ids are not |
| Records.InRangeRecordIsValid | code.go:34-42 | a record built from in-range years, a height in centimetres, a hex colour, an eye-colour option and a nine-digit id passes both policies |
| Records.Set | code.go:157 | setting a field changes that field to the value and leaves every other field as it was |
| Records.FieldsDetermineRecord | code.go:14-16 | two records that agree on all eight fields are equal |
| Strconv.ParseFormatInt | code.go:46 | parsing the decimal text of any 64-bit integer gives that integer back |
| Strconv.ParseIntLeadingZero | code.go:46 | a leading zero on a digit string does not change what it parses to |
| Strconv.ParseInt | code.go:46-50 | a successful parse yields a 64-bit value, from non-empty text that is an optional `+` or `-` followed by digits only |
| Strconv.ParseSigned | code.go:46-50 | an optional sign followed by digits parses to its signed value when that value fits in 64 bits, and fails otherwise |
| Strconv.ValueOfPadDigits | code.go:19 | the nine-digit text of a number below 10^9 reads back as that number |
| Strconv.PadDigitsOfValue | code.go:19 | every string of digits is the padded text of its own value |
| Text.Words | code.go:149-151 | every token the word scanner returns is non-empty and free of white space |
| Text.WordsOfJoin | code.go:149-151 | scanning the words of tokens joined by single spaces gives those tokens back |
| Text.WordsAroundSpace | code.go:149-151 | a white-space character splits the scan into the words before it and the words after it |
| Text.Split | code.go:153-154 | a split yields at least one piece, more than one exactly when the separator occurs, and no piece contains the separator |
| Text.JoinSplit | code.go:154 | joining the pieces of a split with the separator gives back the string |
| Text.SplitJoin | code.go:154 | splitting pieces that are joined with a separator they do not contain gives back the pieces |
| Text.Title | code.go:155 | the title-cased key has the length of the key |
| Text.TitleChars | code.go:155 | the first character and every character after a separator are title-cased; every other character, and every character that is not a lower-case ASCII letter, is unchanged |
| Parsing.FieldByName | code.go:157 | the field lookup finds exactly the field whose Go name equals the given name |
| Parsing.KeyTable | code.go:155-157 | a key sets field `f` exactly when it is `f`'s lower-case key or its Go field name |
| Parsing.TokenPieces | code.go:153-156 | the key is the text before the first colon and the value is the text up to the next colon or the end; neither holds a colon |
| Parsing.ApplySpec | code.go:153-157 | one token panics exactly when its key names no field; otherwise it writes its value into the field it names and leaves the other fields alone |
| Parsing.ParseTokens | code.go:151-159 | the tokens applied in order to a blank record, stopping at the first panic; `ParseTokensOutcome` states what this gives |
| Parsing.OutcomeStep | code.go:151-159 | a token that does not panic moves the field-by-field outcome on by that token |
| Parsing.RecordFromString | code.go:147-161 | the word loop produces exactly the outcome of applying the tokens in order to a blank record, `None` at the first unknown key |
| Parsing.ParseTokensOutcome | code.go:147-161 | applying the tokens in order equals the reference outcome: a panic when any token has an unknown key, otherwise each field holds the value of the last token for it, or `""` |
| Parsing.StopsAtPanic | code.go:157 | once a prefix of the tokens has panicked, the whole block panics |
| Parsing.ColonlessTokenIgnored | code.go:153 | removing a token without a colon, anywhere in the block, does not change the result |
| Parsing.LaterTokenOverwrites | code.go:157 | a later token for a field replaces that field's earlier value and changes nothing else |
| Parsing.UnmentionedFieldEmpty | code.go:148 | a field no token sets stays `""` in the parsed record |
| Parsing.UnknownKeyFails | code.go:155-157 | a token whose key is neither the lower-case key nor the Go name of any field makes the block fail |
| Parsing.LastValueOfOnlyToken | code.go:157 | when exactly one token sets a field, the field gets that token's value |
| Parsing.TokensRoundTrip | code.go:151-159 | the eight tokens of a record whose values hold no colon and no white space, applied to a blank record, give the record back |
| Parsing.FormatRoundTrip | code.go:147-161 | a record whose values hold no colon and no white space, written as one `key:value` token per field, parses back to itself |
| Parsing.InRangeBlockIsValid | code.go:147-161 | a block written from in-range values parses to a record that both policies accept |
| Grouping.Segments | code.go:170-177 | the blocks of lines, each up to and including a blank line or up to the last line; `SegmentsGroupLines` and `GroupingUnique` state their properties |
| Grouping.Blocks | code.go:171-176 | the text built for each block; `BlockCount` and `BlocksCoverLines` state its properties |
| Grouping.ParseAll | code.go:174 | the records of the blocks in order, `None` at the first panic; `ParseAllSpec` states its properties |
| Grouping.SegmentsGroupLines | code.go:170-177 | the blocks cut the lines into non-empty consecutive pieces, in order; only the last line of a block can be blank, and every block but the final one ends with a blank line |
| Grouping.GroupingUnique | code.go:170-177 | any grouping with those properties is the grouping the loop makes |
| Grouping.BlockCount | code.go:173 | the number of blocks is the number of blank lines, plus one when the last line is not blank; no lines give no blocks |
| Grouping.BlocksCoverLines | code.go:171-172 | the block texts together are every line once, in order, each after one space |
| Grouping.ParseAllSpec | code.go:174 | when every block parses, the records are the blocks' records, one per block in order; otherwise some block panics |
| Grouping.FailedBlock | code.go:174 | when a block that has been closed panics, the whole batch panics |
| Grouping.SegmentsAppend | code.go:173-175 | lines that end at a blank line are grouped independently of the lines that follow them |
| Grouping.BlankLineBlock | code.go:171-175 | a lone blank line is one block, whose text is a single space |
| Grouping.SpaceIsBlank | code.go:148-159 | a block with no tokens parses to the blank record |
| Grouping.ConsecutiveBlankLines | code.go:170-177 | a second blank line in a row adds one block of its own, which becomes an empty record that neither policy accepts |
| Grouping.WordsOfSpaced | code.go:171-172 | the space written before every line keeps lines' words apart: the words of a block are the words of its lines, in order |
| Grouping.OneSegment | code.go:173 | lines with no blank line before the last form a single block |
| Grouping.OneBlock | code.go:170-177 | such lines give one block, which parses to the record of all their lines' words in order, or panics |
| Grouping.TwoLinePassport | code.go:170-177 | a passport whose tokens are split over two lines, after any token, reads back as one record holding every field |
| Grouping.RecordIterator | code.go:164-181 | the line loop delivers exactly the records of the blocks in order, or `None` when a block panics |
| Counting.Part1 | code.go:184-192 | the count is the number of records that pass `IsValidv1`, or `None` when the batch panics |
| Counting.Part2 | code.go:195-204 | the count is the number of records that pass `IsValidv2`, or `None` when the batch panics |
| Counting.CountWhere | code.go:186-190 | no more records are counted than were delivered |
| Counting.Tally | code.go:184-204 | a part answers exactly when every block parses, and its count is at most the number of records |
| Counting.CountAppend | code.go:186-190 | counting a batch in two parts gives the sum of the two counts |
| Counting.CountMonotone | code.go:186-190 | a policy implied by another never counts fewer records |
| Counting.StrictCountAtMostPresence | code.go:184-204 | on the same records the part-two count is at most the part-one count |
| Counting.Part2AtMostPart1 | code.go:184-204 | both parts panic on the same files, and otherwise part two's answer is at most part one's |
| Counting.TallyAtMostBlocks | code.go:173-190 | every count is at most the number of blank lines, plus one when the last line is not blank |

## Left out

- Reading the file (`LinesFromFile`, `check`) is left out. The lines of the file are a parameter, and the `bufio` line-length limit is not modelled.
- The goroutine and channel of `RecordIterator` are left out. The records it sends are returned as a sequence, in the order sent. `Part1` and `Part2` consume them after the grouping finishes, which gives the same count.
- The panic on an unknown key is `None`. No count is returned, where the program would crash.
- The debug output of `HgtIsValid` and `PidIsValid` is left out. That includes the loose passport-id pattern, which only decides whether something is printed.
- The regular expressions are replaced by the character predicates they denote (`^#[a-f0-9]{6}$` and `^[0-9]{9}$`). The regexp engine is left out.
- Strings are sequences of characters. Go indexes bytes: the height check slices off the last two bytes, and `strings.Split` and `ScanWords` work on UTF-8. Values with non-ASCII characters and invalid UTF-8 are not modelled.
- Text.Title: title-casing is modelled for ASCII letters only. Unicode title-case mappings of other letters (such as `ǆ`) are left out. The one key this changes is `ıyr` with a dotless `ı`: Go title-cases it to `Iyr` and sets the issue year, while the model treats it as an unknown key and panics (`Parsing.KeyTable` holds for the model's title-casing).
- Records.IsValidv2 uses the predicate `IsEyeColour`, not a call of the method `EclIsValid`. The method is proved equivalent to that predicate.
