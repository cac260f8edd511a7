# Angular filters: date, number and linky

This project models three filters from `src/filters.js` of an early AngularJS release:

- **`angular.filter.date`** formats a date against a format string. The pieces are:
  - `padNumber`;
  - the getters `dateGetter` and `dateStrGetter`;
  - the `DAY` and `MONTH` name lists and the `DATE_FORMATS` directive table;
  - the loop that cuts the format apart with the `DATE_FORMATS_SPLIT` regular expression, and the `forEach` that renders the parts.
- **`angular.filter.linky`** turns URLs and e-mail addresses in plain text into links. The `URL` regular expression is written out as a leftmost, greedy search. The HTML writer is modelled as a recorded sequence of `chars` / `start` / `end` events.
- **`angular.filter.number`**: the text-building tail. It splits the rounded number's text at '.', drops the sign, inserts thousands separators and pads the fraction.

Modules:

| file | module | what it holds |
|---|---|---|
| `wrappers.dfy` | `Wrappers` | `Option` |
| `decimal.dfy` | `Decimal` | decimal digit strings and their values |
| `slices.dfy` | `Slices` | one generic sequence-slicing lemma |
| `padding.dfy` | `Padding` | `padNumber` |
| `date_formats.dfy` | `DateFormats` | the date record, the getters, `DAY`, `MONTH` and `DATE_FORMATS` |
| `date_filter.dfy` | `DateFilter` | the format tokenizer, the rendering loop and the date filter |
| `url_pattern.dfy` | `UrlPattern` | the linky `URL` expression: lead, body and leftmost match |
| `linky.dfy` | `Linky` | the event writer, the linky loop and its properties |
| `number_filter.dfy` | `NumberFilter` | the string building of the number filter |

Where the code and the documentation disagree, the model follows the code:

- **The 'Z' directive.** The documentation (`src/filters.js:251`) promises a "+sign". The code emits '-' for a negative offset and nothing otherwise. `DateFormats.ZoneEntry` proves that no '+' ever appears.
- **Linky labels.** Concatenating the plain text and the link labels does not give back the input, because a label drops the leading "mailto:". The model instead proves that the matched pieces reconstruct the input (`Linky.PiecesSource`). It also proves how each label relates to its match (`Linky.HrefAndLabel`).
- **The date tokenizer.** `(.*)` in `DATE_FORMATS_SPLIT` stops at a line terminator, while `[^yMdHhmsaZE]*` does not. A format therefore loses everything from the first line terminator that comes after a directive character (`DateFilter.TokenizeIsPrefix`; `DateFilter.LineTerminatorExample` shows a case). A terminator before the first directive character is kept, and so is a format with no directive character.

## Model

| member | source | states |
|---|---|---|
| `Decimal.NatToString` | src/filters.js:153 | the decimal text of a natural number: at least one digit, only digits, no leading zero; a single digit exactly for values below 10 |
| `Decimal.DigitsValueOfNatToString` | src/filters.js:153 | reading the decimal text back gives the number |
| `Decimal.DigitsValue` | src/filters.js:279 | definition of `parseInt(s, 10)` on a digit string: the base-10 value of its digits |
| `Decimal.DigitsValueLeadingZeros` | src/filters.js:154 | zeros put in front of a digit string do not change its value |
| `Decimal.DigitsValueSplit` | src/filters.js:155-156 | a digit string's value is its head's value times 10^k plus its last k digits' value, and the latter is below 10^k |
| `Padding.PadNumber` | src/filters.js:147-158 | the loop that prepends '0' yields the sign followed by the padded and possibly trimmed digits of the absolute value |
| `Padding.PadDigits` | src/filters.js:153-156 | definition: the decimal text, padded with '0' to `digits` characters and, with `trim`, cut to its last `digits` |
| `Padding.Padded` | src/filters.js:147-158 | definition of what `padNumber` returns: '-' for a negative number, then the padded digits of its absolute value |
| `Padding.PaddedSign` | src/filters.js:148-152 | the result starts with '-' exactly when the number is negative, and the rest is all digits |
| `Padding.PaddedUntrimmed` | src/filters.js:153-154 | untrimmed, the digits are the number's text preceded by zeros up to `digits` characters; their length is the larger of the two and their value is the absolute value |
| `Padding.PaddedTrimmed` | src/filters.js:155-156 | trimmed, the result is the last `digits` characters of the padded text, exactly `digits` long; the number equals the cut-off head's value times 10^digits plus the kept digits' value |
| `Padding.PaddedExamples` | src/filters.js:191-196 | 2010 as `yy` is "10" and as `yyyy` is "2010"; -5 padded to 2 is "-05" |
| `DateFormats.Adjust` | src/filters.js:164-166 | a non-negative offset is added; under offset -12 an hour 0..23 becomes 12, 1..12 or hour-12, always within 1..12 |
| `DateFormats.FieldValue` | src/filters.js:163 | definition of `date['get' + name]()`: the getter value that the field names |
| `DateFormats.DAY` | src/filters.js:185 | the seven day names, from Sunday to Saturday |
| `DateFormats.MONTH` | src/filters.js:187-188 | the twelve month names, from January to December |
| `DateFormats.JsRem` | src/filters.js:212 | the truncating remainder: below the divisor in magnitude, and equal to the Euclidean one on non-negative operands |
| `DateFormats.ZoneText` | src/filters.js:210-213 | definition of the `Z` text: `padNumber(offset / 60, 2)` followed by `padNumber(Math.abs(offset % 60), 2)` |
| `DateFormats.Apply` | src/filters.js:161-213 | definition of calling a table entry: `dateGetter`, `dateStrGetter`, the am/pm function or the zone function |
| `DateFormats.Formats` | src/filters.js:190-214 | the table itself: twenty keys, each with its getter, size, offset and trim flag |
| `DateFormats.RenderPart` | src/filters.js:308-309 | definition of one `forEach` turn: the table entry applied to the date, or the part itself when there is none |
| `DateFormats.FormatKeys` | src/filters.js:190-214 | every key of the directive table is a run of one directive character, of a length the table supports for it |
| `DateFormats.RunHasEntry` | src/filters.js:190-214 | a run of one directive character has a table entry exactly when its length is supported; otherwise it is rendered verbatim |
| `DateFormats.LiteralPartVerbatim` | src/filters.js:308-309 | a part without directive characters has no table entry and renders as itself |
| `DateFormats.NumericEntry` | src/filters.js:161-169 | a numeric table entry renders `padNumber` of the adjusted field value |
| `DateFormats.NameEntry` | src/filters.js:171-183 | a name table entry renders the month or day name, cut to three characters in short form |
| `DateFormats.NameEntries` | src/filters.js:193-208 | `MMMMM`/`EEEE` render the full month/day name; `MMM`/`EEE` render its first three characters |
| `DateFormats.YearEntries` | src/filters.js:191-192 | `yyyy` pads the year to four digits; `yy` keeps its last two |
| `DateFormats.MonthEntries` | src/filters.js:195-196 | `MM`/`M` render the 0-based month plus one |
| `DateFormats.DayOfMonthEntries` | src/filters.js:197-198 | `dd`/`d` render the day of the month |
| `DateFormats.HourEntries` | src/filters.js:199-200 | `HH`/`H` render the 24-hour hour |
| `DateFormats.HalfDayHourEntries` | src/filters.js:201-202 | `hh`/`h` render the 12-hour hour, which lies in 1..12 |
| `DateFormats.MinuteEntries` | src/filters.js:203-204 | `mm`/`m` render the minutes |
| `DateFormats.SecondEntries` | src/filters.js:205-206 | `ss`/`s` render the seconds |
| `DateFormats.MarkerEntry` | src/filters.js:209 | `a` is "am" exactly before noon and "pm" otherwise |
| `DateFormats.ZoneEntry` | src/filters.js:210-213 | `Z` is '-' for a negative offset, then the hours padded to two digits, then "00"; it never contains '+' |
| `DateFilter.FirstDirective` | src/filters.js:217 | `[^yMdHhmsaZE]*`: the first directive character at or after `i`; nothing before it is one |
| `DateFilter.DirectiveEnd` | src/filters.js:217 | the directive group: a run of one character, a single character for `a` and `Z`, otherwise maximal |
| `DateFilter.LineEnd` | src/filters.js:217 | `(.*)`: the tail up to the first line terminator |
| `DateFilter.Split` | src/filters.js:217 | the split fails exactly when the format has no directive character; otherwise literal + directive + tail is a prefix of the format, the literal has no directive character, the directive is a run of one directive character (a lone `a` or `Z`) that the next character does not continue, the tail stops only at a line terminator and has none, and without line terminators the three make up the format |
| `DateFilter.Tokenize` | src/filters.js:296-306 | definition of the parts the `while (format)` loop collects: a match adds its literal and directive and goes on with the tail, a failed match adds the rest, an empty rest ends the loop |
| `DateFilter.Render` | src/filters.js:307-310 | definition of the `forEach`: the parts rendered through the table and concatenated in order |
| `DateFilter.FormatWith` | src/filters.js:294-311 | the `while (format)` and `forEach` loops produce the rendering of the tokenized format |
| `DateFilter.TokenizeRoundTrip` | src/filters.js:297-306 | a format without line terminators is the concatenation of its parts |
| `DateFilter.TokenizeIsPrefix` | src/filters.js:297-306 | in general, the concatenated parts are a prefix of the format |
| `DateFilter.TokenizeShape` | src/filters.js:297-306 | parts alternate: even parts have no directive character, odd parts are directive runs |
| `DateFilter.TokenizeStep` | src/filters.js:299-301 | one loop turn: a match contributes its literal and directive and the tokenizer continues on the tail |
| `DateFilter.LiteralPartsVerbatim` | src/filters.js:307-310 | every literal part of a format is rendered verbatim |
| `DateFilter.ExampleSplit` | src/filters.js:298-301 | a split whose three groups are known determines the first two parts |
| `DateFilter.LineTerminatorExample` | src/filters.js:217 | "yyyy\nMM" tokenizes to ["", "yyyy"]: the text after the line break is dropped |
| `DateFilter.UnsupportedRunParts` | src/filters.js:217 | "MMMM" is one directive part, not "MMM" followed by "M" |
| `DateFilter.UnsupportedRunExample` | src/filters.js:307-310 | the format "MMMM" renders as "MMMM", whatever the date |
| `DateFilter.UnsupportedRunVerbatim` | src/filters.js:308-309 | "MMMM" has no table entry and renders verbatim |
| `DateFilter.FormatDate` | src/filters.js:276-313 | no date means the input comes back unchanged (and only then); with a non-empty format the result is the rendered format, otherwise the locale date text |
| `DateFilter.ToDate` | src/filters.js:277-291 | definition of the normalization: a digit string is milliseconds, another string goes to the date parser, a number becomes a date, anything else has none |
| `DateFilter.DigitStringIsMillis` | src/filters.js:277-279 | a digit string is read as the same number of milliseconds as the number itself |
| `DateFilter.IsNumberString` | src/filters.js:218 | definition of `NUMBER_STRING`, `/^\d+$/`: one or more ASCII digits and nothing else |
| `UrlPattern.IsSpace` | src/filters.js:549 | definition of `\s`: the white space and line terminators of ECMAScript 5 with the Unicode space separators of the time, U+180E among them |
| `UrlPattern.LocalRunEnd` | src/filters.js:549 | `[A-Za-z0-9._%+-]+`: the maximal run of local-part characters |
| `UrlPattern.AtLeadEnd` | src/filters.js:549 | the end of the `[A-Za-z0-9._%+-]+@` alternative at a position, when it matches there: past the position and within the text (what it matches is stated by `UrlPattern.AtLeadEndSpec`) |
| `UrlPattern.LeadAt` | src/filters.js:549 | the lead at a position and its kind: "ftp://", "http://" or "https://", or local-part characters then '@', optionally after "mailto:" |
| `UrlPattern.BodyEnd` | src/filters.js:549 | the end of the greedy body after a lead, within the text |
| `UrlPattern.MatchAt` | src/filters.js:549 | the match starting at a position: lead then body, ending within the text |
| `UrlPattern.AtLeadEndSpec` | src/filters.js:549 | the address lead found is local characters then '@', and is found whenever such a lead exists |
| `UrlPattern.LeadAtSpec` | src/filters.js:549 | the lead found is a lead of the expression, and any lead at that position is the one found (leads are unique) |
| `UrlPattern.FtpLead` | src/filters.js:549 | "ftp://" is a six-character scheme lead and the only lead there |
| `UrlPattern.HttpsLead` | src/filters.js:549 | "https://" is an eight-character scheme lead and the only lead there |
| `UrlPattern.HttpLead` | src/filters.js:549 | "http://" is a seven-character scheme lead and the only lead there |
| `UrlPattern.WordColonIsNoAddress` | src/filters.js:549 | a lower-case word followed by ':' cannot start a bare address, since ':' is not a local character |
| `UrlPattern.NoLeadNoMatch` | src/filters.js:549 | without a scheme, mailto or address lead there is no match |
| `UrlPattern.LastEndChar` | src/filters.js:549 | the last end character in a range; nothing after it is one |
| `UrlPattern.SpaceFreeEnd` | src/filters.js:549 | `\S*`: the end of the run without white space from a position; the character there, if any, is white space |
| `UrlPattern.SpaceFreeEndAt` | src/filters.js:549 | a run without white space that stops at white space or at the end of the text is the run `SpaceFreeEnd` finds |
| `UrlPattern.BodyEndSpec` | src/filters.js:549 | `\S*[^\s.;,(){}<>]`: the body end found is the longest body, and when none is found no body exists |
| `UrlPattern.MatchAtSpec` | src/filters.js:549 | a match at a position is a lead followed by the longest body; with no match, no lead there has a body |
| `UrlPattern.FirstFromAt` | src/filters.js:556 | the leftmost search returns the first position that matches |
| `UrlPattern.FindUrl` | src/filters.js:556 | `raw.match(URL)`: a match found is the match at its own start |
| `UrlPattern.FindUrlLeftmost` | src/filters.js:556 | no position before the found match matches, and with no match no position matches |
| `UrlPattern.FindUrlAt` | src/filters.js:556 | the first matching position determines the match found |
| `UrlPattern.LeadHasNoSpace` | src/filters.js:549 | a lead contains no white space |
| `UrlPattern.BodyExtends` | src/filters.js:549 | a body can be extended over white-space-free text up to a further end character |
| `UrlPattern.AfterLongestBody` | src/filters.js:549-557 | after the longest body, every character up to the next white space is trailing punctuation |
| `UrlPattern.MatchText` | src/filters.js:549 | matched text begins with its lead, has no white space and ends in an end character |
| `UrlPattern.MatchStopsAtPunctuation` | src/filters.js:557 | what follows a link up to the next white space is sentence punctuation such as '.' or ',' |
| `UrlPattern.MatchedTextIsWholeMatch` | src/filters.js:558-564 | the matched text on its own matches in full with the same kind of lead |
| `UrlPattern.MatchFromParts` | src/filters.js:549 | a lead and a body end determine the match at a position |
| `Linky.EventWriter.constructor` | src/filters.js:552-553 | a fresh writer has received nothing |
| `Linky.EventWriter.WriteChars` | src/filters.js:562 | records one `chars` call after the earlier ones |
| `Linky.EventWriter.WriteStart` | src/filters.js:563 | records one `start` call with its href |
| `Linky.EventWriter.WriteEnd` | src/filters.js:565 | records one `end` call |
| `Linky.Groups` | src/filters.js:560 | group 2 took part exactly for scheme leads; group 3 is "mailto:" exactly for mailto leads |
| `Linky.Href` | src/filters.js:560 | definition of the href: "mailto:" put in front when groups 2 and 3 are both absent |
| `Linky.Label` | src/filters.js:564 | definition of the label: the matched text with a leading "mailto:" removed |
| `Linky.Pieces` | src/filters.js:556-568 | definition of the loop on values: the text before the leftmost match, the match, and the pieces of the rest; the whole text when nothing matches |
| `Linky.EventsOf` | src/filters.js:562-568 | definition of the writer calls: `chars` for plain text, `start`/`chars`/`end` for a link, in order |
| `Linky.Linky` | src/filters.js:547-570 | empty text comes back unchanged; otherwise the writer receives the events of the text's pieces, in order |
| `Linky.PiecesStep` | src/filters.js:556-566 | one loop turn: the text before the leftmost match, the match, then the rest of the text after it |
| `Linky.PiecesNone` | src/filters.js:556-568 | text with no match is one plain piece |
| `Linky.PiecesLast` | src/filters.js:568 | text with no match is written as a single `chars` call |
| `Linky.EventsStep` | src/filters.js:562-566 | one loop turn writes chars, start with the href, chars of the label, end, then the rest |
| `Linky.LoopStep` | src/filters.js:556-567 | the events written so far plus what remains equal the events of the whole text |
| `Linky.PiecesSource` | src/filters.js:556-568 | the plain texts and matched texts, concatenated in order, give back the input |
| `Linky.PiecesShape` | src/filters.js:556-568 | pieces alternate plain and link, each link being a whole match, and the last piece is plain text with no match |
| `Linky.PiecesLeftmost` | src/filters.js:556-566 | each plain piece followed by a link holds no match, so every link is the leftmost one |
| `Linky.HrefAndLabel` | src/filters.js:560-564 | scheme links keep the text as href and label; "mailto:" links keep it as href and drop the prefix from the label; bare addresses get "mailto:" in the href only |
| `Linky.EventsShape` | src/filters.js:562-568 | the event count is 1 mod 4 and the events follow chars, start a, chars, end a, …, chars |
| `Linky.EventsOfShape` | src/filters.js:562-568 | alternating plain/link pieces ending in plain text write events of that shape |
| `Linky.ExampleMatch` | src/filters.js:538-540 | in "new http://link." the link is "http://link", without the final '.' |
| `Linky.ExamplePieces` | src/filters.js:538-540 | "new http://link." is "new ", the link "http://link" and "." |
| `Linky.ExampleLinky` | src/filters.js:538-540 | the events are chars "new ", an anchor to "http://link" labelled by it, and chars "." |
| `Linky.SnippetSchemeMatch` | src/filters.js:522 | in the snippet line "http://angularjs.org/," the match is "http://angularjs.org/", without the ',' |
| `Linky.SnippetMailtoLead` | src/filters.js:523 | in "mailto:us@somewhere.org," the lead is the mailto alternative, ten characters up to the '@' |
| `Linky.SnippetMailtoBody` | src/filters.js:523 | the body after that lead stops before the ',' |
| `Linky.SnippetMailtoMatch` | src/filters.js:523 | the match is "mailto:us@somewhere.org", of the mailto kind |
| `Linky.SnippetBareLead` | src/filters.js:524 | in "another@somewhere.org," the lead is a bare address, eight characters up to the '@' |
| `Linky.SnippetBareBody` | src/filters.js:524 | the body after that lead stops before the ',' |
| `Linky.SnippetBareMatch` | src/filters.js:524 | the match is "another@somewhere.org", of the bare kind |
| `Linky.SnippetFtpMatch` | src/filters.js:525 | in "ftp://127.0.0.1/." the match is "ftp://127.0.0.1/", without the final '.' |
| `Linky.SnippetSchemeAndMailtoLinks` | src/filters.js:522-525 | the http and ftp links point at and show their own text; the mailto link points at "mailto:us@somewhere.org" and shows "us@somewhere.org" |
| `Linky.SnippetBareLink` | src/filters.js:524 | the bare address points at "mailto:another@somewhere.org" and shows "another@somewhere.org" |
| `NumberFilter.DotFrom` | src/filters.js:122 | the next '.' at or after `i`, or the end of the text |
| `NumberFilter.WholeText` | src/filters.js:122-123 | definition of `split('.')[0]`: the text before the first '.' |
| `NumberFilter.FractionText` | src/filters.js:122-124 | definition of the second field of `split('.')`, or '' when there is none: the text between the first and the second '.', or empty |
| `NumberFilter.FractionSize` | src/filters.js:111 | definition: the number of places given, or 2 when none is given |
| `NumberFilter.CommaPrefix` | src/filters.js:131-136 | definition of the loop's output after `i` digits: a ',' before each digit that leaves a multiple of three digits, except the first |
| `NumberFilter.Grouped` | src/filters.js:131-136 | the reference grouping: the last three digits after a ',' and the grouping of the rest, or the digits themselves when there are at most three |
| `NumberFilter.SplitAtDot` | src/filters.js:122-124 | a text with at most one '.' is the whole part, '.', and the fraction; without '.' it is the whole part and the fraction is empty |
| `NumberFilter.FractionToEnd` | src/filters.js:124 | with one '.', the fraction is everything after it |
| `NumberFilter.CommaPrefixIsGrouped` | src/filters.js:131-136 | the loop's partial output at the end of the text is the grouped text |
| `NumberFilter.CommaPrefixNext` | src/filters.js:132-135 | one loop turn inserts ',' exactly when a multiple of three digits remains and it is not the first |
| `NumberFilter.GroupedUngroups` | src/filters.js:131-136 | removing the separators from the grouped digits gives back the digits |
| `NumberFilter.GroupedLength` | src/filters.js:131-136 | grouping adds (n-1)/3 separators to n digits |
| `NumberFilter.GroupedThrees` | src/filters.js:131-136 | every ',' is followed by exactly three digits, and the result never ends in ',' |
| `NumberFilter.GroupedFirst` | src/filters.js:131-136 | up to three digits are left alone; otherwise the first group has 1..3 digits, then the first ','; the first digit stays first |
| `NumberFilter.RemoveCommasAppend` | src/filters.js:133 | removing separators distributes over concatenation |
| `NumberFilter.PadFraction` | src/filters.js:138-141 | exactly `size` characters: the fraction's digits, then '0' |
| `NumberFilter.Unsigned` | src/filters.js:125-128 | the corrected reading of the sign removal: the whole text without its leading '-', and unchanged when it has none (the code as written drops the first character whenever the number is negative, see Findings) |
| `NumberFilter.PaddedFraction` | src/filters.js:138-141 | padding with '0' then cutting to `size` characters gives '.' and the padded fraction |
| `NumberFilter.FractionPart` | src/filters.js:137-142 | definition: nothing for zero places, otherwise '.' followed by the fraction padded with '0' or cut to that many places |
| `NumberFilter.Sign` | src/filters.js:126 | definition: "-" for a negative number, empty otherwise |
| `NumberFilter.UnsignedAsWritten` | src/filters.js:125-128 | definition of line 127 as written: a negative number's whole text loses its first character, whatever that is; otherwise nothing is removed |
| `NumberFilter.NumberTextAsWritten` | src/filters.js:125-142 | definition of the text as the code writes it: the sign, the grouping of the whole text minus its first character when negative, and the fraction part |
| `NumberFilter.NumberText` | src/filters.js:125-142 | definition of the corrected text: the same with only a present '-' removed |
| `NumberFilter.FormatNumber` | src/filters.js:111-142 | the sign step, the grouping loop and the padding loop, as written (including the unconditional `substring(1)` for negative numbers), produce `NumberTextAsWritten` |
| `NumberFilter.NumberTextParts` | src/filters.js:125-142 | of the corrected text: without separators the text is the sign, the digits and the fraction part; it starts with '-' exactly for negative input; zero places add nothing, otherwise '.' and exactly `size` padded digits |
| `NumberFilter.UngroupedText` | src/filters.js:131-136 | the separators are the only thing grouping adds to sign, digits and fraction |
| `NumberFilter.SignFirst` | src/filters.js:125-128 | the text starts with '-' exactly when the number is negative |
| `NumberFilter.FractionPartShape` | src/filters.js:137-142 | no fraction part for zero places; otherwise '.' followed by the padded fraction |
| `NumberFilter.AsWrittenAgrees` | src/filters.js:125-128 | whenever the text's '-' agrees with the sign of the number, the code as written and the corrected code give the same text, so every fact proved of the corrected text holds for what `FormatNumber` returns |
| `NumberFilter.MinusZeroLosesDigit` | src/filters.js:113-128 | a negative number that rounds to "0" comes out as "-.00" as written, and as "-0.00" corrected |
| `NumberFilter.DefaultPlacesExample` | src/filters.js:93 | as written, "1234.57" with the default places is "1,234.57" |
| `NumberFilter.NoPlacesExample` | src/filters.js:94 | as written, "1235" with zero places is "1,235" |
| `NumberFilter.NegativeExample` | src/filters.js:95 | as written, "-1234.5679" with four places is "-1,234.5679" |
| `NumberFilter.PaddedExample` | src/filters.js:102 | as written, "-3374.333" with four places is padded to "-3,374.3330" |

## Left out

- The other filters in `src/filters.js` (`currency`, `json`, `lowercase`, `uppercase`, `html`) are not part of this model. Neither is `test/scenario/mocks.js`.
- `number`: the `NaN`/`Infinity` check (line 108), `Math.pow` and `Math.round` (lines 114 and 121), and the exponent early return (line 119) are floating-point operations and are left out. The model starts from the rounded number's text (`'' + number`) and the sign of the input, both passed in as parameters. A `fractionSize` given as a string or as a negative number is not modelled; it is a `nat` or absent.
- NumberFilter.FormatNumber: the fraction text is read with the `split('.')` rule, but nothing is proved about texts with more than one '.', which `'' + number` never produces.
- `date`: `angularString.toDate`, `new Date(...)` and `toLocaleDateString` are host operations. They are parameters of `DateFilter.FormatDate` (`fromMillis`, `parseDate`, `localeText`). `parseInt` of a digit string is `Decimal.DigitsValue`, exact for every length; the floating-point precision of `parseInt` on very long digit strings is not modelled.
- A date is a record of its getter values, with an offset in minutes. Timezone offsets that are not a multiple of 60 are excluded, because `offset / 60` is then a fraction in JavaScript and `padNumber` would print a decimal point. `isDate`/`isString` on arbitrary JavaScript values becomes the `DateInput` datatype.
- DateFormats.Adjust: an absent offset is modelled as 0, which behaves the same way in `offset > 0 || value > -offset`.
- DateFormats.LiteralPartVerbatim and DateFilter.LiteralPartsVerbatim hold for the table's own keys only. `DATE_FORMATS[value]` also finds inherited `Object.prototype` members, and four of them contain no directive letter: "toString", "__proto__", "__lookupGetter__" and "__lookupSetter__". Such a literal part (format "yyyytoString", say) is not copied. "toString" renders the result of `Object.prototype.toString` called without a receiver, and "__proto__" makes `fn(date)` throw a TypeError. The model looks parts up in a plain map, so it copies them.
- The HTML escaping of `htmlSanitizeWriter` and `new HTML(html.join(''))` are not modelled: the writer records `chars`/`start`/`end` events instead of producing text.
- `\s` and `\S` follow the white-space set of ECMAScript 5 with the Unicode space separators of the source's time, U+180E included. Engines following Unicode 6.3 or later no longer match U+180E; that later behaviour is not modelled.
- Linky.Linky: only the empty string is treated as falsy; `null`, `undefined` and other non-string inputs are not modelled.
- Linky.HrefAndLabel: the labels together with the plain text do not reconstruct the input when a "mailto:" link occurs, so reconstruction is stated on the pieces (`Linky.PiecesSource`).

## Findings

| source | as written | input that shows it | evidently intended | confidence | as-written member | corrected member |
|---|---|---|---|---|---|---|
| src/filters.js:113-128 | `isNegative` is taken from the unrounded number, and `whole.substring(1)` then drops the first character on the assumption that it is '-'; a negative number that rounds to zero has text "0" with no '-' | `number(-0.001)` gives "-.00" (and "-" with `number(-0.001, 0)`) | "-0.00": only a '-' that is present is removed | not executed | `NumberFilter.MinusZeroLosesDigit` | `NumberFilter.NumberTextParts` |
