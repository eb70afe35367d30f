# F1 yearly stats — standings table model

A Dafny model of the logic behind the driver-standings table on the home page
of `f1-yearly-stats` (`src/pages/index.tsx`). A season's standings arrive as a
list of records (`DriverRow`) whose numbers are all text. Three small pure
helpers turn that list into what the table shows:

- `formatDriverRow` projects each record to a table row: position, wins and
  points unchanged, and the name `"{givenName} {familyName}"`. Constructors and
  every other driver field are dropped. Order and length are kept.
- `hasSeasonBegun` folds the list from the left, starting at `0` and adding
  `parseInt(points)` of each entry, then applies `Boolean(...)` to the total.
- `getClassName` picks the podium colour of a table row from its index in the
  table and the begun flag.

Files and modules:

- `js_number.dfy`, module `JsNumbers`: the ECMAScript Number values this code
  can produce (NaN or an integer), Number addition with NaN absorbing, and
  ToBoolean (section 7.1.2 of ECMA-262).
- `parse_int.dfy`, module `JsParseInt`: the global `parseInt` of section 19.2.5
  of ECMA-262 with no radix argument. It skips leading white space (the
  StrWhiteSpaceChar set: TAB, VT, FF, ZWNBSP, the Unicode Zs space separators,
  LF, CR, LS, PS), reads one optional `+` or `-`, switches to radix 16 after
  `0x`/`0X`, and reads the longest run of digits. No digits gives NaN. Also
  the plain decimal text of an integer, for the round trip.
- `standings.dfy`, module `Standings`: the records, `FormatDriverRow`,
  `HasSeasonBegun` (the fold `SumPoints` plus ToBoolean), `GetClassName`, and
  `RowClassNames` for the row classes of the rendered table.

Behaviour the model makes explicit:

- The season counts as begun when the parsed total is non-zero, not only when
  it is positive.
- One points string without leading digits (`""`, `"abc"`, `"-"`) makes the
  sum NaN, so the season counts as not begun whatever the other entries hold.
- `parseInt` cuts a fraction at the `.`: `"12.5"` counts as 12.
- A points string such as `"0x1A"` is read as hexadecimal (26), because no
  radix is passed.
- The podium colours follow the row's index in the table, never its
  `position` field.
- `getClassName` builds the class by appending one colour to an empty string,
  so the class is either empty or exactly one colour.
- A table row holds only position, name, wins and points.

## Model

| member | source | states |
|---|---|---|
| `Standings.FormatDriverRow` | src/pages/index.tsx:225-238 | one row per entry with the same length; row i keeps entry i's position, wins and points and has name givenName + " " + familyName |
| `Standings.FormatDriverRowAppend` | src/pages/index.tsx:225-238 | formatting works entry by entry: rows of a + b are rows of a followed by rows of b, so nothing is filtered, merged or reordered |
| `Standings.FormatDriverRowIgnoresOtherFields` | src/pages/index.tsx:213-238 | entries that agree on position, wins, points, givenName and familyName give identical rows; constructors, driverId, nationality and the other fields never reach the table |
| `Standings.FullNameSplits` | src/pages/index.tsx:229-234 | when the given name has no space, the displayed name splits at its first space back into given name and family name |
| `Standings.SumPointsTotal` | src/pages/index.tsx:254-257 | the left fold of total + parseInt(points) is NaN when the start or any entry is NaN, otherwise the start plus the sum of the parsed points |
| `Standings.HasSeasonBegunIff` | src/pages/index.tsx:252-259 | the season has begun exactly when every points string parses and the parsed points add up to a non-zero total |
| `Standings.HasSeasonBegunEmpty` | src/pages/index.tsx:253-258 | an empty standings list gives false, since the fold stays at its start 0 |
| `Standings.NaNPointsPoisonSum` | src/pages/index.tsx:253-258 | one entry whose points have no leading digits makes the sum NaN and the result false, whatever the other entries hold |
| `Standings.PlainDecimalParses` | src/pages/index.tsx:255 | parseInt of a plain string of decimal digits is the number those digits denote |
| `Standings.HasSeasonBegunPlainPoints` | src/pages/index.tsx:252-259 | when every points string is plain decimal digits, the season has begun exactly when some entry's points contain a digit other than '0' |
| `Standings.GetClassName` | src/pages/index.tsx:240-250 | the class is non-empty exactly when the season has begun and the index is 0, 1 or 2, and then it is text-red-400, text-orange-400 or text-yellow-400 for that index |
| `Standings.RowClassNames` | src/pages/index.tsx:307-310 | one class per rendered row; row i gets the podium colour for i when the season has begun and i < 3, and no class otherwise |
| `Standings.RowClassNamesIgnoreContent` | src/pages/index.tsx:307-310 | two tables of the same length get the same classes: the highlight never depends on a row's content, its position field included |
| `Standings.StandingsTableHighlight` | src/pages/index.tsx:273-310 | in the table built from a season, row i is highlighted exactly when i < 3 and the season's points all parse and add up to a non-zero total |
| `JsNumbers.ToBoolean` | src/pages/index.tsx:253 | Boolean of a Number is false exactly for 0 and NaN |
| `JsParseInt.TrimStartLongestWhiteSpace` | src/pages/index.tsx:255 | parseInt's first step removes exactly the longest prefix of white space: what is left is a suffix that does not start with white space |
| `JsParseInt.DigitPrefixLongest` | src/pages/index.tsx:255 | the digits parseInt reads are the longest prefix made only of digits of the radix; the next character, if any, is no digit |
| `JsParseInt.ParseIntDecimalPrefix` | src/pages/index.tsx:255 | white space, an optional sign and a run of decimal digits parse to the signed value of the digits; whatever follows the first non-digit is ignored, unless the digits are a lone 0 followed by x or X (then radix 16 applies) |
| `JsParseInt.ParseIntHexPrefix` | src/pages/index.tsx:255 | after white space and an optional sign, "0x" or "0X" makes parseInt read the following hexadecimal digits |
| `JsParseInt.ParseIntNoDigits` | src/pages/index.tsx:255 | when no decimal digit follows the white space and the optional sign, parseInt is NaN; after a sign this includes a second sign or white space, as in "+-5" and "- 5" |
| `JsParseInt.ParseIntHexNoDigits` | src/pages/index.tsx:255 | "0x" or "0X" after the white space and the optional sign, with no hexadecimal digit after it, makes parseInt NaN |
| `JsParseInt.ParseIntSignedNaNExamples` | src/pages/index.tsx:255 | parseInt("+-5"), parseInt("- 5") and parseInt("-0xg") are NaN |
| `JsParseInt.ParseIntOfIntToString` | src/pages/index.tsx:255 | round trip: parseInt of the decimal text of any integer gives back that integer |
| `JsParseInt.ParseIntFraction` | src/pages/index.tsx:255 | parseInt("12.5") is 12 |
| `JsParseInt.ParseIntSpaceAndSign` | src/pages/index.tsx:255 | parseInt(" -7") is -7 |
| `JsParseInt.ParseIntHexExample` | src/pages/index.tsx:255 | parseInt("0x1A") is 26 |
| `JsParseInt.ParseIntNaNExamples` | src/pages/index.tsx:255 | parseInt("") and parseInt("abc") are NaN |

## Left out

- Fetching the standings, the season list and country flags (`fetchF1Data`, `getDriverStandings`, `getSeasonList`, `getCountryFlagFromNationality`, src/pages/index.tsx:43-100): HTTP calls through a client library; the model starts from the list they return.
- The React components (`SeasonList`, `Home`, `Filters`, the `DriverRow` component) and the `columns` definitions: rendering through UI libraries. Only the class choice per rendered row (lines 307-310) is modelled, by `RowClassNames`.
- The selected-season atom and the current year from `new Date()`: environment and UI state.
- The zod schemas: they only give types and are never run. Their shape is the shape of the `Driver` and `DriverRow` datatypes. `dateOfBirth` is kept as text, as it arrives in the JSON.
- `isDriverRookie`: its body is empty.
- src/pages/api/f1.ts (an HTTP proxy route) and tailwind.config.js (styling): no logic of the table.
- Leader win percentage and winning margin between the top two: the code of the home page has no such statistic. It keeps only the points total, and the table shows the rows as they are.
- Numbers are exact integers. Double rounding above 2^53 is not modelled. Neither is the Infinity that parseInt gives for a value of about 1.8e308 or more (Number overflow). Nor is the latitude ECMA-262 allows after the 20th significant digit. -0 and +0 are one value; this changes nothing here, because Boolean(-0) is false and the fold starts at +0.
- Strings are sequences of Unicode code points, not UTF-16 code units. Every white-space and digit character parseInt looks at is a single code unit, so the result is the same.
- `getClassName` is modelled with an integer index. The table passes the row index of `Array.prototype.map`, which is always a non-negative integer.
- The rows the table renders (`table.getRowModel().rows`, src/pages/index.tsx:277-282, 307) are taken to be the formatted list itself: one row per entry, in order. No sorting, filtering or pagination is configured on the table, and the table library is not modelled.
