# laravel-id-generator: `IdGenerator::generate` in Dafny

`IdGenerator::generate($configArr)` produces the next prefixed, zero-padded
id for a table. It does five things:

- It checks the configuration array, in this order: `table`, `length`, `prefix`, then the shape of `where`.
- It builds a WHERE text from the `where` pairs and trims it with `rtrim($s, 'AND ')`.
- It counts the rows that match.
- If any match, it takes the SQL `MAX` of `SUBSTR(id, strlen(prefix) + 1, length - strlen(prefix))` over them and adds one. Otherwise the number is 1.
- It returns `prefix . str_pad(number, length - strlen(prefix), '0', STR_PAD_LEFT)`.

The model holds the following parts.

- `wrappers.dfy`: `Option` and `Result`.
- `php_strings.dfy` (module `PhpStrings`): the PHP built-ins the function uses.
  - Integer-to-string conversion (`Decimal`, `IntToText`).
  - The integer PHP reads from a string in `$maxId + 1` (`ToNumber`): leading white space, an optional sign, then the leading digits. So `"-0001" + 1` is 0 and `" 12" + 1` is 13.
  - `strlen` as the number of bytes of the UTF-8 text (`StrLen`). It equals the number of characters exactly for ASCII text.
  - `str_pad` to the left (`StrPadLeft`). A negative number is padded as text, zeros first: `str_pad(-4, 5, '0', STR_PAD_LEFT)` is `000-4`.
  - `rtrim` with a character mask (`RTrim`); the mask is a set of characters, not a suffix.
- `sql_strings.dfy` (module `SqlStrings`): `SUBSTR` and the string order that `MAX` uses.
  - The order is a binary collation (`LexLe`), proved to be a total order.
  - `MaxOf` is the greatest element under that order.
  - `LexOrderIsNumeric`: on digit strings of equal width, this order is numeric order.
- `store.dfy` (module `Store`): the database as a value.
  - A database maps table names to tables. A table has columns and an ordered list of rows. A row maps its non-NULL columns to text.
  - The two queries are modelled by what they compute: the counted ids (`MatchingIds`, `Count`) and the greatest suffix (`MaxSuffix`).
  - `QueryValid` says when the store can run them.
  - `Insert` is the caller's insert of a row.
- `id_generator.dfy` (module `IdGenerator`): the configuration, the errors and the function itself.
  - `GenerateOutcome` specifies one call as a value: its result (the id, or the exception) and the queries it sent, in order.
  - The method `Generate` follows the PHP statement by statement and is proved equal to `GenerateOutcome`. It runs the checks, computes `strlen($prefix)` and the width, and hands over to the method `RunQueries` for the WHERE text, the two queries and the id. `RunQueries` is proved equal to `Produce`.
  - The method `BuildWhereString` follows the `foreach` loop and the `rtrim`, and is proved equal to `WhereString`.
- `id_generator_properties.dfy` (module `IdGeneratorProperties`): what the function promises, proved about `GenerateOutcome`:
  - validation order and "no query before validation";
  - the exact WHERE text and what the mask does to the last value;
  - the first id, the id after existing rows (including a greatest suffix PHP reads as negative), and the shape of every id;
  - sequential increment under fixed-width ids;
  - that `field` and `reset_on_prefix_change` are never read.
- `id_generator_tests.dfy` (module `IdGeneratorTests`): the unit tests of tests/Unit/IdGenerateTest.php:90-131, stated as lemmas on an empty `invoices` table. It also holds three worked examples that are not repository tests: a prefix swap (`ThreeDigitPrefixSwap`), a hyphenated prefix (`HyphenatedPrefix`) and a number that outgrows its width (`OverflowRepeats`).

Configuration values are PHP scalars (`Text` or `Number`): the tests pass
`'prefix' => 101` as an integer. `strlen` and concatenation see its decimal
text, and `$length - $prefixLength` sees its integer value. A key counts
as empty when it is absent or equal to the empty string.

`strlen` counts bytes while SQL `SUBSTR` counts characters. For a prefix
such as `№` (three bytes in UTF-8) the width is `length - 3`, and `SUBSTR`
starts three characters in. The model keeps both measures as the code
has them.

The repository's tests expect more than `generate` does:

- tests/Unit/IdGenerateTest.php:53-88 expects a "field not found" error, a field type check and a check against the column length;
- tests/Unit/IdGenerateTest.php:114-131 sets `reset_on_prefix_change`.

`src/IdGenerator.php` raises none of those errors and never reads the
flag. The model follows the code: it has no such errors, and it accepts the
flag and ignores it (`FieldAndResetIgnored`). An id is longer than `length`
once the number outgrows the padding width, and the next call can then
repeat it (`OverflowRepeats`).

## Model

| member | source | states |
|---|---|---|
| IdGenerator.Blank | src/IdGenerator.php:12-20 | Definition: a key is empty when it is absent or equal to the empty string, the test `!array_key_exists(...)` or `== ''`. ValidationOrder and RequiredKeyTests rely on it |
| IdGenerator.ScalarText | src/IdGenerator.php:30 | Definition: a config value as PHP uses it as a string, the text itself or an integer's decimal text. InvoiceShape states it for the integer prefixes of the tests |
| IdGenerator.ScalarNumber | src/IdGenerator.php:31 | Definition: a config value as PHP uses it in `$length - $prefixLength`, an integer itself or the integer PHP reads from text. InvoiceShape and IdWidth rely on it |
| IdGenerator.Validate | src/IdGenerator.php:12-27 | Definition: the first failing check, in the order table, length, prefix, `where` is a string, `where` is empty; `None` when all pass. ValidationOrder states its consequences |
| IdGenerator.IdWidth | src/IdGenerator.php:30-31 | Definition: `length` minus the byte length of the prefix text. FirstId and ResultShape state the resulting id lengths |
| IdGenerator.WhereString | src/IdGenerator.php:34-41 | Definition: ` WHERE ` and every `col=val AND `, then `rtrim` with the mask `AND `. WhereStringRendersConditions characterises it |
| IdGenerator.BuildWhereString | src/IdGenerator.php:32-41 | The loop that appends `col=val AND ` for each entry, followed by the trim, yields `WhereString(entries)` |
| IdGenerator.Conditions | src/IdGenerator.php:34-41 | Definition: the entries, the last value stripped of trailing A, N, D and spaces. WhereStringRendersConditions proves the WHERE text expresses exactly these |
| IdGenerator.SuffixNumber | src/IdGenerator.php:49 | Definition: a NULL `MAX` counts as 0, a string as `ToNumber` of it |
| IdGenerator.NextNumber | src/IdGenerator.php:46-49 | Definition: 1 with no row counted, otherwise the greatest suffix read as an integer, plus one. NextIdFromGreatestSuffix, NextNumberBelowOne and SuffixesBelowNext state its properties |
| IdGenerator.Compose | src/IdGenerator.php:51-53 | Definition: the prefix and the number's text left-padded with zeros. ComposeShape and ComposedIdShape state its shape |
| IdGenerator.GenerateOutcome | src/IdGenerator.php:10-55 | Definition of one call: the validation error with no query, or `Produce`. The lemmas of IdGeneratorProperties are about it |
| IdGenerator.Produce | src/IdGenerator.php:32-54 | Definition of the part after validation: the store's error after the count query, or the composed id with one or two queries. GeneratedId and NextIdFromGreatestSuffix state it |
| IdGenerator.Generate | src/IdGenerator.php:10-55 | The step-by-step call returns exactly the result and query trace of `GenerateOutcome`, the specification the lemmas below are proved about |
| IdGenerator.RunQueries | src/IdGenerator.php:32-54 | The statements after the width is known return exactly `Produce` of the same arguments |
| PhpStrings.RTrim | src/IdGenerator.php:41 | The trimmed string is a prefix of the input, does not end in a mask character, and everything removed is in the mask |
| PhpStrings.RTrimUnique | src/IdGenerator.php:41 | Those three facts determine `rtrim`'s result |
| PhpStrings.RTrimAppend | src/IdGenerator.php:41 | Trimming `x + y` changes `x` only when all of `y` is trimmed away |
| PhpStrings.StrPadLeft | src/IdGenerator.php:51-53 | The length is `max(width, len)`, the input is kept whole at the end, and every character before it is the pad character |
| PhpStrings.PadLeftSplit | src/IdGenerator.php:51-53 | The padded text is a run of `max(width - len, 0)` pad characters followed by the input |
| PhpStrings.Decimal | src/IdGenerator.php:51-53 | The text of a non-negative integer is a non-empty digit string denoting it, with no leading zero |
| PhpStrings.IntToText | src/IdGenerator.php:30 | An integer's text is its digits, with a leading `-` when negative |
| PhpStrings.LeadingDigits | src/IdGenerator.php:49 | The longest digit run at the start of the string |
| PhpStrings.SkipSpaceDrops | src/IdGenerator.php:49 | `SkipSpace` keeps the end of the string: everything it drops is white space, and what it keeps does not start with white space |
| PhpStrings.ToNumber | src/IdGenerator.php:49 | A digit string reads as its value, and a negative reading needs a minus sign after the white space |
| PhpStrings.ToNumberMinus | src/IdGenerator.php:49 | A minus sign before digits negates their value |
| PhpStrings.ToNumberSpace | src/IdGenerator.php:49 | A leading white-space character does not change the reading |
| PhpStrings.ToNumberIntToText | src/IdGenerator.php:49-51 | Reading back the text of any integer, negative ones included, gives the integer |
| PhpStrings.ToNumberSigned | src/IdGenerator.php:49 | `"-0001"` reads as -1 |
| PhpStrings.ToNumberSpaced | src/IdGenerator.php:49 | `" 12"` reads as 12 |
| PhpStrings.Utf8Width | src/IdGenerator.php:30 | A character takes one to four bytes, and one exactly when it is below 128 |
| PhpStrings.StrLen | src/IdGenerator.php:30 | `strlen` is at least the number of characters |
| PhpStrings.StrLenAscii | src/IdGenerator.php:30 | `strlen` equals the number of characters exactly when every character is ASCII, in both directions |
| PhpStrings.StrLenConcat | src/IdGenerator.php:30 | `strlen` of a concatenation is the sum |
| PhpStrings.DigitsAscii | src/IdGenerator.php:51 | A digit string has one byte per character |
| PhpStrings.IntToTextAscii | src/IdGenerator.php:30 | An integer prefix's text has one byte per character |
| PhpStrings.DecimalFits | src/IdGenerator.php:51 | A number below 10^w has at most w digits, so padding to w adds nothing past w |
| PhpStrings.ZeroPadValue | src/IdGenerator.php:51-53 | Zero padding keeps a digit string's value |
| PhpStrings.ValueConcat | src/IdGenerator.php:51 | The value of concatenated digit strings |
| SqlStrings.Substr | src/IdGenerator.php:47 | `SUBSTR` has the length SQL gives it, and each character is the one at the offset |
| SqlStrings.LexLeReflexive | src/IdGenerator.php:47 | The chosen collation is reflexive |
| SqlStrings.LexLeTotal | src/IdGenerator.php:47 | The chosen collation is total |
| SqlStrings.LexLeAntisymmetric | src/IdGenerator.php:47 | The chosen collation is antisymmetric |
| SqlStrings.LexLeTransitive | src/IdGenerator.php:47 | The chosen collation is transitive |
| SqlStrings.LexMax | src/IdGenerator.php:47 | The larger of two strings is one of them and no less than either |
| SqlStrings.MaxOf | src/IdGenerator.php:47 | `MAX` of a non-empty list is an element that no element exceeds |
| SqlStrings.MaxOfIsGreatest | src/IdGenerator.php:47 | Any element that no element exceeds is the `MAX` |
| SqlStrings.LexOrderIsNumeric | src/IdGenerator.php:47-51 | On digit strings of equal width, string order is numeric order, in both directions |
| Store.Matches | src/IdGenerator.php:44-48 | Definition: a row satisfies the WHERE text when every condition's column is present and equal to its value; a NULL column satisfies no condition. MatchingIdsMembers states which ids are counted |
| Store.QueryValid | src/IdGenerator.php:44 | Definition: the table exists and has `id` and every column the conditions name, and no condition compares with an empty value. StoreRejectsQuery states the failing call |
| Store.MatchingIds | src/IdGenerator.php:44 | No more ids are counted than there are rows |
| Store.MatchingIdsMembers | src/IdGenerator.php:44 | An id is counted exactly when some row satisfies every condition and carries that id, in both directions |
| Store.MatchingIdsCount | src/IdGenerator.php:44 | There are as many counted ids as rows that satisfy the conditions and have an id |
| Store.Count | src/IdGenerator.php:44 | Definition: the number of counted ids. MatchingIdsCount relates it to the matching rows |
| Store.MaxSuffix | src/IdGenerator.php:46-48 | `MAX` is NULL exactly when the count is zero; otherwise it is one of the suffixes and no suffix exceeds it |
| Store.Insert | tests/Unit/IdGenerateTest.php:105-107 | The caller's insert appends the row to that table, and every other table is unchanged |
| Store.MatchingIdsAppend | src/IdGenerator.php:44 | An inserted row adds its id to the counted ids exactly when it matches and has an id |
| IdGeneratorProperties.ValidationOrder | src/IdGenerator.php:12-27 | Each check's message is returned when the earlier checks pass and it fails, with no query sent (so a config lacking length and prefix reports length) |
| IdGeneratorProperties.QueriesOnlyAfterValidation | src/IdGenerator.php:12-44 | The store is queried exactly when the configuration is valid, and the count query comes first |
| IdGeneratorProperties.ConfigErrorIgnoresStore | src/IdGenerator.php:12-27 | A configuration error is the same whatever the store holds |
| IdGeneratorProperties.RequiredKeyTests | tests/Unit/IdGenerateTest.php:11-39 | The missing-table, missing-prefix and missing-length tests get their messages |
| IdGeneratorProperties.TermsJoin | src/IdGenerator.php:36-38 | The loop's text is the entries joined by ` AND `, followed by one more ` AND ` |
| IdGeneratorProperties.TrimDropsAnd | src/IdGenerator.php:41 | The mask removes a trailing ` AND ` and then whatever it would remove without it |
| IdGeneratorProperties.TrimStopsAtEquals | src/IdGenerator.php:41 | The trim never reaches past an `=` |
| IdGeneratorProperties.TrimmedTerms | src/IdGenerator.php:34-41 | The trimmed WHERE text ends at the last entry's `=` and its trimmed value |
| IdGeneratorProperties.JoinAppend | src/IdGenerator.php:36-38 | Joining one more condition is the loop's text plus that condition |
| IdGeneratorProperties.WhereStringRendersConditions | src/IdGenerator.php:34-41 | The WHERE text is empty without `where`. Otherwise it is ` WHERE ` plus the pairs joined by ` AND `, with the last value stripped of trailing A, N, D and spaces |
| IdGeneratorProperties.WhereStringEnding | src/IdGenerator.php:41 | The WHERE text never ends in one of the mask's four characters |
| IdGeneratorProperties.TrimEatsLastValue | src/IdGenerator.php:41 | The entry `['status', 'PAID']`, appended as `status=PAID AND `, is sent as `status=PAI` |
| IdGeneratorProperties.FirstId | src/IdGenerator.php:30-53 | With no row counted, the id is the prefix and `1` zero-padded to the width. Only the count query is sent. The id is exactly `length` bytes when the width is positive |
| IdGeneratorProperties.GeneratedId | src/IdGenerator.php:44-53 | A valid call the store accepts returns the prefix and the zero-padded next number, read at the prefix's byte length. It rests on two steps: OutcomeWhenValid (a valid configuration reaches `Produce`) and ProduceAccepted (the id, and the max query exactly when the count is non-zero) |
| IdGeneratorProperties.StoreRejectsQuery | src/IdGenerator.php:44 | A query the store cannot run (such as a missing table) fails after the count query, with the store's error |
| IdGeneratorProperties.NextIdFromGreatestSuffix | src/IdGenerator.php:46-51 | With rows counted, both queries are sent, the max query starting at `strlen(prefix) + 1`. The number is the greatest suffix read as PHP reads an integer (white space and sign included) plus one, whatever prefix those rows carry |
| IdGeneratorProperties.NextNumberBelowOne | src/IdGenerator.php:46-49 | The next number is below 1 only when rows are counted and the greatest suffix starts, after white space, with a minus sign |
| IdGeneratorProperties.ComposeShape | src/IdGenerator.php:51-53 | For a non-negative number, the id is the prefix and the number's digits, left-padded, never truncated. Its length is `len(prefix) + max(width, digits)`, and it has no padding when the width is not positive |
| IdGeneratorProperties.NegativeComposeShape | src/IdGenerator.php:51 | For a negative number, the zeros go before the minus sign: the id is the prefix, `max(width - len, 0)` zeros, then the number's text, which is `-` and the digits of its absolute value |
| IdGeneratorProperties.ComposeBytes | src/IdGenerator.php:51 | A number that fits the width adds exactly `width` bytes to the prefix |
| IdGeneratorProperties.ComposedIdShape | src/IdGenerator.php:51-53 | For any integer: the id starts with the prefix; the digit shape when the number is not negative; the zeros-before-sign shape when it is negative; `strlen(prefix) + width` bytes when it fits |
| IdGeneratorProperties.ResultShape | src/IdGenerator.php:30-53 | Every successful id starts with the prefix. For a non-negative next number it ends with digits denoting it, and it is exactly `length` bytes when the number fits the width. A number below 1 happens only with a greatest suffix read as negative |
| IdGeneratorProperties.SubstrDigits | src/IdGenerator.php:47 | `SUBSTR` over digits at the offset is a digit string of the width |
| IdGeneratorProperties.PadFits | src/IdGenerator.php:51 | A number that fits the width pads to exactly `width` digits denoting it |
| IdGeneratorProperties.ComposedSuffix | src/IdGenerator.php:47-51 | `SUBSTR` at the prefix offset reads back the padded number of a composed id |
| IdGeneratorProperties.ComposedDigits | src/IdGenerator.php:51 | A composed id has `width` digits at the prefix's offset |
| IdGeneratorProperties.MaxAfterAppend | src/IdGenerator.php:47 | Among fixed-width digit strings, one above all the others is the `MAX` |
| IdGeneratorProperties.SuffixesBelowNext | src/IdGenerator.php:47-49 | Under fixed-width ids, every suffix is below the next number, and the next number is at least 1 |
| IdGeneratorProperties.MaxAfterInsert | src/IdGenerator.php:47-51 | After inserting the composed id, its suffix is the `MAX` |
| IdGeneratorProperties.NextAfterInsert | src/IdGenerator.php:46-51 | After inserting the composed id, the next number is one more |
| IdGeneratorProperties.FixedWidthAfterInsert | src/IdGenerator.php:47 | Inserting a row whose id has the digits keeps the ids fixed-width |
| IdGeneratorProperties.SequentialIncrement | src/IdGenerator.php:46-51 | Insert the generated id in a row the WHERE clause selects, then generate again: the next id has the number plus one, and the ids stay fixed-width. This holds when the prefix is ASCII, every counted id has a fixed-width number at the prefix offset, and the number fits |
| IdGeneratorProperties.FieldAndResetIgnored | src/IdGenerator.php:10-55 | Neither `field` nor `reset_on_prefix_change` changes the result or the queries |
| IdGeneratorProperties.PrefixChangeContinues | src/IdGenerator.php:47-51 | A different prefix of the same byte length continues from the same number: the sequence is global, not per prefix |
| IdGeneratorTests.InvoiceShape | src/IdGenerator.php:30-31 | Prefix 101 with length 10 is valid, ASCII, three bytes long, and leaves a width of seven |
| IdGeneratorTests.InvoiceStep | src/IdGenerator.php:46-53 | On `invoices`, a one-digit next number gives `prefix000000n`; storing it moves the number to `n + 1` |
| IdGeneratorTests.IncrementTest | tests/Unit/IdGenerateTest.php:90-112 | Starting with no ids: `1010000001`, then `1010000002` once that is stored, then `1010000003` |
| IdGeneratorTests.ThreeDigitPrefixSwap | src/IdGenerator.php:47-51 | Two three-digit prefixes give ids that differ only in the prefix |
| IdGeneratorTests.ResetTest | tests/Unit/IdGenerateTest.php:114-131 | With the reset flag set: `1010000001`, `1010000002`, then `1020000003` for prefix 102. The number does not restart, and the new id differs from `1010000003`, the second id plus one |
| IdGeneratorTests.OverflowRepeats | src/IdGenerator.php:46-51 | With prefix `P`, length 2 and the stored id `P9`, the call returns `P10`. With `P10` stored as well, `SUBSTR` reads its suffix as `1`, the greatest suffix is still `9`, and the call returns `P10` again |
| IdGeneratorTests.HyphenatedPrefix | src/IdGenerator.php:46-51 | With the one counted id `INV-0001` and prefix `INV`, length 8: the suffix `-0001` reads as -1, so the id is `INV00000`, not `INV00001` |

## Left out

- SQL text and execution. The store is a value, and the two queries are modelled by what they compute, not by their text. Quoting, injection, dialect and collation settings are not modelled; `MAX` uses a binary collation.
- A query error is the single `QueryException`. Its condition `QueryValid` (a missing table or column, or an empty right-hand side) is an approximation of what a real database rejects.
- NULL only as a missing column. `count(id)` counts rows that have an id.
- The values of `where` pairs are taken as strings. Other PHP types in a pair, and pairs without two entries, are not modelled.
- PHP numeric quirks: version-dependent loose `== ''`, and float overflow on large maxima.
- PhpStrings.ToNumber: reads white space, a sign and leading digits only. A fraction or an exponent in the greatest suffix (`"1e3" + 1` is 1001.0 in PHP) would make the number a float, and floating point is not modelled; the model reads `1e3` as 1. A `length` given as text is read the same way.
- PhpStrings.ToNumber: the warnings of `+ 1` on text with trailing non-digits, and the error PHP 8 raises on text with no leading number, are left out; the model reads such text as its leading number, or 0.
- SqlStrings.Substr: counts characters, as `SUBSTR` does on a text column. On a binary column it would count bytes, like `strlen`, and that is not modelled.
- src/Traits/IdFactory.php, the model lifecycle hook that calls `generate`, is not part of this model: it is framework integration.
- src/IdGeneratorServiceProvider.php is not part of this model: it is container registration only.
- The tests for field not found, field type and length bigger than the column (tests/Unit/IdGenerateTest.php:53-88) have no code behind them in `generate`. The source raises none of these errors, so the model has none.
- Per-prefix numbering: tests/Unit/IdGenerateTest.php:114-131 sets `reset_on_prefix_change`, but the code never reads it, so the model has no per-prefix numbering.
- Concurrency: the race between the queries and the caller's insert is outside the function.
- IdGeneratorProperties.SequentialIncrement: does not cover ids whose suffix widths differ. There, string `MAX` is not numeric `MAX` and the next id can repeat an existing one; `NextIdFromGreatestSuffix` states how the number is then read.
- IdGeneratorProperties.SequentialIncrement: requires an ASCII prefix. With a multi-byte prefix, `strlen` and `SUBSTR` disagree on where the number starts, and the increment is not proved.
- IdGeneratorProperties.SequentialIncrement: requires the next number to fit the width. Once it does not, the id is longer than `length`, and `SUBSTR` reads only the first `width` digits of its number. The source then repeats ids, as `OverflowRepeats` shows (`P10` twice), and no increment is promised.
