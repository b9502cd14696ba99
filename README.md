# Order validator model

This project models and proves properties of the `OrderValidator` class of the lot18 order
checker (`lot18/order_validator.py`). The class loads a table of orders, drops every row
that has a null, and converts `zipcode` and `id` to integers. It then runs a rescue scan
("rule 6") and five rejection rules:

1. a banned state;
2. a zipcode whose decimal text is not 5 or 9 characters;
3. a customer younger than 21;
4. an email without an address part;
5. a zipcode whose digits sum to more than 20.

Finally it splits the loaded table into a valid table and an invalid table. A row is valid when
it passed every rule or was rescued. Invalid rows have their name reversed. Invalid rows with a
null name are dropped. Unless the detailed output is asked for, both tables keep only `id` and
`name`.

How the model works:

- **Tables.** A table is a sequence of rows, each carrying its `index` label: its position in the
  loaded table, which is pandas' default row index.
  - "A sub-table in the original order" means strictly increasing labels plus exact membership.
  - Boolean-mask filtering is `Tables.Filter`.
- **Cells.** Loaded cells are `Cell<T>` (null or a value). `zipcode` and `id` are text until
  `astype(int)` converts them with `Text.ParseInt`. Birthdays are day numbers.
- **The clock.** The date 21 years before now is a parameter, `Env.cutoff`.
- **Email.** The address part of `parseaddr` is a parameter, `Env.addressOf`.
- **Text.** The program is Python 2, so a text cell is a byte string. One character of a Dafny
  string stands for one byte. `Text.Reverse` therefore reverses bytes, as `n[::-1]` does.
- **The class.** `Validator.OrderValidator` keeps the object's fields and updates them in place:
  - `CleanData` / `DropNullRows`: the column-by-column null filter, as a loop;
  - `ApplyRule6`: the rescue scan, as a loop with the previous row's label, state and zipcode;
  - `FilterByRules`;
  - `PrepareOutputDfs`.

  Each of these methods is proved against a pure specification function (`Cleaning.Clean`,
  `Rescue.Rescued`, `Rules.RulesChain`, `Partition.Partitioned`). The properties are proved as
  lemmas about those functions. `Validator.ValidateOrders` runs the steps in the order of the
  entry point. It is proved equal to the end-to-end function `Validator.Validate`.

Where the code and its documented intent differ, the model follows the code:

- **Leading zeros.** Rule 2 measures `str(z)` of the *converted* integer, so a zipcode written
  `02000` becomes 2000. It has four characters and rule 2 rejects it, even though its digit sum
  passes rule 5. In general, any digit text prints back without its leading zeros
  (`Text.ParseIntDropsLeadingZeros`), so a zipcode written with a leading zero reaches rule 2
  shorter than it was written (`Text.LeadingZeroShortens`; the case `02000` is
  `Examples.LeadingZeroConverts`, `Examples.Zip2000FailsLength` and `Examples.Zip2000PassesDigitSum`).
- **Negative zipcodes.** Rule 5 converts every character of `str(z)` with `int`, so a negative
  zipcode that survives rules 1 to 4 raises an error. The whole run then ends with no output.
  This is modelled as `Err(DigitValueError)` (`Rules.Rule5`, `Rules.RulesChainFailsIff`).
  Because rule 5 raises, the order of the rules decides whether a run completes
  (`Examples.OrderDecidesRaise`). Two orders that both complete keep the same rows
  (`Rules.RaisingOrderIrrelevant`).
- **The last row of a run.** Rule 6 records the *previous* row of each matching pair. The last
  row of a run of equal (state, zipcode) rows is therefore never rescued by that run
  (`Rescue.RunRescued`).

## Model

| member | source | states |
|---|---|---|
| Tables.LabelRows | lot18/order_validator.py:32-33 | the loaded table with row i labelled i: same length and rows, labels increasing |
| Tables.LabelRowsMemberAll | lot18/order_validator.py:32-33 | a labelled row belongs to the loaded table exactly when the table holds that row at that position |
| Tables.Filter | lot18/order_validator.py:53-72 | `df[mask]`: keeps exactly the rows the mask accepts, never more rows than it had, in their order |
| Text.NatToString | lot18/order_validator.py:58 | `str` of a natural number: nonempty digits, `0` exactly for zero, and no leading zero otherwise |
| Text.IntToString | lot18/order_validator.py:58 | `str` of an integer: a minus sign then digits without a leading zero for a negative number; digits without a leading zero (other than `0` itself) otherwise |
| Text.DigitsOfNat | lot18/order_validator.py:71 | the digits of a number's text read back as that number |
| Text.ParseIntToString | lot18/order_validator.py:38-39 | parsing the decimal text of any integer gives that integer back |
| Text.StripLeadingZeros | lot18/order_validator.py:38-39 | the text without its leading zeros: a suffix of it, only zeros removed, no leading zero left except a lone `0` |
| Text.DigitsValueLeadingZero | lot18/order_validator.py:38-39 | a leading zero does not change the value of a digit text |
| Text.CanonicalDigits | lot18/order_validator.py:58 | a digit text without a leading zero is exactly what `str` prints for its value |
| Text.ParseIntDropsLeadingZeros | lot18/order_validator.py:38-39 | `int` of a digit text succeeds with a non-negative value, and `str` of that value is the text without its leading zeros |
| Text.LeadingZeroShortens | lot18/order_validator.py:57-59 | a zipcode text starting with a zero has fewer characters once converted and printed, as rule 2 measures it |
| Text.NatToStringLength | lot18/order_validator.py:58 | a number's text has at most k characters exactly when the number is below 10^k |
| Text.NatToStringLengthIs | lot18/order_validator.py:58 | a number's text has exactly k characters (k at least 2) exactly when it lies in [10^(k-1), 10^k) |
| Text.PowMonotone | lot18/order_validator.py:58 | powers of ten grow with the exponent |
| Text.Reverse | lot18/order_validator.py:95 | `n[::-1]` has the same length and mirrors every character |
| Text.ReverseReverse | lot18/order_validator.py:95 | reversing a name twice restores it |
| Text.TextDigitSum | lot18/order_validator.py:71 | summing `int(x)` over the characters succeeds exactly when every character is a digit |
| Text.TextDigitSumOfInt | lot18/order_validator.py:71 | the digit sum of `str(z)` fails for a negative z and otherwise is the arithmetic digit sum |
| Text.TextDigitSumOfNat | lot18/order_validator.py:71 | the digit sum of a natural number's text is its arithmetic digit sum |
| Orders.NoNullsIff | lot18/order_validator.py:36-37 | a row has no null exactly when every named cell and every further cell holds a value |
| Orders.Uncoerce | lot18/order_validator.py:38-39 | a converted row written back as text has no null |
| Cleaning.DropNulls | lot18/order_validator.py:36-37 | keeps exactly the rows with no null, never more rows, in their order |
| Cleaning.ConvertRows | lot18/order_validator.py:38-39 | converting the columns keeps the row count, each row's label, and each row's converted contents |
| Cleaning.ConvertColumns | lot18/order_validator.py:38-39 | fails exactly when some row's zipcode or id is not integer text, naming `zipcode` exactly when some zipcode fails (it is converted first) and `id` otherwise; on success keeps row count, labels, order and converted contents |
| Cleaning.Clean | lot18/order_validator.py:35-39 | a successful `clean_data` never adds rows and keeps the loaded order |
| Cleaning.CleanRowsComeFromInput | lot18/order_validator.py:35-39 | every row of the cleaned table has a loaded row with the same label that has no null and converts to it |
| Cleaning.CleanKeepsNullFreeRows | lot18/order_validator.py:35-39 | every loaded row without a null appears, converted and under its own label, in the cleaned table |
| Cleaning.CleanDropsNullRows | lot18/order_validator.py:36-37 | cleaning keeps the loaded order, and the label of a row with a null is absent from the cleaned table |
| Cleaning.CleanFailsIff | lot18/order_validator.py:38-39 | cleaning fails exactly when a null-free row has an unconvertible zipcode or id; the error names `zipcode` if any zipcode fails (converted first), otherwise `id` |
| Cleaning.DropNullsIdempotent | lot18/order_validator.py:36-37 | dropping null rows twice is the same as once |
| Cleaning.UncoerceRows | lot18/order_validator.py:38-39 | writing converted rows back as text keeps their count, labels and contents |
| Cleaning.ConvertUncoerce | lot18/order_validator.py:38-39 | converting a row written back as text gives that row again |
| Cleaning.CleanIdempotent | lot18/order_validator.py:35-39 | any converted table written back as text cleans back to itself, so a second `clean_data` changes nothing |
| Cleaning.DropNextColumn | lot18/order_validator.py:36-37 | filtering one more column is the filter on all columns so far |
| Cleaning.AllColumnsDropped | lot18/order_validator.py:36-37 | filtering every column of a rectangular table drops exactly the rows with a null |
| Cleaning.CleanedRowsFromLoaded | lot18/order_validator.py:35-39 | the converted table keeps loaded rows, converted, in loaded order |
| Cleaning.DropNullsFromLoaded | lot18/order_validator.py:36-37 | dropping null rows keeps loaded rows in loaded order |
| Rules.BadStatesAre | lot18/order_validator.py:13 | the banned states are exactly NJ, CT, PA, MA, IL, ID and OR |
| Rules.ZipLengthOk | lot18/order_validator.py:58 | rule 2's test holds exactly for the zipcodes in the 5- and 9-character ranges, negative ones included |
| Rules.DigitSumOk | lot18/order_validator.py:71 | rule 5's test holds exactly for a non-negative zipcode whose digits sum to at most 20 |
| Rules.DigitSumRaisesIffNegative | lot18/order_validator.py:71 | the digit sum of a zipcode's text cannot be taken exactly when the zipcode is negative |
| Rules.Rule1 | lot18/order_validator.py:53-55 | keeps exactly the rows whose state is not banned, in order |
| Rules.Rule2 | lot18/order_validator.py:57-59 | keeps exactly the rows whose zipcode's text has 5 or 9 characters, in order |
| Rules.Rule3 | lot18/order_validator.py:61-64 | keeps exactly the rows born on or before the date 21 years ago, in order |
| Rules.Rule4 | lot18/order_validator.py:66-68 | keeps exactly the rows whose email has a nonempty address part, in order |
| Rules.Rule5 | lot18/order_validator.py:70-72 | raises `DigitValueError` exactly when some row has a negative zipcode; otherwise keeps exactly the rows with digit sum at most 20, in order |
| Rules.RulesChain | lot18/order_validator.py:45-49 | rules 1 to 5 in the source's order can only raise `DigitValueError`; otherwise they keep exactly the rows that pass all five conditions, in order |
| Rules.KeepsAllIff | lot18/order_validator.py:45-49 | an order kept by every rule of the source's order is exactly one that passes all five conditions |
| Rules.ChainIsConjunction | lot18/order_validator.py:45-49 | applying rules one after another keeps exactly the rows that every rule keeps, in order |
| Rules.RuleOrderIrrelevant | lot18/order_validator.py:45-49 | for rules that only select rows, any two orderings of the same rules keep the same rows |
| Rules.Rule1IsRule | lot18/order_validator.py:53-55 | rule 1 is the banned-state rule of the chain |
| Rules.Rule2IsRule | lot18/order_validator.py:57-59 | rule 2 is the zip-length rule of the chain |
| Rules.Rule3IsRule | lot18/order_validator.py:61-64 | rule 3 is the age rule of the chain |
| Rules.Rule4IsRule | lot18/order_validator.py:66-68 | rule 4 is the email rule of the chain |
| Rules.Rule5IsRule | lot18/order_validator.py:70-72 | when rule 5 does not raise, it is the digit-sum rule of the chain |
| Rules.RaisingChainIsChain | lot18/order_validator.py:45-49 | rules applied in any order, with rule 5 raising, keep what the selecting chain keeps whenever they complete |
| Rules.RaisingOrderIrrelevant | lot18/order_validator.py:45-49 | two orders of the same rules that both complete, with rule 5 raising, keep the same rows |
| Rules.RulesChainIsRaisingChain | lot18/order_validator.py:41-51 | `filter_by_rules`, errors included, is the raising chain of the five rules in the source's order |
| Rules.RulesChainIsChain | lot18/order_validator.py:41-51 | when the rules do not raise, `filter_by_rules` keeps exactly what the chain of the five rules keeps |
| Rules.RulesChainFailsIff | lot18/order_validator.py:41-51 | `filter_by_rules` raises exactly when a row with a negative zipcode passes rules 1 to 4 |
| Rescue.Rescued | lot18/order_validator.py:74-89 | the scan records at most one label per row after the first, and only labels of the scanned table |
| Rescue.RescuedIff | lot18/order_validator.py:74-89 | a label is rescued exactly when its row is followed by a row with the same state and zipcode |
| Rescue.RescuedIncreasing | lot18/order_validator.py:74-89 | on a table in loaded order, rescued labels are strictly increasing and are labels of the table |
| Rescue.NoMatchNotRescued | lot18/order_validator.py:80-81 | a row not followed by a match is not rescued |
| Rescue.LastRowNotRescued | lot18/order_validator.py:79-85 | the last row is never rescued |
| Rescue.RunRescued | lot18/order_validator.py:79-85 | in a maximal run of rows with equal state and zipcode, every row but the last is rescued and the last is not |
| Partition.ValidRows | lot18/order_validator.py:92 | the valid table holds exactly the loaded rows whose label is valid, in loaded order |
| Partition.RejectedRows | lot18/order_validator.py:93-94 | the loaded rows left after dropping the valid labels and the null names, in loaded order |
| Partition.WithReversedName | lot18/order_validator.py:95 | reversing the name back gives the loaded name, and no other column changes |
| Partition.ReverseNames | lot18/order_validator.py:95 | reverses the name of every row and changes nothing else |
| Partition.InvalidRows | lot18/order_validator.py:93-95 | the invalid table holds exactly the loaded rows with a name and an invalid label, name reversed, in loaded order |
| Partition.Project | lot18/order_validator.py:97-102 | every row keeps its place, label, `id` and `name`; the other columns stay exactly when detailed |
| Partition.Partitioned | lot18/order_validator.py:91-102 | the two outputs together hold at most one row per loaded row |
| Partition.ProjectLabels | lot18/order_validator.py:97-102 | selecting columns keeps the row labels |
| Partition.ValidOutputLabels | lot18/order_validator.py:92 | a label is in the valid output exactly when it is a valid label of a loaded row |
| Partition.InvalidOutputLabels | lot18/order_validator.py:93-94 | a label is in the invalid output exactly when its loaded row has a name and the label is not valid |
| Partition.PartitionComplete | lot18/order_validator.py:92-94 | the outputs share no label; a named row is in exactly one output; a nameless invalid row is in neither; every output label is a loaded row |
| Partition.ValidOutputContents | lot18/order_validator.py:91-102 | valid output rows keep the loaded `id` and `name`; they are full rows, as loaded, exactly when detailed |
| Partition.InvalidOutputContents | lot18/order_validator.py:93-102 | invalid output rows keep the loaded `id`, carry the loaded name reversed (reversing again gives it back), and are full rows exactly when detailed |
| Validator.Validate | lot18/order_validator.py:133-137 | a run fails only with a conversion error or `DigitValueError`; a run that succeeds puts each loaded row in at most one output |
| Validator.CleanedRowOfLabel | lot18/order_validator.py:35-39 | every label of the cleaned table is a null-free loaded row, present converted under that label |
| Validator.ValidIffRescuedOrPassed | lot18/order_validator.py:133-137 | after a successful run, a loaded row is valid exactly when it has no null and is rescued or passes all five rules |
| Validator.OrderValidator.constructor | lot18/order_validator.py:32-33 | the working table starts as a labelled copy of the loaded table |
| Validator.OrderValidator.CleanData | lot18/order_validator.py:35-39 | the working table becomes the cleaned table; on a conversion error it is returned and the converted table is unchanged |
| Validator.OrderValidator.DropNullRows | lot18/order_validator.py:36-37 | the loop over columns leaves exactly the rows with no null, in loaded order |
| Validator.OrderValidator.ApplyRule6 | lot18/order_validator.py:74-89 | the scan returns its table unchanged and records exactly the rescued labels, in scan order |
| Validator.OrderValidator.FilterByRules | lot18/order_validator.py:41-51 | records the rescued labels of the whole working table, then narrows it to what rules 1 to 5 keep; if rule 5 raises, the table is unchanged |
| Validator.OrderValidator.PrepareOutputDfs | lot18/order_validator.py:91-102 | the two output tables are the partition of the loaded table by the rescued and kept labels |
| Validator.ValidateOrders | lot18/order_validator.py:133-137 | load, clean, filter and prepare, in that order, give the end-to-end result or its first error |
| Validator.FilterAndPrepare | lot18/order_validator.py:136-137 | after cleaning, `filter_by_rules` then `prepare_output_dfs` give rule 5's error, or the partition by the rescued and kept labels |
| Examples.RescueExample | lot18/order_validator.py:74-89 | rows (A,Z),(A,Z),(B,Y) rescue exactly the first row |
| Examples.DigitSumRejects99999 | lot18/order_validator.py:70-72 | zipcode 99999 fails the digit-sum rule |
| Examples.LeadingZeroConverts | lot18/order_validator.py:38 | the text `02000` converts to 2000 |
| Examples.Zip2000PassesDigitSum | lot18/order_validator.py:70-72 | zipcode 2000 passes the digit-sum rule |
| Examples.Zip2000FailsLength | lot18/order_validator.py:57-59 | zipcode 2000 fails the length rule |
| Examples.NameReversalExample | lot18/order_validator.py:95 | `Smith` reversed is `htimS` |
| Examples.TwoOrdersTexts | lot18/order_validator.py:38-39 | the example's id and zipcode texts convert as expected |
| Examples.TwoOrdersConvert | lot18/order_validator.py:38-39 | both example rows convert |
| Examples.TwoOrdersClean | lot18/order_validator.py:35-39 | cleaning the two-order example keeps both rows |
| Examples.TwoOrdersRules | lot18/order_validator.py:41-51 | the NJ order is rejected and the NY order kept |
| Examples.FiveOrNineChars10001 | lot18/order_validator.py:58 | zipcode 10001 has five characters |
| Examples.TwoOrdersValidRows | lot18/order_validator.py:92 | the valid table of the example is the NY row |
| Examples.TwoOrdersInvalidRows | lot18/order_validator.py:93-95 | the invalid table of the example is the NJ row with its name reversed |
| Examples.TwoOrdersValidLabels | lot18/order_validator.py:74-92 | the example's rows differ in state, so none is rescued and only the kept NY row is valid |
| Examples.TwoOrdersPartition | lot18/order_validator.py:91-102 | with valid label 1 and no detail, the outputs are the NY row's `id` and `name` and the NJ row's `id` with its name reversed |
| Examples.TwoOrdersValidate | lot18/order_validator.py:133-137 | end to end, the NY order is valid and the NJ order invalid with its name reversed |
| Examples.OrderDecidesRaise | lot18/order_validator.py:45-49 | on one NJ order with a negative zipcode, rule 1 then rule 5 completes with no rows, while rule 5 then rule 1 raises |

## Left out

- `read_csv` (`lot18/order_validator.py:18-33`): file reading, the header scan for the birthday column and date parsing are I/O. The model starts from the loaded table.
- `output_as_csv` and `output_as_json`: file output and printing.
- The command-line entry point: argument parsing is left out. `detailed` and the cutoff day are parameters of `Validator.ValidateOrders`.
- `email.utils.parseaddr`: the model takes its address part as the parameter `Env.addressOf`.
- `datetime.now()` and `relativedelta(years=21)`: the clock is a parameter. Birthdays and the cutoff are day numbers.
- Text.ParseInt: returns an unbounded integer. `astype(int)` converts to 64-bit integers and raises `OverflowError` on an id or zipcode text outside that range; the model does not raise there.
- Text.ParseInt: does not accept the surrounding whitespace or the `+` sign that Python's `int` also accepts. It does not model cells pandas has already read as floats.
- Text.Reverse: works on characters, each standing for one byte of a Python 2 `str`. What a name with multi-byte characters looks like once its bytes are reversed is not modelled.
- Rules.RuleOrderIrrelevant: is stated for rules that only select rows, so rule 5 drops a negative zipcode instead of raising. With rule 5 raising, the order decides whether a run completes (`Examples.OrderDecidesRaise`). `Rules.RaisingOrderIrrelevant` covers two orders that both complete.
- Rules.RulesChain: does not model pandas on an empty working table. If the table reaching rule 2 or rule 4 is empty, `Series.apply` returns an empty Series that is not boolean. `df[...]` then selects columns instead of rows and leaves none, and the next rule raises `AttributeError`: rule 3 on `df.birthday` (`lot18/order_validator.py:63`) or rule 5 on `df.zipcode` (`lot18/order_validator.py:71`). The same gap carries over to `Validator.Validate`. The model returns `Ok` with no kept rows there. This describes pandas 0.x as read, not as run.
- Unparseable birthdays are not modelled: the birthday cell is assumed already parsed or null.
- Validator.OrderValidator.PrepareOutputDfs: `reindex` would add all-null rows for labels absent from the loaded table. The model omits them because no such label can occur: every safe and kept label is a loaded row (`OrderValidator.Valid`).
- Validator.OrderValidator.constructor: requires a rectangular table (all rows with equally many extra columns), as every dataframe is.
- Pandas' column dtypes, the order of the columns in the output and the index written by `to_json` are not modelled.
- The `reonomy` part of the repository is not part of this model.
