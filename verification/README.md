# csv_median_calculator — a verified model of its core

The repository computes a running median of prices read from CSV files. This
project models the two pieces that do the work:

- **`median::median_calculator`** (`src/median_calculator.hpp`). It is an online
  median built from two priority queues. A max-heap holds the lower half of the
  values and a min-heap holds the upper half. `add` pushes a value onto one heap
  and then `balance` moves at most one top element across. `median()` reads only
  the two tops.
  - The model is the class `Median.MedianCalculator`. Each heap is a `multiset<real>`
    field, and `top()` is `MedianSpec.MaxOf` / `MedianSpec.MinOf`.
  - A ghost field `added` records every value passed to `Add`.
  - The class invariant `Valid()` holds after every call. It says:
    - the heaps together hold exactly the added values;
    - their sizes differ by at most one;
    - every lower value is at most every upper value;
    - the upper half is empty whenever the lower half is.
  - `Median()` is proved equal to an independent reference: insertion-sort the
    added values, then take the middle element, or the mean of the two middle
    elements.
- **The parsing and filtering logic of `csv::read_csv_files`** (`src/csv_reader.hpp`).
  This covers:
  - `split_line`, which has `std::getline` semantics (`LineSplitter`);
  - `parse_u64` on top of base-10 `std::from_chars` (`Unsigned`);
  - the case-insensitive `.csv` extension test and the file-name masks (`FileFilter`);
  - the header-column lookup with whitespace trimming (`CsvHeader`);
  - the per-row validation with line numbers and error messages (`CsvReader`).

  Each loop of the source is a method proved equal to a specification function:
  `SplitLine`, `PassesMasks`, `FindColumns`, `ReadRows`, `ReadOneFile` and
  `ReadCsvFiles`. The reader's promises are proved as lemmas about those functions.

The file system is abstracted. A directory is given as the sequence of its
entries in iteration order. Each entry carries its path, its file name, whether
it is a regular file, and its text. The price parser `parse_long_double` is a
function parameter `parsePrice: string -> Option<real>`.

Files: `wrappers.dfy` (Option, Result), `median_spec.dfy`, `median_calculator.dfy`,
`line_splitter.dfy`, `parse_u64.dfy`, `file_filter.dfy`, `csv_header.dfy`,
`csv_reader.dfy`.

## Model

| member | source | states |
|---|---|---|
| Median.MedianCalculator.constructor | src/median_calculator.hpp:16 | a new calculator has two empty heaps, has seen no values, and satisfies the invariant |
| Median.MedianCalculator.Add | src/median_calculator.hpp:19-26 | keeps the invariant: heaps hold exactly the added values, sizes within one, lower ≤ upper, upper empty when lower is; the value is appended to the added values; the new heaps are `AddToHalves` of the old ones |
| Median.AddToHalves | src/median_calculator.hpp:19-26 | the value goes to the lower heap when that heap is empty or its top is ≥ the value, otherwise to the upper heap, and the heaps are then rebalanced; together they hold the old values plus the new one, and halves within one stay within one |
| Median.Rebalance | src/median_calculator.hpp:43-51 | the larger heap's top moves across only when that heap leads by more than one; the union of the heaps is unchanged, and heaps at most two apart end at most one apart |
| Median.MedianCalculator.Balance | src/median_calculator.hpp:43-51 | from heaps at most two apart, moves the max of the lower heap (or the min of the upper heap) across when one is more than one larger, else changes nothing; keeps the union of the heaps and restores the invariant; the result is `Rebalance` of the old heaps |
| Median.MedianCalculator.Median | src/median_calculator.hpp:29-40 | equals the sorted-sequence median of all added values, and is None exactly when nothing was added; a function, so it changes no state |
| Median.MedianOfTops | src/median_calculator.hpp:29-40 | reading the tops gives None exactly when the lower heap is empty |
| Median.TopsGiveMedian | src/median_calculator.hpp:29-40 | for balanced, ordered halves of the values, the tops-based answer equals the median of the sorted values |
| Median.PushLowerKeepsOrder | src/median_calculator.hpp:20-21 | pushing a value no greater than the lower top (or onto an empty lower heap) keeps every lower value ≤ every upper value |
| Median.PushUpperKeepsOrder | src/median_calculator.hpp:22-23 | pushing a value greater than the lower top onto the upper heap keeps the halves ordered |
| Median.MoveMaxKeepsOrder | src/median_calculator.hpp:44-46 | moving the lower heap's top to the upper heap keeps the halves ordered |
| Median.MoveMinKeepsOrder | src/median_calculator.hpp:47-49 | moving the upper heap's top to the lower heap keeps the halves ordered |
| Median.ThreeValuesExample | src/median_calculator.hpp:19-40 | adding low, high, mid (low ≤ mid ≤ high) to a new calculator gives median mid |
| Median.FourValuesExample | src/median_calculator.hpp:19-40 | adding a ≤ b ≤ c ≤ d to a new calculator gives median (b + c) / 2 |
| Median.UpperHalfCanBeLarger | src/median_calculator.hpp:19-26 | adding 5, 6, 7 to empty heaps leaves {5} in the lower heap and {6, 7} in the upper heap; no element moves, and the median is the upper top 6 |
| MedianSpec.MaxOf | src/median_calculator.hpp:53 | `top()` of the max-heap is an element of it that no element exceeds |
| MedianSpec.MinOf | src/median_calculator.hpp:54 | `top()` of the min-heap (std::greater) is an element of it that no element undercuts |
| MedianSpec.MiddleOf | src/median_calculator.hpp:30-39 | None exactly for no values; for sorted values it lies between the first and the last, every element of the lower half is ≤ it and every element of the upper half is ≥ it |
| MedianSpec.HalvesMedian | src/median_calculator.hpp:31-39 | two balanced, ordered halves determine the sorted median: mean of the lower max and upper min when equal in size, else the top of the larger half |
| MedianSpec.SortedMedianOrderIndependent | src/median_calculator.hpp:19-40 | the median depends only on the multiset of values added, not on their order |
| MedianSpec.SortedUnique | src/median_calculator.hpp:31-39 | two sorted sequences with the same elements are equal, so "the sorted values" is well defined |
| MedianSpec.OddCountMedian | src/median_calculator.hpp:19-40 | adding 1, 3, 2 gives median 2 |
| MedianSpec.EvenCountMedian | src/median_calculator.hpp:19-40 | adding 1, 2, 3, 4 gives median 2.5 |
| MedianSpec.MedianOfThree | src/median_calculator.hpp:19-40 | values low, high, mid with low ≤ mid ≤ high have median mid |
| MedianSpec.MedianOfFour | src/median_calculator.hpp:19-40 | four values in order have median the mean of the middle two |
| LineSplitter.Split | src/csv_reader.hpp:27-35 | the token list is empty exactly when the line is empty |
| LineSplitter.SplitLine | src/csv_reader.hpp:27-35 | the getline loop returns exactly the tokens of `Split` |
| LineSplitter.SplitFrom | src/csv_reader.hpp:32-33 | one getline call extracts the characters up to the next separator and consumes that separator |
| LineSplitter.SplitHasNoSeparator | src/csv_reader.hpp:32-33 | no token contains the separator |
| LineSplitter.JoinSplit | src/csv_reader.hpp:31-34 | joining the tokens with the separator gives back the line minus one trailing separator |
| LineSplitter.SplitJoin | src/csv_reader.hpp:31-34 | separator-free tokens whose last token is non-empty are recovered by splitting their join |
| Unsigned.FromChars | src/csv_reader.hpp:56 | reads the longest digit prefix; invalid_argument exactly when there is none; result_out_of_range exactly when its value exceeds 2^64−1; on success yields that value, otherwise leaves the value alone |
| Unsigned.ParseU64 | src/csv_reader.hpp:51-62 | succeeds exactly for a non-empty all-digit string whose value is at most 2^64−1, and then yields that value |
| Unsigned.RejectsNonDigit | src/csv_reader.hpp:57 | a non-digit anywhere stops from_chars before it, so the parse fails |
| Unsigned.ToDecimal | src/csv_reader.hpp:128 | `std::to_string`: non-empty digits with no leading zero whose value is the number |
| Unsigned.ParseToDecimal | src/csv_reader.hpp:128 | parsing the printed line number gives the number back |
| FileFilter.ToLowerChar | src/csv_reader.hpp:84 | `::tolower`: the result is never an upper-case letter, it is a lower-case letter exactly when the input was a letter, and only upper-case letters change |
| FileFilter.ToLower | src/csv_reader.hpp:83-84 | same length, each character lowered |
| FileFilter.ToLowerIdempotent | src/csv_reader.hpp:84 | lower-casing an already lowered string changes nothing |
| FileFilter.Extension | src/csv_reader.hpp:81 | empty, or a proper suffix of the name that starts with the last '.' and contains no other '.' |
| FileFilter.CsvFileIff | src/csv_reader.hpp:80-85 | a name passes the extension test exactly when it has at least one character before a ".csv" suffix in any case |
| FileFilter.Find | src/csv_reader.hpp:90 | `find`: the first position where the mask occurs, or npos when it occurs nowhere |
| FileFilter.FindIffOccurs | src/csv_reader.hpp:90 | `find` is not npos exactly when the mask occurs somewhere in the name |
| FileFilter.PassesMasks | src/csv_reader.hpp:87-92 | the mask loop accepts exactly when the mask list is empty or some mask occurs in the name |
| FileFilter.EmptyMaskMatches | src/csv_reader.hpp:88-92 | an empty-string mask accepts every name |
| CsvHeader.FirstNotBlank | src/csv_reader.hpp:110 | `find_first_not_of(" \t\r\n")`: everything before it is blank, the character at it is not |
| CsvHeader.EndOfNonBlank | src/csv_reader.hpp:111 | `find_last_not_of(" \t\r\n") + 1`: everything from it on is blank, the character before it is not |
| CsvHeader.Trim | src/csv_reader.hpp:109-111 | the result is empty or starts and ends with a non-blank character |
| CsvHeader.TrimStripsPadding | src/csv_reader.hpp:109-111 | trimming blank padding around a field gives back exactly the field |
| CsvHeader.LastColumn | src/csv_reader.hpp:106-114 | the index of the last field whose trimmed text is the name, or -1 when no field matches |
| CsvHeader.FindColumns | src/csv_reader.hpp:105-114 | the header loop finds the last "receive_ts" and the last "price" column, -1 for a missing one |
| CsvReader.ReadError.Message | src/csv_reader.hpp:116-136 | the four error texts; a row error ends with its line number in decimal, a missing-column error with the file path |
| CsvReader.ParseRow | src/csv_reader.hpp:124-139 | a record carries the file and line number; an error names the file and line and is never a missing-column error |
| CsvReader.ParseRowIff | src/csv_reader.hpp:124-139 | a row is accepted exactly when both column indices are in range and both fields parse, and the record holds those values; a row too short for either index is reported as not having enough columns |
| CsvReader.CheckRow | src/csv_reader.hpp:124-139 | the row checks, made in the source's order, give `ParseRow` |
| CsvReader.ReadRows | src/csv_reader.hpp:119-140 | the data-line loop, numbering from 2, yields exactly `ParseRows` of the lines after the header |
| CsvReader.ReadOneFile | src/csv_reader.hpp:100-140 | processing one opened file yields exactly `ParseFile` |
| CsvReader.ReadCsvFiles | src/csv_reader.hpp:76-142 | the directory loop yields exactly `ParseEntries` with `ParseFile` as the file reader: only selected entries are read, records accumulate, and the first error ends the read with the records gathered so far |
| CsvReader.SelectEntry | src/csv_reader.hpp:78-92 | the loop's filters, applied in the source's order, accept exactly a regular file whose extension lower-cases to ".csv" and whose name matches a mask |
| CsvReader.DataLinesAreRows | src/csv_reader.hpp:120-123 | every processed line is the non-empty line its number names |
| CsvReader.DataLinesIncrease | src/csv_reader.hpp:120-122 | processed line numbers start at the first number and strictly increase |
| CsvReader.DataLinesComplete | src/csv_reader.hpp:121-123 | every non-empty line is processed with its own number; empty lines are skipped but still counted |
| CsvReader.ParseRowsMeaning | src/csv_reader.hpp:119-140 | the records are the results for the non-empty lines in order, up to the first failing line, whose error is returned; without a failure there is one record per non-empty line |
| CsvReader.FirstFailureStops | src/csv_reader.hpp:132-137 | a rejected line reached after error-free lines ends the read with that line's error |
| CsvReader.FirstFileErrorStops | src/csv_reader.hpp:95-141 | a selected file whose read fails, reached after error-free entries, ends the whole read with that file's error and the records gathered before it; later entries are never read |
| CsvReader.ShortRowReported | src/csv_reader.hpp:125-128 | a line with field count ≤ max(column indices), reached after error-free lines, ends the read with "not enough columns" naming its line number |
| CsvReader.RecordsOfFile | src/csv_reader.hpp:119-140 | every record of a file names that file and a line ≥ 2, records are in strictly increasing line order, and a row error names a line ≥ 2 |
| CsvReader.MissingColumnsIff | src/csv_reader.hpp:105-117 | a file fails with the missing-column error exactly when it has a header line lacking "receive_ts" or "price" |
| CsvReader.EmptyFileSkipped | src/csv_reader.hpp:100-104 | an empty file yields no records and no error |
| CsvReader.HeaderOnly | src/csv_reader.hpp:100-121 | a header naming both columns, with or without a final newline and no data lines, yields no records and no error |
| CsvReader.NothingSelected | src/csv_reader.hpp:77-92 | when no entry is selected, the read succeeds with no records |
| CsvReader.RecordsFromSelected | src/csv_reader.hpp:77-139 | every record comes from a selected entry (a regular file with a .csv extension that matches a mask) and names that entry's path |

## Left out

- `parse_long_double` (`std::stold`) is a parameter `parsePrice`. It is floating-point parsing, and the model says nothing about which strings it accepts.
- Strings are sequences of Unicode characters, while `std::string` holds bytes. Every comparison in the core is against ASCII text, but a file name or line that is not valid UTF-8 cannot be represented.
- Values are exact `real`s, not `long double`.
- Median.MedianCalculator.Median: `(a + b) / 2` is exact. The source rounds it in `long double`, and the model does not capture that rounding.
- Directory handling is left out: the existence and is-directory checks, and the "does not exist" / "is not a directory" messages.
- Opening a file and the "Failed to open CSV file" error are left out.
- The order of directory iteration is left out. The entries come as a sequence in whatever order the iterator yields. Nothing is claimed about record order across files, only within a file.
- A file's text is one string, cut into lines by `Split(content, '\n')`. That is the same rule `std::getline` applies, but stream errors are not modelled.
- The extension is computed from the file name, which is what `path::extension()` looks at. Paths are not modelled beyond the name.
- Record.lineNo: a `nat` rather than `std::uint64_t`. Wrap-around after 2^64 lines is not modelled.
- The internal layout of `std::priority_queue` is left out. Only the top/push/pop contract is modelled, on multisets.
- `median()` is `const`, which is modelled by its being a Dafny function. Repeated calls therefore return the same value and change nothing.
- Only the base-10, unsigned case of `std::from_chars` is modelled, since `parse_u64` uses nothing else.
- `src/config_parser.hpp` (a wrapper over the toml++ library) is not part of this model.
- `src/main.cpp` (a command-line smoke test) is not part of this model.
- Timestamp sorting and output emission do not appear in the modelled files.
