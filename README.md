# GWAS catalog table, modelled in Dafny

The repository loads the GWAS catalog. This is a tab-separated file with one
association per line. The code keeps the catalog in memory as a header, rows
of string fields and a map from column name to position. On that table it
offers these operations:

- cell access;
- the distinct values of a column;
- exact-match filtering by the value of one column;
- validity masks over a column;
- per-disease row counts;
- an RSID filter;
- (chromosome position, effect size) extraction.

The repository contains two versions of this code. Each one is modelled in its
own module:

- `GenRiskLib` covers `gen_risk_lib/GWAS.hxx`, the newer version. It has a
  `FlatFile` class, and a `GWAS` class that wraps one `FlatFile`. Both are
  Dafny classes whose fields are the C++ members.
- `LegacyGwas` covers `GWAS.hxx`, the older version. It has a single `GWAS`
  class that holds the header, the index and the rows itself.

Three modules are shared:

- `TabSplit` models `getTokens`. The function is identical in both headers.
- `Table` holds the pure specification functions both versions are proved
  against: the header index, row selection, the values of a column, and the
  count of each value.
- `Wrappers` holds `Option`, `Result`, the exceptions that can escape, and the
  64-bit `unsigned long`.

Modelling conventions:

- A C++ exception that escapes an operation becomes an `Err` outcome. This
  covers `std::unordered_map::at` on an unknown column,
  `boost::lexical_cast` failures, and `std::out_of_range` from `std::stoul` or
  `std::stod`.
- Indexing a row that is too short is undefined behaviour in C++. It is
  therefore a precondition (`HasField`).
- `double` is modelled as `real`.
- `unsigned long` is modelled as `ULong` (`0 .. 2^64 - 1`). Conversion to it
  is written out as reduction modulo 2^64.
- Number parsing is a parameter of each operation that parses:
  - `parsePos` / `parseEs` stand for `boost::lexical_cast`, returning
    `None` on failure;
  - `stoul` / `stod` stand for `std::stoul` / `std::stod`, returning the
    value or the exception they throw.
- Each loop of the source is a Dafny `method` with a loop, proved against a
  specification:
  - loops over the rows keep a function of the rows seen so far: `Select`,
    `Column`, `Tally`, `Emit`, `Collect`;
  - `UniqueCol` keeps `ValueSet` of the rows seen so far;
  - `getTokens` keeps `Tokens`, a function that recurses over the line;
  - `intersect`, `grab_mask`, `integrity_check` and the older `uniqueRSIDs`
    keep quantified invariants over the elements seen so far;
  - the sort keeps an ordered prefix whose elements are those of the input.

## Model

| member | source | states |
|---|---|---|
| TabSplit.GetTokens | gen_risk_lib/GWAS.hxx:35-43 | the tokens are `Tokens(line)`: every tab ends a field, and the text after the last tab is a field only when it is non-empty (the same function is at GWAS.hxx:15-23) |
| TabSplit.TokensHaveNoTab | gen_risk_lib/GWAS.hxx:35-43 | no token contains a tab |
| TabSplit.JoinTokens | gen_risk_lib/GWAS.hxx:35-43 | joining the tokens with tabs gives the line back, except for the one trailing tab that is dropped |
| TabSplit.JoinTokensNoTrailingTab | gen_risk_lib/GWAS.hxx:35-43 | a line that does not end in a tab equals its tokens joined by tabs |
| TabSplit.TokensJoin | gen_risk_lib/GWAS.hxx:35-43 | splitting the tab-join of tab-free fields whose last field is non-empty gives exactly those fields (the inverse direction) |
| TabSplit.EmptyLineHasNoTokens | gen_risk_lib/GWAS.hxx:35-43 | the empty line yields no tokens |
| TabSplit.TrailingTabAddsNoToken | gen_risk_lib/GWAS.hxx:35-43 | a tab appended to a line that does not end in a tab adds no empty token |
| GenRiskLib.Intersect | gen_risk_lib/GWAS.hxx:54-65 | a value is in the result iff it is in both inputs; the result is a set, so it has no duplicates, is a subset of each input and is symmetric in them |
| Table.HeaderIndex | gen_risk_lib/GWAS.hxx:117-121 | the index has one key per header name; each maps to a position below the header length that holds that name, and no later position holds it (last occurrence wins) |
| Table.DistinctHeaderIndex | gen_risk_lib/GWAS.hxx:117-121 | with distinct names, the index maps `header[j]` back to `j` |
| GenRiskLib.FlatFile.InitHeaderIndexMap | gen_risk_lib/GWAS.hxx:117-121 | the loop leaves `index_of` equal to its old contents overridden by `HeaderIndex(header)` |
| GenRiskLib.FlatFile.constructor | gen_risk_lib/GWAS.hxx:143-147 | keeps the header and rows given, and the index is `HeaderIndex(header)` |
| GenRiskLib.FlatFile.FromLines | gen_risk_lib/GWAS.hxx:149-160 | needs at least one line; the header is the tokens of line 0; row k is the tokens of line k+1, so there is one row fewer than lines |
| GenRiskLib.FlatFile.UniqueCol | gen_risk_lib/GWAS.hxx:167-173 | a value is in the result iff some row holds it in the column; there are at most `num_rows()` values |
| Table.ValueSetSize | gen_risk_lib/GWAS.hxx:167-173 | a column has no more distinct values than rows |
| GenRiskLib.FlatFile.Trim | gen_risk_lib/GWAS.hxx:186-194 | the result is `Select(data, col, value)`: the rows whose field equals the value, in their original order |
| Table.Select | gen_risk_lib/GWAS.hxx:186-194 | the selection is no longer than the input; every selected row comes from the input and matches; every matching input row is selected |
| Table.SelectAppend | gen_risk_lib/GWAS.hxx:186-194 | selection distributes over concatenation, so relative order is kept |
| Table.SelectIdempotent | gen_risk_lib/GWAS.hxx:186-194 | selecting the selected rows again by the same test changes nothing |
| GenRiskLib.FlatFile.Subsetter2 | gen_risk_lib/GWAS.hxx:181-183 | a new table with the same header, its own index built from that header, and the trimmed rows |
| GenRiskLib.Gwas.constructor | gen_risk_lib/GWAS.hxx:241 | the catalog wraps the given table |
| GenRiskLib.Gwas.GrabMask | gen_risk_lib/GWAS.hxx:219-228 | the indices are strictly increasing and below `num_rows()`; index i is present iff the cell passes the validity test |
| GenRiskLib.Gwas.Subsetter | gen_risk_lib/GWAS.hxx:290-293 | an unknown column name fails with `UnknownColumn`; otherwise the result is a fresh catalog with the same header and the selected rows |
| GenRiskLib.Gwas.UniqueDiseases | gen_risk_lib/GWAS.hxx:269-272 | fails iff `DISEASE/TRAIT` is unknown; otherwise returns the distinct values of that column, at most `size()` of them |
| GenRiskLib.Gwas.UniqueRsids | gen_risk_lib/GWAS.hxx:343-346 | fails iff `SNPS` is unknown; otherwise returns the distinct values of that column, at most `size()` of them |
| GenRiskLib.Gwas.EmitAscending | gen_risk_lib/GWAS.hxx:305-310 | visiting the index set in ascending order, as a `std::set` iterates, gives `Emit`: one pair per visited row, with the first failed cast ending the call |
| GenRiskLib.Gwas.PositionsAndEffectSize | gen_risk_lib/GWAS.hxx:302-313 | as written: an unknown `CHR_POS` or `OR or BETA` column fails with `UnknownColumn`. Otherwise the outcome is `Emit` over the rows whose effect size parses. It succeeds iff every such row also has a parseable position, and then the result is `Paired`, one pair per row where both fields parse, in row order. Otherwise it fails with `BadLexicalCast` of the position field of the first such row whose position does not parse |
| GenRiskLib.Gwas.PairedValues | gen_risk_lib/GWAS.hxx:296-313 | the documented behaviour: succeeds iff both columns are known, and then returns exactly `Paired`; its only failure is `UnknownColumn` |
| GenRiskLib.EffectMaskFailure | gen_risk_lib/GWAS.hxx:305-308 | with the mask the source builds, a failed extraction reports the position field of the first row whose effect size parses and whose position does not |
| GenRiskLib.EmitEffectMask | gen_risk_lib/GWAS.hxx:305-308 | with the mask the source builds (every row whose effect size parses), extraction succeeds iff those rows all have a parseable position, and then it yields `Paired` |
| GenRiskLib.EmitBothMask | gen_risk_lib/GWAS.hxx:305-308 | with the mask of rows where both fields parse, extraction never fails and yields `Paired` |
| GenRiskLib.EmitUnchanged | gen_risk_lib/GWAS.hxx:305-310 | rows after a failure, and rows outside the mask, do not change the result |
| GenRiskLib.Paired | gen_risk_lib/GWAS.hxx:299-300 | there are never more pairs than rows |
| GenRiskLib.PairedSize | gen_risk_lib/GWAS.hxx:296-300 | the number of pairs equals the size of the intersection of the two masks |
| GenRiskLib.PairedMembers | gen_risk_lib/GWAS.hxx:296-300 | a pair appears iff some row parses to it in both columns, so a row with an unparseable effect size never contributes |
| GenRiskLib.ThreeRowExample | gen_risk_lib/GWAS.hxx:305-307 | on a three-row table the intended result is the single pair (100, 1.2), but the source's mask leads to a failed cast on the position "abc" |
| LegacyGwas.Gwas.InitHeaderIndexMap | GWAS.hxx:54-58 | the loop leaves `index_of` equal to its old contents overridden by `HeaderIndex(header)` |
| LegacyGwas.Gwas.constructor | GWAS.hxx:67-70 | keeps the header and rows given, and the index is `HeaderIndex(header)` |
| LegacyGwas.Gwas.FromLines | GWAS.hxx:76-85 | needs at least one line; the header is the tokens of line 0; row k is the tokens of line k+1 |
| LegacyGwas.Gwas.IntegrityCheck | GWAS.hxx:104-108 | passes iff every row has exactly one field per header name |
| LegacyGwas.Gwas.Diseases | GWAS.hxx:110-116 | with a `DISEASE/TRAIT` column the result is `Tally` of that column; without one, an empty table gives no counts and a non-empty table fails |
| Table.Tally | GWAS.hxx:110-116 | one key per distinct value, and each count is the number of entries equal to that key |
| Table.Occurrences | GWAS.hxx:110-116 | a count never exceeds the number of entries, and it is positive iff the value occurs |
| Table.TallySum | GWAS.hxx:110-116 | the counts add up to the number of rows, that is `size()` |
| Table.OccurrencesIsSelectSize | GWAS.hxx:146-160 | the count of a disease equals the number of rows `get_disease` keeps for it |
| LegacyGwas.Gwas.FrequentDiseaseCount | GWAS.hxx:127-137 | the count printed as "diseases > 9" is the number of tally keys whose count exceeds nine. With a `DISEASE/TRAIT` column it is also the number of distinct diseases whose subset has more than nine rows, and it is at most the number of distinct diseases. It fails exactly when `diseases()` does |
| LegacyGwas.FrequentAreLargeSubsets | gen_risk_lib/GWAS.hxx:276-282 | the diseases the newer `printSummary` counts (values of `uniqueDiseases` whose `subsetter` result has more than nine rows) are exactly the frequent keys of the older tally |
| LegacyGwas.CountFrequent | GWAS.hxx:132-134 | the loop over the counts, in any order, gives the number of keys whose count exceeds nine |
| LegacyGwas.Frequent | GWAS.hxx:132-134 | the frequent diseases are among the counted diseases |
| LegacyGwas.FrequentAtMostDistinct | GWAS.hxx:127-137 | there are never more frequent diseases than distinct diseases |
| LegacyGwas.Gwas.Subsetter | GWAS.hxx:150-160 | an unknown column fails with `UnknownColumn`; otherwise a fresh catalog with a copy of the header and exactly the matching rows, in order |
| LegacyGwas.Gwas.GetDisease | GWAS.hxx:146-148 | `subsetter` on `DISEASE/TRAIT` |
| LegacyGwas.Gwas.GetChr | GWAS.hxx:168-171 | `subsetter` on `CHR_ID` |
| LegacyGwas.Collect | GWAS.hxx:179-202 | the kept pairs are no more than the rows, and each has a position and an effect size above zero |
| LegacyGwas.RowStepKeeps | GWAS.hxx:181-200 | as written, a row yields a pair iff neither conversion is out of range, the effect size converted to it and is positive, and the position converted to it and is positive or did not convert and the pair's position is ULONG_MAX |
| LegacyGwas.ValidRowStepKeeps | GWAS.hxx:181-200 | corrected, a row yields a pair iff both fields converted to it and both are positive |
| LegacyGwas.CollectMembers | GWAS.hxx:179-202 | when the loop does not throw, a pair is kept iff the step of some row yields it |
| LegacyGwas.AsWrittenMembers | GWAS.hxx:179-202 | as written, a pair is kept iff some row's effect size converted to it and is positive, and that row's position converted to it and is positive, or did not convert and the pair's position is ULONG_MAX |
| LegacyGwas.CollectFailureSticks | GWAS.hxx:179-202 | once a conversion throws `std::out_of_range`, later rows do not change the outcome |
| LegacyGwas.OnlyZeroPositionRejected | GWAS.hxx:181-199 | on a row with a positive effect size, `a_pos > 0` rejects only the position 0, because the -1 sentinel wraps to ULONG_MAX |
| LegacyGwas.InvalidPositionKept | GWAS.hxx:181-200 | a row whose position is not a number but whose effect size is positive yields the pair (ULONG_MAX, effect size) |
| LegacyGwas.SortByPosition | GWAS.hxx:204-207 | after the sort the array is ordered by position and is a permutation of its old contents |
| LegacyGwas.Sink | GWAS.hxx:204-207 | one insertion step of the sort: the prefix up to and including position i ends up ordered by position and holds the same elements as before, and everything after i is unchanged |
| LegacyGwas.Swap | GWAS.hxx:204-207 | exchanging two pairs changes only those two positions and keeps the same elements |
| LegacyGwas.Sorted | GWAS.hxx:204-207 | the result is ordered by position and is a permutation of the input |
| LegacyGwas.Gwas.Positions | GWAS.hxx:173-209 | as written: an unknown `CHR_POS` or `OR or BETA` column fails; a `std::out_of_range` fails; otherwise the result is sorted by position, is a permutation of the pairs `Collect` keeps (each with position and effect above zero), and has at most `size()` elements |
| LegacyGwas.Gwas.ValidPositions | GWAS.hxx:173-209 | the corrected `positions()`: the same, except that a row whose position does not convert is never kept |
| LegacyGwas.ValidMembers | GWAS.hxx:179-202 | corrected, a pair is kept iff some row's two fields converted to exactly that pair and both numbers are positive |
| LegacyGwas.CorrectionAgrees | GWAS.hxx:181-200 | the correction never changes whether the call fails, and when every position converts it changes nothing |
| LegacyGwas.Gwas.UniqueRsids | GWAS.hxx:212-224 | fails iff `SNPS` is unknown; every id returned starts with "rs" and contains no space, tab or ';'; every such `SNPS` value of a row is returned, and nothing else |

## Left out

- Reading the catalog file (`get_lines` and the file-opening part of both file constructors) is I/O. The constructors are modelled from the sequence of lines that `get_lines` returns.
- Console output is left out: `print_header`, `print`, `printHeader`, `disease_counts`, the printing half of the older `printSummary`, and the `std::cerr` messages in `positions()`.
- The newer `printSummary` (gen_risk_lib/GWAS.hxx:274-287) only prints. When the `DISEASE/TRAIT` column exists, its count equals the one `LegacyGwas.Gwas.FrequentDiseaseCount` computes (`LegacyGwas.FrequentAreLargeSubsets`). Without that column the two differ on an empty table: the newer code throws from `uniqueDiseases`, while the older count is 0.
- `main.cpp` and the Google test driver are not part of this model. They are driver glue around the operations above.
- Copy and move constructors and move assignment (gen_risk_lib/GWAS.hxx:123-141) are memory management. The model creates fresh objects and assigns values instead.
- `GenRiskLib.Gwas.constructor`: the source moves the `FlatFile` into the new object (gen_risk_lib/GWAS.hxx:241). The model stores a reference to the caller's `FlatFile` instead. This aliasing is harmless: only the constructors of `FlatFile` modify it, so no operation changes a `FlatFile` after it is built.
- `ith_row` and `ith_gwas` return references for in-place access. The model reads `data[i]` directly.
- `NumRows`, `Cell` and `Size` are plain accessors. They carry no contract of their own.
- `boost::lexical_cast`, `std::stoul` and `std::stod` are parameters, not implementations. Floating point is `real`, so NaN, infinities and rounding are not modelled.
- `GenRiskLib.Gwas.PositionsAndEffectSize`: does not say which unknown column is reported when both are missing. C++ leaves the evaluation order of the two `grab_mask` arguments unspecified.
- `LegacyGwas.Sorted`: specifies only sortedness and permutation. `std::sort` is not stable, so the order of pairs with equal positions is unspecified.
- `getTokens` is modelled once, in `TabSplit`. The two headers have identical copies.

## Findings

| source | as written | input that shows it | evidently intended | confidence | as-written member | corrected member |
|---|---|---|---|---|---|---|
| gen_risk_lib/GWAS.hxx:305-307 | The position mask tests `!isnan(parser<unsigned long>(s))`. An integer type has no NaN: its `quiet_NaN()` is 0, so the mask admits every row. A row whose effect size parses but whose position does not reaches `lexical_cast<unsigned long>` and throws out of the whole call. | rows `["x1","100","1.2"]`, `["x2","abc","0.9"]`, `["x3","200","n/a"]` with columns ID, CHR_POS, OR or BETA: the call fails on "abc" | skip that row, as documented: emit only rows whose position and effect size both parse, giving `[(100, 1.2)]` | not executed | GenRiskLib.Gwas.PositionsAndEffectSize | GenRiskLib.Gwas.PairedValues |
| GWAS.hxx:181-200 | An invalid position sets `a_pos = -1` on an `unsigned long`, which stores ULONG_MAX. The filter `a_pos > 0` therefore keeps the row. | one row with CHR_POS "abc" and OR or BETA "1.5": the result is `[(18446744073709551615, 1.5)]` | drop rows whose position is not a number | not executed | LegacyGwas.Gwas.Positions | LegacyGwas.Gwas.ValidPositions |

Supporting members:

- `GenRiskLib.ThreeRowExample` works through the first finding on the three-row input.
- `GenRiskLib.EmitEffectMask` and `GenRiskLib.EmitBothMask` state both behaviours of the first finding in general.
- `LegacyGwas.InvalidPositionKept` states the second finding in general.
- `GenRiskLib.EffectMaskFailure` names the row the first finding fails on, in general.
- `LegacyGwas.AsWrittenMembers` states the kept pairs of the second finding as written.
- `LegacyGwas.ValidMembers` and `LegacyGwas.CorrectionAgrees` state the corrected behaviour of the second finding.
