# PrintFilterData, modelled in Dafny

A model of the table-printing core of the UFO `PrintFilterData` filter
(`src/ufo/filters/PrintFilterData.cc`). The filter reads the variables it
was asked to print into a map of gathered vectors (`getAllData`). It then
prints those vectors as a table of locations (`printAllData`).

`printAllData` normalises the location window and works out how many
location columns fit the text width. It stably sorts the flat positions of the
gathered global location indices and reads the indices back in ascending
order. It keeps the locations inside the window whose `where` flag is set and
cuts them into pages. Each page is printed as:

- a header of locations;
- a division bar;
- one line per stored row key;
- an empty line.

The modules follow that structure:

| module | file | what it holds |
|---|---|---|
| `Status` | `status.dfy` | `Result`, `Option` and the two exception kinds (`BadValue`, `BadParameter`) |
| `Text` | `text.dfy` | decimal text of integers and its parser, `setw`-style right alignment, character runs |
| `Seqs` | `seqs.dfy` | concatenation of rows, ranges, ascending order, subsequences |
| `StableSort` | `stable_sort.dfy` | `std::iota` + `std::stable_sort` of positions by key, with its specification and uniqueness |
| `Selection` | `selection.dfy` | gather, where-flags, window normalisation, permutation of the indices, the selection loop |
| `Paging` | `paging.dfy` | `nlocsPerRow` and the cutting of the selection into rows |
| `Names` | `names.dfy` | variables, row keys, multi-level groups, level sets, the name-column width |
| `Materialise` | `materialise.dfy` | `getAllData`, `getData`, `getMultiLevelData`: what is stored under which key, and the notices |
| `Render` | `render.dfy` | cells, header, division bar, row lines, pages and `printAllData` itself |

Two behaviours of the code as written matter for reading the model.

- **The selection indexes `sortIndices[loc]`.** The loop at lines 294-300
  indexes `sortIndices` by the location number `loc`, not by the sorted
  position `idx`. The comments around it describe reading `sortIndices[idx]`.
  The two are guaranteed to agree when the gathered indices are a permutation
  of `0 .. nlocs - 1` (`SelectAgreesUnderPermutation`). With the gapped example
  of the comments, `[2, 4, 1, 3]`, the default window prints locations
  `[1, 2, 3]` from flat positions `[0, 3, 1]`. A window reaching location 4
  would read past the end of `sortIndices` (`GappedExampleAsWritten`). With a
  duplicated index, `[0, 0, 2]`, flat position 0 is printed twice
  (`DuplicateExampleDiverges`). The model keeps the code's behaviour. The
  in-range read is a precondition (`WindowReadsInRange`). The reading the
  comments describe is the separate `SelectIntendedUpTo`.
- **A variable with neither group nor channels.** Such a variable is counted
  in the name-column width by its full name (line 218). It is stored and
  printed under `group + "/" + name`, which for an empty group is one
  character longer (lines 52 and 151-156). This depends on how `Variable`
  builds `group()` and `fullName()`, and `Variable.cc` is not part of this
  model. `ChannelKeyOfPlainVariable` and `RowKeyFits` state the one-character
  excess rather than hide it.

The table is meant not to depend on how the locations are spread over the
ranks (the comment at line 328 says so). The model proves it
for distinct global indices when every rank prints
(`PrintedIndependentOfDistribution`). Both conditions are needed. Equal global
indices keep their gather order, which does depend on the ranks. With
`printRank0`, only the locations held by rank 0 are printed, by design.

The missing values (`util::missingValue<T>()`) are a parameter
(`MissingValues`). A non-missing integer prints as its decimal digits and a
non-missing string prints unchanged, as `operator<<` writes them; the
floating-point manipulators at lines 130-131 affect only floats. The text of
non-missing floats and date-times is the `format` parameter.
The MPI gather is the concatenation of per-rank sequences in rank order. The
filter-data services (`has`, `dtype`, `get`, `get_db`, `nlevs`) are the
fields of `Sources`. A `get_db` that throws is `None`.

## Model

| member | source | states |
|---|---|---|
| Text.IntToStringRoundTrip | src/ufo/filters/PrintFilterData.cc:144-149 | the decimal text streamed for a level or a boolean cell parses back to the same integer |
| Text.PadLeft | src/ufo/filters/PrintFilterData.cc:333-335 | right alignment in a field: the text ends the result, preceded only by spaces, and the result is as wide as the field or the text, whichever is wider |
| StableSort.StableSortIndices | src/ufo/filters/PrintFilterData.cc:271-275 | `sortIndices` lists every position `0 .. n-1` exactly once; the global index never decreases along it; equal indices keep gather order; the permuted indices are the gathered ones rearranged |
| StableSort.StableSortUnique | src/ufo/filters/PrintFilterData.cc:273-275 | any arrangement meeting `std::stable_sort`'s guarantee is the one computed, so `sortIndices` is determined by the gathered indices |
| StableSort.SortRelabelled | src/ufo/filters/PrintFilterData.cc:271-275 | for distinct keys, moving each key to another position moves the sort with it: the sort of the relabelled keys, read through the relabelling, is the sort of the original keys |
| Selection.RankFlags | src/ufo/filters/PrintFilterData.cc:249-253 | a rank's flag is 1 exactly where its where-mask holds, unless only rank 0 prints and this rank is not 0; every flag is 0 or 1 |
| Selection.GatherAt | src/ufo/filters/PrintFilterData.cc:249-264 | `allGatherv` puts element `i` of rank `r` at position `i` plus the total length of the ranks before `r` |
| Selection.GlobalApplyAt | src/ufo/filters/PrintFilterData.cc:249-264 | the gathered flag of location `i` of rank `r` is 1 exactly when its where-mask holds and its rank prints, else 0 |
| Selection.OnlyRankZeroSelectable | src/ufo/filters/PrintFilterData.cc:250-254 | with `printRank0`, every nonzero gathered flag lies in rank 0's segment |
| Selection.NormaliseWindow | src/ufo/filters/PrintFilterData.cc:237-241 | `locmin` at or past `nlocs` becomes `nlocs - 1`, otherwise unchanged (no lower clamp); `locmax == 0` means `nlocs`; the call fails with `BadValue` exactly when the normalised minimum exceeds the maximum |
| Selection.PermutedGlobalIndex | src/ufo/filters/PrintFilterData.cc:280-283 | the permuted indices are ascending and hold the same multiset as the gathered ones |
| Selection.PermutedIndependentOfDistribution | src/ufo/filters/PrintFilterData.cc:256-283 | two distributions whose gathered indices hold the same multiset give the same permuted indices |
| Selection.Select | src/ufo/filters/PrintFilterData.cc:294-300 | equal numbers of locations and indices; every kept location is inside the window and is printed from `sortIndices[loc]`, whose flag is set |
| Selection.SelectKeepsOrder | src/ufo/filters/PrintFilterData.cc:294-300 | the kept locations are a subsequence of the permuted indices: nothing is invented and the sorted order is kept |
| Selection.SelectComplete | src/ufo/filters/PrintFilterData.cc:294-300 | every location that passes the window and flag test is kept |
| Selection.SelectUpToCount | src/ufo/filters/PrintFilterData.cc:294-300 | after `n` sorted positions the loop has kept one location per position that passes the window and flag test |
| Selection.SelectedLocationsAscending | src/ufo/filters/PrintFilterData.cc:294-300 | the selected locations are in ascending order |
| Selection.SelectUpToRelabelled | src/ufo/filters/PrintFilterData.cc:294-300 | the loop run with relabelled sort positions and flags keeps the same locations, and the relabelling carries each kept flat index to the one kept before |
| Selection.SelectionIndependentOfDistribution | src/ufo/filters/PrintFilterData.cc:249-300 | with distinct global indices and every rank printing, a redistribution of the locations leaves the permuted indices and the selected locations unchanged, and the relabelling carries each selected flat index to the original one |
| Selection.EmptyWindowSelectsNothing | src/ufo/filters/PrintFilterData.cc:294-296 | a window with `locmin == locmax` reads nothing out of range and selects no location |
| Selection.SelectIntendedUpTo | src/ufo/filters/PrintFilterData.cc:285-293 | the selection the comments describe keeps in-window locations whose flag at the sorted position is set, reading `sortIndices[idx]` |
| Selection.SelectAgreesUnderPermutation | src/ufo/filters/PrintFilterData.cc:285-300 | when the gathered indices are a permutation of `0 .. nlocs-1`, the selection as written reads in range and equals the one the comments describe |
| Selection.FullSelectionUnderPermutation | src/ufo/filters/PrintFilterData.cc:285-300 | with every flag set and a permutation of `0 .. nlocs-1`, the whole window prints locations `0 .. nlocs-1` read from `sortIndices` |
| Selection.GappedExampleSort | src/ufo/filters/PrintFilterData.cc:268-283 | the gathered indices `[2, 4, 1, 3]` give `sortIndices = [2, 0, 3, 1]` and permuted indices `[1, 2, 3, 4]` |
| Selection.GappedExampleAsWritten | src/ufo/filters/PrintFilterData.cc:285-300 | for the gapped example the default window prints `[1, 2, 3]` from `[0, 3, 1]`, a window to 5 would read past `sortIndices`, and the reading in the comments gives `[1, 2, 3, 4]` from `[2, 0, 3, 1]` |
| Selection.PermutationExampleMatchesComments | src/ufo/filters/PrintFilterData.cc:285-293 | numbered `[1, 3, 0, 2]`, the same records print locations `[0, 1, 2, 3]` from `[2, 0, 3, 1]`, as the comments expect |
| Selection.DuplicateExampleDiverges | src/ufo/filters/PrintFilterData.cc:294-300 | the gathered indices `[0, 0, 2]` print flat position 0 twice and never position 1, where the comments' reading prints `[0, 1, 2]` |
| Paging.LocationsPerRow | src/ufo/filters/PrintFilterData.cc:243-246 | at least one location per row; with a positive column pitch it equals the Euclidean quotient clamped to 1; more than one column only when they all fit the text width; one more column would not fit |
| Paging.TwoColumnsFitExample | src/ufo/filters/PrintFilterData.cc:243-246 | text width 40, name width 10 and column width 8 give two columns per row |
| Paging.Chunk | src/ufo/filters/PrintFilterData.cc:302-321 | the rows concatenate to the selection; every row is non-empty and holds at most `nlocsPerRow` entries; every row but the last holds exactly `nlocsPerRow` |
| Paging.ChunkAt | src/ufo/filters/PrintFilterData.cc:302-321 | row `i` of the cutting is the slice of the selection from `i * nlocsPerRow` to the next multiple or the end |
| Paging.ChunkCount | src/ufo/filters/PrintFilterData.cc:302-321 | there are `ceil(n / nlocsPerRow)` rows |
| Paging.ChunkHasRow | src/ufo/filters/PrintFilterData.cc:302-321 | every start `i * nlocsPerRow` inside the selection opens a row |
| Paging.RowPartitionUnique | src/ufo/filters/PrintFilterData.cc:308-321 | any cutting with those three properties is the same cutting |
| Paging.ChunkExample | src/ufo/filters/PrintFilterData.cc:302-307 | three per row turns locations `[1, 2, 3, 4]` into `[[1, 2, 3], [4]]` and indices `[2, 0, 3, 1]` into `[[2, 0, 3], [1]]` |
| Paging.FiveByTwoExample | src/ufo/filters/PrintFilterData.cc:308-321 | five locations at two per row give rows of 2, 2 and 1 |
| Paging.NextRowsPartition | src/ufo/filters/PrintFilterData.cc:311-320 | one step of the row loop keeps the rows a partition of the locations seen so far, opening a new row exactly when the count is a multiple of `nlocsPerRow` |
| Paging.ChunkSameShape | src/ufo/filters/PrintFilterData.cc:308-321 | cutting locations and indices of equal number gives rows of the same number and the same lengths |
| Paging.ChunkRelabelled | src/ufo/filters/PrintFilterData.cc:302-321 | cutting two index sequences related position by position relates the rows entry by entry |
| Paging.Paginate | src/ufo/filters/PrintFilterData.cc:308-321 | the loop builds location rows and index rows that partition the selection, have the same shape, and are the reference cutting |
| Names.ChannelKeyOfPlainVariable | src/ufo/filters/PrintFilterData.cc:151-156 | the key of a variable without channels is its full name when it has a group, and one character longer (a leading slash) when it has none |
| Names.ChannelKeyParts | src/ufo/filters/PrintFilterData.cc:151-156 | a channel key is the group, a slash and the name, followed for a variable with channels by an underscore and the channel number, which parses back |
| Names.LevelKeyParts | src/ufo/filters/PrintFilterData.cc:144-149 | a level key is the full name, " (level ", the level number, which parses back, and a closing parenthesis |
| Names.IsMultiLevel | src/ufo/filters/PrintFilterData.cc:158-161 | a variable is multi-level exactly when its group is GeoVaLs, ObsDiag or ObsBiasTerm |
| Names.ChannelKeyInjective | src/ufo/filters/PrintFilterData.cc:151-156 | two different channel numbers of a variable give different keys |
| Names.LevelKeyInjective | src/ufo/filters/PrintFilterData.cc:144-149 | two different levels of a variable give different keys |
| Names.LevelKeyExample | src/ufo/filters/PrintFilterData.cc:144-149 | level 3 of `GeoVaLs/air_temperature` is keyed `GeoVaLs/air_temperature (level 3)`, and level -1 `... (level -1)` |
| Names.Ascending | src/ufo/filters/PrintFilterData.cc:205-206 | the levels read through `std::set<int>`: strictly ascending, the same values as listed, no more of them |
| Names.StoredLevelKeys | src/ufo/filters/PrintFilterData.cc:207-215 | exactly the keys of the listed levels that are present in the filter data |
| Names.Widest | src/ufo/filters/PrintFilterData.cc:199-232 | the width is never below the length of "Location", every name fits it, and it is attained by "Location" or one of the names |
| Names.WidenByLevels | src/ufo/filters/PrintFilterData.cc:207-215 | the level loop widens the running maximum to every stored level key and ignores absent ones |
| Names.WidenByChannels | src/ufo/filters/PrintFilterData.cc:222-227 | the channel loop widens the running maximum to every channel key, stored or not |
| Names.WidenByRequest | src/ufo/filters/PrintFilterData.cc:203-229 | one request widens the running maximum exactly to the width names of that request: its stored level keys, its full name, or its channel keys |
| Names.MaxVariableNameLength | src/ufo/filters/PrintFilterData.cc:199-232 | the method computes the widest of "Location" and every width name of every request: at least 8, and no width name longer |
| Names.RowKeysFit | src/ufo/filters/PrintFilterData.cc:199-232 | every stored level key and every channel key of a request fits the name column; only the key of a variable without group and without channels may be one character wider |
| Materialise.NoticeInjective | src/ufo/filters/PrintFilterData.cc:60-65 | different names give different "not present" notices |
| Materialise.BoolColumnIsZeroOne | src/ufo/filters/PrintFilterData.cc:79-83 | a boolean vector is stored as integers, 1 exactly where it was true and 0 exactly where it was false |
| Materialise.OtherColumnIsGathered | src/ufo/filters/PrintFilterData.cc:47-52 | a vector of any other type is stored exactly as gathered |
| Materialise.LevelPass | src/ufo/filters/PrintFilterData.cc:104-120 | `getMultiLevelData` adds exactly the keys of the levels in `[0, nlevs)`, keeps every other key's vector, and only appends notices |
| Materialise.LevelPassStores | src/ufo/filters/PrintFilterData.cc:104-120 | every listed level in range is stored under its own key with that level's gathered vector |
| Materialise.LevelPassNotices | src/ufo/filters/PrintFilterData.cc:111-114 | one notice per level outside `[0, nlevs)`, naming its key, in level order, after the earlier notices |
| Materialise.OutOfRangeLevelStoresNothing | src/ufo/filters/PrintFilterData.cc:111-114 | a level outside `[0, nlevs)` adds no key and is named in a notice |
| Materialise.ChannelPassStores | src/ufo/filters/PrintFilterData.cc:56-69 | every channel whose read succeeds is stored under its channel key with its gathered vector |
| Materialise.ChannelPass | src/ufo/filters/PrintFilterData.cc:53-70 | the channel loop adds exactly the keys of the channels whose read succeeded, keeps every other key's vector, and only appends notices |
| Materialise.ChannelPassNotices | src/ufo/filters/PrintFilterData.cc:60-65 | one notice per failing channel, naming its key, in channel order, after the earlier notices |
| Materialise.FailingChannelIsNoticed | src/ufo/filters/PrintFilterData.cc:56-69 | a channel whose read fails is named in a notice and the loop goes on |
| Materialise.GetData | src/ufo/filters/PrintFilterData.cc:43-102 | `getData` adds exactly the keys of its channels that could be read; without channels it stores the gathered vector, converted for booleans, under the channel-0 key and writes no notice |
| Materialise.FetchOneBoolStored | src/ufo/filters/PrintFilterData.cc:73-83 | a present boolean variable without channels is stored as integers, 1 where it was true and 0 where false, as long as the gathered vector |
| Materialise.FetchOne | src/ufo/filters/PrintFilterData.cc:163-197 | one request fails with `BadParameter("Invalid variable type for printing")` exactly when the variable is present with an unprintable type; otherwise an absent variable adds only a notice naming its full name, a float multi-level variable is read level by level, any other is read by `getData`, and the keys added are exactly that request's |
| Materialise.GetAllData | src/ufo/filters/PrintFilterData.cc:163-197 | the whole pass fails, with that `BadParameter`, exactly when some requested variable is present with an unprintable type; the notices only grow |
| Materialise.Step | src/ufo/filters/PrintFilterData.cc:165-196 | one iteration: after a throw nothing changes; otherwise it throws exactly for an unprintable request, keeping what was stored and written so far, or adds exactly that request's keys |
| Materialise.AllRequestKeysMembers | src/ufo/filters/PrintFilterData.cc:163-197 | a key is among all requested keys exactly when some request stores it |
| Materialise.GetAllDataKeys | src/ufo/filters/PrintFilterData.cc:163-197 | a pass that does not throw stores exactly the earlier keys plus the keys of every request |
| Materialise.GetAllDataStopsAtThrow | src/ufo/filters/PrintFilterData.cc:163-197 | a pass stops at the first unprintable request, keeping the data and notices of the requests before it |
| Render.Cell | src/ufo/filters/PrintFilterData.cc:122-135 | a cell is its text right-aligned in the column width: spaces, then the text; the text of each type is given by the four lemmas below |
| Render.IntegerCellIsItsValue | src/ufo/filters/PrintFilterData.cc:128-133 | a non-missing integer cell ends with its decimal digits, which read back as the integer, and is as wide as the column or the digits |
| Render.StringCellIsItsValue | src/ufo/filters/PrintFilterData.cc:128-133 | a non-missing string cell ends with the string unchanged and is as wide as the column or the string |
| Render.MissingCell | src/ufo/filters/PrintFilterData.cc:126-127 | a value equal to its type's missing value prints as "missing", right-aligned to the column width |
| Render.BoolCellIsItsValue | src/ufo/filters/PrintFilterData.cc:137-142 | a boolean cell ends with its stored integer, which reads back unchanged and is never "missing", whatever the missing values |
| Render.JoinedLength | src/ufo/filters/PrintFilterData.cc:334-335 | cells of one width, each followed by its separator, take `k` times the width plus the separator length, in characters |
| Render.JoinedSepAt | src/ufo/filters/PrintFilterData.cc:334-335 | the separator after cell `i` starts `i` cell-and-separator spans plus one cell width in |
| Render.SeparatorLine | src/ufo/filters/PrintFilterData.cc:338-341 | the division bar is `nameLen + 3 + k * (columnWidth + 3)` characters long |
| Render.SeparatorBar | src/ufo/filters/PrintFilterData.cc:338-340 | the division bar has `+` after the name field and after every column |
| Render.RowBar | src/ufo/filters/PrintFilterData.cc:354-358 | a row whose key and cells fit has a vertical bar after the name field and after every cell |
| Render.RowAlignsWithSeparator | src/ufo/filters/PrintFilterData.cc:333-341 | a row whose key and cells fit is as long as the division bar, with a `+` under each of its vertical bars |
| Render.RowLineKey | src/ufo/filters/PrintFilterData.cc:354-366 | a row key that fits is right-aligned in the name column, spaces before it, and followed by a space, a vertical bar and a space |
| Render.RowLineCell | src/ufo/filters/PrintFilterData.cc:354-389 | in a row of equally wide cells, cell `c` starts `c` cell-and-bar spans after the name field and is followed by a space, a vertical bar and a space |
| Render.LocationCellText | src/ufo/filters/PrintFilterData.cc:333-335 | a location that fits the column width is printed right-aligned in it, spaces before its digits |
| Render.JoinedCellAt | src/ufo/filters/PrintFilterData.cc:333-335 | in cells of one width each followed by its separator, cell `i` starts `i` spans in and is that cell |
| Render.HeaderAligned | src/ufo/filters/PrintFilterData.cc:333-341 | when every location fits the column width, the header is as long as the division bar, with a `+` under each vertical bar |
| Render.RowAligned | src/ufo/filters/PrintFilterData.cc:362-389 | when the key fits the name column and every cell text fits the column width, the row is as long as the division bar, with a `+` under each vertical bar |
| Render.VariableRowSpecs | src/ufo/filters/PrintFilterData.cc:343-391 | an absent variable prints no row, and every row printed is keyed by a stored name |
| Render.RowSpecsStored | src/ufo/filters/PrintFilterData.cc:352-365 | every row of the table is keyed by a name present in the filter data |
| Render.LevelRowPrinted | src/ufo/filters/PrintFilterData.cc:347-360 | every stored level of a present multi-level variable gets a float row |
| Render.ChannelRowPrinted | src/ufo/filters/PrintFilterData.cc:361-389 | every stored channel of a present single-level variable gets a row printed as the variable's type |
| Render.RowKeyFits | src/ufo/filters/PrintFilterData.cc:354-366 | every row key printed fits the name column; only the key of a variable without group and without channels may be one character wider |
| Render.PrintAllData | src/ufo/filters/PrintFilterData.cc:234-241 | printing fails, with `BadValue`, exactly when the normalised window is inverted |
| Render.EmptyWindowPrintsNothing | src/ufo/filters/PrintFilterData.cc:294-300 | a window that normalises to an empty range prints no page at all, not even a header |
| Render.PrintedSelection | src/ufo/filters/PrintFilterData.cc:294-300 | the selected flat indices are all valid positions of the gathered vectors |
| Render.PerRow | src/ufo/filters/PrintFilterData.cc:243-246 | at least one location per page |
| Render.ChunkedPagesLength | src/ufo/filters/PrintFilterData.cc:302-394 | the cut pages have `rows + 3` lines per row of `nlocsPerRow` locations |
| Render.ChunkedPageAt | src/ufo/filters/PrintFilterData.cc:329-394 | page `i` of the cut pages opens with the header of row `i` of the locations and the division bar, and closes with an empty line |
| Render.ChunkedRowAt | src/ufo/filters/PrintFilterData.cc:343-391 | line `j + 2` of page `i` is row key `j` followed by its cells read at the flat indices of row `i` |
| Render.PrintedLength | src/ufo/filters/PrintFilterData.cc:302-394 | `printAllData` prints `rows + 3` lines for every row of `nlocsPerRow` selected locations |
| Render.PrintedPageAt | src/ufo/filters/PrintFilterData.cc:302-394 | page `i` of the output opens with the header of the locations from `i * nlocsPerRow` on, then the division bar, and closes with an empty line |
| Render.PrintedRowAt | src/ufo/filters/PrintFilterData.cc:343-391 | line `j + 2` of page `i` of the output is row key `j` followed by its cells read at the flat indices of those locations |
| Render.RowSpecsSameKeys | src/ufo/filters/PrintFilterData.cc:343-391 | the row keys depend on the filter data only through which keys it stores |
| Render.PagesRelabelled | src/ufo/filters/PrintFilterData.cc:329-394 | pages read through other flat indices are the same when every column holds the same values there |
| Render.PrintableRelabelled | src/ufo/filters/PrintFilterData.cc:122-142 | filter data relabelled location by location is printable wherever the original is |
| Render.ChunkedPagesRelabelled | src/ufo/filters/PrintFilterData.cc:302-394 | the cut pages of the same locations are the same when the relabelling carries the flat indices and the filter data alike |
| Render.PrintedIndependentOfDistribution | src/ufo/filters/PrintFilterData.cc:234-394 | with distinct global indices and every rank printing, redistributing the locations (indices, where-flags and filter data alike) leaves the printed lines, or the failure, unchanged |
| Render.PagesAt | src/ufo/filters/PrintFilterData.cc:329-394 | every page has three lines more than there are rows, and line `t` of page `i` is line `i * (rows + 3) + t` of the output |
| Render.PageHeaderAt | src/ufo/filters/PrintFilterData.cc:333-341 | page `i` opens with the header of its locations and the division bar for that many columns |
| Render.PageRowAt | src/ufo/filters/PrintFilterData.cc:343-391 | row `j` of page `i` is the row key followed by the cells read at the page's flat indices |
| Render.PageEndAt | src/ufo/filters/PrintFilterData.cc:393 | every page ends with an empty line |
| Render.RowCellsFit | src/ufo/filters/PrintFilterData.cc:122-135 | when every cell text fits the column width, every cell is exactly that wide |
| Render.LocationCellsFit | src/ufo/filters/PrintFilterData.cc:334-335 | when every location fits the column width, every header cell is exactly that wide |
| Render.BarInside | src/ufo/filters/PrintFilterData.cc:338-341 | the bar after every field lies inside the line |

## Left out

- MPI: `allGatherv` is rank-ordered concatenation of given per-rank sequences. `comm().rank()` is the position of a rank's sequence. The model assumes every rank sees the same `has`, `dtype`, `nlevs` and `get_db` outcome for a name, so the collective calls stay matched.
- The ObsSpace services (`ObsDataVector`, `data_.get`, `get_db`, `nlevs`, `globalNumLocs`, `index()`) and `processWhere` are the fields of `Sources` or plain inputs. `globalNumLocs` is the length of the gathered index vector.
- iostream formatting of floats and date-times (`setprecision`, `scientific`, `fixed`, and `operator<<` of `util::DateTime`) is the `format` parameter. For those two types only the padding and the "missing" marker are modelled.
- `Variable.cc` is not part of this model. `Variable` keeps group, name and channels. `fullName`, `variable(ich)` and `size()` are written as the code uses them.
- The output stream is a sequence of lines. The "not present" notices are a separate sequence in `Fetched`, not interleaved with the table.
- PrintAllData: requires every stored vector to be as long as the gathered index vector, and every integer, string or boolean row to hold values of that type (`StoredAs`). The code relies on both through the `boost::get` reads at lines 125 and 139. The model does not derive them from `getAllData`.
- PrintAllData: requires a non-negative `columnWidth`, which excludes some calls the source accepts. For a negative width other than -3, the source fails only when a page is printed: `std::string(columnWidth, '-')` at line 340 then throws. With an empty selection no page is printed and the source returns normally, but the model still excludes the call. A width of -3 makes the divisor at line 246 zero before anything is printed.
- PrintAllData: requires the selection's `sortIndices[loc]` reads to be in range (`WindowReadsInRange`). An out-of-range read is undefined behaviour in the code, so there is nothing to model.
- The `int` and `size_t` conversions of the source are not modelled: integers are unbounded. Location numbers and counts are assumed to fit.
- The constructor's `allvars_` bookkeeping, the `doFilter` banner and summary, and `print` are logging and plumbing.
- `where` evaluation (`processWhere`) is an input: the per-rank where-masks.
