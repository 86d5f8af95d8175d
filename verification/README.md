# distil-locusts: tile naming, labelling and dataset sorting in Dafny

This project models the data-preparation scripts of distil-locusts. These
scripts turn Sentinel-2 tile downloads and LocustHub hopper sightings into a
labelled image dataset. Four modules follow the scripts' own structure.

- `Text` (`text.dfy`) holds the Python string operations the scripts rely on:
  - `str.split` on one character, and the `ValueError` raised when the pieces
    are unpacked into the wrong number of names;
  - `sep.join`;
  - `os.path.splitext(...)[0]` on a directory-entry name;
  - lexicographic string comparison.
- `TileNames` (`tile_names.dfy`) holds the naming scheme the scripts share:
  - archive names `{id}_{YYYY-MM-DD}.zip`;
  - the band files `{id}_{YYYYMMDD}T000000_{band}.tif` that the unzip step
    writes;
  - `get_file_id`;
  - the tile id that the dataset step recovers from a band file's name.

  It proves that those two ids agree.
- `Metadata` (`metadata.dfy`) holds the metadata step:
  - the region and date filter of the sighting extract;
  - `get_tile_meta`, which reads the tile table from the archive names;
  - `get_labels`, the labelling join. Its class `TileTable` has the geohash,
    date and `hoppers` columns, and `GetLabels` rewrites the label column in
    place.
- `Dataset` (`dataset.dfy`) holds the dataset step:
  - the set `pos_feature_ids`;
  - the loop that copies positive files at once and collects the negative
    files into `neg_files`, keyed by tile id;
  - the copying of the first `int(len * fraction)` shuffled negative groups.

Errors the scripts raise are values:
- `UnpackError(expected, got)` is the `ValueError` of a tuple unpacking.
- `IndexError(index, length)` is raised when the count of negative groups
  exceeds the list.

A script that stops on an exception is modelled by two things: what it wrote
before the exception, and the error.

The external parts are parameters:
- The region's geohash cells are a set.
- The cell of each sighting is a field.
- `geohash.expand` is a function `Cell -> seq<Cell>`.
- `os.path.isfile` is a predicate.
- `os.listdir` is a sequence of names.
- The order `random.shuffle` leaves is any permutation of the dictionary's
  keys.
- Dates that pandas parses are integer instants in seconds, and
  `timedelta(days=30)` is `30 * 24 * 60 * 60`.

The date filter (generate_metadata.py:32) compares the raw STARTDATE string
with `'2016-01-01'` by strict string order. This has two consequences:
- The bare date `2016-01-01` is dropped (`ThresholdDayDropped`).
- That day written with a time of day compares above the threshold and is
  kept (`ThresholdDayWithTimeKept`).

## Model

| member | source | states |
|---|---|---|
| Text.Strip | generate_dataset.py:11-12 | the result has as many characters as the date has non-dash characters, holds no dash, and holds each non-dash character exactly as often as the date does (order is given by `ConcatSplit`) |
| Text.Split | generate_dataset.py:49 | `str.split` on one character yields one piece more than there are separators, and no piece holds the separator |
| Text.Unpack | generate_dataset.py:49 | unpacking succeeds exactly when there are n pieces; the pieces join back to the string; otherwise it is the ValueError naming n and the actual count |
| Text.SplitJoin | generate_dataset.py:49-50 | joining the pieces of a split gives back the string |
| Text.JoinSplit | generate_dataset.py:49-50 | splitting a join of separator-free pieces gives back the pieces |
| Text.ConcatSplit | generate_dataset.py:11-12 | concatenating the pieces of `date.split('-')` is the date without its dashes |
| Text.Stem | generate_metadata.py:64 | `os.path.splitext(name)[0]` is a prefix of the name |
| Text.StemOfExtension | unzip_downloaded.py:23 | a name `base.ext` with a dot-free extension, where the base is not all dots, has stem `base` |
| Text.StemWithoutDot | generate_metadata.py:64 | a name without a dot is its own stem |
| Text.StemOfHidden | generate_metadata.py:64 | a hidden name (leading dots, then no dot) has no extension |
| Text.LexLess | generate_metadata.py:32 | Python's `<` on `str`: when `a < b` and `a` is not empty, `b` is not empty and starts with a character no smaller than `a`'s first |
| Text.LexLessIrreflexive | generate_metadata.py:32 | the string order used by the STARTDATE filter is strict |
| Text.LexLessExtension | generate_metadata.py:32 | a string compares below every proper extension of itself |
| Text.LexLessTransitive | generate_metadata.py:32 | the string order is transitive |
| Text.LexLessTotal | generate_metadata.py:32 | any two different strings are ordered |
| TileNames.DateStamp | unzip_downloaded.py:31-32 | `YYYY-MM-DD` becomes the date without dashes followed by `T000000`; a date without exactly two dashes raises the 3-value unpack error |
| TileNames.FileId | generate_dataset.py:10-13 | `get_file_id(g, d)` is `g + "_" +` the dashless date `+ "T000000"`, or the unpack error of the date |
| TileNames.SplitStem | unzip_downloaded.py:23 | the stem of an archive name splits into two underscore-free halves that rejoin to the stem, exactly when it holds one `_`; otherwise the 2-value unpack error |
| TileNames.Band | unzip_downloaded.py:29 | an extracted name with exactly two dots yields its dot-free middle part; otherwise the 3-value unpack error |
| TileNames.OutputName | unzip_downloaded.py:29-34 | the output name is `get_file_id(id, date) + "_" + band + ".tif"`; the member name is checked before the date |
| TileNames.TileIdOf | generate_dataset.py:49-50 | a file name with exactly two underscores has as tile id its prefix before the last underscore, which holds one underscore; otherwise the unpack error |
| TileNames.RenameArchive | unzip_downloaded.py:23-34 | an archive whose name does not split writes nothing; otherwise member j is written under its output name, up to the first member that raises, whose error is returned |
| TileNames.ArchiveNameRoundTrip | unzip_downloaded.py:23 | an archive named `{id}_{date}.{ext}` gives back exactly its id and date |
| TileNames.StampFree | unzip_downloaded.py:31-32 | a date stamp holds no underscore when the date holds none |
| TileNames.OutputNameSplitsBack | unzip_downloaded.py:34 | a written band file splits on `_` into `[id, datestr, band + ".tif"]`, and the tile id the dataset step recovers from it equals `get_file_id` of the archive's id and date |
| TileNames.OutputNamesDifferOnlyInBand | unzip_downloaded.py:34 | two names written from one archive are equal exactly when their bands are |
| Metadata.Kept | generate_metadata.py:32 | the two tests of the filter; a kept row is in the region and its STARTDATE is not the bare threshold date |
| Metadata.HubFilter | generate_metadata.py:32-33 | the filter returns no more rows than it is given, all in the region |
| Metadata.KeptPositions | generate_metadata.py:32 | positions of kept rows are within the extract |
| Metadata.KeptPositionsProject | generate_metadata.py:32-33 | the k-th output row is the projection (gh, Y, X, date) of the k-th kept row |
| Metadata.KeptPositionsIncrease | generate_metadata.py:32 | kept rows keep their original order |
| Metadata.KeptPositionsExact | generate_metadata.py:32 | a row is kept exactly when its STARTDATE is above the threshold and its cell is in the region |
| Metadata.HubFilterSelects | generate_metadata.py:32-33 | the filter keeps exactly the rows that pass both tests, in their original order, projected to (gh, Y, X, date) |
| Metadata.ThresholdDayDropped | generate_metadata.py:32 | a STARTDATE equal to `2016-01-01` is dropped |
| Metadata.ThresholdDayWithTimeKept | generate_metadata.py:32 | a STARTDATE extending `2016-01-01`, such as that day with a time, is kept when in the region |
| Metadata.TileRows | generate_metadata.py:56-67 | the table `get_tile_meta` returns, or its error; a built table has one geohash and one date per entry |
| Metadata.GetTileMeta | generate_metadata.py:56-67 | the loop builds the table `TileRows` defines: one row per entry in listing order, or the error of the first entry whose stem does not split in two |
| Metadata.TileRowsErrorStays | generate_metadata.py:63-64 | once an entry raises, later entries do not change the outcome |
| Metadata.TileRowsOk | generate_metadata.py:63-64 | the table is built exactly when every entry's stem splits into two |
| Metadata.TileRowsCells | generate_metadata.py:60-67 | the table has one row per entry, row i being the two halves of entry i's stem |
| Metadata.TileRowsErr | generate_metadata.py:63-64 | a failed table carries the error of the first entry whose stem does not split in two: that entry's error, with every earlier entry splitting |
| Metadata.Ring | generate_metadata.py:45-49 | the cell set of a sighting after n rounds of expansion; it always contains the sighting's own cell, as `gh` starts as that cell |
| Metadata.RingGrows | generate_metadata.py:47-49 | more rounds of expansion never remove a cell |
| Metadata.ExpandedAddOne | generate_metadata.py:48-49 | expanding one more cell adds exactly that cell's neighbours |
| Metadata.NeighbourCells | generate_metadata.py:45-50 | the in-place growth of `gh` over a snapshot of its cells, n times, yields the n-round cell set |
| Metadata.Hit | generate_metadata.py:51-52 | whether one sighting marks a tile; a tile of the sighting's own cell dated within `[start, start + 30 days)` is always marked |
| Metadata.Labels | generate_metadata.py:41-53 | the label column has one entry per tile and every entry is 0 or 1 |
| Metadata.LabelsMeaning | generate_metadata.py:42-53 | a tile's label is 1 exactly when some sighting has the tile's cell in its cell set and the tile's date in `[start, start + 30 days)`, and 0 otherwise |
| Metadata.NoSightingsNoLabels | generate_metadata.py:41 | with no sightings every label is 0 |
| Metadata.SightingOrderIrrelevant | generate_metadata.py:42-53 | the labels depend only on which sightings there are, not on their order or repetition |
| Metadata.MoreSightingsKeepLabels | generate_metadata.py:42-53 | adding sightings never turns a 1 into a 0 |
| Metadata.MoreExpansionKeepsLabels | generate_metadata.py:45-51 | more neighbour rounds never turn a 1 into a 0 |
| Metadata.UnmatchedSightingNoOp | generate_metadata.py:51-53 | a sighting that matches no tile leaves the labels unchanged |
| Metadata.NoExpansionExactCell | generate_metadata.py:45-46 | with `n_neighbor = 0` only the sighting's own cell matches |
| Metadata.WindowBoundaries | generate_metadata.py:43-52 | a tile of the sighting's cell at the sighting's instant is marked; no tile exactly 30 days later is marked by it |
| Metadata.ThreeTileScenario | generate_metadata.py:41-53 | the three-tile example: labels `[1, 0, 0]` |
| Metadata.TileTable.constructor | generate_metadata.py:89 | a tile table with the given geohash and date columns and no label column yet |
| Metadata.TileTable.GetLabels | generate_metadata.py:37-54 | the label column becomes `Labels` of the table and sightings, whatever it held before; the geohash and date columns and the row count are unchanged |
| Metadata.LabelTwice | generate_metadata.py:41 | labelling twice gives the same column, since the old labels are discarded; every label is 0 or 1 |
| Dataset.PositiveIdSet | generate_dataset.py:31-34 | the set `pos_feature_ids`, or its error; the only error is the 3-value unpack error of a date |
| Dataset.PositiveIds | generate_dataset.py:31-34 | the loop builds the set `PositiveIdSet` defines, or its error |
| Dataset.PositiveIdSetErrorStays | generate_dataset.py:32-33 | once a positive row raises, later rows do not change the outcome |
| Dataset.PositiveIdSetOk | generate_dataset.py:28-34 | the set is built exactly when every row labelled 1 has a date with three dash-separated parts |
| Dataset.PositiveIdSetMembers | generate_dataset.py:28-34 | an id is in `pos_feature_ids` exactly when it is `get_file_id` of some row labelled 1 |
| Dataset.PositiveIdSetErr | generate_dataset.py:32-33 | a failed set carries the error of the first row labelled 1 whose date does not split: that row's error, with every earlier positive row's date splitting |
| Dataset.RouteOf | generate_dataset.py:48-59 | where the sorting loop sends one entry; it raises exactly for a file whose name does not split into three parts, and a negative file's tile id is never in `pos_feature_ids` |
| Dataset.Positives | generate_dataset.py:51-53 | the entries copied to the positive directory, in listing order; `PositiveMembers` says which they are |
| Dataset.NegGroups | generate_dataset.py:57-59 | the dictionary `neg_files`; no list in it is empty, since a list is created only for a file that is appended to it |
| Dataset.Processed | generate_dataset.py:47-49 | the sorting loop gets through every entry before the first file whose name does not split into three parts |
| Dataset.Partition | generate_dataset.py:45-59 | positives are the positive files in listing order up to the first malformed file; `neg_files` is the dictionary `NegGroups` builds; the error is that of the malformed file, and there is none when every entry was processed |
| Dataset.GroupExtend | generate_dataset.py:59 | one more entry extends only the group of its own tile id |
| Dataset.GroupsUnchanged | generate_dataset.py:51-53 | an entry that is not a negative file leaves the grouping correct |
| Dataset.GroupGrows | generate_dataset.py:57-59 | creating an empty list on a tile id's first file and appending keeps every group correct |
| Dataset.NegGroupsMatch | generate_dataset.py:57-59 | `neg_files` has as keys exactly the tile ids with negative files, each mapped to those files in listing order |
| Dataset.GroupMembers | generate_dataset.py:54-59 | a group holds exactly the listed files routed to that tile, so no group is keyed by a positive id |
| Dataset.PositiveMembers | generate_dataset.py:51-53 | the positive directory receives exactly the files whose tile id is positive |
| Dataset.NoNegativeKeyIsPositive | generate_dataset.py:51-59 | no key of `neg_files` is in `pos_feature_ids` |
| Dataset.OneDestination | generate_dataset.py:51-59 | a well-named file goes to the positive directory iff its tile id is positive, and otherwise to the group of its own tile id and to no other group |
| Dataset.Truncate | generate_dataset.py:64 | `int()` of a real truncates toward zero |
| Dataset.SampleCount | generate_dataset.py:64 | `int(len(neg_files_list) * fraction)`; the count is never negative for a fraction of at least 0, and never positive for a negative fraction over a non-empty list |
| Dataset.SampleCountBounds | generate_dataset.py:64 | a fraction in [0, 1] selects between none and all of the groups, and 1.0 selects all of them |
| Dataset.IsShuffleOf | generate_dataset.py:62-63 | the shuffled list is a permutation of the dictionary's keys, so it has one entry per key, holds exactly the keys, and repeats none |
| Dataset.PermutationOfKeys | generate_dataset.py:62-63 | a sequence with the same elements as a set, counted with multiplicity, has the set's size, holds exactly its elements and repeats none |
| Dataset.CopyNegatives | generate_dataset.py:62-67 | the first `int(len * fraction)` shuffled groups are copied whole, in order; a count above the list's length raises IndexError after all groups were copied; fraction 1.0 copies every group |
| Dataset.NegativesInAddTile | generate_dataset.py:57-59 | the negative files of one more tile add exactly that tile's group |
| Dataset.GroupsInOrderAreNegatives | generate_dataset.py:65-67 | copying distinct groups one after another copies exactly the negative files of those tiles |
| Dataset.NegativesInNone | generate_dataset.py:65-67 | no tiles, no negative files |
| Dataset.FilesSplit | generate_dataset.py:47-59 | without a malformed name, the files are the positive files plus the negative files of every tile |
| Dataset.ShuffledGroupsMatch | generate_dataset.py:62-63 | each tile id of the shuffled list maps to its group |
| Dataset.NegativeTilesListed | generate_dataset.py:62-63 | every negative file's tile id is in the shuffled list |
| Dataset.EveryFileCopiedOnce | generate_dataset.py:47-67 | with no malformed name, the positive copies plus every group of the dictionary the sorting loop builds, taken in any shuffled order (fraction 1.0), are as a multiset exactly the regular files of the listing |

## Left out

- Earth Engine, shapely and `polygon_to_geohashes` (generate_metadata.py:10-11, 25-29): these are foreign services and geometry. The region's cells are an input set.
- `geohash.encode`, `geohash.decode` and `geohash.expand` come from a foreign library:
  - the cell of each sighting is a given field;
  - `expand` is a function parameter;
  - the `lat`/`lon` columns (generate_metadata.py:87-88) are not modelled.
- `pd.to_datetime` (generate_metadata.py:23, 86): dates are given as integer instants. The `date` field of a sighting is the parsed STARTDATE, and the raw string is kept separately for the filter. A STARTDATE missing from the CSV is not modelled.
- The pandas index mechanics at generate_metadata.py:53 are not modelled. Instead, the label write addresses rows by position 0..n-1, which is what the script intends for the default index.
- Metadata.TileTable.GetLabels: the write of line 53 goes through chained indexing, which may be lost under copy-on-write pandas. The model performs the intended in-place write.
- `random.shuffle` (generate_dataset.py:63) is not modelled as randomness. The model takes any permutation of the dictionary's keys.
- `float(args.negative_sample)` (generate_dataset.py:64) is an exact real, so floating-point rounding of `len * fraction` is not modelled.
- CSV reading and writing, argparse, `os.makedirs`, `shutil.copy`/`copyfile`, zip extraction, `rmtree` and tqdm are I/O. The model records which entries are copied, and in which order, instead of copying them.
- Directory entries are names. `os.path.join` paths are not modelled, and `neg_files` holds entry names where the script holds joined paths.
- `os.listdir` is a given sequence, and `os.path.isfile` is a given predicate.
- The outer loop over archives in unzip_downloaded.py (lines 21-37) is not modelled. Each archive is modelled on its own by `TileNames.RenameArchive`, given the names of its extracted members.
- generate_tile_metadata.py is not part of this model. Its only logic is the stem split that `TileNames.SplitStem` models.
- Text.Stem: models `os.path.splitext` for names without a path separator only, since directory entries hold none.
- pandas reading an all-digit geohash or a date column back from features.csv with a type other than string is not modelled. Rows are strings.
