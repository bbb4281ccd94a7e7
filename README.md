# cargo-license report layer, modelled in Dafny

`cargo-license` lists the licenses of a Rust project's resolved dependencies.
An external resolver (the `cargo_license` crate) reads `Cargo.lock` and hands back
one record per package: name, version, source, an optional license, optional
license texts and optional authors. This project models the report logic
of `src/cargo-license.rs` that turns those records into output, apart from what
"## Left out" lists:

- **Full-license listing** (`-f`, `print_full_licenses`): a CSV table with the header
  `library,license,license-text` and one row per (record, license text) pair.
  A record whose texts are absent gets one row with `N/A` as its text.
  A record whose text list is present but empty gets no row.
- **Grouped by license** (the default, `group_by_license_type`): the records are
  folded into a `BTreeMap` from resolved license to the records with that
  license. The map is then walked in ascending key order. Each entry prints
  the license, the record count and the names. With `-a` it also prints the
  group's authors, deduplicated and sorted by a `BTreeSet`.
- **One license per line** (`-d`, `one_license_per_line`): one line per record,
  in input order, as `name: version, "license", source`. With `-a` the line
  continues `, by "author1, author2"`.
- **Mode selection** (`main`): `-h` prints usage and returns before the
  resolver is called. A resolver failure prints a fixed message followed by
  the error and exits with status 1. Otherwise full listing beats
  one-per-line, which beats the grouped default. `-a` does nothing in the
  full listing.

A missing license is shown as `N/A` in every mode.

Printing is replaced by returning values. The full listing returns rows of
fields, `seq<seq<string>>`. The grouped report returns `GroupBlock`s and the
per-line report returns `Line`s. `RenderBlock` and `RenderLine` give the text
the `println!` format strings produce, without colour.

Modules:

- `Wrappers`: Rust's `Option` (with `unwrap_or` as `GetOr`) and `Result`.
- `LexOrder`: the string order of `BTreeMap<String, _>`/`BTreeSet<String>`, and
  the sorted duplicate-free listing a `BTreeSet` yields.
- `Text`: `join` and the decimal rendering of a count.
- `Dependencies`: the record and the `unwrap_or` defaults.
- `FullListing`, `LicenseTable` (the `BTreeMap`), `Grouped`, `PerLine`: the three modes.
- `Cli`: `main`'s flow after flag parsing.
- `Scenarios`: a three-record worked example.

Rust orders `String`s by their UTF-8 bytes. That is the same order as comparing Unicode
scalar values, which is what `LexLess` does on Dafny's `char`s.

The resolver is not called by the model. `Cli.Run` takes its result, success or
failure, as a parameter, and the help branch provably ignores it.

Three behaviours of the code worth noting:
- The per-line author list is printed inside double quotes (`by "a, b"`).
- The grouped author list is sorted, because it is collected into a `BTreeSet`.
- A present but empty list of license texts yields no full-listing row.

## Model

| member | source | states |
|---|---|---|
| `LexOrder.LexLessIsFirstDifference` | src/cargo-license.rs:30 | the key order is lexicographic: `a < b` exactly when `a` is a proper prefix of `b` or has the smaller character at the first difference |
| `LexOrder.LexLessIrreflexive` | src/cargo-license.rs:30 | no license key sorts before itself |
| `LexOrder.LexLessAsymmetric` | src/cargo-license.rs:30 | two keys are never each below the other |
| `LexOrder.LexLessTransitive` | src/cargo-license.rs:30 | the key order is transitive |
| `LexOrder.LexLessTotal` | src/cargo-license.rs:30 | any two different keys are ordered one way or the other |
| `LexOrder.AscendingUnique` | src/cargo-license.rs:47-50 | a set of strings has exactly one strictly ascending listing, so the author list printed is determined by the author set |
| `LexOrder.SetInsert` | src/cargo-license.rs:50 | `BTreeSet` insertion keeps the listing strictly ascending and adds exactly the new element |
| `LexOrder.CollectSorted` | src/cargo-license.rs:47-50 | collecting into a `BTreeSet` yields a strictly ascending listing of exactly the collected strings |
| `Text.Decimal` | src/cargo-license.rs:54 | a printed count is a non-empty digit string with no leading zero |
| `Text.JoinAppend` | src/cargo-license.rs:55 | `join(", ")` of one more part puts the separator between the earlier parts' join and the new part |
| `Text.DecimalRoundTrip` | src/cargo-license.rs:63 | reading a printed count back gives the count |
| `Dependencies.NamesOfPermutation` | src/cargo-license.rs:45 | records that are a permutation of each other have names that are a permutation of each other |
| `FullListing.TextRowsAt` | src/cargo-license.rs:21-23 | the `j`-th row written for a record's texts carries its name, its license and its `j`-th text |
| `FullListing.TextRowsAppend` | src/cargo-license.rs:21-23 | writing one more license text appends exactly one row (name, license, that text) after the rows of the earlier texts |
| `FullListing.RowsConcat` | src/cargo-license.rs:17-26 | the rows of two record sequences written one after the other are the rows of the first followed by the rows of the second |
| `FullListing.RowsAppend` | src/cargo-license.rs:17-26 | the rows of one more record come after the rows already written |
| `FullListing.RowCountIsSum` | src/cargo-license.rs:17-26 | the number of data rows is the sum over records of the number of texts, or 1 when texts are absent |
| `FullListing.RowAt` | src/cargo-license.rs:18-24 | row `j` of record `i` holds the record's name, its license or "N/A", and its `j`-th text in order; with absent texts it is the record's only row and its text is "N/A" |
| `FullListing.RowsAround` | src/cargo-license.rs:17-26 | the rows of record `i` sit after the rows of all earlier records and before those of all later ones, starting at the earlier records' row count |
| `FullListing.RecordRowsShowNameAndLicense` | src/cargo-license.rs:18-25 | every row of record `i` has three fields, the record's name first and its license or "N/A" second |
| `FullListing.WriteRecordRows` | src/cargo-license.rs:18-25 | writing one record appends exactly that record's rows (one per text, or one "N/A" row) after the rows already written |
| `FullListing.FullLicenses` | src/cargo-license.rs:14-27 | the output is the header `library, license, license-text` followed by every record's rows in input order; it has 1 + sum of row counts rows |
| `LicenseTable.Lookup` | src/cargo-license.rs:34-35 | a license that is not a key has no records |
| `LicenseTable.Entry` | src/cargo-license.rs:33-41 | an entry update keeps keys strictly ascending, adds the license as a key, appends the record to that license's records only, and adds an entry exactly when the key was vacant |
| `LicenseTable.EntryOccupied` | src/cargo-license.rs:38-39 | an occupied entry has the record pushed onto its list, nothing else changing |
| `LicenseTable.EntryVacantHere` | src/cargo-license.rs:35-36 | a vacant key below all keys gets a new singleton entry in first position |
| `LicenseTable.EntryFurther` | src/cargo-license.rs:34-41 | a key above the first entry is inserted or pushed among the later entries, the first staying in place |
| `LicenseTable.LookupAt` | src/cargo-license.rs:44 | walking the map in order, each entry's records are the records stored under its key |
| `Grouped.RecordsWithCount` | src/cargo-license.rs:32-42 | a license's group holds each record with that license as often as the input does, and no other record |
| `Grouped.RecordsWithAppend` | src/cargo-license.rs:36-39 | adding a record appends it at the end of its own license's group and leaves other groups alone, so groups keep input order |
| `Grouped.FlatAuthors` | src/cargo-license.rs:47-49 | the flattened author list holds exactly the authors of the group's records, absent lists counting as empty |
| `Grouped.TableOfAppend` | src/cargo-license.rs:32-42 | one fold step keeps the map ordered, keyed by exactly the licenses seen, each key holding the records with that license in input order |
| `Grouped.ReportOfTable` | src/cargo-license.rs:44-66 | walking such a map produces the grouped report |
| `Grouped.BlockOf` | src/cargo-license.rs:45-65 | a block has its entry's license, the entry's size as count, its names in order, and, exactly when authors are displayed, the sorted duplicate-free union of their authors |
| `Grouped.GroupByLicenseType` | src/cargo-license.rs:29-68 | one block per distinct resolved license, in strictly ascending license order, each describing exactly the records with that license |
| `Grouped.GroupsConcatCount` | src/cargo-license.rs:30-44 | across distinct keys, a record appears as often as the input holds it when its license is among the keys, else never |
| `Grouped.GroupingPartitionsRecords` | src/cargo-license.rs:30-44 | the groups together hold exactly the input records, as a multiset |
| `Grouped.RecordInOwnGroup` | src/cargo-license.rs:33-41 | each record's license is a reported key, and the record is in the group of that key and in no other |
| `Grouped.ReportedNamesOfGroups` | src/cargo-license.rs:45 | the names printed across blocks are the names of the groups' records, group after group |
| `Grouped.GroupingPreservesNames` | src/cargo-license.rs:44-64 | the names printed across all blocks are the input names, as a multiset |
| `Grouped.GroupedReportUnique` | src/cargo-license.rs:44-66 | the grouped report of a record sequence is determined by the records and the author setting |
| `Grouped.RenderBlock` | src/cargo-license.rs:51-65 | a printed block begins with the license, ` (` and the decimal count, in both the with-authors and the without-authors format |
| `PerLine.OneLicensePerLine` | src/cargo-license.rs:70-97 | one line per record in input order with its name, version, license or "N/A" and source, and its authors in their own order exactly when authors are displayed |
| `Cli.SelectMode` | src/cargo-license.rs:120-146 | `-h` decides usage alone; otherwise `-f` selects the full listing whatever else is set, then `-d` one per line, else grouped; `-a` only sets author display |
| `Cli.Run` | src/cargo-license.rs:120-146 | help yields the usage whatever the resolver would return; a resolver failure exits with status 1 and the fixed message plus the error; otherwise exactly the selected report |
| `Cli.LicenseShownInEveryMode` | src/cargo-license.rs:18-74 | a record's license, or "N/A" when absent, is shown in all its full-listing rows, on its line, and as the key of the one group holding it (the license resolved at lines 18, 33 and 74) |
| `Scenarios.ExpectedBlocksAreReport` | src/cargo-license.rs:60-65 | alpha and beta under MIT and gamma without a license group as `MIT (2)` then `N/A (1)` |
| `Scenarios.GroupedExample` | src/cargo-license.rs:60-65 | that grouped report is the only one, printed as `MIT (2): alpha, beta` and `N/A (1): gamma` |
| `Scenarios.ExpectedBlocksRendered` | src/cargo-license.rs:60-65 | the two expected blocks print as `MIT (2): alpha, beta` and `N/A (1): gamma` |
| `PerLine.RenderLine` | src/cargo-license.rs:78-94 | a printed line begins with the record's name and `: `, and with authors displayed it ends in the closing quote of `by "…"` |
| `PerLine.RenderLineWithAuthors` | src/cargo-license.rs:78-94 | displaying authors only appends `, by "a1, a2"`, the authors joined by `, ` inside double quotes, to the line printed without them |
| `Scenarios.GroupedAuthorsRendered` | src/cargo-license.rs:51-58 | with authors a block prints as `MIT (2)`, the names, and `by x` on three lines |
| `Scenarios.PerLineAuthorsRendered` | src/cargo-license.rs:78-86 | with authors a line prints as `a: 1, "MIT", src, by "x, y"`, the authors quoted |
| `Scenarios.PerLineExample` | src/cargo-license.rs:88-94 | the same records one per line are three lines in input order with licenses MIT, MIT, N/A |

## Left out

- Command-line parsing by `getopts` (src/cargo-license.rs:105-119) is external. Its
  panic on an unknown flag is left out, and the flags arrive already parsed as
  `Cli.Flags`.
- `print_usage` is not modelled: the usage text comes from `getopts`. The model
  only records that usage was shown.
- `cargo_license::get_dependencies_from_cargo_lock` reads the filesystem in an
  external crate. Its result is a parameter of `Cli.Run`, and its error is a string.
- CSV quoting and escaping by `csv::Writer`, and the panics on a failed write,
  belong to an external library and to I/O. Full-listing rows are returned as fields.
- The `ansi_term` colouring of licenses, names and `by` is decoration and is left out.
- Writing to stdout is left out. Reports are returned values.
