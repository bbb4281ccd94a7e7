/**
 * The front end (`main`): after the flags are parsed, `-h` prints the usage
 * and returns before the dependencies are looked up; otherwise the resolver
 * is consulted once and a failure ends the process with status 1; on success
 * exactly one report is produced, full listing before one-per-line before
 * the grouped default.
 */
module Cli {
  import opened Wrappers
  import opened Dependencies
  import opened FullListing
  import opened PerLine
  import opened Grouped

  /** The parsed command-line flags `-h`, `-a`, `-d` and `-f`. */
  datatype Flags = Flags(help: bool, authors: bool, doNotBundle: bool, full: bool)

  /** What the program does for a set of flags. */
  datatype Mode = ShowUsage | FullLicenseListing | OnePerLine(displayAuthors: bool) | GroupedByLicense(displayAuthors: bool)

  /** The three-way priority of `main`, behind `-h`. */
  function SelectMode(f: Flags): (m: Mode)
    ensures m.ShowUsage? <==> f.help
    ensures m.FullLicenseListing? <==> !f.help && f.full
    ensures m.OnePerLine? <==> !f.help && !f.full && f.doNotBundle
    ensures m.GroupedByLicense? <==> !f.help && !f.full && !f.doNotBundle
    ensures (m.OnePerLine? || m.GroupedByLicense?) ==> m.displayAuthors == f.authors
  {
    if f.help then ShowUsage
    else if f.full then FullLicenseListing
    else if f.doNotBundle then OnePerLine(f.authors)
    else GroupedByLicense(f.authors)
  }

  /** The fixed part of the message printed when no lockfile is found; the
      resolver's own error follows it. */
  const LockfileMissing: string := "Cargo.lock file not found. Try building the project first.\n"

  /** What one run produces: the usage text, an exit with a message, or one
      of the three reports. */
  datatype Outcome =
    | UsageShown
    | Exit(code: int, message: string)
    | FullReport(rows: seq<seq<string>>)
    | PerLineReport(lines: seq<Line>)
    | GroupedReport(blocks: seq<GroupBlock>)

  /** `main` after flag parsing; `resolved` is what the dependency resolver
      would return if it were called. */
  method Run(flags: Flags, resolved: Result<seq<Dependency>, string>) returns (out: Outcome)
    ensures flags.help ==> out == UsageShown
    ensures !flags.help && resolved.Failure? ==> out == Exit(1, LockfileMissing + resolved.error)
    ensures !flags.help && resolved.Success? && flags.full ==>
              out == FullReport([Header] + Rows(resolved.value))
    ensures !flags.help && resolved.Success? && !flags.full && flags.doNotBundle ==>
              out.PerLineReport? && IsPerLineReport(resolved.value, flags.authors, out.lines)
    ensures !flags.help && resolved.Success? && !flags.full && !flags.doNotBundle ==>
              out.GroupedReport? && IsGroupedReport(resolved.value, flags.authors, out.blocks)
  {
    var mode := SelectMode(flags);
    if mode == ShowUsage {
      return UsageShown;
    }
    match resolved {
      case Failure(err) =>
        out := Exit(1, LockfileMissing + err);
      case Success(deps) =>
        match mode {
          case FullLicenseListing =>
            var rows := FullLicenses(deps);
            out := FullReport(rows);
          case OnePerLine(displayAuthors) =>
            var lines := OneLicensePerLine(deps, displayAuthors);
            out := PerLineReport(lines);
          case GroupedByLicense(displayAuthors) =>
            var blocks := GroupByLicenseType(deps, displayAuthors);
            out := GroupedReport(blocks);
        }
    }
  }

  /** In every mode a record's license is shown as its own license string,
      or as "N/A" when it has none: in each of its full-listing rows, on its
      line, and as the key of the group it is reported in. */
  lemma LicenseShownInEveryMode(deps: seq<Dependency>, i: nat, displayAuthors: bool,
                                lines: seq<Line>, blocks: seq<GroupBlock>)
    requires i < |deps|
    requires IsPerLineReport(deps, displayAuthors, lines)
    requires IsGroupedReport(deps, displayAuthors, blocks)
    ensures ResolvedLicense(deps[i]) == if deps[i].license.Some? then deps[i].license.value else "N/A"
    ensures RowStart(deps, i) + RowCount(deps[i]) <= |Rows(deps)|
    ensures forall k :: RowStart(deps, i) <= k < RowStart(deps, i) + RowCount(deps[i]) ==>
              |Rows(deps)[k]| == 3 && Rows(deps)[k][1] == ResolvedLicense(deps[i])
    ensures lines[i].license == ResolvedLicense(deps[i])
    ensures exists m :: 0 <= m < |blocks| && blocks[m].license == ResolvedLicense(deps[i])
    ensures forall m :: 0 <= m < |blocks| ==>
              (deps[i] in RecordsWith(deps, blocks[m].license) <==> blocks[m].license == ResolvedLicense(deps[i]))
  {
    RecordRowsShowNameAndLicense(deps, i);
    RecordInOwnGroup(deps, displayAuthors, blocks, i);
  }
}
