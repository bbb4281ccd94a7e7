/** One-license-per-line report (`one_license_per_line`, the `-d` mode): one
    line per record, in input order. */
module PerLine {
  import opened Wrappers
  import opened Dependencies
  import opened Text

  /** The fields of one printed line; `authors` is present exactly when
      authors are displayed. */
  datatype Line = Line(name: string, version: string, license: string, source: string, authors: Option<seq<string>>)

  /** `l` is the line printed for `d`: its name, version, resolved license and
      source, followed by its authors in their own order (none when absent)
      exactly when authors are displayed. */
  ghost predicate DescribesRecord(l: Line, d: Dependency, displayAuthors: bool) {
    && l.name == d.name
    && l.version == d.version
    && l.license == (if d.license.Some? then d.license.value else NotAvailable)
    && l.source == d.source
    && l.authors == (if displayAuthors then Some(if d.authors.Some? then d.authors.value else []) else None)
  }

  ghost predicate IsPerLineReport(deps: seq<Dependency>, displayAuthors: bool, lines: seq<Line>) {
    && |lines| == |deps|
    && forall i :: 0 <= i < |deps| ==> DescribesRecord(lines[i], deps[i], displayAuthors)
  }

  /** `one_license_per_line`. */
  method OneLicensePerLine(deps: seq<Dependency>, displayAuthors: bool) returns (lines: seq<Line>)
    ensures IsPerLineReport(deps, displayAuthors, lines)
  {
    lines := [];
    for i := 0 to |deps|
      invariant |lines| == i
      invariant forall j :: 0 <= j < i ==> DescribesRecord(lines[j], deps[j], displayAuthors)
    {
      var d := deps[i];
      var license := ResolvedLicense(d);
      var line;
      if displayAuthors {
        line := Line(d.name, d.version, license, d.source, Some(AuthorsOrEmpty(d)));
      } else {
        line := Line(d.name, d.version, license, d.source, None);
      }
      lines := lines + [line];
    }
  }

  /** The text `println!` writes: `name: version, "license", source`, then
      `, by "authors"` when authors are displayed. */
  function RenderLine(l: Line): (s: string)
    ensures |s| >= |l.name| + 2 && s[..|l.name| + 2] == l.name + ": "
    ensures l.authors.Some? ==> s[|s| - 1] == '"'
  {
    var plain := l.name + ": " + l.version + ", \"" + l.license + "\", " + l.source;
    match l.authors
    case None => plain
    case Some(authors) => plain + ", by \"" + Join(authors, ", ") + "\""
  }

  /** Displaying authors only appends `, by "a1, a2"` to the line printed
      without them. */
  lemma RenderLineWithAuthors(l: Line, authors: seq<string>)
    ensures RenderLine(l.(authors := Some(authors)))
         == RenderLine(l.(authors := None)) + ", by \"" + Join(authors, ", ") + "\""
  {
  }
}
