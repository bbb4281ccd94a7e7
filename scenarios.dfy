/** The worked example of three records, two under MIT and one without a
    license, in the grouped and the one-per-line reports. */
module Scenarios {
  import opened Wrappers
  import opened Dependencies
  import opened LexOrder
  import opened Grouped
  import opened PerLine
  import opened Text

  const Registry: string := "registry+https://github.com/rust-lang/crates.io-index"

  function Alpha(): Dependency { Dependency("alpha", "1.0.0", Registry, Some("MIT"), None, None) }
  function Beta(): Dependency { Dependency("beta", "0.2.1", Registry, Some("MIT"), None, None) }
  function Gamma(): Dependency { Dependency("gamma", "3.1.4", Registry, None, None, None) }

  function Records(): seq<Dependency> { [Alpha(), Beta(), Gamma()] }

  function ExpectedBlocks(): seq<GroupBlock> {
    [GroupBlock("MIT", 2, ["alpha", "beta"], None), GroupBlock("N/A", 1, ["gamma"], None)]
  }

  lemma ExampleLicenses()
    ensures Licenses(Records()) == {"MIT", "N/A"}
  {
    assert ResolvedLicense(Alpha()) == "MIT" && ResolvedLicense(Beta()) == "MIT";
    assert ResolvedLicense(Gamma()) == "N/A";
    assert Alpha() in Records() && Gamma() in Records();
  }

  lemma ExampleGroups()
    ensures RecordsWith(Records(), "MIT") == [Alpha(), Beta()]
    ensures RecordsWith(Records(), "N/A") == [Gamma()]
  {
    assert Records()[1..] == [Beta(), Gamma()] && Records()[1..][1..] == [Gamma()];
  }

  lemma ExpectedBlocksAreReport()
    ensures IsGroupedReport(Records(), false, ExpectedBlocks())
  {
    var expected := ExpectedBlocks();
    assert LexLess("MIT", "N/A");
    assert BlockLicenses(expected) == ["MIT", "N/A"];
    ExampleLicenses();
    ExampleGroups();
    assert Names([Alpha(), Beta()]) == ["alpha", "beta"];
    assert Names([Gamma()]) == ["gamma"];
    assert DescribesGroup(expected[0], RecordsWith(Records(), "MIT"), false);
    assert DescribesGroup(expected[1], RecordsWith(Records(), "N/A"), false);
  }

  /** Grouped without authors, the records give two blocks, MIT before N/A,
      printed as `MIT (2): alpha, beta` and `N/A (1): gamma`. */
  lemma GroupedExample(blocks: seq<GroupBlock>)
    requires IsGroupedReport(Records(), false, blocks)
    ensures blocks == [GroupBlock("MIT", 2, ["alpha", "beta"], None), GroupBlock("N/A", 1, ["gamma"], None)]
    ensures RenderBlock(blocks[0]) == "MIT (2): alpha, beta"
    ensures RenderBlock(blocks[1]) == "N/A (1): gamma"
  {
    ExpectedBlocksAreReport();
    GroupedReportUnique(Records(), false, blocks, ExpectedBlocks());
    ExpectedBlocksRendered();
  }

  /** The counts the examples print. */
  lemma SmallCounts()
    ensures Decimal(1) == "1" && Decimal(2) == "2"
  {
    assert DigitChar(1) == '1' && DigitChar(2) == '2';
  }

  lemma ExpectedBlocksRendered()
    ensures RenderBlock(ExpectedBlocks()[0]) == "MIT (2): alpha, beta"
    ensures RenderBlock(ExpectedBlocks()[1]) == "N/A (1): gamma"
  {
    SmallCounts();
    var names := Join(["alpha", "beta"], ", ");
    assert names == "alpha" + ", " + "beta";
    calc {
      RenderBlock(ExpectedBlocks()[0]);
      "MIT" + " (" + "2" + "): " + names;
      "MIT (2): alpha, beta";
    }
    calc {
      RenderBlock(ExpectedBlocks()[1]);
      "N/A" + " (" + "1" + "): " + "gamma";
      "N/A (1): gamma";
    }
  }

  /** One per line without authors, the records give three lines in input
      order, each with its resolved license. */
  lemma PerLineExample(lines: seq<Line>)
    requires IsPerLineReport(Records(), false, lines)
    ensures lines == [Line("alpha", "1.0.0", "MIT", Registry, None),
                      Line("beta", "0.2.1", "MIT", Registry, None),
                      Line("gamma", "3.1.4", "N/A", Registry, None)]
  {
    assert DescribesRecord(lines[0], Alpha(), false);
    assert DescribesRecord(lines[1], Beta(), false);
    assert DescribesRecord(lines[2], Gamma(), false);
  }

  /** The first line is printed as `alpha: 1.0.0, "MIT", <source>`. */
  lemma PerLineExampleRendered()
    ensures RenderLine(Line("alpha", "1.0.0", "MIT", Registry, None)) == "alpha: 1.0.0, \"MIT\", " + Registry
  {
  }

  /** With authors, a block is printed on three lines: `MIT (2)`, the names,
      and `by` followed by the sorted authors. */
  lemma GroupedAuthorsRendered()
    ensures RenderBlock(GroupBlock("MIT", 2, ["alpha", "beta"], Some(["x"]))) == "MIT (2)\nalpha, beta\nby x"
  {
    SmallCounts();
    var names := Join(["alpha", "beta"], ", ");
    assert names == "alpha" + ", " + "beta";
    calc {
      RenderBlock(GroupBlock("MIT", 2, ["alpha", "beta"], Some(["x"])));
      "MIT" + " (" + "2" + ")\n" + names + "\nby " + "x";
      "MIT (2)\nalpha, beta\nby x";
    }
  }

  /** With authors, a line ends in `, by "x, y"`, the authors inside quotes. */
  lemma PerLineAuthorsRendered()
    ensures RenderLine(Line("a", "1", "MIT", "src", Some(["x", "y"]))) == "a: 1, \"MIT\", src, by \"x, y\""
  {
    var authors := Join(["x", "y"], ", ");
    assert authors == "x" + ", " + "y";
    calc {
      RenderLine(Line("a", "1", "MIT", "src", Some(["x", "y"])));
      "a" + ": " + "1" + ", \"" + "MIT" + "\", " + "src" + ", by \"" + authors + "\"";
      "a: 1, \"MIT\", src, by \"x, y\"";
    }
  }
}
