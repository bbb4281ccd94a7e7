/** A resolved dependency, as the resolver hands it to the report, and the
    defaults the report applies to its optional fields. */
module Dependencies {
  import opened Wrappers

  /** One package of the resolved dependency set. The resolver may leave the
      license, the license texts and the authors undetermined; a present but
      empty list of license texts is distinct from an absent one. */
  datatype Dependency = Dependency(
    name: string,
    version: string,
    source: string,
    license: Option<string>,
    licenseTexts: Option<seq<string>>,
    authors: Option<seq<string>>)

  /** The placeholder printed for a missing license or license text. */
  const NotAvailable: string := "N/A"

  /** `get_license().unwrap_or("N/A")`. */
  function ResolvedLicense(d: Dependency): string {
    d.license.GetOr(NotAvailable)
  }

  /** `get_authors().unwrap_or(vec![])`. */
  function AuthorsOrEmpty(d: Dependency): seq<string> {
    d.authors.GetOr([])
  }

  /** `iter().map(|c| c.name.clone()).collect()`. */
  function Names(deps: seq<Dependency>): seq<string> {
    seq(|deps|, i requires 0 <= i < |deps| => deps[i].name)
  }

  lemma NamesConcat(a: seq<Dependency>, b: seq<Dependency>)
    ensures Names(a + b) == Names(a) + Names(b)
  {
  }

  /** Reordering records reorders their names the same way: equal multisets
      of records have equal multisets of names. */
  lemma {:induction false} NamesOfPermutation(x: seq<Dependency>, y: seq<Dependency>)
    requires multiset(x) == multiset(y)
    ensures multiset(Names(x)) == multiset(Names(y))
    decreases |x|
  {
    if x == [] {
      assert |y| == |multiset(y)| == 0;
    } else {
      var e := x[0];
      assert e in multiset(y);
      var p :| 0 <= p < |y| && y[p] == e;
      var y' := y[..p] + y[p + 1..];
      assert y == y[..p] + [e] + y[p + 1..];
      assert x == [e] + x[1..];
      assert multiset(y) == multiset(y[..p]) + multiset{e} + multiset(y[p + 1..]);
      assert multiset(y') == multiset(y[..p]) + multiset(y[p + 1..]);
      assert multiset(x) == multiset{e} + multiset(x[1..]);
      assert multiset(x[1..]) == multiset(x) - multiset{e};
      assert multiset(y') == multiset(y) - multiset{e};
      NamesOfPermutation(x[1..], y');
      NamesConcat([e], x[1..]);
      NamesConcat(y[..p] + [e], y[p + 1..]);
      NamesConcat(y[..p], [e]);
      NamesConcat(y[..p], y[p + 1..]);
    }
  }
}
