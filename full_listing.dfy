/** Full-license listing (`print_full_licenses`): a CSV table with one row per
    (record, license text) pair. The table is returned as rows of fields. */
module FullListing {
  import opened Wrappers
  import opened Dependencies

  /** The header row written before any record. */
  const Header: seq<string> := ["library", "license", "license-text"]

  /** The rows one record contributes: one per license text, in the texts'
      order, or a single row with "N/A" as text when the texts are absent. */
  function RecordRows(d: Dependency): seq<seq<string>> {
    match d.licenseTexts
    case Some(texts) => TextRows(d, texts)
    case None => [Row(d, NotAvailable)]
  }

  /** One row per text, in the texts' order. */
  function TextRows(d: Dependency, texts: seq<string>): (rows: seq<seq<string>>)
    ensures |rows| == |texts|
    decreases |texts|
  {
    if texts == [] then [] else [Row(d, texts[0])] + TextRows(d, texts[1..])
  }

  lemma {:induction false} TextRowsAt(d: Dependency, texts: seq<string>, j: nat)
    requires j < |texts|
    ensures TextRows(d, texts)[j] == Row(d, texts[j])
    decreases j
  {
    if j > 0 {
      TextRowsAt(d, texts[1..], j - 1);
    }
  }

  lemma {:induction false} TextRowsAppend(d: Dependency, texts: seq<string>, text: string)
    ensures TextRows(d, texts + [text]) == TextRows(d, texts) + [Row(d, text)]
    decreases |texts|
  {
    if texts == [] {
      assert [text][1..] == [];
    } else {
      assert (texts + [text])[1..] == texts[1..] + [text];
      TextRowsAppend(d, texts[1..], text);
    }
  }

  /** A record's row for one license text: its name, its resolved license, the text. */
  function Row(d: Dependency, text: string): seq<string> {
    [d.name, ResolvedLicense(d), text]
  }

  /** The data rows of the table, record after record. */
  function Rows(deps: seq<Dependency>): seq<seq<string>>
    decreases |deps|
  {
    if deps == [] then [] else RecordRows(deps[0]) + Rows(deps[1..])
  }

  /** How many rows a record contributes. */
  function RowCount(d: Dependency): nat {
    match d.licenseTexts
    case Some(texts) => |texts|
    case None => 1
  }

  /** The number of rows the records contribute together. */
  function TotalRowCount(deps: seq<Dependency>): nat
    decreases |deps|
  {
    if deps == [] then 0 else RowCount(deps[0]) + TotalRowCount(deps[1..])
  }

  /** The first row of record `i` among the data rows. */
  function RowStart(deps: seq<Dependency>, i: nat): nat
    requires i <= |deps|
  {
    TotalRowCount(deps[..i])
  }

  /** The rows of two record sequences, one after the other. */
  lemma {:induction false} RowsConcat(a: seq<Dependency>, b: seq<Dependency>)
    ensures Rows(a + b) == Rows(a) + Rows(b)
    decreases |a|
  {
    if a == [] {
      assert a + b == b;
    } else {
      assert (a + b)[1..] == a[1..] + b;
      RowsConcat(a[1..], b);
    }
  }

  /** One more record's rows come after the rows already written. */
  lemma RowsAppend(deps: seq<Dependency>, d: Dependency)
    ensures Rows(deps + [d]) == Rows(deps) + RecordRows(d)
  {
    RowsConcat(deps, [d]);
    assert [d][1..] == [];
  }

  /** A hint for the solver: regrouping a concatenation of three sequences. */
  lemma AppendAssociative<T>(a: seq<T>, b: seq<T>, c: seq<T>)
    ensures (a + b) + c == a + (b + c)
  {
  }

  /** Extending the prefix by one record appends that record's rows. */
  lemma RowsPrefixStep(deps: seq<Dependency>, k: nat)
    requires k < |deps|
    ensures Rows(deps[..k + 1]) == Rows(deps[..k]) + RecordRows(deps[k])
  {
    assert deps[..k + 1] == deps[..k] + [deps[k]];
    RowsAppend(deps[..k], deps[k]);
  }

  /** The table has exactly the sum over the records of (texts present ?
      number of texts : 1) data rows. */
  lemma {:induction false} RowCountIsSum(deps: seq<Dependency>)
    ensures |Rows(deps)| == TotalRowCount(deps)
    decreases |deps|
  {
    if deps != [] {
      RowCountIsSum(deps[1..]);
    }
  }

  /** The rows of record `i` sit between those of the records before and after it. */
  lemma RowsAround(deps: seq<Dependency>, i: nat)
    requires i < |deps|
    ensures Rows(deps) == Rows(deps[..i]) + RecordRows(deps[i]) + Rows(deps[i + 1..])
    ensures |Rows(deps[..i])| == RowStart(deps, i)
  {
    var pre, d, post := deps[..i], deps[i], deps[i + 1..];
    assert deps == pre + [d] + post;
    RowsConcat(pre + [d], post);
    RowsAppend(pre, d);
    RowCountIsSum(pre);
  }

  /** Row `j` of record `i` sits at `RowStart(deps, i) + j` and repeats the
      record's name and resolved license next to its `j`-th license text
      (or "N/A" when the texts are absent, in which case it is the only row). */
  lemma {:induction false} RowAt(deps: seq<Dependency>, i: nat, j: nat)
    requires i < |deps| && j < RowCount(deps[i])
    ensures RowStart(deps, i) + j < |Rows(deps)|
    ensures |Rows(deps)[RowStart(deps, i) + j]| == 3
    ensures Rows(deps)[RowStart(deps, i) + j][0] == deps[i].name
    ensures Rows(deps)[RowStart(deps, i) + j][1] == ResolvedLicense(deps[i])
    ensures deps[i].licenseTexts.Some? ==>
              Rows(deps)[RowStart(deps, i) + j][2] == deps[i].licenseTexts.value[j]
    ensures deps[i].licenseTexts.None? ==>
              j == 0 && Rows(deps)[RowStart(deps, i) + j][2] == NotAvailable
  {
    RowsAround(deps, i);
    assert |RecordRows(deps[i])| == RowCount(deps[i]);
    assert Rows(deps)[RowStart(deps, i) + j] == RecordRows(deps[i])[j];
    if deps[i].licenseTexts.Some? {
      TextRowsAt(deps[i], deps[i].licenseTexts.value, j);
    }
  }

  /** Every row of record `i` repeats its name and resolved license. */
  lemma RecordRowsShowNameAndLicense(deps: seq<Dependency>, i: nat)
    requires i < |deps|
    ensures RowStart(deps, i) + RowCount(deps[i]) <= |Rows(deps)|
    ensures forall k :: RowStart(deps, i) <= k < RowStart(deps, i) + RowCount(deps[i]) ==>
              && |Rows(deps)[k]| == 3
              && Rows(deps)[k][0] == deps[i].name
              && Rows(deps)[k][1] == ResolvedLicense(deps[i])
  {
    RowsAround(deps, i);
    assert |RecordRows(deps[i])| == RowCount(deps[i]);
    forall k | RowStart(deps, i) <= k < RowStart(deps, i) + RowCount(deps[i])
      ensures && |Rows(deps)[k]| == 3
              && Rows(deps)[k][0] == deps[i].name
              && Rows(deps)[k][1] == ResolvedLicense(deps[i])
    {
      RowAt(deps, i, k - RowStart(deps, i));
    }
  }

  /** The body of `print_full_licenses`' loop for one record: its rows are
      written after `rows`. */
  method WriteRecordRows(rows: seq<seq<string>>, d: Dependency) returns (out: seq<seq<string>>)
    ensures out == rows + RecordRows(d)
  {
    out := rows;
    var license := ResolvedLicense(d);
    match d.licenseTexts {
      case Some(texts) =>
        for j := 0 to |texts|
          invariant out == rows + TextRows(d, texts[..j])
        {
          out := out + [[d.name, license, texts[j]]];
          TextRowsAppend(d, texts[..j], texts[j]);
          assert texts[..j + 1] == texts[..j] + [texts[j]];
        }
        assert texts[..|texts|] == texts;
      case None =>
        out := out + [[d.name, license, NotAvailable]];
    }
  }

  /** `print_full_licenses`: the header, then each record's rows in input order. */
  method FullLicenses(deps: seq<Dependency>) returns (rows: seq<seq<string>>)
    ensures rows == [Header] + Rows(deps)
    ensures |rows| == 1 + TotalRowCount(deps)
  {
    rows := [Header];
    for k := 0 to |deps|
      invariant rows == [Header] + Rows(deps[..k])
    {
      ghost var before := Rows(deps[..k]);
      rows := WriteRecordRows(rows, deps[k]);
      AppendAssociative([Header], before, RecordRows(deps[k]));
      RowsPrefixStep(deps, k);
    }
    assert deps[..|deps|] == deps;
    RowCountIsSum(deps);
  }
}
