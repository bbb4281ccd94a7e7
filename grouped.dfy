/**
 * Grouped-by-license report (`group_by_license_type`), the default mode:
 * records are folded into an ordered map from resolved license to the records
 * with that license, and the map is walked in ascending key order, one block
 * per license with its count, its names and, on request, its authors.
 */
module Grouped {
  import opened Wrappers
  import opened Dependencies
  import opened LexOrder
  import opened LicenseTable
  import opened Text

  /** The records whose resolved license is `license`, in input order. */
  function RecordsWith(deps: seq<Dependency>, license: string): seq<Dependency>
    decreases |deps|
  {
    if deps == [] then []
    else (if ResolvedLicense(deps[0]) == license then [deps[0]] else []) + RecordsWith(deps[1..], license)
  }

  /** The group of `license` holds each record with that license as often as
      the input does, and no other record. */
  lemma {:induction false} RecordsWithCount(deps: seq<Dependency>, license: string, d: Dependency)
    ensures multiset(RecordsWith(deps, license))[d]
         == if ResolvedLicense(d) == license then multiset(deps)[d] else 0
    decreases |deps|
  {
    if deps != [] {
      assert deps == [deps[0]] + deps[1..];
      RecordsWithCount(deps[1..], license, d);
    }
  }

  /** The licenses the records resolve to. */
  function Licenses(deps: seq<Dependency>): set<string> {
    set d | d in deps :: ResolvedLicense(d)
  }

  /** `flat_map(|c| c.get_authors().unwrap_or(vec![]))`: every author of
      every record of the group, absent author lists counting as empty. */
  function FlatAuthors(group: seq<Dependency>): (all: seq<string>)
    ensures forall a :: a in all <==> exists d :: d in group && a in AuthorsOrEmpty(d)
    decreases |group|
  {
    if group == [] then []
    else
      assert group == [group[0]] + group[1..];
      AuthorsOrEmpty(group[0]) + FlatAuthors(group[1..])
  }

  /** One printed block: the license, the number of records, their names and,
      when authors are displayed, the group's authors. */
  datatype GroupBlock = GroupBlock(license: string, count: nat, names: seq<string>, authors: Option<seq<string>>)

  function BlockLicenses(blocks: seq<GroupBlock>): seq<string> {
    seq(|blocks|, m requires 0 <= m < |blocks| => blocks[m].license)
  }

  /** `b` reports `group`: its size, its names in group order, and, exactly
      when authors are displayed, the union of the group's authors sorted and
      without duplicates. */
  ghost predicate DescribesGroup(b: GroupBlock, group: seq<Dependency>, displayAuthors: bool) {
    && b.count == |group|
    && b.names == Names(group)
    && b.authors.Some? == displayAuthors
    && (b.authors.Some? ==>
          && StrictlyAscending(b.authors.value)
          && forall a :: a in b.authors.value <==> a in FlatAuthors(group))
  }

  /** What the grouped report of `deps` is: one block per license the records
      resolve to, in strictly ascending license order, each describing the
      records with that license. */
  ghost predicate IsGroupedReport(deps: seq<Dependency>, displayAuthors: bool, blocks: seq<GroupBlock>) {
    && StrictlyAscending(BlockLicenses(blocks))
    && (forall l :: l in BlockLicenses(blocks) <==> l in Licenses(deps))
    && forall m :: 0 <= m < |blocks| ==>
         DescribesGroup(blocks[m], RecordsWith(deps, blocks[m].license), displayAuthors)
  }

  /** Appending a record to the input appends it to its own license's group
      only (`push` onto an occupied entry, a singleton on a vacant one). */
  lemma {:induction false} RecordsWithAppend(deps: seq<Dependency>, d: Dependency, license: string)
    ensures RecordsWith(deps + [d], license)
         == RecordsWith(deps, license) + (if ResolvedLicense(d) == license then [d] else [])
    decreases |deps|
  {
    if deps == [] {
      assert [d][1..] == [];
    } else {
      assert (deps + [d])[1..] == deps[1..] + [d];
      RecordsWithAppend(deps[1..], d, license);
    }
  }

  /** The block `print`ed for one map entry. */
  function BlockOf(g: Group, displayAuthors: bool): (b: GroupBlock)
    ensures b.license == g.license
    ensures DescribesGroup(b, g.members, displayAuthors)
  {
    var names := Names(g.members);
    if displayAuthors then
      GroupBlock(g.license, |g.members|, names, Some(CollectSorted(FlatAuthors(g.members))))
    else
      GroupBlock(g.license, |g.members|, names, None)
  }

  lemma LicensesAppend(deps: seq<Dependency>, d: Dependency)
    ensures Licenses(deps + [d]) == Licenses(deps) + {ResolvedLicense(d)}
  {
    assert d in deps + [d];
    forall l | l in Licenses(deps + [d]) ensures l in Licenses(deps) + {ResolvedLicense(d)} {
      var e :| e in deps + [d] && ResolvedLicense(e) == l;
      if e != d {
        assert e in deps;
      }
    }
  }

  /** The fold's table after `deps`: ordered, keyed by exactly the licenses of
      `deps`, each key holding the records with that license in input order. */
  ghost predicate IsTableOf(table: Table, deps: seq<Dependency>) {
    && KeysAscending(table)
    && Keys(table) == Licenses(deps)
    && forall k :: Lookup(table, k) == RecordsWith(deps, k)
  }

  lemma TableOfAppend(table: Table, deps: seq<Dependency>, d: Dependency)
    requires IsTableOf(table, deps)
    ensures IsTableOf(Entry(table, ResolvedLicense(d), d), deps + [d])
  {
    LicensesAppend(deps, d);
    forall k ensures RecordsWith(deps + [d], k) == Lookup(Entry(table, ResolvedLicense(d), d), k) {
      RecordsWithAppend(deps, d, k);
    }
  }

  /** Walking an ordered table of `deps` block by block gives the report. */
  lemma ReportOfTable(deps: seq<Dependency>, displayAuthors: bool, table: Table, blocks: seq<GroupBlock>)
    requires IsTableOf(table, deps)
    requires |blocks| == |table|
    requires forall n :: 0 <= n < |table| ==> blocks[n] == BlockOf(table[n], displayAuthors)
    ensures IsGroupedReport(deps, displayAuthors, blocks)
  {
    forall n | 0 <= n < |blocks|
      ensures DescribesGroup(blocks[n], RecordsWith(deps, blocks[n].license), displayAuthors)
    {
      LookupAt(table, n);
    }
    forall l ensures l in BlockLicenses(blocks) <==> l in Keys(table) {
      if l in Keys(table) {
        var g :| g in table && g.license == l;
        var n :| 0 <= n < |table| && table[n] == g;
        assert BlockLicenses(blocks)[n] == l;
      }
    }
  }

  /** `group_by_license_type`: fold the records into the ordered map, then
      emit one block per entry in key order. */
  method GroupByLicenseType(deps: seq<Dependency>, displayAuthors: bool) returns (blocks: seq<GroupBlock>)
    ensures IsGroupedReport(deps, displayAuthors, blocks)
  {
    var table: Table := [];
    for i := 0 to |deps|
      invariant IsTableOf(table, deps[..i])
    {
      var d := deps[i];
      TableOfAppend(table, deps[..i], d);
      table := Entry(table, ResolvedLicense(d), d);
      assert deps[..i + 1] == deps[..i] + [d];
    }
    assert deps[..|deps|] == deps;

    blocks := [];
    for m := 0 to |table|
      invariant |blocks| == m
      invariant forall n :: 0 <= n < m ==> blocks[n] == BlockOf(table[n], displayAuthors)
    {
      blocks := blocks + [BlockOf(table[m], displayAuthors)];
    }
    ReportOfTable(deps, displayAuthors, table, blocks);
  }

  /** The records of the groups named by `keys`, group after group. */
  function GroupsConcat(deps: seq<Dependency>, keys: seq<string>): seq<Dependency>
    decreases |keys|
  {
    if keys == [] then [] else RecordsWith(deps, keys[0]) + GroupsConcat(deps, keys[1..])
  }

  lemma {:induction false} GroupsConcatCount(deps: seq<Dependency>, keys: seq<string>, d: Dependency)
    requires StrictlyAscending(keys)
    ensures multiset(GroupsConcat(deps, keys))[d]
         == if ResolvedLicense(d) in keys then multiset(deps)[d] else 0
    decreases |keys|
  {
    if keys != [] {
      RecordsWithCount(deps, keys[0], d);
      GroupsConcatCount(deps, keys[1..], d);
      AscendingDistinct(keys);
      assert keys == [keys[0]] + keys[1..];
    }
  }

  /** Grouping is a partition: the groups of the report, taken together,
      hold every input record exactly as often as the input does. */
  lemma GroupingPartitionsRecords(deps: seq<Dependency>, displayAuthors: bool, blocks: seq<GroupBlock>)
    requires IsGroupedReport(deps, displayAuthors, blocks)
    ensures multiset(GroupsConcat(deps, BlockLicenses(blocks))) == multiset(deps)
  {
    forall d ensures multiset(GroupsConcat(deps, BlockLicenses(blocks)))[d] == multiset(deps)[d] {
      GroupsConcatCount(deps, BlockLicenses(blocks), d);
      if d in deps {
        assert ResolvedLicense(d) in Licenses(deps);
      }
    }
  }

  /** Each record belongs to the group of its own license and to no other,
      and that group is reported. */
  lemma RecordInOwnGroup(deps: seq<Dependency>, displayAuthors: bool, blocks: seq<GroupBlock>, i: nat)
    requires IsGroupedReport(deps, displayAuthors, blocks)
    requires i < |deps|
    ensures exists m :: 0 <= m < |blocks| && blocks[m].license == ResolvedLicense(deps[i])
    ensures forall m :: 0 <= m < |blocks| ==>
              (deps[i] in RecordsWith(deps, blocks[m].license) <==> blocks[m].license == ResolvedLicense(deps[i]))
  {
    assert ResolvedLicense(deps[i]) in Licenses(deps);
    var m :| 0 <= m < |blocks| && BlockLicenses(blocks)[m] == ResolvedLicense(deps[i]);
    forall n | 0 <= n < |blocks|
      ensures deps[i] in RecordsWith(deps, blocks[n].license) <==> blocks[n].license == ResolvedLicense(deps[i])
    {
      RecordsWithCount(deps, blocks[n].license, deps[i]);
      assert multiset(RecordsWith(deps, blocks[n].license))[deps[i]] > 0
         <==> blocks[n].license == ResolvedLicense(deps[i]);
    }
  }

  /** All names printed, block after block. */
  function ReportedNames(blocks: seq<GroupBlock>): seq<string>
    decreases |blocks|
  {
    if blocks == [] then [] else blocks[0].names + ReportedNames(blocks[1..])
  }

  lemma {:induction false} ReportedNamesOfGroups(deps: seq<Dependency>, blocks: seq<GroupBlock>)
    requires forall m :: 0 <= m < |blocks| ==> blocks[m].names == Names(RecordsWith(deps, blocks[m].license))
    ensures ReportedNames(blocks) == Names(GroupsConcat(deps, BlockLicenses(blocks)))
    decreases |blocks|
  {
    if blocks != [] {
      ReportedNamesOfGroups(deps, blocks[1..]);
      assert BlockLicenses(blocks)[1..] == BlockLicenses(blocks[1..]);
      NamesConcat(RecordsWith(deps, blocks[0].license), GroupsConcat(deps, BlockLicenses(blocks[1..])));
    }
  }

  /** No name is lost or duplicated: the names printed across all blocks are
      the input names, as a multiset. */
  lemma GroupingPreservesNames(deps: seq<Dependency>, displayAuthors: bool, blocks: seq<GroupBlock>)
    requires IsGroupedReport(deps, displayAuthors, blocks)
    ensures multiset(ReportedNames(blocks)) == multiset(Names(deps))
  {
    ReportedNamesOfGroups(deps, blocks);
    GroupingPartitionsRecords(deps, displayAuthors, blocks);
    NamesOfPermutation(GroupsConcat(deps, BlockLicenses(blocks)), deps);
  }

  /** The grouped report of a record sequence is determined: two reports of
      the same records with the same author setting are equal. */
  lemma GroupedReportUnique(deps: seq<Dependency>, displayAuthors: bool, b1: seq<GroupBlock>, b2: seq<GroupBlock>)
    requires IsGroupedReport(deps, displayAuthors, b1)
    requires IsGroupedReport(deps, displayAuthors, b2)
    ensures b1 == b2
  {
    AscendingUnique(BlockLicenses(b1), BlockLicenses(b2));
    assert |b1| == |BlockLicenses(b1)| == |BlockLicenses(b2)| == |b2|;
    forall m | 0 <= m < |b1| ensures b1[m] == b2[m] {
      assert b1[m].license == BlockLicenses(b1)[m] == BlockLicenses(b2)[m] == b2[m].license;
      if displayAuthors {
        AscendingUnique(b1[m].authors.value, b2[m].authors.value);
      }
    }
  }

  /** The line(s) `println!` writes for a block: `license (count): names`
      without authors, `license (count)\nnames\nby authors` with them. */
  function RenderBlock(b: GroupBlock): (s: string)
    ensures |s| >= |b.license| + 2 + |Decimal(b.count)|
    ensures s[..|b.license| + 2 + |Decimal(b.count)|] == b.license + " (" + Decimal(b.count)
  {
    match b.authors
    case None => b.license + " (" + Decimal(b.count) + "): " + Join(b.names, ", ")
    case Some(authors) =>
      b.license + " (" + Decimal(b.count) + ")\n" + Join(b.names, ", ") + "\nby " + Join(authors, ", ")
  }
}
