/**
 * The `BTreeMap<String, Vec<Dependency>>` that groups records by license,
 * represented by its in-order entries: a sequence of groups whose keys are
 * strictly ascending. `Entry` is `table.entry(license)` followed by
 * `insert(vec![dependency])` on a vacant entry or `get_mut().push(dependency)`
 * on an occupied one.
 */
module LicenseTable {
  import opened Dependencies
  import opened LexOrder

  /** One map entry: a license and its records in insertion order. */
  datatype Group = Group(license: string, members: seq<Dependency>)

  type Table = seq<Group>

  /** The ordered-map invariant: keys strictly ascending, hence distinct. */
  predicate KeysAscending(t: Table) {
    forall i, j :: 0 <= i < j < |t| ==> LexLess(t[i].license, t[j].license)
  }

  function Keys(t: Table): set<string> {
    set g | g in t :: g.license
  }

  /** The records stored under `key`; none when the key is absent. */
  function Lookup(t: Table, key: string): (members: seq<Dependency>)
    ensures key !in Keys(t) ==> members == []
    decreases |t|
  {
    if t == [] then []
    else if t[0].license == key then t[0].members
    else
      assert Keys(t[1..]) <= Keys(t);
      Lookup(t[1..], key)
  }

  lemma KeysCons(t: Table)
    requires t != []
    ensures Keys(t) == {t[0].license} + Keys(t[1..])
  {
    assert t == [t[0]] + t[1..];
  }

  lemma PrependGroup(g: Group, t: Table)
    requires KeysAscending(t)
    requires forall k :: k in Keys(t) ==> LexLess(g.license, k)
    ensures KeysAscending([g] + t)
  {
    forall i, j | 0 <= i < j < |[g] + t|
      ensures LexLess(([g] + t)[i].license, ([g] + t)[j].license)
    {
      if i == 0 {
        assert ([g] + t)[j] == t[j - 1] && t[j - 1] in t;
      }
    }
  }

  lemma BelowFirstKey(t: Table, key: string)
    requires KeysAscending(t) && t != [] && LexLess(key, t[0].license)
    ensures forall k :: k in Keys(t) ==> LexLess(key, k)
    ensures key !in Keys(t)
  {
    forall k | k in Keys(t) ensures LexLess(key, k) {
      var g :| g in t && g.license == k;
      var i :| 0 <= i < |t| && t[i] == g;
      if i > 0 {
        LexLessTransitive(key, t[0].license, k);
      }
    }
    LexLessIrreflexive(key);
  }

  /** What inserting `d` under `key` into `t` yields: the ordered-map
      invariant is kept, `key` becomes (or stays) a key, `d` is appended to
      the records under `key` (a new singleton when `key` was vacant), every
      other key keeps its records, and the table grows by one entry exactly
      when `key` was vacant. */
  ghost predicate IsEntry(t: Table, key: string, d: Dependency, r: Table) {
    && KeysAscending(r)
    && Keys(r) == Keys(t) + {key}
    && |r| == (if key in Keys(t) then |t| else |t| + 1)
    && forall k :: Lookup(r, k) == if k == key then Lookup(t, k) + [d] else Lookup(t, k)
  }

  /** `table.entry(key)` then insert-or-push of `d`. */
  function Entry(t: Table, key: string, d: Dependency): (r: Table)
    requires KeysAscending(t)
    ensures KeysAscending(r)
    ensures Keys(r) == Keys(t) + {key}
    ensures |r| == if key in Keys(t) then |t| else |t| + 1
    ensures forall k :: Lookup(r, k) == if k == key then Lookup(t, k) + [d] else Lookup(t, k)
    decreases |t|
  {
    if t == [] then
      [Group(key, [d])]
    else if t[0].license == key then
      EntryOccupied(t, key, d);
      [Group(key, t[0].members + [d])] + t[1..]
    else if LexLess(key, t[0].license) then
      EntryVacantHere(t, key, d);
      [Group(key, [d])] + t
    else
      var rest := Entry(t[1..], key, d);
      EntryFurther(t, key, d, rest);
      [t[0]] + rest
  }

  /** The first entry holds `key`: `d` is pushed onto its records. */
  lemma EntryOccupied(t: Table, key: string, d: Dependency)
    requires KeysAscending(t) && t != [] && t[0].license == key
    ensures IsEntry(t, key, d, [Group(key, t[0].members + [d])] + t[1..])
  {
    var r := [Group(key, t[0].members + [d])] + t[1..];
    assert r[1..] == t[1..];
    KeysCons(t);
    KeysCons(r);
  }

  /** `key` sorts before the first entry: a new singleton entry goes first. */
  lemma EntryVacantHere(t: Table, key: string, d: Dependency)
    requires KeysAscending(t) && t != [] && LexLess(key, t[0].license)
    ensures IsEntry(t, key, d, [Group(key, [d])] + t)
  {
    BelowFirstKey(t, key);
    PrependGroup(Group(key, [d]), t);
    var r := [Group(key, [d])] + t;
    assert r[1..] == t;
    KeysCons(r);
  }

  /** `key` sorts after the first entry: the first entry stays, `key` goes
      into the rest. */
  lemma EntryFurther(t: Table, key: string, d: Dependency, rest: Table)
    requires KeysAscending(t) && t != [] && t[0].license != key && !LexLess(key, t[0].license)
    requires IsEntry(t[1..], key, d, rest)
    ensures IsEntry(t, key, d, [t[0]] + rest)
  {
    LexLessTotal(key, t[0].license);
    KeysCons(t);
    forall k | k in Keys(t[1..]) ensures LexLess(t[0].license, k) {
      var g :| g in t[1..] && g.license == k;
      var i :| 0 <= i < |t[1..]| && t[1..][i] == g;
      assert t[i + 1] == g;
    }
    PrependGroup(t[0], rest);
    var r := [t[0]] + rest;
    assert r[1..] == rest;
    KeysCons(r);
  }

  /** In an ordered table, looking up the key of entry `i` finds entry `i`'s records. */
  lemma {:induction false} LookupAt(t: Table, i: nat)
    requires KeysAscending(t) && i < |t|
    ensures Lookup(t, t[i].license) == t[i].members
    decreases i
  {
    if i > 0 {
      LexLessIrreflexive(t[i].license);
      assert t[1..][i - 1] == t[i];
      LookupAt(t[1..], i - 1);
    }
  }
}
