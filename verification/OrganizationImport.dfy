/**
 `seed_organizations`: an import file applied row by row to the organization tree,
 creating, updating and re-parenting, and refusing whatever would break the tree.

 The kind table and the reference catalogues are parameters. An organization is named
 by its code: codes are unique and never change.
 */
module OrganizationImport {
  import opened Wrappers
  import opened PythonText

  type Code = string

  type Kind = string

  type Id = nat

  /** Which kinds may be the parent of which; only `root` has none. */
  datatype Kinds = Kinds(root: Kind, allowed: map<Kind, set<Kind>>)
  {
    ghost predicate Valid() {
      root in allowed && forall k :: k in allowed ==> (allowed[k] == {} <==> k == root)
    }
  }

  datatype Catalogues = Catalogues(regions: map<Code, Id>, districts: map<Code, Id>)

  datatype Organization = Organization(
    kind: Kind, parent: Option<Code>, name: string, stir: Option<string>,
    region: Option<Id>, district: Option<Id>, requisites: string, gisEnabled: bool, active: bool)

  type Directory = map<Code, Organization>

  /** A key of a row: absent, JSON null, or a value. */
  datatype Field<T> = Absent | Null | Given(value: T)

  /** `name`, `requisites` and `gis_enabled` carry what their type check made of them. */
  datatype Checked<T> = Missing | Invalid | Valid(value: T)

  datatype Row = Row(
    code: Code, kind: Kind, parentCode: Option<Code>, name: Checked<string>, stir: Field<string>,
    region: Field<Code>, district: Field<Code>, requisites: Checked<string>, gisEnabled: Checked<bool>)

  datatype Reason =
    | UnknownKind | KindChange | UnknownParent | Cycle | MustBeRoot | RootExists | ParentRequired
    | WrongParentKind | ParentArchived | InvalidName | InvalidRequisites | InvalidGisEnabled | InvalidStir
    | UnknownRegion | UnknownDistrict

  // ---------------------------------------------------------------------------
  // One row
  // ---------------------------------------------------------------------------

  // The organizations right below `found` that are not in it.
  function Below(orgs: Directory, found: set<Code>): set<Code> {
    set c | c in orgs && c !in found && orgs[c].parent.Some? && orgs[c].parent.value in found
  }

  /** The recursive query of `is_descendant`: `found` and everything below it. */
  function Subtree(orgs: Directory, found: set<Code>): (all: set<Code>)
    ensures found <= all
    ensures forall c :: c in orgs && orgs[c].parent.Some? && orgs[c].parent.value in all ==> c in all
    decreases |orgs.Keys - found|
  {
    var below := Below(orgs, found);
    if below == {} then
      assert forall c :: c in orgs && orgs[c].parent.Some? && orgs[c].parent.value in found ==> c !in below;
      found
    else
      FewerLeft(orgs, found);
      Subtree(orgs, found + below)
  }

  lemma FewerLeft(orgs: Directory, found: set<Code>)
    requires Below(orgs, found) != {}
    ensures |orgs.Keys - (found + Below(orgs, found))| < |orgs.Keys - found|
  {
    var left := orgs.Keys - found;
    assert left == (orgs.Keys - (found + Below(orgs, found))) + Below(orgs, found);
  }

  predicate IsStir(s: string) {
    |s| == 9 && forall i :: 0 <= i < |s| ==> IsDigit(s[i])
  }

  predicate SomeOtherRoot(kinds: Kinds, orgs: Directory, code: Code) {
    exists c :: c in orgs && orgs[c].kind == kinds.root && c != code
  }

  // Kind, parent and root checks, in the source's order.
  function PlacementError(kinds: Kinds, orgs: Directory, row: Row): Option<Reason> {
    if row.kind !in kinds.allowed then Some(UnknownKind)
    else if row.code in orgs && orgs[row.code].kind != row.kind then Some(KindChange)
    else if row.parentCode.Some? && row.parentCode.value !in orgs then Some(UnknownParent)
    else if row.code in orgs && row.parentCode.Some? && row.parentCode.value in Subtree(orgs, {row.code}) then
      Some(Cycle)
    else if kinds.allowed[row.kind] == {} then
      if row.parentCode.Some? then Some(MustBeRoot)
      else if SomeOtherRoot(kinds, orgs, row.code) then Some(RootExists)
      else None
    else if row.parentCode.None? then Some(ParentRequired)
    else if orgs[row.parentCode.value].kind !in kinds.allowed[row.kind] then Some(WrongParentKind)
    else if !orgs[row.parentCode.value].active then Some(ParentArchived)
    else None
  }

  // `row.get("stir", default)`
  function StirOf(orgs: Directory, row: Row): Option<string> {
    match row.stir
    case Given(s) => Some(s)
    case Null => None
    case Absent => if row.code in orgs then orgs[row.code].stir else None
  }

  function ContentError(cats: Catalogues, orgs: Directory, row: Row): Option<Reason> {
    if !row.name.Valid? then Some(InvalidName)
    else if row.requisites.Invalid? then Some(InvalidRequisites)
    else if row.gisEnabled.Invalid? then Some(InvalidGisEnabled)
    else if StirOf(orgs, row).Some? && !IsStir(StirOf(orgs, row).value) then Some(InvalidStir)
    else if row.region.Given? && row.region.value !in cats.regions then Some(UnknownRegion)
    else if row.district.Given? && row.district.value !in cats.districts then Some(UnknownDistrict)
    else None
  }

  function Resolved(field: Field<Code>, ids: map<Code, Id>, old_: Option<Id>): Option<Id>
    requires field.Given? ==> field.value in ids
  {
    match field
    case Given(code) => Some(ids[code])
    case Null => None
    case Absent => old_
  }

  function Or<T>(field: Checked<T>, default: T): T {
    if field.Valid? then field.value else default
  }

  const BLANK := Organization("", None, "", None, None, None, "{}", true, true)

  // What a row makes of an organization: absent keys keep what is stored.
  function Written(cats: Catalogues, orgs: Directory, row: Row): Organization
    requires ContentError(cats, orgs, row).None?
  {
    var old_ := if row.code in orgs then orgs[row.code] else BLANK;
    Organization(row.kind, row.parentCode, row.name.value, StirOf(orgs, row),
                 Resolved(row.region, cats.regions, old_.region),
                 Resolved(row.district, cats.districts, old_.district),
                 Or(row.requisites, old_.requisites), Or(row.gisEnabled, old_.gisEnabled), old_.active)
  }

  function ApplyRow(kinds: Kinds, cats: Catalogues, orgs: Directory, row: Row): Result<Directory, Reason> {
    var misplaced := PlacementError(kinds, orgs, row);
    if misplaced.Some? then Err(misplaced.value)
    else
      var malformed := ContentError(cats, orgs, row);
      if malformed.Some? then Err(malformed.value) else Ok(orgs[row.code := Written(cats, orgs, row)])
  }

  function ApplyRows(kinds: Kinds, cats: Catalogues, orgs: Directory, rows: seq<Row>): Result<Directory, Reason> {
    if rows == [] then Ok(orgs)
    else
      var before := ApplyRows(kinds, cats, orgs, rows[..|rows| - 1]);
      if before.Err? then before else ApplyRow(kinds, cats, before.value, rows[|rows| - 1])
  }

  // ---------------------------------------------------------------------------
  // The tree
  // ---------------------------------------------------------------------------

  /** `c` is `n` steps below a root. */
  ghost predicate HasDepth(orgs: Directory, c: Code, n: nat)
    decreases n
  {
    && c in orgs
    && (if n == 0 then orgs[c].parent.None?
        else orgs[c].parent.Some? && HasDepth(orgs, orgs[c].parent.value, n - 1))
  }

  ghost predicate PlacedOk(kinds: Kinds, orgs: Directory, c: Code) {
    c in orgs ==>
      && orgs[c].kind in kinds.allowed
      && (orgs[c].kind == kinds.root <==> orgs[c].parent.None?)
      && (orgs[c].parent.Some? ==>
            && orgs[c].parent.value in orgs
            && orgs[orgs[c].parent.value].kind in kinds.allowed[orgs[c].kind])
      && exists n: nat :: HasDepth(orgs, c, n)
  }

  /** One root at most, and every organization reaches it through allowed kind pairs,
      without a cycle. */
  ghost predicate IsTree(kinds: Kinds, orgs: Directory) {
    && (forall c :: PlacedOk(kinds, orgs, c))
    && (forall a, b :: a in orgs && b in orgs && orgs[a].parent.None? && orgs[b].parent.None? ==> a == b)
  }

  // Outside the moved subtree nothing changes depth.
  lemma {:induction false} OutsideKeepsDepth(orgs: Directory, moved: Code, org: Organization, c: Code, n: nat)
    requires HasDepth(orgs, c, n) && c !in Subtree(orgs, {moved})
    ensures HasDepth(orgs[moved := org], c, n)
    decreases n
  {
    if n == 0 {
    } else {
      OutsideKeepsDepth(orgs, moved, org, orgs[c].parent.value, n - 1);
    }
  }

  lemma {:induction false} MoveKeepsReach(orgs: Directory, moved: Code, org: Organization, c: Code, n: nat)
    returns (m: nat)
    requires HasDepth(orgs, c, n)
    requires org.parent.Some? ==> org.parent.value !in Subtree(orgs, {moved})
                                  && exists k: nat :: HasDepth(orgs, org.parent.value, k)
    ensures HasDepth(orgs[moved := org], c, m)
    decreases n
  {
    if c == moved {
      if org.parent.None? {
        m := 0;
      } else {
        var k: nat :| HasDepth(orgs, org.parent.value, k);
        OutsideKeepsDepth(orgs, moved, org, org.parent.value, k);
        m := k + 1;
      }
    } else if n == 0 {
      m := 0;
    } else {
      var above := MoveKeepsReach(orgs, moved, org, orgs[c].parent.value, n - 1);
      m := above + 1;
    }
  }

  lemma {:induction false} AddKeepsDepth(orgs: Directory, added: Code, org: Organization, c: Code, n: nat)
    requires HasDepth(orgs, c, n) && added !in orgs
    ensures HasDepth(orgs[added := org], c, n)
    decreases n
  {
    if n == 0 {
    } else {
      AddKeepsDepth(orgs, added, org, orgs[c].parent.value, n - 1);
    }
  }

  lemma DepthAfterRow(kinds: Kinds, cats: Catalogues, orgs: Directory, row: Row, c: Code)
    requires kinds.Valid() && IsTree(kinds, orgs) && ApplyRow(kinds, cats, orgs, row).Ok?
    requires c in ApplyRow(kinds, cats, orgs, row).value
    ensures exists n: nat :: HasDepth(ApplyRow(kinds, cats, orgs, row).value, c, n)
  {
    var org := Written(cats, orgs, row);
    var parent := row.parentCode;
    if parent.Some? { assert PlacedOk(kinds, orgs, parent.value); }
    if row.code in orgs {
      assert PlacedOk(kinds, orgs, c);
      var n: nat :| HasDepth(orgs, c, n);
      var m := MoveKeepsReach(orgs, row.code, org, c, n);
    } else if c == row.code {
      if parent.None? {
        assert HasDepth(orgs[row.code := org], c, 0);
      } else {
        var n: nat :| HasDepth(orgs, parent.value, n);
        AddKeepsDepth(orgs, row.code, org, parent.value, n);
        assert HasDepth(orgs[row.code := org], c, n + 1);
      }
    } else {
      assert PlacedOk(kinds, orgs, c);
      var n: nat :| HasDepth(orgs, c, n);
      AddKeepsDepth(orgs, row.code, org, c, n);
    }
  }

  lemma RowKeepsTree(kinds: Kinds, cats: Catalogues, orgs: Directory, row: Row)
    requires kinds.Valid() && IsTree(kinds, orgs) && ApplyRow(kinds, cats, orgs, row).Ok?
    ensures IsTree(kinds, ApplyRow(kinds, cats, orgs, row).value)
  {
    var after := ApplyRow(kinds, cats, orgs, row).value;
    forall c ensures PlacedOk(kinds, after, c)
    {
      assert PlacedOk(kinds, orgs, c);
      if c in after { DepthAfterRow(kinds, cats, orgs, row, c); }
    }
    forall a, b | a in after && b in after && after[a].parent.None? && after[b].parent.None? ensures a == b
    {
      assert PlacedOk(kinds, orgs, a) && PlacedOk(kinds, orgs, b);
    }
  }

  /** Every accepted file leaves a tree. */
  lemma {:induction false} ImportKeepsTree(kinds: Kinds, cats: Catalogues, orgs: Directory, rows: seq<Row>)
    requires kinds.Valid() && IsTree(kinds, orgs) && ApplyRows(kinds, cats, orgs, rows).Ok?
    ensures IsTree(kinds, ApplyRows(kinds, cats, orgs, rows).value)
  {
    if rows == [] {
    } else {
      var n := |rows| - 1;
      ImportKeepsTree(kinds, cats, orgs, rows[..n]);
      RowKeepsTree(kinds, cats, ApplyRows(kinds, cats, orgs, rows[..n]).value, rows[n]);
    }
  }

  /** In a tree every organization has a finite path of allowed pairs up to the one root. */
  lemma {:induction false} PathToRoot(kinds: Kinds, orgs: Directory, c: Code, n: nat) returns (path: seq<Code>)
    requires IsTree(kinds, orgs) && HasDepth(orgs, c, n)
    ensures |path| == n + 1 && path[0] == c && forall p :: p in path ==> p in orgs
    ensures forall i :: 0 <= i < n ==>
                          && orgs[path[i]].parent == Some(path[i + 1]) && orgs[path[i]].kind in kinds.allowed
                          && orgs[path[i + 1]].kind in kinds.allowed[orgs[path[i]].kind]
    ensures orgs[path[n]].kind == kinds.root
    decreases n
  {
    assert PlacedOk(kinds, orgs, c);
    if n == 0 {
      path := [c];
    } else {
      var above := PathToRoot(kinds, orgs, orgs[c].parent.value, n - 1);
      path := [c] + above;
    }
  }

  // ---------------------------------------------------------------------------
  // Importing the same file again
  // ---------------------------------------------------------------------------

  // Everything below an organization is at least as deep.
  lemma {:induction false} SubtreeIsDeep(orgs: Directory, found: set<Code>, depth: nat)
    requires forall c, n: nat :: c in found && HasDepth(orgs, c, n) ==> n >= depth
    ensures forall c, n: nat :: c in Subtree(orgs, found) && HasDepth(orgs, c, n) ==> n >= depth
    decreases |orgs.Keys - found|
  {
    var below := Below(orgs, found);
    if below != {} {
      FewerLeft(orgs, found);
      forall c, n: nat | c in found + below && HasDepth(orgs, c, n) ensures n >= depth
      {
        if c !in found {
          assert n > 0 && HasDepth(orgs, orgs[c].parent.value, n - 1);
        }
      }
      SubtreeIsDeep(orgs, found + below, depth);
    }
  }

  lemma {:induction false} DepthIsUnique(orgs: Directory, c: Code, m: nat, n: nat)
    requires HasDepth(orgs, c, m) && HasDepth(orgs, c, n)
    ensures m == n
    decreases m
  {
    if m == 0 {
    } else {
      DepthIsUnique(orgs, orgs[c].parent.value, m - 1, n - 1);
    }
  }

  /** In a tree, an organization's parent is not below it: the cycle check passes. */
  lemma ParentIsNotBelow(kinds: Kinds, orgs: Directory, c: Code)
    requires IsTree(kinds, orgs) && c in orgs && orgs[c].parent.Some?
    ensures orgs[c].parent.value !in Subtree(orgs, {c})
  {
    assert PlacedOk(kinds, orgs, c);
    var n: nat :| HasDepth(orgs, c, n);
    forall m: nat | HasDepth(orgs, c, m) ensures m >= n { DepthIsUnique(orgs, c, m, n); }
    SubtreeIsDeep(orgs, {c}, n);
    assert HasDepth(orgs, orgs[c].parent.value, n - 1);
  }

  /** The stored organization is what this row writes. */
  ghost predicate Settled(kinds: Kinds, cats: Catalogues, orgs: Directory, row: Row) {
    && row.code in orgs && row.kind in kinds.allowed && orgs[row.code].kind == row.kind
    && orgs[row.code].parent == row.parentCode
    && ContentError(cats, orgs, row).None? && Written(cats, orgs, row) == orgs[row.code]
    && (row.parentCode.Some? ==>
          row.parentCode.value in orgs && orgs[row.parentCode.value].active)
  }

  lemma RowSettles(kinds: Kinds, cats: Catalogues, orgs: Directory, row: Row)
    requires ApplyRow(kinds, cats, orgs, row).Ok?
    requires kinds.Valid() && IsTree(kinds, orgs)
    ensures Settled(kinds, cats, ApplyRow(kinds, cats, orgs, row).value, row)
  {
    if row.code in orgs && row.parentCode.Some? {
      assert row.code in Subtree(orgs, {row.code});
    }
  }

  lemma OtherRowsKeepSettled(kinds: Kinds, cats: Catalogues, orgs: Directory, row: Row, settled: Row)
    requires Settled(kinds, cats, orgs, settled) && ApplyRow(kinds, cats, orgs, row).Ok? && row.code != settled.code
    ensures Settled(kinds, cats, ApplyRow(kinds, cats, orgs, row).value, settled)
  {
  }

  lemma SettledRowIsNoOp(kinds: Kinds, cats: Catalogues, orgs: Directory, row: Row)
    requires kinds.Valid() && IsTree(kinds, orgs) && Settled(kinds, cats, orgs, row)
    ensures ApplyRow(kinds, cats, orgs, row) == Ok(orgs)
  {
    assert PlacedOk(kinds, orgs, row.code);
    if row.parentCode.Some? {
      ParentIsNotBelow(kinds, orgs, row.code);
    } else {
      forall c | c in orgs && orgs[c].kind == kinds.root ensures c == row.code
      {
        OneRoot(kinds, orgs, c, row.code);
      }
    }
    assert orgs[row.code := orgs[row.code]] == orgs;
  }

  ghost predicate DistinctCodes(rows: seq<Row>) {
    forall i, j :: 0 <= i < j < |rows| ==> rows[i].code != rows[j].code
  }

  lemma {:induction false} ImportSettlesAll(kinds: Kinds, cats: Catalogues, orgs: Directory, rows: seq<Row>)
    requires kinds.Valid() && IsTree(kinds, orgs) && DistinctCodes(rows)
    requires ApplyRows(kinds, cats, orgs, rows).Ok?
    ensures forall i :: 0 <= i < |rows| ==> Settled(kinds, cats, ApplyRows(kinds, cats, orgs, rows).value, rows[i])
  {
    if rows == [] {
    } else {
      var n := |rows| - 1;
      var before := ApplyRows(kinds, cats, orgs, rows[..n]).value;
      ImportSettlesAll(kinds, cats, orgs, rows[..n]);
      ImportKeepsTree(kinds, cats, orgs, rows[..n]);
      RowSettles(kinds, cats, before, rows[n]);
      EarlierRowsStaySettled(kinds, cats, before, rows, rows[..n]);
    }
  }

  lemma EarlierRowsStaySettled(kinds: Kinds, cats: Catalogues, before: Directory, rows: seq<Row>, earlier: seq<Row>)
    requires rows != [] && DistinctCodes(rows) && ApplyRow(kinds, cats, before, rows[|rows| - 1]).Ok?
    requires earlier == rows[..|rows| - 1]
    requires forall i :: 0 <= i < |earlier| ==> Settled(kinds, cats, before, earlier[i])
    ensures forall i :: 0 <= i < |earlier| ==>
                          Settled(kinds, cats, ApplyRow(kinds, cats, before, rows[|rows| - 1]).value, rows[i])
  {
    var last := rows[|rows| - 1];
    forall i | 0 <= i < |earlier| ensures Settled(kinds, cats, ApplyRow(kinds, cats, before, last).value, rows[i])
    {
      assert earlier[i] == rows[i];
      OtherRowsKeepSettled(kinds, cats, before, last, rows[i]);
    }
  }

  lemma {:induction false} SettledFileIsNoOp(kinds: Kinds, cats: Catalogues, orgs: Directory, rows: seq<Row>)
    requires kinds.Valid() && IsTree(kinds, orgs)
    requires forall i :: 0 <= i < |rows| ==> Settled(kinds, cats, orgs, rows[i])
    ensures ApplyRows(kinds, cats, orgs, rows) == Ok(orgs)
  {
    if rows == [] {
    } else {
      SettledFileIsNoOp(kinds, cats, orgs, rows[..|rows| - 1]);
      SettledRowIsNoOp(kinds, cats, orgs, rows[|rows| - 1]);
    }
  }

  /** Re-importing an accepted file with distinct codes is accepted and changes nothing. */
  lemma ReimportChangesNothing(kinds: Kinds, cats: Catalogues, orgs: Directory, rows: seq<Row>)
    requires kinds.Valid() && IsTree(kinds, orgs) && DistinctCodes(rows)
    requires ApplyRows(kinds, cats, orgs, rows).Ok?
    ensures var after := ApplyRows(kinds, cats, orgs, rows).value;
            ApplyRows(kinds, cats, after, rows) == Ok(after)
  {
    ImportSettlesAll(kinds, cats, orgs, rows);
    ImportKeepsTree(kinds, cats, orgs, rows);
    SettledFileIsNoOp(kinds, cats, ApplyRows(kinds, cats, orgs, rows).value, rows);
  }

  function Codes(rows: seq<Row>): set<Code> {
    set row | row in rows :: row.code
  }

  lemma OneCodeMore(rows: seq<Row>)
    requires rows != []
    ensures Codes(rows) == Codes(rows[..|rows| - 1]) + {rows[|rows| - 1].code}
  {
    assert rows == rows[..|rows| - 1] + [rows[|rows| - 1]];
  }

  // `after` has the organizations of `orgs`, of the same kind and as active, and those of `codes`.
  ghost predicate OnlyAdds(orgs: Directory, after: Directory, codes: set<Code>) {
    && after.Keys == orgs.Keys + codes
    && forall c :: c in orgs ==> after[c].kind == orgs[c].kind && after[c].active == orgs[c].active
  }

  lemma RowOnlyAdds(kinds: Kinds, cats: Catalogues, orgs: Directory, row: Row)
    requires ApplyRow(kinds, cats, orgs, row).Ok?
    ensures OnlyAdds(orgs, ApplyRow(kinds, cats, orgs, row).value, {row.code})
  {
  }

  /** An accepted file deletes no organization, and changes no kind and no archival. */
  lemma {:induction false} ImportOnlyAdds(kinds: Kinds, cats: Catalogues, orgs: Directory, rows: seq<Row>)
    requires ApplyRows(kinds, cats, orgs, rows).Ok?
    ensures OnlyAdds(orgs, ApplyRows(kinds, cats, orgs, rows).value, Codes(rows))
  {
    if rows == [] {
    } else {
      var n := |rows| - 1;
      ImportOnlyAdds(kinds, cats, orgs, rows[..n]);
      RowOnlyAdds(kinds, cats, ApplyRows(kinds, cats, orgs, rows[..n]).value, rows[n]);
      OneCodeMore(rows);
    }
  }

  // ---------------------------------------------------------------------------
  // What an accepted file writes
  // ---------------------------------------------------------------------------

  // A key that may be null: absent it keeps, null it clears.
  predicate Keeps<T(==)>(field: Field<T>, stored: Option<T>, now: Option<T>) {
    match field
    case Absent => now == stored
    case Null => now == None
    case Given(value) => now == Some(value)
  }

  predicate KeepsEntry(field: Field<Code>, ids: map<Code, Id>, stored: Option<Id>, now: Option<Id>) {
    match field
    case Absent => now == stored
    case Null => now == None
    case Given(code) => code in ids && now == Some(ids[code])
  }

  /** The organization a row leaves. `stored` is what was there, if anything. */
  predicate Leaves(cats: Catalogues, stored: Option<Organization>, row: Row, now: Organization) {
    && now.kind == row.kind && now.parent == row.parentCode && row.name == Checked.Valid(now.name)
    && Keeps(row.stir, if stored.Some? then stored.value.stir else None, now.stir)
    && KeepsEntry(row.region, cats.regions, if stored.Some? then stored.value.region else None, now.region)
    && KeepsEntry(row.district, cats.districts, if stored.Some? then stored.value.district else None, now.district)
    && (match row.requisites
        case Missing => now.requisites == if stored.Some? then stored.value.requisites else "{}"
        case Valid(value) => now.requisites == value
        case Invalid => false)
    && (match row.gisEnabled
        case Missing => now.gisEnabled == if stored.Some? then stored.value.gisEnabled else true
        case Valid(value) => now.gisEnabled == value
        case Invalid => false)
    && now.active == if stored.Some? then stored.value.active else true
  }

  function Stored(orgs: Directory, code: Code): Option<Organization> {
    if code in orgs then Some(orgs[code]) else None
  }

  /** An accepted file with distinct codes leaves every organization it does not name as it was,
      and of every row what the row says: an absent key keeps what was stored before the file, or
      the starting value of a new organization; null clears; a value is written. */
  lemma {:induction false} ImportWritesExactly(kinds: Kinds, cats: Catalogues, orgs: Directory, rows: seq<Row>)
    requires ApplyRows(kinds, cats, orgs, rows).Ok? && DistinctCodes(rows)
    ensures var after := ApplyRows(kinds, cats, orgs, rows).value;
            && (forall c :: c !in Codes(rows) ==> Stored(after, c) == Stored(orgs, c))
            && forall i :: 0 <= i < |rows| ==>
                             && rows[i].code in after
                             && Leaves(cats, Stored(orgs, rows[i].code), rows[i], after[rows[i].code])
  {
    if rows != [] {
      var n := |rows| - 1;
      var before := ApplyRows(kinds, cats, orgs, rows[..n]).value;
      var after := ApplyRows(kinds, cats, orgs, rows).value;
      ImportWritesExactly(kinds, cats, orgs, rows[..n]);
      OneCodeMore(rows);
      assert rows[n].code !in Codes(rows[..n]);
      assert Stored(before, rows[n].code) == Stored(orgs, rows[n].code);
      RowLeaves(kinds, cats, before, rows[n]);
      EarlierRowsStay(cats, orgs, rows, before, after);
    }
  }

  // The last row, having a code of its own, leaves what the earlier ones wrote.
  lemma EarlierRowsStay(cats: Catalogues, orgs: Directory, rows: seq<Row>, before: Directory, after: Directory)
    requires rows != [] && DistinctCodes(rows)
    requires var n := |rows| - 1;
             && (forall i :: 0 <= i < n ==> rows[..n][i].code in before
                                            && Leaves(cats, Stored(orgs, rows[..n][i].code), rows[..n][i],
                                                      before[rows[..n][i].code]))
             && rows[n].code in after && after == before[rows[n].code := after[rows[n].code]]
             && Leaves(cats, Stored(orgs, rows[n].code), rows[n], after[rows[n].code])
    ensures forall i :: 0 <= i < |rows| ==>
                          && rows[i].code in after
                          && Leaves(cats, Stored(orgs, rows[i].code), rows[i], after[rows[i].code])
  {
    var n := |rows| - 1;
    forall i | 0 <= i < |rows|
      ensures rows[i].code in after
      ensures Leaves(cats, Stored(orgs, rows[i].code), rows[i], after[rows[i].code])
    {
      if i < n { assert rows[..n][i] == rows[i]; }
    }
  }

  lemma RowLeaves(kinds: Kinds, cats: Catalogues, orgs: Directory, row: Row)
    requires ApplyRow(kinds, cats, orgs, row).Ok?
    ensures var after := ApplyRow(kinds, cats, orgs, row).value;
            && row.code in after && after == orgs[row.code := after[row.code]]
            && Leaves(cats, Stored(orgs, row.code), row, after[row.code])
  {
  }

  /** `c` has an organization of `found` `n` steps above it. */
  ghost predicate Climbs(orgs: Directory, c: Code, n: nat, found: set<Code>)
    decreases n
  {
    if n == 0 then c in found
    else c in orgs && orgs[c].parent.Some? && Climbs(orgs, orgs[c].parent.value, n - 1, found)
  }

  lemma {:induction false} ClimbersAreInSubtree(orgs: Directory, c: Code, n: nat, found: set<Code>)
    requires Climbs(orgs, c, n, found)
    ensures c in Subtree(orgs, found)
    decreases n
  {
    if n > 0 { ClimbersAreInSubtree(orgs, orgs[c].parent.value, n - 1, found); }
  }

  lemma {:induction false} ClimbThrough(orgs: Directory, c: Code, n: nat, found: set<Code>) returns (m: nat)
    requires Climbs(orgs, c, n, found + Below(orgs, found))
    ensures Climbs(orgs, c, m, found)
    decreases n
  {
    if n > 0 {
      var above := ClimbThrough(orgs, orgs[c].parent.value, n - 1, found);
      m := above + 1;
    } else if c in found {
      m := 0;
    } else {
      assert Climbs(orgs, orgs[c].parent.value, 0, found);
      m := 1;
    }
  }

  lemma {:induction false} SubtreeClimbs(orgs: Directory, c: Code, found: set<Code>) returns (n: nat)
    requires c in Subtree(orgs, found)
    ensures Climbs(orgs, c, n, found)
    decreases |orgs.Keys - found|
  {
    if Below(orgs, found) == {} {
      n := 0;
    } else {
      FewerLeft(orgs, found);
      var m := SubtreeClimbs(orgs, c, found + Below(orgs, found));
      n := ClimbThrough(orgs, c, m, found);
    }
  }

  // `c` is `ancestor` or has it above it, at any distance.
  ghost predicate IsUnder(orgs: Directory, c: Code, ancestor: Code) {
    exists n: nat :: Climbs(orgs, c, n, {ancestor})
  }

  lemma SubtreeIsUnder(orgs: Directory, c: Code, ancestor: Code)
    ensures c in Subtree(orgs, {ancestor}) <==> IsUnder(orgs, c, ancestor)
  {
    if c in Subtree(orgs, {ancestor}) {
      var n := SubtreeClimbs(orgs, c, {ancestor});
    }
    if IsUnder(orgs, c, ancestor) {
      var n: nat :| Climbs(orgs, c, n, {ancestor});
      ClimbersAreInSubtree(orgs, c, n, {ancestor});
    }
  }

  /** In any directory, a row of known and unchanged kind is refused as a cycle exactly when the
      organization it names as parent has the row's own organization above it, at any distance. */
  lemma CycleIsExact(kinds: Kinds, cats: Catalogues, orgs: Directory, row: Row)
    ensures ApplyRow(kinds, cats, orgs, row) == Err(Cycle) <==>
            && row.kind in kinds.allowed && row.code in orgs && orgs[row.code].kind == row.kind
            && row.parentCode.Some? && row.parentCode.value in orgs
            && IsUnder(orgs, row.parentCode.value, row.code)
  {
    if row.parentCode.Some? { SubtreeIsUnder(orgs, row.parentCode.value, row.code); }
  }

  // Moving an organization leaves its subtree the same.
  lemma {:induction false} MoveKeepsSubtree(orgs: Directory, moved: Code, org: Organization, found: set<Code>)
    requires moved in orgs && moved in found
    ensures Subtree(orgs[moved := org], found) == Subtree(orgs, found)
    decreases |orgs.Keys - found|
  {
    var candidate := orgs[moved := org];
    assert candidate.Keys == orgs.Keys;
    assert Below(candidate, found) == Below(orgs, found);
    if Below(orgs, found) != {} {
      FewerLeft(orgs, found);
      MoveKeepsSubtree(orgs, moved, org, found + Below(orgs, found));
    }
  }

  /** Given a tree, a row is accepted exactly when its kind is known and not changed, its parent, if
      it names one, is stored and active, its contents are well formed, and what it leaves is a
      tree: no other condition refuses a row, and none of these lets a broken one through. */
  lemma AcceptedExactly(kinds: Kinds, cats: Catalogues, orgs: Directory, row: Row, org: Organization)
    requires kinds.Valid() && IsTree(kinds, orgs)
    ensures ApplyRow(kinds, cats, orgs, row) == Ok(orgs[row.code := org]) <==>
            && Leaves(cats, Stored(orgs, row.code), row, org)
            && (org.stir.Some? ==> |org.stir.value| == 9 && forall i :: 0 <= i < 9 ==> '0' <= org.stir.value[i] <= '9')
            && (row.code in orgs ==> orgs[row.code].kind == row.kind)
            && (row.parentCode.Some? ==> row.parentCode.value in orgs && orgs[row.parentCode.value].active)
            && IsTree(kinds, orgs[row.code := org])
  {
    var after := orgs[row.code := org];
    if ApplyRow(kinds, cats, orgs, row) == Ok(after) {
      RowLeaves(kinds, cats, orgs, row);
      RowKeepsTree(kinds, cats, orgs, row);
      assert after[row.code] == org;
    }
    if && Leaves(cats, Stored(orgs, row.code), row, org)
       && (org.stir.Some? ==> IsStir(org.stir.value))
       && (row.code in orgs ==> orgs[row.code].kind == row.kind)
       && (row.parentCode.Some? ==> row.parentCode.value in orgs && orgs[row.parentCode.value].active)
       && IsTree(kinds, after) {
      WellPlaced(kinds, orgs, row, org);
      assert Written(cats, orgs, row) == org;
    }
  }

  lemma WellPlaced(kinds: Kinds, orgs: Directory, row: Row, org: Organization)
    requires kinds.Valid() && IsTree(kinds, orgs) && IsTree(kinds, orgs[row.code := org])
    requires org.kind == row.kind && org.parent == row.parentCode
    requires row.code in orgs ==> orgs[row.code].kind == row.kind
    requires row.parentCode.Some? ==> row.parentCode.value in orgs && orgs[row.parentCode.value].active
    ensures PlacementError(kinds, orgs, row).None?
  {
    var after := orgs[row.code := org];
    assert PlacedOk(kinds, after, row.code);
    if row.parentCode.Some? {
      ParentIsNotBelow(kinds, after, row.code);
      if row.code in orgs { MoveKeepsSubtree(orgs, row.code, org, {row.code}); }
      assert row.parentCode.value != row.code;
    } else {
      forall c | c in orgs && orgs[c].kind == kinds.root ensures c == row.code
      {
        OneRoot(kinds, after, c, row.code);
      }
    }
  }

  lemma OneRoot(kinds: Kinds, orgs: Directory, a: Code, b: Code)
    requires IsTree(kinds, orgs) && a in orgs && b in orgs
    requires orgs[a].kind == kinds.root && orgs[b].kind == kinds.root
    ensures a == b
  {
    assert PlacedOk(kinds, orgs, a) && PlacedOk(kinds, orgs, b);
  }

  // ---------------------------------------------------------------------------
  // The import as it runs
  // ---------------------------------------------------------------------------

  class Database {
    var orgs: Directory

    /** The rows in file order, flushed one by one; the caller commits only a file that was
        accepted whole. */
    method SeedOrganizations(kinds: Kinds, cats: Catalogues, rows: seq<Row>)
      returns (result: Result<(nat, nat), Reason>)
      modifies this
      ensures ApplyRows(kinds, cats, old(orgs), rows) ==
              if result.Ok? then Ok(orgs) else Err(result.error)
      ensures result.Err? ==> orgs == old(orgs)
      ensures result.Ok? ==>
                var (created, updated) := result.value;
                created + updated == |rows| && created == |orgs.Keys| - |old(orgs.Keys)|
    {
      var session := orgs;
      var created, updated := 0, 0;
      for i := 0 to |rows|
        invariant orgs == old(orgs)
        invariant ApplyRows(kinds, cats, orgs, rows[..i]) == Ok(session)
        invariant created + updated == i && created == |session.Keys| - |orgs.Keys|
      {
        var row := rows[i];
        assert rows[..i + 1][..i] == rows[..i];
        var applied := ApplyRow(kinds, cats, session, row);
        if applied.Err? {
          RejectedRowRejectsFile(kinds, cats, orgs, rows, i + 1);
          return Err(applied.error);
        }
        RowKeys(kinds, cats, session, row);
        if row.code in session {
          updated := updated + 1;
        } else {
          created := created + 1;
        }
        session := applied.value;
      }
      assert rows[..|rows|] == rows;
      orgs := session;
      return Ok((created, updated));
    }
  }

  lemma RowKeys(kinds: Kinds, cats: Catalogues, orgs: Directory, row: Row)
    requires ApplyRow(kinds, cats, orgs, row).Ok?
    ensures |ApplyRow(kinds, cats, orgs, row).value.Keys| == |orgs.Keys| + if row.code in orgs then 0 else 1
  {
    assert ApplyRow(kinds, cats, orgs, row).value.Keys == orgs.Keys + {row.code};
  }

  lemma {:induction false} RejectedRowRejectsFile(kinds: Kinds, cats: Catalogues, orgs: Directory,
                                                  rows: seq<Row>, n: nat)
    requires n <= |rows| && ApplyRows(kinds, cats, orgs, rows[..n]).Err?
    ensures ApplyRows(kinds, cats, orgs, rows) == ApplyRows(kinds, cats, orgs, rows[..n])
    decreases |rows| - n
  {
    if n < |rows| {
      assert rows[..n + 1][..n] == rows[..n];
      RejectedRowRejectsFile(kinds, cats, orgs, rows, n + 1);
    } else {
      assert rows[..n] == rows;
    }
  }
}
