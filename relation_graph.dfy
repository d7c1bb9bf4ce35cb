/**
 * The relation graph builder of `SchemaDetails` (src/pgts.ts): per relation it keys
 * columns and indices, groups the foreign-key columns by constraint, then, in a
 * whole-schema pass, pushes one forward and one backward `Reference` per foreign key
 * and finally renames the references whose `toTable.distantName` collide.
 */
module RelationGraph {
  import opened Wrappers
  import opened Strings
  import opened OrderedMaps

  // ---------------------------------------------------------------------------
  // the extracted schema

  /** `references[0]` of an extracted column: the foreign key it takes part in. */
  datatype ColumnReference = ColumnReference(name: string, schemaName: string, tableName: string, columnName: string)

  datatype Column = Column(name: string, isNullable: bool, references: seq<ColumnReference>)

  datatype Index = Index(name: string, columns: seq<string>, isUnique: bool)

  datatype RelationKind = CompositeType | Table | View

  /** A composite type, table or view, with the schema it lives in. */
  datatype RelationInput = RelationInput(
    schemaName: string, name: string, kind: RelationKind, columns: seq<Column>, indices: seq<Index>)

  /** A foreign key, grouped from the columns that share its constraint name. */
  datatype ForeignKey = ForeignKey(
    qualifiedDestination: string, name: string,
    strFrom: string, from: seq<string>, strTo: string, to: seq<string>)

  /** One entry of `relations`: the maps `SchemaDetails` derives per relation. */
  datatype Relation = Relation(
    schemaName: string, name: string, tableQualifiedName: string,
    columns: seq<(string, Column)>,
    indicesByColumns: seq<(string, Index)>,
    foreignKeys: seq<(string, ForeignKey)>)

  datatype Reference = Reference(
    pgtsName: string, distantName: string, toTable: string, toTableSimpleName: string,
    fromColumnsStr: string, toColumnsStr: string, toColumns: seq<string>, fromColumns: seq<string>,
    toIsUnique: bool, fromIsUnique: bool, fromIsNullable: bool)

  // ---------------------------------------------------------------------------
  // per-relation maps

  /** A column set as a map key: the names sorted and joined by ",". */
  function ColumnKey(names: seq<string>): string
  {
    Join(Sort(names), ",")
  }

  function IndexKey(i: Index): string
  {
    ColumnKey(i.columns)
  }

  function WithReferences(cs: seq<Column>): (r: seq<Column>)
    ensures forall c :: c in r ==> c in cs && |c.references| > 0
  {
    if |cs| == 0 then []
    else (if |cs[0].references| > 0 then [cs[0]] else []) + WithReferences(cs[1..])
  }

  /** The constraint a referencing column is grouped by. */
  function ConstraintName(c: Column): string
  {
    if |c.references| > 0 then c.references[0].name else ""
  }

  function Names(cs: seq<Column>): seq<string>
  {
    seq(|cs|, i requires 0 <= i < |cs| => cs[i].name)
  }

  function TargetNames(cs: seq<Column>): seq<string>
    requires forall c :: c in cs ==> |c.references| > 0
  {
    seq(|cs|, i requires 0 <= i < |cs| => cs[i].references[0].columnName)
  }

  ghost predicate ReferencingGroup(g: seq<Column>)
  {
    |g| > 0 && forall c :: c in g ==> |c.references| > 0
  }

  /** The foreign key of one constraint's columns; both column lists are sorted. */
  function ForeignKeyOf(group: seq<Column>): ForeignKey
    requires ReferencingGroup(group)
  {
    var ref := group[0].references[0];
    var from := Sort(Names(group));
    var to := Sort(TargetNames(group));
    ForeignKey(ref.schemaName + "." + ref.tableName, ref.name, Join(from, ","), from, Join(to, ","), to)
  }

  /** Grouping the referencing columns by constraint gives non-empty groups of referencing columns. */
  lemma ConstraintGroups(cs: seq<Column>)
    ensures forall j :: 0 <= j < |GroupBy(WithReferences(cs), ConstraintName)| ==>
      ReferencingGroup(GroupBy(WithReferences(cs), ConstraintName)[j].1)
  {
    var xs := WithReferences(cs);
    var gs := GroupBy(xs, ConstraintName);
    forall j | 0 <= j < |gs| ensures ReferencingGroup(gs[j].1) {
      GroupByEntry(xs, ConstraintName, j);
      forall c | c in gs[j].1 ensures |c.references| > 0 {
        WithKeyMember(xs, ConstraintName, gs[j].0, c);
      }
    }
  }

  /** `m_foreign_keys_to_others`: the foreign keys keyed by their sorted from-columns. */
  function ForeignKeyMap(columns: seq<Column>): seq<(string, ForeignKey)>
  {
    var gs := GroupBy(WithReferences(columns), ConstraintName);
    ConstraintGroups(columns);
    FromEntries(seq(|gs|, j requires 0 <= j < |gs| =>
      (ForeignKeyOf(gs[j].1).strFrom, ForeignKeyOf(gs[j].1))))
  }

  /** `m_indices_by_columns`: the indices keyed by their sorted column names. */
  function IndexMap(indices: seq<Index>): seq<(string, Index)>
  {
    FromEntries(KeyEntries(Values(FromEntries(NameEntries(indices)))))
  }

  function NameEntries(idx: seq<Index>): (r: seq<(string, Index)>)
    ensures |r| == |idx| && forall i :: 0 <= i < |idx| ==> r[i] == (idx[i].name, idx[i])
  {
    if |idx| == 0 then [] else [(idx[0].name, idx[0])] + NameEntries(idx[1..])
  }

  function KeyEntries(idx: seq<Index>): (r: seq<(string, Index)>)
    ensures |r| == |idx| && forall i :: 0 <= i < |idx| ==> r[i] == (IndexKey(idx[i]), idx[i])
  {
    if |idx| == 0 then [] else [(IndexKey(idx[0]), idx[0])] + KeyEntries(idx[1..])
  }

  /** The entry `relations` holds for one extracted relation. */
  function Details(t: RelationInput): Relation
  {
    var columns := if t.kind == CompositeType then [] else t.columns;
    var columnMap := FromEntries(seq(|columns|, i requires 0 <= i < |columns| => (columns[i].name, columns[i])));
    var indices := if t.kind == Table then t.indices else [];
    Relation(t.schemaName, t.name, t.schemaName + "." + t.name,
      columnMap, IndexMap(indices), ForeignKeyMap(Values(columnMap)))
  }

  /** `relations`: every extracted relation keyed by its qualified name. */
  function RelationMap(inputs: seq<RelationInput>): seq<(string, Relation)>
  {
    FromEntries(seq(|inputs|, i requires 0 <= i < |inputs| =>
      (inputs[i].schemaName + "." + inputs[i].name, Details(inputs[i]))))
  }

  // ---------------------------------------------------------------------------
  // reference construction

  /** Whether the index on exactly these columns (the last one registered) is unique. */
  function IsUniqueOn(r: Relation, key: string): bool
  {
    match Get(r.indicesByColumns, key)
    case None => false
    case Some(i) => i.isUnique
  }

  /** `s.replace(/(_id|s)$/, "")`. */
  function StripIdOrS(s: string): (r: string)
    ensures EndsWith(s, "_id") ==> r + "_id" == s
    ensures !EndsWith(s, "_id") && EndsWith(s, "s") ==> r + "s" == s
    ensures !EndsWith(s, "_id") && !EndsWith(s, "s") ==> r == s
  {
    if EndsWith(s, "_id") then s[..|s| - 3]
    else if EndsWith(s, "s") then s[..|s| - 1]
    else s
  }

  /** `names.some(c => r.m_columns.get(c)?.isNullable)`. */
  predicate AnyNullable(r: Relation, names: seq<string>)
  {
    exists c :: c in names && Get(r.columns, c).Some? && Get(r.columns, c).value.isNullable
  }

  function ForwardReference(r: Relation, dst: Relation, key: string, fk: ForeignKey): Reference
  {
    var toIsUnique := IsUniqueOn(dst, fk.strTo);
    var fromIsUnique := IsUniqueOn(r, fk.strFrom);
    var single := toIsUnique && |fk.from| == 1;
    var distantName := if single then StripIdOrS(fk.strFrom) else dst.name;
    var hint := if single then fk.strFrom else dst.name + "!" + fk.name;
    Reference(
      pgtsName := "$" + distantName + ":" + hint, distantName := distantName,
      toTable := fk.qualifiedDestination, toTableSimpleName := dst.name,
      fromColumnsStr := key, toColumnsStr := fk.strTo, toColumns := fk.to, fromColumns := fk.from,
      toIsUnique := toIsUnique, fromIsUnique := fromIsUnique, fromIsNullable := AnyNullable(r, fk.from))
  }

  /** The backward name: the origin's name, pluralised unless unique or already ending in "s". */
  function BackName(originName: string, fromIsUnique: bool): (r: string)
    ensures r == originName + "s" || r == originName
    ensures r == originName + "s" <==> !fromIsUnique && !EndsWith(originName, "s")
  {
    originName + (if !fromIsUnique && !(|originName| > 0 && originName[|originName| - 1] == 's') then "s" else "")
  }

  /** The reference pushed onto the destination: the origin's name, seen from the other side. */
  function BackwardReference(r: Relation, dst: Relation, fk: ForeignKey): Reference
  {
    var toIsUnique := IsUniqueOn(dst, fk.strTo);
    var fromIsUnique := IsUniqueOn(r, fk.strFrom);
    var backName := BackName(r.name, fromIsUnique);
    Reference(
      pgtsName := "$" + backName + ":" + r.name + "!" + fk.name, distantName := backName,
      toTable := r.tableQualifiedName, toTableSimpleName := r.name,
      fromColumnsStr := fk.strTo, toColumnsStr := fk.strFrom, toColumns := fk.from, fromColumns := fk.to,
      toIsUnique := fromIsUnique, fromIsUnique := toIsUnique, fromIsNullable := AnyNullable(r, fk.to))
  }

  /** The backward reference mirrors the forward one: columns, column strings and uniqueness swap sides. */
  lemma BackwardMirrorsForward(r: Relation, dst: Relation, fk: ForeignKey)
    ensures var f := ForwardReference(r, dst, fk.strFrom, fk);
      var b := BackwardReference(r, dst, fk);
      b.fromColumns == f.toColumns && b.toColumns == f.fromColumns &&
      b.fromColumnsStr == f.toColumnsStr && b.toColumnsStr == f.fromColumnsStr &&
      b.toIsUnique == f.fromIsUnique && b.fromIsUnique == f.toIsUnique &&
      b.toTable == r.tableQualifiedName && b.toTableSimpleName == r.name
  {
  }

  /** The source asserts (`!`) that the destination of every followed foreign key is a known relation. */
  ghost predicate DestinationsKnown(m: seq<(string, Relation)>, allowed: set<string>)
  {
    forall a, j {:trigger DestinationKnown(m, allowed, a, j)} :: DestinationKnown(m, allowed, a, j)
  }

  /** The destination of foreign key `j` of relation `a` is in `m`, when the first pass follows it. */
  ghost predicate DestinationKnown(m: seq<(string, Relation)>, allowed: set<string>, a: int, j: int)
  {
    0 <= a < |m| && 0 <= j < |m[a].1.foreignKeys| && m[a].1.schemaName in allowed ==>
      IndexOf(m, m[a].1.foreignKeys[j].1.qualifiedDestination).Some?
  }

  /** The position in `m` of the destination of foreign key `j` of relation `a`. */
  function Destination(m: seq<(string, Relation)>, allowed: set<string>, a: nat, j: nat): (d: nat)
    requires DestinationsKnown(m, allowed)
    requires a < |m| && m[a].1.schemaName in allowed && j < |m[a].1.foreignKeys|
    ensures d < |m| && m[d].0 == m[a].1.foreignKeys[j].1.qualifiedDestination
    ensures IndexOf(m, m[a].1.foreignKeys[j].1.qualifiedDestination) == Some(d)
  {
    assert DestinationKnown(m, allowed, a, j);
    IndexOf(m, m[a].1.foreignKeys[j].1.qualifiedDestination).value
  }

  /** One `push` onto the `references` of relation number `target`. */
  datatype Push = Push(target: nat, reference: Reference)

  /** The pushes of foreign key `j` of relation `a`: none when the destination's schema is not allowed. */
  function ForeignKeyPushes(m: seq<(string, Relation)>, allowed: set<string>, a: nat, j: nat): seq<Push>
    requires DestinationsKnown(m, allowed)
    requires a < |m| && m[a].1.schemaName in allowed && j < |m[a].1.foreignKeys|
  {
    var r := m[a].1;
    var fk := r.foreignKeys[j].1;
    var d := Destination(m, allowed, a, j);
    var dst := m[d].1;
    if dst.schemaName !in allowed then []
    else [Push(a, ForwardReference(r, dst, r.foreignKeys[j].0, fk)), Push(d, BackwardReference(r, dst, fk))]
  }

  function PushesOfForeignKeys(m: seq<(string, Relation)>, allowed: set<string>, a: nat, j: nat): seq<Push>
    requires DestinationsKnown(m, allowed)
    requires a < |m| && m[a].1.schemaName in allowed && j <= |m[a].1.foreignKeys|
  {
    if j == 0 then [] else PushesOfForeignKeys(m, allowed, a, j - 1) + ForeignKeyPushes(m, allowed, a, j - 1)
  }

  function PushesOfRelation(m: seq<(string, Relation)>, allowed: set<string>, a: nat): seq<Push>
    requires DestinationsKnown(m, allowed) && a < |m|
  {
    if m[a].1.schemaName !in allowed then []
    else PushesOfForeignKeys(m, allowed, a, |m[a].1.foreignKeys|)
  }

  /** Every push made while visiting the first `n` relations, in order. */
  function PushesUpTo(m: seq<(string, Relation)>, allowed: set<string>, n: nat): seq<Push>
    requires DestinationsKnown(m, allowed) && n <= |m|
  {
    if n == 0 then [] else PushesUpTo(m, allowed, n - 1) + PushesOfRelation(m, allowed, n - 1)
  }

  /** The references pushed onto relation `k`, in push order. */
  function Targeting(ps: seq<Push>, k: nat): seq<Reference>
  {
    if |ps| == 0 then []
    else Targeting(ps[..|ps| - 1], k) + (if ps[|ps| - 1].target == k then [ps[|ps| - 1].reference] else [])
  }

  /** The lists of `n` relations after the pushes `ps`. */
  function Lists(ps: seq<Push>, n: nat): (refs: seq<seq<Reference>>)
    ensures |refs| == n
  {
    seq(n, k requires 0 <= k < n => Targeting(ps, k))
  }

  /** The `references` of every relation after the first pass. */
  function RawReferences(m: seq<(string, Relation)>, allowed: set<string>): (refs: seq<seq<Reference>>)
    requires DestinationsKnown(m, allowed)
    ensures |refs| == |m|
  {
    Lists(PushesUpTo(m, allowed, |m|), |m|)
  }

  // ---------------------------------------------------------------------------
  // disambiguation

  /** The grouping key of the rename pass: `${toTable}.${distantName}`. */
  function CollisionKey(ref: Reference): string
  {
    ref.toTable + "." + ref.distantName
  }

  function Renamed(ref: Reference): Reference
  {
    ref.(distantName := ref.distantName + "_from_" + ref.toColumnsStr)
  }

  /** A relation's references after the rename pass: members of a colliding group get a suffix. */
  function Disambiguated(refs: seq<Reference>): (r: seq<Reference>)
    ensures |r| == |refs|
  {
    seq(|refs|, i requires 0 <= i < |refs| =>
      if |WithKey(refs, CollisionKey, CollisionKey(refs[i]))| > 1 then Renamed(refs[i]) else refs[i])
  }

  /** The `references` of every relation once `SchemaDetails` is built. */
  function FinalReferences(m: seq<(string, Relation)>, allowed: set<string>): (refs: seq<seq<Reference>>)
    requires DestinationsKnown(m, allowed)
    ensures |refs| == |m|
  {
    var raw := RawReferences(m, allowed);
    seq(|m|, k requires 0 <= k < |m| => Disambiguated(raw[k]))
  }

  // ---------------------------------------------------------------------------
  // properties of the per-relation maps

  /**
   * Every foreign key is keyed by its own `strFrom`, lists its columns sorted,
   * and pairs as many destination columns as origin columns.
   */
  lemma ForeignKeyMapShape(columns: seq<Column>, e: (string, ForeignKey))
    requires e in ForeignKeyMap(columns)
    ensures e.0 == e.1.strFrom == Join(e.1.from, ",") && e.1.strTo == Join(e.1.to, ",")
    ensures Sorted(e.1.from) && Sorted(e.1.to) && |e.1.from| == |e.1.to| >= 1
  {
    var gs := GroupBy(WithReferences(columns), ConstraintName);
    ConstraintGroups(columns);
    var es := seq(|gs|, j requires 0 <= j < |gs| => (ForeignKeyOf(gs[j].1).strFrom, ForeignKeyOf(gs[j].1)));
    FromEntriesMember(es, e);
    var j :| 0 <= j < |es| && es[j] == e;
    SortSorted(Names(gs[j].1));
    SortSorted(TargetNames(gs[j].1));
  }

  /** With distinct index names, `m_indices` keeps every index, in order. */
  lemma IndexMapDistinct(idx: seq<Index>)
    requires forall i, j :: 0 <= i < j < |idx| ==> idx[i].name != idx[j].name
    ensures IndexMap(idx) == FromEntries(KeyEntries(idx))
  {
    var named := NameEntries(idx);
    assert DistinctKeys(named);
    FromEntriesDistinct(named);
    var vs := Values(named);
    assert vs == idx by {
      forall i | 0 <= i < |idx| ensures vs[i] == idx[i] {
        assert vs[i] == named[i].1;
      }
    }
    calc {
      IndexMap(idx);
      FromEntries(KeyEntries(Values(FromEntries(named))));
      { assert FromEntries(named) == named; }
      FromEntries(KeyEntries(vs));
    }
  }

  lemma LastUniqueEntry(es: seq<(string, Index)>, key: string)
    ensures (LastValue(es, key).Some? && LastValue(es, key).value.isUnique) <==>
      exists i :: 0 <= i < |es| && es[i].0 == key && es[i].1.isUnique &&
        forall j :: i < j < |es| ==> es[j].0 != key
  {
    LastValueSpec(es, key);
    if exists i :: 0 <= i < |es| && es[i].0 == key && es[i].1.isUnique &&
        forall j :: i < j < |es| ==> es[j].0 != key {
      var i :| 0 <= i < |es| && es[i].0 == key && es[i].1.isUnique &&
        forall j :: i < j < |es| ==> es[j].0 != key;
      var l :| 0 <= l < |es| && es[l] == (key, LastValue(es, key).value) &&
        forall j :: l < j < |es| ==> es[j].0 != key;
      assert l == i;
    }
  }

  /**
   * With distinct index names, the unique flag on a column set is the flag of the
   * last index over exactly that set (sorted), and false when there is none.
   */
  lemma UniqueOnLastIndex(t: RelationInput, key: string)
    requires t.kind == Table
    requires forall i, j :: 0 <= i < j < |t.indices| ==> t.indices[i].name != t.indices[j].name
    ensures IsUniqueOn(Details(t), key) <==>
      exists i :: 0 <= i < |t.indices| && IndexKey(t.indices[i]) == key && t.indices[i].isUnique &&
        forall j :: i < j < |t.indices| ==> IndexKey(t.indices[j]) != key
  {
    var es := KeyEntries(t.indices);
    IndexMapDistinct(t.indices);
    assert Details(t).indicesByColumns == FromEntries(es);
    FromEntriesGet(es, key);
    assert IsUniqueOn(Details(t), key) <==> LastValue(es, key).Some? && LastValue(es, key).value.isUnique;
    LastUniqueEntry(es, key);
    assert forall i :: 0 <= i < |es| ==> es[i].0 == IndexKey(t.indices[i]) && es[i].1 == t.indices[i];
  }

  // ---------------------------------------------------------------------------
  // properties of the first pass

  lemma {:induction false} TargetingAppend(ps: seq<Push>, qs: seq<Push>, k: nat)
    ensures Targeting(ps + qs, k) == Targeting(ps, k) + Targeting(qs, k)
  {
    if |qs| == 0 {
      assert ps + qs == ps;
    } else {
      TargetingAppend(ps, qs[..|qs| - 1], k);
      assert (ps + qs)[..|ps + qs| - 1] == ps + qs[..|qs| - 1];
    }
  }

  lemma {:induction false} TargetingNone(ps: seq<Push>, k: nat)
    requires forall i :: 0 <= i < |ps| ==> ps[i].target != k
    ensures Targeting(ps, k) == []
  {
    if |ps| > 0 {
      TargetingNone(ps[..|ps| - 1], k);
    }
  }

  lemma {:induction false} TargetingMember(ps: seq<Push>, p: Push)
    requires p in ps
    ensures p.reference in Targeting(ps, p.target)
  {
    var init := ps[..|ps| - 1];
    if p != ps[|ps| - 1] {
      assert ps == init + [ps[|ps| - 1]];
      TargetingMember(init, p);
    }
  }

  ghost predicate TargetsAllowed(m: seq<(string, Relation)>, allowed: set<string>, ps: seq<Push>)
  {
    forall i :: 0 <= i < |ps| ==> ps[i].target < |m| && m[ps[i].target].1.schemaName in allowed
  }

  lemma TargetsAllowedAppend(m: seq<(string, Relation)>, allowed: set<string>, ps: seq<Push>, qs: seq<Push>)
    requires TargetsAllowed(m, allowed, ps) && TargetsAllowed(m, allowed, qs)
    ensures TargetsAllowed(m, allowed, ps + qs)
  {
    forall i | 0 <= i < |ps + qs|
      ensures (ps + qs)[i].target < |m| && m[(ps + qs)[i].target].1.schemaName in allowed
    {
      if i < |ps| {
        assert (ps + qs)[i] == ps[i];
      } else {
        assert (ps + qs)[i] == qs[i - |ps|];
      }
    }
  }

  lemma ForeignKeyPushTargets(m: seq<(string, Relation)>, allowed: set<string>, a: nat, j: nat)
    requires DestinationsKnown(m, allowed)
    requires a < |m| && m[a].1.schemaName in allowed && j < |m[a].1.foreignKeys|
    ensures TargetsAllowed(m, allowed, ForeignKeyPushes(m, allowed, a, j))
  {
  }

  lemma {:induction false} ForeignKeyPushesAllowed(m: seq<(string, Relation)>, allowed: set<string>, a: nat, j: nat)
    requires DestinationsKnown(m, allowed)
    requires a < |m| && m[a].1.schemaName in allowed && j <= |m[a].1.foreignKeys|
    ensures TargetsAllowed(m, allowed, PushesOfForeignKeys(m, allowed, a, j))
  {
    if j > 0 {
      ForeignKeyPushesAllowed(m, allowed, a, j - 1);
      ForeignKeyPushTargets(m, allowed, a, j - 1);
      TargetsAllowedAppend(m, allowed, PushesOfForeignKeys(m, allowed, a, j - 1), ForeignKeyPushes(m, allowed, a, j - 1));
    }
  }

  lemma {:induction false} PushesAllowed(m: seq<(string, Relation)>, allowed: set<string>, n: nat)
    requires DestinationsKnown(m, allowed) && n <= |m|
    ensures TargetsAllowed(m, allowed, PushesUpTo(m, allowed, n))
  {
    if n > 0 {
      PushesAllowed(m, allowed, n - 1);
      if m[n - 1].1.schemaName in allowed {
        ForeignKeyPushesAllowed(m, allowed, n - 1, |m[n - 1].1.foreignKeys|);
      }
      TargetsAllowedAppend(m, allowed, PushesUpTo(m, allowed, n - 1), PushesOfRelation(m, allowed, n - 1));
    }
  }

  /** A relation outside the allowed schemas ends with no references, in either direction. */
  lemma OutsideAllowedSchemasNoReferences(m: seq<(string, Relation)>, allowed: set<string>, k: nat)
    requires DestinationsKnown(m, allowed)
    requires k < |m| && m[k].1.schemaName !in allowed
    ensures FinalReferences(m, allowed)[k] == []
  {
    PushesAllowed(m, allowed, |m|);
    TargetingNone(PushesUpTo(m, allowed, |m|), k);
  }

  lemma {:induction false} PushesOfForeignKeysGrow(m: seq<(string, Relation)>, allowed: set<string>, a: nat, i: nat, j: nat, p: Push)
    requires DestinationsKnown(m, allowed)
    requires a < |m| && m[a].1.schemaName in allowed && i <= j <= |m[a].1.foreignKeys|
    requires p in PushesOfForeignKeys(m, allowed, a, i)
    ensures p in PushesOfForeignKeys(m, allowed, a, j)
  {
    if i < j {
      PushesOfForeignKeysGrow(m, allowed, a, i, j - 1, p);
      assert PushesOfForeignKeys(m, allowed, a, j) ==
        PushesOfForeignKeys(m, allowed, a, j - 1) + ForeignKeyPushes(m, allowed, a, j - 1);
    }
  }

  lemma {:induction false} PushesUpToGrow(m: seq<(string, Relation)>, allowed: set<string>, i: nat, j: nat, p: Push)
    requires DestinationsKnown(m, allowed) && i <= j <= |m|
    requires p in PushesUpTo(m, allowed, i)
    ensures p in PushesUpTo(m, allowed, j)
  {
    if i < j {
      PushesUpToGrow(m, allowed, i, j - 1, p);
      var before := PushesUpTo(m, allowed, j - 1);
      assert PushesUpTo(m, allowed, j) == before + PushesOfRelation(m, allowed, j - 1);
      assert p in before;
    }
  }

  /** The pushes of one followed foreign key are among all the pushes of the first pass. */
  lemma ForeignKeyPushesIncluded(m: seq<(string, Relation)>, allowed: set<string>, a: nat, j: nat, p: Push)
    requires DestinationsKnown(m, allowed)
    requires a < |m| && m[a].1.schemaName in allowed && j < |m[a].1.foreignKeys|
    requires p in ForeignKeyPushes(m, allowed, a, j)
    ensures p in PushesUpTo(m, allowed, |m|)
  {
    var n := |m[a].1.foreignKeys|;
    assert p in PushesOfForeignKeys(m, allowed, a, j + 1);
    PushesOfForeignKeysGrow(m, allowed, a, j + 1, n, p);
    assert p in PushesOfRelation(m, allowed, a);
    assert p in PushesUpTo(m, allowed, a + 1);
    PushesUpToGrow(m, allowed, a + 1, |m|, p);
  }

  /**
   * A foreign key of an allowed relation whose destination is allowed puts its
   * forward reference on the origin and its backward reference on the destination.
   */
  lemma ForeignKeyReferencesPresent(m: seq<(string, Relation)>, allowed: set<string>, a: nat, j: nat, d: nat)
    requires DestinationsKnown(m, allowed) && DistinctKeys(m)
    requires a < |m| && m[a].1.schemaName in allowed && j < |m[a].1.foreignKeys|
    requires d < |m| && m[d].0 == m[a].1.foreignKeys[j].1.qualifiedDestination && m[d].1.schemaName in allowed
    ensures ForwardReference(m[a].1, m[d].1, m[a].1.foreignKeys[j].0, m[a].1.foreignKeys[j].1) in RawReferences(m, allowed)[a]
    ensures BackwardReference(m[a].1, m[d].1, m[a].1.foreignKeys[j].1) in RawReferences(m, allowed)[d]
  {
    var fk := m[a].1.foreignKeys[j].1;
    IndexOfUnique(m, fk.qualifiedDestination, d);
    var here := ForeignKeyPushes(m, allowed, a, j);
    assert here == [Push(a, ForwardReference(m[a].1, m[d].1, m[a].1.foreignKeys[j].0, fk)),
                    Push(d, BackwardReference(m[a].1, m[d].1, fk))];
    var all := PushesUpTo(m, allowed, |m|);
    ForeignKeyPushesIncluded(m, allowed, a, j, here[0]);
    ForeignKeyPushesIncluded(m, allowed, a, j, here[1]);
    TargetingMember(all, here[0]);
    TargetingMember(all, here[1]);
  }

  /** The number of foreign keys of allowed relations, among the first `j` of relation `a`, with an allowed destination. */
  function FollowedOfRelation(m: seq<(string, Relation)>, allowed: set<string>, a: nat, j: nat): nat
    requires DestinationsKnown(m, allowed)
    requires a < |m| && m[a].1.schemaName in allowed && j <= |m[a].1.foreignKeys|
  {
    if j == 0 then 0
    else
      var d := Destination(m, allowed, a, j - 1);
      FollowedOfRelation(m, allowed, a, j - 1) + (if m[d].1.schemaName in allowed then 1 else 0)
  }

  /** The number of foreign keys the first pass follows, over the first `n` relations. */
  function Followed(m: seq<(string, Relation)>, allowed: set<string>, n: nat): nat
    requires DestinationsKnown(m, allowed) && n <= |m|
  {
    if n == 0 then 0
    else
      var own := if m[n - 1].1.schemaName in allowed
        then FollowedOfRelation(m, allowed, n - 1, |m[n - 1].1.foreignKeys|) else 0;
      Followed(m, allowed, n - 1) + own
  }

  function TotalLength(refs: seq<seq<Reference>>): nat
  {
    if |refs| == 0 then 0 else |refs[0]| + TotalLength(refs[1..])
  }

  lemma {:induction false} TotalLengthPush(refs: seq<seq<Reference>>, t: nat, x: Reference)
    requires t < |refs|
    ensures TotalLength(refs[t := refs[t] + [x]]) == TotalLength(refs) + 1
  {
    if t > 0 {
      TotalLengthPush(refs[1..], t - 1, x);
      assert refs[t := refs[t] + [x]][1..] == refs[1..][t - 1 := refs[t] + [x]];
    }
  }

  lemma {:induction false} TotalLengthSame(a: seq<seq<Reference>>, b: seq<seq<Reference>>)
    requires |a| == |b| && forall k :: 0 <= k < |a| ==> |a[k]| == |b[k]|
    ensures TotalLength(a) == TotalLength(b)
  {
    if |a| > 0 {
      TotalLengthSame(a[1..], b[1..]);
    }
  }

  lemma {:induction false} TargetingTotal(ps: seq<Push>, n: nat)
    requires forall i :: 0 <= i < |ps| ==> ps[i].target < n
    ensures TotalLength(Lists(ps, n)) == |ps|
  {
    var now := Lists(ps, n);
    if |ps| == 0 {
      TargetingNoneAll(n);
      ZeroLength(n);
      TotalLengthSame(now, Empties(n));
    } else {
      var init := ps[..|ps| - 1];
      var p := ps[|ps| - 1];
      TargetingTotal(init, n);
      var before := Lists(init, n);
      forall k | 0 <= k < n
        ensures now[k] == before[p.target := before[p.target] + [p.reference]][k]
      {
        assert Targeting(ps, k) == Targeting(init, k) + (if p.target == k then [p.reference] else []);
      }
      assert now == before[p.target := before[p.target] + [p.reference]];
      TotalLengthPush(before, p.target, p.reference);
    }
  }

  function Empties(n: nat): (r: seq<seq<Reference>>)
    ensures |r| == n && forall k :: 0 <= k < n ==> r[k] == []
  {
    if n == 0 then [] else [[]] + Empties(n - 1)
  }

  lemma TargetingNoneAll(n: nat)
    ensures forall k :: 0 <= k < n ==> Targeting([], k) == []
  {
  }

  lemma {:induction false} ZeroLength(n: nat)
    ensures TotalLength(Empties(n)) == 0
  {
    if n > 0 {
      ZeroLength(n - 1);
    }
  }

  lemma {:induction false} PushesOfForeignKeysCount(m: seq<(string, Relation)>, allowed: set<string>, a: nat, j: nat)
    requires DestinationsKnown(m, allowed)
    requires a < |m| && m[a].1.schemaName in allowed && j <= |m[a].1.foreignKeys|
    ensures |PushesOfForeignKeys(m, allowed, a, j)| == 2 * FollowedOfRelation(m, allowed, a, j)
  {
    if j > 0 {
      PushesOfForeignKeysCount(m, allowed, a, j - 1);
      var d := Destination(m, allowed, a, j - 1);
      assert |ForeignKeyPushes(m, allowed, a, j - 1)| == if m[d].1.schemaName in allowed then 2 else 0;
    }
  }

  lemma {:induction false} PushesCount(m: seq<(string, Relation)>, allowed: set<string>, n: nat)
    requires DestinationsKnown(m, allowed) && n <= |m|
    ensures |PushesUpTo(m, allowed, n)| == 2 * Followed(m, allowed, n)
  {
    if n > 0 {
      PushesCount(m, allowed, n - 1);
      var own := PushesOfRelation(m, allowed, n - 1);
      if m[n - 1].1.schemaName in allowed {
        PushesOfForeignKeysCount(m, allowed, n - 1, |m[n - 1].1.foreignKeys|);
        assert |own| == 2 * FollowedOfRelation(m, allowed, n - 1, |m[n - 1].1.foreignKeys|);
      } else {
        assert own == [];
      }
      assert PushesUpTo(m, allowed, n) == PushesUpTo(m, allowed, n - 1) + own;
    }
  }

  /** Every followed foreign key yields exactly two references overall, and nothing else does. */
  lemma ReferenceCount(m: seq<(string, Relation)>, allowed: set<string>)
    requires DestinationsKnown(m, allowed)
    ensures TotalLength(FinalReferences(m, allowed)) == 2 * Followed(m, allowed, |m|)
  {
    var ps := PushesUpTo(m, allowed, |m|);
    PushesAllowed(m, allowed, |m|);
    TargetingTotal(ps, |m|);
    PushesCount(m, allowed, |m|);
    TotalLengthSame(FinalReferences(m, allowed), RawReferences(m, allowed));
  }

  lemma PushOne(done: seq<Push>, n: nat, p: Push)
    requires p.target < n
    ensures Lists(done, n)[p.target := Lists(done, n)[p.target] + [p.reference]] == Lists(done + [p], n)
  {
    var after := done + [p];
    assert after[..|after| - 1] == done;
    forall k | 0 <= k < n
      ensures Lists(done, n)[p.target := Lists(done, n)[p.target] + [p.reference]][k] == Lists(after, n)[k]
    {
      assert Targeting(after, k) == Targeting(done, k) + (if p.target == k then [p.reference] else []);
    }
  }

  /** `references` of `a` and then of `d` each get one more entry. */
  method PushPair(refs: array<seq<Reference>>, a: nat, forward: Reference, d: nat, backward: Reference,
                  ghost done: seq<Push>)
    requires a < refs.Length && d < refs.Length && refs[..] == Lists(done, refs.Length)
    modifies refs
    ensures refs[..] == Lists(done + [Push(a, forward), Push(d, backward)], refs.Length)
  {
    var n := refs.Length;
    PushOne(done, n, Push(a, forward));
    refs[a] := refs[a] + [forward];
    PushOne(done + [Push(a, forward)], n, Push(d, backward));
    refs[d] := refs[d] + [backward];
    assert done + [Push(a, forward)] + [Push(d, backward)] == done + [Push(a, forward), Push(d, backward)];
  }

  /** The inner loop of the first pass: the pushes of every foreign key of relation `a`. */
  method PushForeignKeys(m: seq<(string, Relation)>, allowed: set<string>, a: nat,
                         refs: array<seq<Reference>>, ghost done: seq<Push>)
    requires DestinationsKnown(m, allowed) && a < |m| && m[a].1.schemaName in allowed
    requires refs[..] == Lists(done, |m|)
    modifies refs
    ensures refs[..] == Lists(done + PushesOfForeignKeys(m, allowed, a, |m[a].1.foreignKeys|), |m|)
  {
    var r := m[a].1;
    ghost var pushed := done;
    var j := 0;
    while j < |r.foreignKeys|
      invariant 0 <= j <= |r.foreignKeys|
      invariant refs.Length == |m|
      invariant pushed == done + PushesOfForeignKeys(m, allowed, a, j)
      invariant refs[..] == Lists(pushed, |m|)
    {
      var key := r.foreignKeys[j].0;
      var fk := r.foreignKeys[j].1;
      var d := Destination(m, allowed, a, j);
      var dst := m[d].1;
      ghost var before := PushesOfForeignKeys(m, allowed, a, j);
      assert PushesOfForeignKeys(m, allowed, a, j + 1) == before + ForeignKeyPushes(m, allowed, a, j);
      if dst.schemaName in allowed {
        var forward := ForwardReference(r, dst, key, fk);
        var backward := BackwardReference(r, dst, fk);
        PushPair(refs, a, forward, d, backward, pushed);
        assert ForeignKeyPushes(m, allowed, a, j) == [Push(a, forward), Push(d, backward)];
        pushed := pushed + [Push(a, forward), Push(d, backward)];
        assert pushed == done + (before + [Push(a, forward), Push(d, backward)]);
      } else {
        assert ForeignKeyPushes(m, allowed, a, j) == [];
        assert before + [] == before;
      }
      j := j + 1;
    }
  }

  /** The first pass: one push per followed foreign key and direction, in relation order. */
  method BuildReferences(m: seq<(string, Relation)>, allowed: set<string>) returns (refs: array<seq<Reference>>)
    requires DestinationsKnown(m, allowed)
    ensures fresh(refs)
    ensures refs[..] == RawReferences(m, allowed)
  {
    refs := new seq<Reference>[|m|](_ => []);
    ghost var done: seq<Push> := [];
    assert refs[..] == Lists(done, |m|);
    var a := 0;
    while a < |m|
      invariant 0 <= a <= |m| && refs.Length == |m|
      invariant done == PushesUpTo(m, allowed, a)
      invariant refs[..] == Lists(done, |m|)
    {
      if m[a].1.schemaName in allowed {
        PushForeignKeys(m, allowed, a, refs, done);
      } else {
        assert done + PushesOfRelation(m, allowed, a) == done;
      }
      done := done + PushesOfRelation(m, allowed, a);
      a := a + 1;
    }
  }

  // ---------------------------------------------------------------------------
  // the rename pass

  /** Each reference with its position, so that a group can say which slots it covers. */
  function Positioned(refs: seq<Reference>): (r: seq<(int, Reference)>)
    ensures |r| == |refs| && forall i :: 0 <= i < |refs| ==> r[i] == (i, refs[i])
  {
    seq(|refs|, i requires 0 <= i < |refs| => (i, refs[i]))
  }

  function PositionedKey(p: (int, Reference)): string
  {
    CollisionKey(p.1)
  }

  /** The positions in the groups of `gs` that hold more than one reference. */
  ghost function Colliding(gs: seq<(string, seq<(int, Reference)>)>): set<int>
  {
    if |gs| == 0 then {}
    else
      var last := gs[|gs| - 1].1;
      Colliding(gs[..|gs| - 1]) + (if |last| > 1 then set p | p in last :: p.0 else {})
  }

  lemma {:induction false} CollidingMember(gs: seq<(string, seq<(int, Reference)>)>, i: int)
    ensures i in Colliding(gs) <==>
      exists g, p :: 0 <= g < |gs| && p in gs[g].1 && |gs[g].1| > 1 && p.0 == i
  {
    if |gs| > 0 {
      var init := gs[..|gs| - 1];
      CollidingMember(init, i);
      if exists g, p :: 0 <= g < |gs| && p in gs[g].1 && |gs[g].1| > 1 && p.0 == i {
        var g, p :| 0 <= g < |gs| && p in gs[g].1 && |gs[g].1| > 1 && p.0 == i;
        if g < |init| {
          assert p in init[g].1;
        }
      }
    }
  }

  lemma {:induction false} PositionedCount(refs: seq<Reference>, k: string)
    ensures |WithKey(Positioned(refs), PositionedKey, k)| == |WithKey(refs, CollisionKey, k)|
  {
    if |refs| > 0 {
      var init := refs[..|refs| - 1];
      PositionedCount(init, k);
      assert Positioned(refs)[..|refs| - 1] == Positioned(init);
    }
  }

  /** A slot is renamed by the grouping pass exactly when its key is shared. */
  lemma CollidingIffShared(refs: seq<Reference>, i: nat)
    requires i < |refs|
    ensures i in Colliding(GroupBy(Positioned(refs), PositionedKey)) <==>
      |WithKey(refs, CollisionKey, CollisionKey(refs[i]))| > 1
  {
    var ps := Positioned(refs);
    var gs := GroupBy(ps, PositionedKey);
    var k := CollisionKey(refs[i]);
    CollidingMember(gs, i);
    PositionedCount(refs, k);
    if i in Colliding(gs) {
      var g, p :| 0 <= g < |gs| && p in gs[g].1 && |gs[g].1| > 1 && p.0 == i;
      GroupByEntry(ps, PositionedKey, g);
      WithKeyMember(ps, PositionedKey, gs[g].0, p);
      assert p == ps[i];
    }
    if |WithKey(refs, CollisionKey, k)| > 1 {
      WithKeyMember(ps, PositionedKey, k, ps[i]);
      GroupByGet(ps, PositionedKey, k);
      var g := IndexOf(gs, k).value;
      assert gs[g].1 == WithKey(ps, PositionedKey, k);
      assert ps[i] in gs[g].1;
    }
  }

  /** Every member of a group of positioned references is the reference at its position. */
  lemma GroupMemberPositioned(refs: seq<Reference>, g: nat, p: (int, Reference))
    requires g < |GroupBy(Positioned(refs), PositionedKey)|
    requires p in GroupBy(Positioned(refs), PositionedKey)[g].1
    ensures 0 <= p.0 < |refs| && p.1 == refs[p.0]
  {
    var ps := Positioned(refs);
    var gs := GroupBy(ps, PositionedKey);
    GroupByEntry(ps, PositionedKey, g);
    WithKeyMember(ps, PositionedKey, gs[g].0, p);
  }

  /** Suffixes the reference at every position of `members`, recording the positions in `done`. */
  method RenameMembers(refs: seq<Reference>, r0: seq<Reference>, members: seq<(int, Reference)>, ghost done0: set<int>)
    returns (r: seq<Reference>, ghost done: set<int>)
    requires |r0| == |refs|
    requires forall p :: p in members ==> 0 <= p.0 < |refs| && p.1 == refs[p.0]
    requires forall i :: 0 <= i < |refs| ==> r0[i] == if i in done0 then Renamed(refs[i]) else refs[i]
    ensures |r| == |refs| && done == done0 + set p | p in members :: p.0
    ensures forall i :: 0 <= i < |refs| ==> r[i] == if i in done then Renamed(refs[i]) else refs[i]
  {
    r, done := r0, done0;
    var n := 0;
    while n < |members|
      invariant 0 <= n <= |members| && |r| == |refs|
      invariant done == done0 + set p | p in members[..n] :: p.0
      invariant forall i :: 0 <= i < |refs| ==> r[i] == if i in done then Renamed(refs[i]) else refs[i]
    {
      var (i, ref) := members[n];
      r := r[i := Renamed(ref)];
      done := done + {i};
      assert members[..n + 1] == members[..n] + [members[n]];
      n := n + 1;
    }
    assert members[..n] == members;
  }

  /**
   * The rename pass over one relation: group by `toTable.distantName` and suffix every
   * member of a group of two or more with its `toColumnsStr`.
   */
  method DisambiguateRelation(refs: seq<Reference>) returns (r: seq<Reference>)
    ensures r == Disambiguated(refs)
  {
    var groups := GroupBy(Positioned(refs), PositionedKey);
    r := refs;
    ghost var done: set<int> := {};
    var g := 0;
    while g < |groups|
      invariant 0 <= g <= |groups| && |r| == |refs|
      invariant done == Colliding(groups[..g])
      invariant forall i :: 0 <= i < |refs| ==> r[i] == if i in done then Renamed(refs[i]) else refs[i]
    {
      var members := groups[g].1;
      if |members| > 1 {
        forall p | p in members ensures 0 <= p.0 < |refs| && p.1 == refs[p.0] {
          GroupMemberPositioned(refs, g, p);
        }
        r, done := RenameMembers(refs, r, members, done);
      }
      assert groups[..g + 1][..g] == groups[..g];
      g := g + 1;
    }
    assert groups[..g] == groups;
    forall i | 0 <= i < |refs| ensures r[i] == Disambiguated(refs)[i] {
      CollidingIffShared(refs, i);
    }
  }

  /** The rename pass over every relation, in place. */
  method Disambiguate(refs: array<seq<Reference>>)
    modifies refs
    ensures forall k :: 0 <= k < refs.Length ==> refs[k] == Disambiguated(old(refs[k]))
  {
    var k := 0;
    while k < refs.Length
      invariant 0 <= k <= refs.Length
      invariant forall j :: 0 <= j < k ==> refs[j] == Disambiguated(old(refs[j]))
      invariant forall j :: k <= j < refs.Length ==> refs[j] == old(refs[j])
    {
      refs[k] := DisambiguateRelation(refs[k]);
      k := k + 1;
    }
  }

  lemma {:induction false} TwoWithKey(refs: seq<Reference>, i: nat, j: nat)
    requires i < j < |refs| && CollisionKey(refs[i]) == CollisionKey(refs[j])
    ensures |WithKey(refs, CollisionKey, CollisionKey(refs[i]))| > 1
  {
    var k := CollisionKey(refs[i]);
    var init := refs[..|refs| - 1];
    if j < |refs| - 1 {
      TwoWithKey(init, i, j);
    } else {
      WithKeyMember(init, CollisionKey, k, refs[i]);
      assert init[i] == refs[i];
    }
  }

  /**
   * Two references to the same table under the same name are told apart by the rename
   * pass when their `toColumnsStr` differ; every other field is left as it was.
   */
  lemma RenameSeparates(refs: seq<Reference>, i: nat, j: nat)
    requires i < j < |refs|
    requires refs[i].toTable == refs[j].toTable && refs[i].distantName == refs[j].distantName
    requires refs[i].toColumnsStr != refs[j].toColumnsStr
    ensures Disambiguated(refs)[i].distantName != Disambiguated(refs)[j].distantName
    ensures Disambiguated(refs)[i].pgtsName == refs[i].pgtsName
  {
    TwoWithKey(refs, i, j);
    var prefix := refs[i].distantName + "_from_";
    assert Disambiguated(refs)[i].distantName == prefix + refs[i].toColumnsStr;
    assert Disambiguated(refs)[j].distantName == prefix + refs[j].toColumnsStr;
    assert (prefix + refs[i].toColumnsStr)[|prefix|..] == refs[i].toColumnsStr;
    assert (prefix + refs[j].toColumnsStr)[|prefix|..] == refs[j].toColumnsStr;
  }

  /**
   * The suffix is the `toColumnsStr` of the reference, which for two forward references
   * over the same destination columns is the same: such a collision survives the pass.
   */
  lemma RenameKeepsSameColumnsCollision(refs: seq<Reference>, i: nat, j: nat)
    requires i < j < |refs|
    requires refs[i].toTable == refs[j].toTable && refs[i].distantName == refs[j].distantName
    requires refs[i].toColumnsStr == refs[j].toColumnsStr
    ensures Disambiguated(refs)[i].distantName == Disambiguated(refs)[j].distantName
    ensures Disambiguated(refs)[i].distantName != refs[i].distantName
  {
    TwoWithKey(refs, i, j);
    var d := refs[i].distantName;
    assert Disambiguated(refs)[i].distantName == d + "_from_" + refs[i].toColumnsStr;
    assert |d + "_from_" + refs[i].toColumnsStr| > |d|;
  }

  // ---------------------------------------------------------------------------
  // the schema as a whole

  /** The relation graph of `SchemaDetails`, built once by its constructor. */
  class SchemaDetails {
    const allowedSchemas: set<string>
    const relations: seq<(string, Relation)>
    const references: array<seq<Reference>>

    constructor (inputs: seq<RelationInput>, allowed: set<string>)
      requires DestinationsKnown(RelationMap(inputs), allowed)
      ensures allowedSchemas == allowed && relations == RelationMap(inputs)
      ensures references.Length == |relations|
      ensures references[..] == FinalReferences(relations, allowed)
    {
      var m := RelationMap(inputs);
      var refs := BuildReferences(m, allowed);
      Disambiguate(refs);
      allowedSchemas := allowed;
      relations := m;
      references := refs;
      assert refs[..] == FinalReferences(m, allowed);
    }
  }
}
