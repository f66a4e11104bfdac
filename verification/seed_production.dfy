/**
 * The production repair pass that makes sure an existing user owns every
 * default relationship type: it removes the legacy RELATIVE type when
 * nothing refers to it, indexes the user's types by name, creates the
 * missing defaults, fills in inverse links that are still empty, and moves
 * blank or legacy-coloured types to their default colour.  Each step only
 * adds what is missing; nothing the user has set is overwritten.
 */
module SeedProduction {
  import opened Common
  import opened TypeStore
  import opened RelationshipTypeLabels
  import RelationshipTypes

  /** One entry of DEFAULT_RELATIONSHIP_TYPES; symmetric types name themselves as inverse. */
  datatype DefaultType = DefaultType(name: DefaultName, displayLabel: string, color: string, inverseName: DefaultName)

  /** The entry of DEFAULT_RELATIONSHIP_TYPES for each canonical name. */
  function SeedEntry(n: DefaultName): DefaultType {
    match n
    case Parent => DefaultType(Parent, "Parent", "#F59E0B", Child)
    case Child => DefaultType(Child, "Child", "#F59E0B", Parent)
    case Grandparent => DefaultType(Grandparent, "Grandparent", "#F97316", Grandchild)
    case Grandchild => DefaultType(Grandchild, "Grandchild", "#FB923C", Grandparent)
    case AuntUncle => DefaultType(AuntUncle, "Aunt/Uncle", "#A855F7", NieceNephew)
    case NieceNephew => DefaultType(NieceNephew, "Niece/Nephew", "#D946EF", AuntUncle)
    case Cousin => DefaultType(Cousin, "Cousin", "#0EA5E9", Cousin)
    case StepParent => DefaultType(StepParent, "Step-Parent", "#EF4444", StepChild)
    case StepChild => DefaultType(StepChild, "Step-Child", "#F43F5E", StepParent)
    case ParentInLaw => DefaultType(ParentInLaw, "Parent-in-Law", "#22C55E", ChildInLaw)
    case ChildInLaw => DefaultType(ChildInLaw, "Child-in-Law", "#16A34A", ParentInLaw)
    case SiblingInLaw => DefaultType(SiblingInLaw, "Sibling-in-Law", "#06B6D4", SiblingInLaw)
    case Sibling => DefaultType(Sibling, "Sibling", "#8B5CF6", Sibling)
    case Spouse => DefaultType(Spouse, "Spouse", "#EC4899", Spouse)
    case Partner => DefaultType(Partner, "Partner", "#EC4899", Partner)
    case Friend => DefaultType(Friend, "Friend", "#3B82F6", Friend)
    case Colleague => DefaultType(Colleague, "Colleague", "#10B981", Colleague)
    case Acquaintance => DefaultType(Acquaintance, "Acquaintance", "#14B8A6", Acquaintance)
    case Other => DefaultType(Other, "Other", "#6B7280", Other)
  }

  /** The seed entries of a list of names, in the order of the list. */
  function SeedFrom(names: seq<DefaultName>): (r: seq<DefaultType>)
    ensures |r| == |names|
    ensures forall i :: 0 <= i < |names| ==> r[i] == SeedEntry(names[i])
  {
    if |names| == 0 then [] else [SeedEntry(names[0])] + SeedFrom(names[1..])
  }

  /** DEFAULT_RELATIONSHIP_TYPES, in declaration order. */
  const DefaultTypes: seq<DefaultType> := SeedFrom(DefaultNames)

  /** A table with one entry per canonical name, entry `i` being the one named `DefaultNames[i]`. */
  predicate SeedShape(table: seq<DefaultType>) {
    && |table| == |DefaultNames|
    && forall i :: 0 <= i < |table| ==> IndexOf(table[i].name) == i
  }

  predicate DistinctSeedNames(table: seq<DefaultType>) {
    forall i, j :: 0 <= i < j < |table| ==> table[i].name != table[j].name
  }

  lemma SeedEntryName(n: DefaultName)
    ensures SeedEntry(n).name == n
  {
  }

  /**
   * DEFAULT_RELATIONSHIP_TYPES is well shaped, and entry `i` is the seed
   * entry of its name: every lemma below stated for a well-shaped table
   * holds of `EnsureDefaults`.
   */
  lemma DefaultTypesShape()
    ensures SeedShape(DefaultTypes)
    ensures forall i :: 0 <= i < |DefaultTypes| ==> DefaultTypes[i] == SeedEntry(DefaultTypes[i].name)
  {
    DefaultNamesComplete();
    forall i | 0 <= i < |DefaultTypes|
      ensures IndexOf(DefaultTypes[i].name) == i && DefaultTypes[i] == SeedEntry(DefaultTypes[i].name)
    {
      IndexOfNameAt(i);
      SeedEntryName(DefaultNames[i]);
      assert DefaultTypes[i] == SeedEntry(DefaultNames[i]);
    }
  }

  /** In a well-shaped table names are distinct and every canonical name has its entry. */
  lemma SeedShapeFacts(table: seq<DefaultType>)
    requires SeedShape(table)
    ensures DistinctSeedNames(table)
    ensures forall n: DefaultName :: IndexOf(n) < |table| && table[IndexOf(n)].name == n
  {
    DefaultNamesComplete();
    forall i, j | 0 <= i < j < |table| ensures table[i].name != table[j].name {
      assert IndexOf(table[i].name) == i && IndexOf(table[j].name) == j;
    }
    forall n: DefaultName ensures IndexOf(n) < |table| && table[IndexOf(n)].name == n {
      RelationshipTypes.IndexOfInjective(table[IndexOf(n)].name, n);
    }
  }

  /**
   * The production table is the preloaded catalogue written differently:
   * same names in the same order, same labels and colours, and each entry's
   * inverse name is the preloaded entry's inverse (itself when symmetric).
   */
  lemma SeedAgreesWithPreloaded(n: DefaultName)
    ensures SeedEntry(n).name == RelationshipTypes.Preloaded(n).name
    ensures SeedEntry(n).displayLabel == RelationshipTypes.Preloaded(n).displayLabel
    ensures SeedEntry(n).color == RelationshipTypes.Preloaded(n).color
    ensures SeedEntry(n).inverseName == RelationshipTypes.InverseName(n)
  {
    RelationshipTypes.PreloadedIsEntry(n);
    SeedMatchesCatalogueEntry(n);
  }

  lemma SeedMatchesCatalogueEntry(n: DefaultName)
    ensures var p := RelationshipTypes.CatalogueEntry(n);
      && SeedEntry(n).name == p.name
      && SeedEntry(n).displayLabel == p.displayLabel
      && SeedEntry(n).color == p.color
      && SeedEntry(n).inverseName == (match p.inverse case Symmetric => n case InverseOf(m) => m)
  {
  }

  lemma SeedOrderAgreesWithPreloaded()
    ensures |DefaultTypes| == |RelationshipTypes.PreloadedTypes|
    ensures forall i :: 0 <= i < |DefaultTypes| ==> DefaultTypes[i].name == RelationshipTypes.PreloadedTypes[i].name
  {
    RelationshipTypes.PreloadedTableWellFormed();
    forall i | 0 <= i < |DefaultTypes| ensures DefaultTypes[i].name == RelationshipTypes.PreloadedTypes[i].name {
      SeedEntryName(DefaultNames[i]);
    }
  }

  /** The stored name of the legacy catch-all type. */
  const LegacyName: string := "RELATIVE"

  /** The colour the family types had before they got their own. */
  const LegacyFamilyColor: string := "#F59E0B"

  /** familyTypesNeedingColorUpdate. */
  predicate IsFamilyTypeNeedingColorUpdate(n: DefaultName) {
    n in {Grandparent, Grandchild, AuntUncle, NieceNephew, Cousin, StepParent, StepChild,
          ParentInLaw, ChildInLaw, SiblingInLaw}
  }

  /** No canonical name is spelled like the legacy type, so the cleanup never touches a default. */
  lemma LegacyNameNotDefault(n: DefaultName)
    ensures NameText(n) != LegacyName
  {
    LookupNameText(n);
  }

  /**
   * The legacy RELATIVE cleanup. `personUses` and `relationshipUses` are the
   * two usage counts the original obtains from the database; the user's
   * RELATIVE types are deleted only when both are zero.
   */
  function CleanupRelative(s: Store, userId: string, personUses: nat, relationshipUses: nat): (r: Store)
    ensures r.nextId == s.nextId
    ensures personUses > 0 || relationshipUses > 0 ==> r == s
    ensures personUses == 0 && relationshipUses == 0 ==>
              forall k :: k in r.records <==> k in s.records && !Owns(s, userId, k, LegacyName)
    ensures forall k :: k in r.records ==> r.records[k] == s.records[k]
    ensures Valid(s) ==> Valid(r)
  {
    if personUses > 0 || relationshipUses > 0 then s
    else DeleteNamed(s, userId, LegacyName)
  }

  /** What the routine remembers about each of the user's types. */
  datatype Entry = Entry(id: Id, inverseId: Option<Id>, color: Option<string>)

  /** typeMap: the user's types by stored name. */
  type TypeMap = map<string, Entry>

  function EntryFor(id: Id, rec: TypeRecord): Entry {
    Entry(id, rec.inverseId, rec.color)
  }

  /**
   * The name index over the ids below `n`, visited in ascending order; a
   * later type with the same name replaces an earlier one. Unnamed types
   * are left out: the routine only ever looks up default names.
   */
  function IndexUpTo(s: Store, userId: string, n: nat): TypeMap
    decreases n
  {
    if n == 0 then map[]
    else
      var m := IndexUpTo(s, userId, n - 1);
      var k := n - 1;
      if k in s.records && s.records[k].userId == userId && s.records[k].name.Some?
      then m[s.records[k].name.value := EntryFor(k, s.records[k])]
      else m
  }

  /** The name index the routine builds from the user's types. */
  function IndexByName(s: Store, userId: string): TypeMap {
    IndexUpTo(s, userId, s.nextId)
  }

  /** `tm` describes the current state of the user's types it points to. */
  predicate Agrees(s: Store, userId: string, tm: TypeMap) {
    forall key :: key in tm ==>
      Owns(s, userId, tm[key].id, key) && tm[key] == EntryFor(tm[key].id, s.records[tm[key].id])
  }

  /** `id` is the newest of the user's types named `key`. */
  ghost predicate IsLatest(s: Store, userId: string, key: string, id: Id) {
    Owns(s, userId, id, key) && forall k: Id :: Owns(s, userId, k, key) ==> k <= id
  }

  lemma {:induction false} IndexUpToSpec(s: Store, userId: string, n: nat, key: string)
    ensures var m := IndexUpTo(s, userId, n);
      && (key in m <==> exists k: Id :: k < n && Owns(s, userId, k, key))
      && (key in m ==>
            && m[key].id < n
            && Owns(s, userId, m[key].id, key)
            && m[key] == EntryFor(m[key].id, s.records[m[key].id])
            && forall k: Id :: k < n && Owns(s, userId, k, key) ==> k <= m[key].id)
    decreases n
  {
    if n > 0 {
      IndexUpToSpec(s, userId, n - 1, key);
      var m := IndexUpTo(s, userId, n);
      if Owns(s, userId, n - 1, key) {
        assert key in m;
      } else if key in m {
        var k: Id :| k < n - 1 && Owns(s, userId, k, key);
        assert k < n;
      }
    }
  }

  /**
   * The index holds exactly the names of the user's types, each pointing at
   * the newest type of that name and recording its current inverse and colour.
   */
  lemma IndexByNameSpec(s: Store, userId: string, key: string)
    requires Valid(s)
    ensures var m := IndexByName(s, userId);
      && (key in m <==> exists k: Id :: Owns(s, userId, k, key))
      && (key in m ==> IsLatest(s, userId, key, m[key].id) && m[key] == EntryFor(m[key].id, s.records[m[key].id]))
  {
    IndexUpToSpec(s, userId, s.nextId, key);
  }

  lemma IndexByNameAgrees(s: Store, userId: string)
    requires Valid(s)
    ensures Agrees(s, userId, IndexByName(s, userId))
  {
    forall key | key in IndexByName(s, userId)
      ensures Owns(s, userId, IndexByName(s, userId)[key].id, key)
      ensures IndexByName(s, userId)[key] == EntryFor(IndexByName(s, userId)[key].id, s.records[IndexByName(s, userId)[key].id])
    {
      IndexByNameSpec(s, userId, key);
    }
  }

  lemma NameTextInjective(n: DefaultName, m: DefaultName)
    requires NameText(n) == NameText(m)
    ensures n == m
  {
    LookupNameText(n);
    LookupNameText(m);
  }

  /** The table entries whose name the index does not know. */
  function Missing(table: seq<DefaultType>, tm: TypeMap): seq<DefaultType> {
    Filter(table, (t: DefaultType) => NameText(t.name) !in tm)
  }

  /** Create missing types: one new type per entry whose name is not yet indexed, counted. */
  function CreateMissing(s: Store, userId: string, table: seq<DefaultType>, tm: TypeMap): (r: (Store, TypeMap, nat))
    requires Valid(s)
    ensures Valid(r.0)
    decreases |table|
  {
    if |table| == 0 then (s, tm, 0)
    else
      var t := table[0];
      var key := NameText(t.name);
      if key in tm then CreateMissing(s, userId, table[1..], tm)
      else
        var (s1, id) := Create(s, userId, Some(key), t.displayLabel, Some(t.color));
        var (s2, tm2, count) := CreateMissing(s1, userId, table[1..], tm[key := Entry(id, None, Some(t.color))]);
        (s2, tm2, count + 1)
  }

  /**
   * Creation hands out consecutive fresh ids, keeps every existing record
   * and every existing index entry, and leaves every table name indexed.
   */
  lemma {:induction false} CreateMissingStore(s: Store, userId: string, table: seq<DefaultType>, tm: TypeMap)
    requires Valid(s)
    ensures var r := CreateMissing(s, userId, table, tm);
      && r.0.nextId == s.nextId + r.2
      && (forall k :: k in r.0.records <==> k in s.records || s.nextId <= k < r.0.nextId)
      && (forall k :: k in s.records ==> r.0.records[k] == s.records[k])
      && (forall key :: key in tm ==> key in r.1 && r.1[key] == tm[key])
      && (forall i :: 0 <= i < |table| ==> NameText(table[i].name) in r.1)
    decreases |table|
  {
    if |table| > 0 {
      var t := table[0];
      var key := NameText(t.name);
      if key in tm {
        CreateMissingStore(s, userId, table[1..], tm);
      } else {
        var (s1, id) := Create(s, userId, Some(key), t.displayLabel, Some(t.color));
        CreateMissingStore(s1, userId, table[1..], tm[key := Entry(id, None, Some(t.color))]);
      }
      var r := CreateMissing(s, userId, table, tm);
      forall i | 0 <= i < |table| ensures NameText(table[i].name) in r.1 {
        if i > 0 {
          assert table[i] == table[1..][i - 1];
        }
      }
    }
  }

  /** The index after creation still describes the store truthfully. */
  lemma {:induction false} CreateMissingAgrees(s: Store, userId: string, table: seq<DefaultType>, tm: TypeMap)
    requires Valid(s)
    requires Agrees(s, userId, tm)
    ensures var r := CreateMissing(s, userId, table, tm); Agrees(r.0, userId, r.1)
    decreases |table|
  {
    if |table| > 0 {
      var t := table[0];
      var key := NameText(t.name);
      if key in tm {
        CreateMissingAgrees(s, userId, table[1..], tm);
      } else {
        var (s1, id) := Create(s, userId, Some(key), t.displayLabel, Some(t.color));
        var tm1 := tm[key := Entry(id, None, Some(t.color))];
        assert Agrees(s1, userId, tm1) by {
          forall k | k in tm1 ensures Owns(s1, userId, tm1[k].id, k) && tm1[k] == EntryFor(tm1[k].id, s1.records[tm1[k].id]) {
            if k != key {
              assert tm[k].id in s.records;
            }
          }
        }
        CreateMissingAgrees(s1, userId, table[1..], tm1);
      }
    }
  }

  /** createdCount is the number of table entries whose name was not indexed. */
  lemma {:induction false} CreateMissingCount(s: Store, userId: string, table: seq<DefaultType>, tm: TypeMap)
    requires Valid(s)
    requires DistinctSeedNames(table)
    ensures CreateMissing(s, userId, table, tm).2 == |Missing(table, tm)|
    decreases |table|
  {
    if |table| > 0 {
      var t := table[0];
      var key := NameText(t.name);
      var rest := table[1..];
      assert DistinctSeedNames(rest);
      if key in tm {
        CreateMissingCount(s, userId, rest, tm);
      } else {
        var (s1, id) := Create(s, userId, Some(key), t.displayLabel, Some(t.color));
        var tm1 := tm[key := Entry(id, None, Some(t.color))];
        CreateMissingCount(s1, userId, rest, tm1);
        forall i | 0 <= i < |rest| ensures (NameText(rest[i].name) !in tm1) == (NameText(rest[i].name) !in tm) {
          assert rest[i] == table[i + 1];
          if NameText(rest[i].name) == key {
            NameTextInjective(rest[i].name, t.name);
          }
        }
        FilterCongruent(rest, (t: DefaultType) => NameText(t.name) !in tm1, (t: DefaultType) => NameText(t.name) !in tm);
      }
    }
  }

  /** A table entry whose name was missing gets a fresh type carrying its default data. */
  lemma {:induction false} CreateMissingNew(s: Store, userId: string, table: seq<DefaultType>, tm: TypeMap, i: nat)
    requires Valid(s)
    requires DistinctSeedNames(table)
    requires i < |table| && NameText(table[i].name) !in tm
    ensures var r := CreateMissing(s, userId, table, tm);
      && var key := NameText(table[i].name);
      && key in r.1
      && s.nextId <= r.1[key].id < r.0.nextId
      && r.1[key].id in r.0.records
      && r.1[key] == Entry(r.1[key].id, None, Some(table[i].color))
      && r.0.records[r.1[key].id] == TypeRecord(userId, Some(key), table[i].displayLabel, Some(table[i].color), None)
    decreases |table|
  {
    var t := table[0];
    var key0 := NameText(t.name);
    var rest := table[1..];
    assert DistinctSeedNames(rest);
    CreateMissingStore(s, userId, table, tm);
    if key0 in tm {
      assert rest[i - 1] == table[i];
      CreateMissingNew(s, userId, rest, tm, i - 1);
    } else {
      var (s1, id) := Create(s, userId, Some(key0), t.displayLabel, Some(t.color));
      var tm1 := tm[key0 := Entry(id, None, Some(t.color))];
      CreateMissingStore(s1, userId, rest, tm1);
      if i > 0 {
        assert rest[i - 1] == table[i];
        if NameText(table[i].name) == key0 {
          NameTextInjective(table[i].name, t.name);
        }
        CreateMissingNew(s1, userId, rest, tm1, i - 1);
      }
    }
  }

  /** Every fresh id belongs to the new type of some missing table entry. */
  lemma {:induction false} CreateMissingCovers(s: Store, userId: string, table: seq<DefaultType>, tm: TypeMap, k: Id)
    requires Valid(s)
    requires s.nextId <= k < CreateMissing(s, userId, table, tm).0.nextId
    ensures var r := CreateMissing(s, userId, table, tm);
      exists i :: 0 <= i < |table| && NameText(table[i].name) !in tm && NameText(table[i].name) in r.1
                 && r.1[NameText(table[i].name)].id == k
    decreases |table|
  {
    CreateMissingStore(s, userId, table, tm);
    var r := CreateMissing(s, userId, table, tm);
    var t := table[0];
    var key0 := NameText(t.name);
    var rest := table[1..];
    if key0 in tm {
      CreateMissingCovers(s, userId, rest, tm, k);
      var i :| 0 <= i < |rest| && NameText(rest[i].name) !in tm && NameText(rest[i].name) in r.1
               && r.1[NameText(rest[i].name)].id == k;
      assert rest[i] == table[i + 1];
    } else {
      var (s1, id) := Create(s, userId, Some(key0), t.displayLabel, Some(t.color));
      var tm1 := tm[key0 := Entry(id, None, Some(t.color))];
      CreateMissingStore(s1, userId, rest, tm1);
      if k == s.nextId {
        assert r.1[key0] == tm1[key0];
      } else {
        CreateMissingCovers(s1, userId, rest, tm1, k);
        var i :| 0 <= i < |rest| && NameText(rest[i].name) !in tm1 && NameText(rest[i].name) in r.1
                 && r.1[NameText(rest[i].name)].id == k;
        assert rest[i] == table[i + 1];
      }
    }
  }

  /** Distinct names in the index point at distinct types. */
  predicate IdsInjective(tm: TypeMap) {
    forall a, b :: a in tm && b in tm && a != b ==> tm[a].id != tm[b].id
  }

  /** The index entry of some table entry points at type `k`. */
  predicate Touches(table: seq<DefaultType>, tm: TypeMap, k: Id) {
    exists i :: 0 <= i < |table| && NameText(table[i].name) in tm && tm[NameText(table[i].name)].id == k
  }

  /**
   * The inverse the back-fill writes for entry `t`: only when both the type
   * and its inverse are indexed and the type has no inverse yet.
   */
  function InverseToSet(t: DefaultType, tm: TypeMap): (r: Option<Id>)
    ensures r.Some? ==> NameText(t.name) in tm && tm[NameText(t.name)].inverseId.None?
    ensures r.Some? <==> NameText(t.name) in tm && NameText(t.inverseName) in tm && tm[NameText(t.name)].inverseId.None?
    ensures r.Some? ==> r.value == tm[NameText(t.inverseName)].id
  {
    var key := NameText(t.name);
    var inv := NameText(t.inverseName);
    if key in tm && inv in tm && tm[key].inverseId.None? then Some(tm[inv].id) else None
  }

  /** Set inverse relationships where not set. */
  function BackfillInverses(s: Store, table: seq<DefaultType>, tm: TypeMap): (r: Store)
    requires forall key :: key in tm ==> tm[key].id in s.records
    ensures r.records.Keys == s.records.Keys && r.nextId == s.nextId
    ensures forall k :: k in s.records ==>
              SameIdentity(r.records[k], s.records[k]) && r.records[k].color == s.records[k].color
    decreases |table|
  {
    if |table| == 0 then s
    else
      var t := table[0];
      var inv := InverseToSet(t, tm);
      var s1 := if inv.Some? then SetInverse(s, tm[NameText(t.name)].id, inv.value) else s;
      BackfillInverses(s1, table[1..], tm)
  }

  /** The type of indexed table entry `i` ends up with exactly its back-filled inverse. */
  lemma {:induction false} BackfillInversesAt(s: Store, table: seq<DefaultType>, tm: TypeMap, i: nat)
    requires forall key :: key in tm ==> tm[key].id in s.records
    requires DistinctSeedNames(table)
    requires IdsInjective(tm)
    requires i < |table| && NameText(table[i].name) in tm
    ensures var id := tm[NameText(table[i].name)].id;
      BackfillInverses(s, table, tm).records[id] == RelationshipTypes.WithInverse(s.records[id], InverseToSet(table[i], tm))
    decreases |table|
  {
    var t := table[0];
    var rest := table[1..];
    assert DistinctSeedNames(rest);
    var v := InverseToSet(t, tm);
    var s1 := if v.Some? then SetInverse(s, tm[NameText(t.name)].id, v.value) else s;
    if i == 0 {
      forall k | k in s1.records && Touches(rest, tm, k) ensures k != tm[NameText(t.name)].id {
        var j :| 0 <= j < |rest| && NameText(rest[j].name) in tm && tm[NameText(rest[j].name)].id == k;
        assert rest[j] == table[j + 1];
        if NameText(rest[j].name) == NameText(t.name) {
          NameTextInjective(rest[j].name, t.name);
        }
      }
      BackfillInversesOthers(s1, rest, tm, tm[NameText(t.name)].id);
    } else {
      assert table[i] == rest[i - 1];
      if NameText(table[i].name) == NameText(t.name) {
        NameTextInjective(table[i].name, t.name);
      }
      BackfillInversesAt(s1, rest, tm, i - 1);
    }
  }

  /** A type no table entry's index entry points at is left alone. */
  lemma {:induction false} BackfillInversesOthers(s: Store, table: seq<DefaultType>, tm: TypeMap, k: Id)
    requires forall key :: key in tm ==> tm[key].id in s.records
    requires k in s.records && !Touches(table, tm, k)
    ensures BackfillInverses(s, table, tm).records[k] == s.records[k]
    decreases |table|
  {
    if |table| > 0 {
      var t := table[0];
      var rest := table[1..];
      var v := InverseToSet(t, tm);
      var s1 := if v.Some? then SetInverse(s, tm[NameText(t.name)].id, v.value) else s;
      BackfillInversesOthers(s1, rest, tm, k);
    }
  }

  /**
   * The colour the migration writes for entry `t`: only when the indexed
   * type's colour differs from the default and is blank, or is the legacy
   * family colour on a family type.
   */
  function ColorToSet(t: DefaultType, tm: TypeMap): (r: Option<string>)
    ensures r.Some? <==>
              && NameText(t.name) in tm
              && tm[NameText(t.name)].color != Some(t.color)
              && (!Truthy(tm[NameText(t.name)].color)
                  || (IsFamilyTypeNeedingColorUpdate(t.name) && tm[NameText(t.name)].color == Some(LegacyFamilyColor)))
    ensures r.Some? ==> r.value == t.color
  {
    var key := NameText(t.name);
    if key !in tm || tm[key].color == Some(t.color) then None
    else if !Truthy(tm[key].color) || (IsFamilyTypeNeedingColorUpdate(t.name) && tm[key].color == Some(LegacyFamilyColor))
    then Some(t.color)
    else None
  }

  /** A record after the migration has (or has not) given it a new colour. */
  function WithColor(rec: TypeRecord, color: Option<string>): TypeRecord {
    if color.Some? then rec.(color := color) else rec
  }

  /** Migrate blank and legacy family colours to the defaults. */
  function MigrateColors(s: Store, table: seq<DefaultType>, tm: TypeMap): (r: Store)
    requires forall key :: key in tm ==> tm[key].id in s.records
    ensures r.records.Keys == s.records.Keys && r.nextId == s.nextId
    ensures forall k :: k in s.records ==>
              SameIdentity(r.records[k], s.records[k]) && r.records[k].inverseId == s.records[k].inverseId
    decreases |table|
  {
    if |table| == 0 then s
    else
      var t := table[0];
      var color := ColorToSet(t, tm);
      var s1 := if color.Some? then SetColor(s, tm[NameText(t.name)].id, color.value) else s;
      MigrateColors(s1, table[1..], tm)
  }

  /** The type of indexed table entry `i` ends up with exactly its migrated colour. */
  lemma {:induction false} MigrateColorsAt(s: Store, table: seq<DefaultType>, tm: TypeMap, i: nat)
    requires forall key :: key in tm ==> tm[key].id in s.records
    requires DistinctSeedNames(table)
    requires IdsInjective(tm)
    requires i < |table| && NameText(table[i].name) in tm
    ensures var id := tm[NameText(table[i].name)].id;
      MigrateColors(s, table, tm).records[id] == WithColor(s.records[id], ColorToSet(table[i], tm))
    decreases |table|
  {
    var t := table[0];
    var rest := table[1..];
    assert DistinctSeedNames(rest);
    var v := ColorToSet(t, tm);
    var s1 := if v.Some? then SetColor(s, tm[NameText(t.name)].id, v.value) else s;
    if i == 0 {
      forall k | k in s1.records && Touches(rest, tm, k) ensures k != tm[NameText(t.name)].id {
        var j :| 0 <= j < |rest| && NameText(rest[j].name) in tm && tm[NameText(rest[j].name)].id == k;
        assert rest[j] == table[j + 1];
        if NameText(rest[j].name) == NameText(t.name) {
          NameTextInjective(rest[j].name, t.name);
        }
      }
      MigrateColorsOthers(s1, rest, tm, tm[NameText(t.name)].id);
    } else {
      assert table[i] == rest[i - 1];
      if NameText(table[i].name) == NameText(t.name) {
        NameTextInjective(table[i].name, t.name);
      }
      MigrateColorsAt(s1, rest, tm, i - 1);
    }
  }

  /** A type no table entry's index entry points at is left alone. */
  lemma {:induction false} MigrateColorsOthers(s: Store, table: seq<DefaultType>, tm: TypeMap, k: Id)
    requires forall key :: key in tm ==> tm[key].id in s.records
    requires k in s.records && !Touches(table, tm, k)
    ensures MigrateColors(s, table, tm).records[k] == s.records[k]
    decreases |table|
  {
    if |table| > 0 {
      var t := table[0];
      var rest := table[1..];
      var v := ColorToSet(t, tm);
      var s1 := if v.Some? then SetColor(s, tm[NameText(t.name)].id, v.value) else s;
      MigrateColorsOthers(s1, rest, tm, k);
    }
  }


  /** The stages of one run of the repair pass. */
  datatype Run = Run(
    cleaned: Store,
    index: TypeMap,
    created: Store,
    indexAfterCreate: TypeMap,
    createdCount: nat,
    linked: Store,
    final: Store)

  lemma AgreesInjective(s: Store, userId: string, tm: TypeMap)
    requires Agrees(s, userId, tm)
    ensures IdsInjective(tm)
  {
  }

  /** The stages of `createDefaultRelationshipTypes` over a given table. */
  function RunPass(s: Store, userId: string, personUses: nat, relationshipUses: nat, table: seq<DefaultType>): (run: Run)
    requires Valid(s)
    ensures Valid(run.cleaned) && Valid(run.created)
    ensures run.index == IndexByName(run.cleaned, userId)
    ensures Agrees(run.created, userId, run.indexAfterCreate)
    ensures run.linked.records.Keys == run.created.records.Keys && run.final.records.Keys == run.created.records.Keys
    ensures run.final.nextId == run.created.nextId
    ensures forall k :: k in run.created.records ==> SameIdentity(run.final.records[k], run.created.records[k])
  {
    var s0 := CleanupRelative(s, userId, personUses, relationshipUses);
    var tm0 := IndexByName(s0, userId);
    IndexByNameAgrees(s0, userId);
    CreateMissingAgrees(s0, userId, table, tm0);
    var r1 := CreateMissing(s0, userId, table, tm0);
    var s2 := BackfillInverses(r1.0, table, r1.1);
    var s3 := MigrateColors(s2, table, r1.1);
    Run(s0, tm0, r1.0, r1.1, r1.2, s2, s3)
  }

  /** `createDefaultRelationshipTypes` over a given table: the repaired store and `createdCount`. */
  function EnsureDefaultsWith(s: Store, userId: string, personUses: nat, relationshipUses: nat, table: seq<DefaultType>)
    : (r: (Store, nat))
    requires Valid(s)
    ensures Valid(r.0)
  {
    var run := RunPass(s, userId, personUses, relationshipUses, table);
    (run.final, run.createdCount)
  }

  /** createDefaultRelationshipTypes(userId): the repair pass over DEFAULT_RELATIONSHIP_TYPES. */
  function EnsureDefaults(s: Store, userId: string, personUses: nat, relationshipUses: nat): (r: (Store, nat))
    requires Valid(s)
    ensures Valid(r.0)
  {
    EnsureDefaultsWith(s, userId, personUses, relationshipUses, DefaultTypes)
  }

  /** Every table name is indexed after creation (the index covers the whole table). */
  lemma RunCovers(s: Store, userId: string, personUses: nat, relationshipUses: nat, table: seq<DefaultType>)
    requires Valid(s)
    ensures var run := RunPass(s, userId, personUses, relationshipUses, table);
      && (forall i :: 0 <= i < |table| ==> NameText(table[i].name) in run.indexAfterCreate)
      && run.created.nextId == run.cleaned.nextId + run.createdCount
      && (forall k :: k in run.created.records <==> k in run.cleaned.records || run.cleaned.nextId <= k < run.created.nextId)
      && (forall k :: k in run.cleaned.records ==> run.created.records[k] == run.cleaned.records[k])
      && (forall key :: key in run.index ==> key in run.indexAfterCreate && run.indexAfterCreate[key] == run.index[key])
  {
    var run := RunPass(s, userId, personUses, relationshipUses, table);
    CreateMissingStore(run.cleaned, userId, table, run.index);
  }

  /** The type of table entry `i` after the run: its state after creation, back-filled, then recoloured. */
  lemma RunAt(s: Store, userId: string, personUses: nat, relationshipUses: nat, table: seq<DefaultType>, i: nat)
    requires Valid(s)
    requires DistinctSeedNames(table)
    requires i < |table|
    ensures var run := RunPass(s, userId, personUses, relationshipUses, table);
      && var tm := run.indexAfterCreate;
      && NameText(table[i].name) in tm
      && var id := tm[NameText(table[i].name)].id;
      && id in run.created.records
      && run.final.records[id]
         == WithColor(RelationshipTypes.WithInverse(run.created.records[id], InverseToSet(table[i], tm)), ColorToSet(table[i], tm))
  {
    var run := RunPass(s, userId, personUses, relationshipUses, table);
    var tm := run.indexAfterCreate;
    RunCovers(s, userId, personUses, relationshipUses, table);
    AgreesInjective(run.created, userId, tm);
    BackfillInversesAt(run.created, table, tm, i);
    MigrateColorsAt(run.linked, table, tm, i);
  }

  /** Types no table entry's index entry points at keep their state after creation. */
  lemma RunOthers(s: Store, userId: string, personUses: nat, relationshipUses: nat, table: seq<DefaultType>, k: Id)
    requires Valid(s)
    ensures var run := RunPass(s, userId, personUses, relationshipUses, table);
      k in run.created.records && !Touches(table, run.indexAfterCreate, k) ==>
        run.final.records[k] == run.created.records[k]
  {
    var run := RunPass(s, userId, personUses, relationshipUses, table);
    if k in run.created.records && !Touches(table, run.indexAfterCreate, k) {
      BackfillInversesOthers(run.created, table, run.indexAfterCreate, k);
      MigrateColorsOthers(run.linked, table, run.indexAfterCreate, k);
    }
  }

  /** The user owns at least one type named `key`. */
  ghost predicate HasType(s: Store, userId: string, key: string) {
    exists k: Id :: Owns(s, userId, k, key)
  }

  /** A type some table entry's index entry points at belongs to the user. */
  lemma TouchedIsOwned(s: Store, userId: string, table: seq<DefaultType>, tm: TypeMap, k: Id)
    requires Agrees(s, userId, tm)
    requires Touches(table, tm, k)
    ensures k in s.records && s.records[k].userId == userId
    ensures exists i :: 0 <= i < |table| && NameText(table[i].name) in tm && tm[NameText(table[i].name)].id == k
                        && s.records[k].name == Some(NameText(table[i].name))
  {
  }

  /** Types of other users are neither deleted nor changed. */
  lemma EnsureDefaultsOthersUntouched(s: Store, userId: string, personUses: nat, relationshipUses: nat, table: seq<DefaultType>)
    requires Valid(s)
    ensures var r := EnsureDefaultsWith(s, userId, personUses, relationshipUses, table);
      forall k :: k in s.records && s.records[k].userId != userId ==> k in r.0.records && r.0.records[k] == s.records[k]
  {
    var run := RunPass(s, userId, personUses, relationshipUses, table);
    RunCovers(s, userId, personUses, relationshipUses, table);
    forall k | k in s.records && s.records[k].userId != userId
      ensures k in run.final.records && run.final.records[k] == s.records[k]
    {
      RunOthers(s, userId, personUses, relationshipUses, table, k);
      if Touches(table, run.indexAfterCreate, k) {
        TouchedIsOwned(run.created, userId, table, run.indexAfterCreate, k);
      }
    }
  }

  /**
   * The store afterwards: the old types minus the user's RELATIVE types when
   * those were unused, plus `createdCount` fresh ones; every surviving type
   * keeps its owner, name and label.
   */
  lemma EnsureDefaultsShape(s: Store, userId: string, personUses: nat, relationshipUses: nat, table: seq<DefaultType>)
    requires Valid(s)
    ensures var r := EnsureDefaultsWith(s, userId, personUses, relationshipUses, table);
      && r.0.nextId == s.nextId + r.1
      && (forall k :: k in r.0.records <==>
            (k in s.records && !(personUses == 0 && relationshipUses == 0 && Owns(s, userId, k, LegacyName)))
            || s.nextId <= k < r.0.nextId)
      && (forall k :: k in s.records && k in r.0.records ==> SameIdentity(r.0.records[k], s.records[k]))
  {
    var run := RunPass(s, userId, personUses, relationshipUses, table);
    RunCovers(s, userId, personUses, relationshipUses, table);
  }

  /** createdCount is the number of table entries whose name the user had no type for (after the cleanup). */
  lemma EnsureDefaultsCount(s: Store, userId: string, personUses: nat, relationshipUses: nat, table: seq<DefaultType>)
    requires Valid(s)
    requires SeedShape(table)
    ensures var cleaned := CleanupRelative(s, userId, personUses, relationshipUses);
      EnsureDefaultsWith(s, userId, personUses, relationshipUses, table).1
      == |Filter(table, (t: DefaultType) => !HasType(cleaned, userId, NameText(t.name)))|
  {
    var run := RunPass(s, userId, personUses, relationshipUses, table);
    SeedShapeFacts(table);
    CreateMissingCount(run.cleaned, userId, table, run.index);
    forall i | 0 <= i < |table|
      ensures (NameText(table[i].name) !in run.index) == !HasType(run.cleaned, userId, NameText(table[i].name))
    {
      IndexByNameSpec(run.cleaned, userId, NameText(table[i].name));
    }
    FilterCongruent(table, (t: DefaultType) => NameText(t.name) !in run.index,
                    (t: DefaultType) => !HasType(run.cleaned, userId, NameText(t.name)));
  }

  /** Afterwards the user owns a type of every default name. */
  lemma EnsureDefaultsComplete(s: Store, userId: string, personUses: nat, relationshipUses: nat, table: seq<DefaultType>)
    requires Valid(s)
    requires SeedShape(table)
    ensures var r := EnsureDefaultsWith(s, userId, personUses, relationshipUses, table);
      forall n: DefaultName :: HasType(r.0, userId, NameText(n))
  {
    var run := RunPass(s, userId, personUses, relationshipUses, table);
    SeedShapeFacts(table);
    RunCovers(s, userId, personUses, relationshipUses, table);
    forall n: DefaultName ensures HasType(run.final, userId, NameText(n)) {
      var id := run.indexAfterCreate[NameText(table[IndexOf(n)].name)].id;
      assert Owns(run.final, userId, id, NameText(n));
    }
  }

  /**
   * What the run does to one existing type that survives it: nothing, or,
   * when it is the indexed type of some table entry, a back-fill and a
   * recolouring decided from the type's own inverse and colour.
   */
  lemma RunOnOldType(s: Store, userId: string, personUses: nat, relationshipUses: nat, table: seq<DefaultType>, k: Id)
    requires Valid(s)
    requires SeedShape(table)
    requires k in s.records
    ensures var run := RunPass(s, userId, personUses, relationshipUses, table);
      var tm := run.indexAfterCreate;
      k in run.final.records ==>
      || run.final.records[k] == s.records[k]
      || exists i :: 0 <= i < |table| && NameText(table[i].name) in tm
           && tm[NameText(table[i].name)] == EntryFor(k, s.records[k])
           && s.records[k].name == Some(NameText(table[i].name))
           && run.final.records[k]
              == WithColor(RelationshipTypes.WithInverse(s.records[k], InverseToSet(table[i], tm)),
                           ColorToSet(table[i], tm))
  {
    var run := RunPass(s, userId, personUses, relationshipUses, table);
    var tm := run.indexAfterCreate;
    SeedShapeFacts(table);
    RunCovers(s, userId, personUses, relationshipUses, table);
    RunOthers(s, userId, personUses, relationshipUses, table, k);
    if k in run.final.records && Touches(table, tm, k) {
      TouchedIsOwned(run.created, userId, table, tm, k);
      var i :| 0 <= i < |table| && NameText(table[i].name) in tm && tm[NameText(table[i].name)].id == k
               && run.created.records[k].name == Some(NameText(table[i].name));
      RunAt(s, userId, personUses, relationshipUses, table, i);
    }
  }

  /** A type the user owns after creation is still theirs, under the same name, at the end of the run. */
  lemma OwnsAfterRun(s: Store, userId: string, personUses: nat, relationshipUses: nat, table: seq<DefaultType>, id: Id, key: string)
    requires Valid(s)
    requires Owns(RunPass(s, userId, personUses, relationshipUses, table).created, userId, id, key)
    ensures Owns(RunPass(s, userId, personUses, relationshipUses, table).final, userId, id, key)
  {
  }

  /** An inverse link that was already set is never overwritten. */
  lemma EnsureDefaultsKeepsInverse(s: Store, userId: string, personUses: nat, relationshipUses: nat, table: seq<DefaultType>, k: Id)
    requires Valid(s)
    requires SeedShape(table)
    requires k in s.records && s.records[k].inverseId.Some?
    ensures var r := EnsureDefaultsWith(s, userId, personUses, relationshipUses, table);
      k in r.0.records ==> r.0.records[k].inverseId == s.records[k].inverseId
  {
    RunOnOldType(s, userId, personUses, relationshipUses, table, k);
  }

  /** The inverse the back-fill writes points at the user's indexed type of the inverse name. */
  lemma WrittenInverseIsOwned(created: Store, final: Store, userId: string, tm: TypeMap, t: DefaultType, k: Id, rec: TypeRecord)
    requires Agrees(created, userId, tm)
    requires forall id :: id in created.records ==> id in final.records && SameIdentity(final.records[id], created.records[id])
    requires k in final.records
    requires final.records[k] == WithColor(RelationshipTypes.WithInverse(rec, InverseToSet(t, tm)), ColorToSet(t, tm))
    requires final.records[k].inverseId != rec.inverseId
    ensures final.records[k].inverseId.Some?
    ensures Owns(final, userId, final.records[k].inverseId.value, NameText(t.inverseName))
  {
    var inv := tm[NameText(t.inverseName)].id;
    assert Owns(created, userId, inv, NameText(t.inverseName));
  }

  /** An inverse link the run writes goes to a type of the user named after the entry's inverse name. */
  lemma EnsureDefaultsInverseTarget(s: Store, userId: string, personUses: nat, relationshipUses: nat, table: seq<DefaultType>, k: Id)
    requires Valid(s)
    requires SeedShape(table)
    requires k in s.records
    ensures var r := EnsureDefaultsWith(s, userId, personUses, relationshipUses, table);
      k in r.0.records && r.0.records[k].inverseId != s.records[k].inverseId ==>
        && r.0.records[k].inverseId.Some?
        && exists i :: 0 <= i < |table| && s.records[k].name == Some(NameText(table[i].name))
             && Owns(r.0, userId, r.0.records[k].inverseId.value, NameText(table[i].inverseName))
  {
    var run := RunPass(s, userId, personUses, relationshipUses, table);
    var tm := run.indexAfterCreate;
    RunOnOldType(s, userId, personUses, relationshipUses, table, k);
    if k in run.final.records && run.final.records[k].inverseId != s.records[k].inverseId {
      var i :| 0 <= i < |table| && NameText(table[i].name) in tm
           && tm[NameText(table[i].name)] == EntryFor(k, s.records[k])
           && s.records[k].name == Some(NameText(table[i].name))
           && run.final.records[k]
              == WithColor(RelationshipTypes.WithInverse(s.records[k], InverseToSet(table[i], tm)),
                           ColorToSet(table[i], tm));
      WrittenInverseIsOwned(run.created, run.final, userId, tm, table[i], k, s.records[k]);
    }
  }

  /**
   * A colour changes only from blank, or from the legacy family colour on a
   * family type, and only to the default colour of the type's name.
   */
  lemma EnsureDefaultsColorRule(s: Store, userId: string, personUses: nat, relationshipUses: nat, table: seq<DefaultType>, k: Id)
    requires Valid(s)
    requires SeedShape(table)
    requires k in s.records
    ensures var r := EnsureDefaultsWith(s, userId, personUses, relationshipUses, table);
      k in r.0.records && r.0.records[k].color != s.records[k].color ==>
        exists i :: 0 <= i < |table|
          && s.records[k].name == Some(NameText(table[i].name))
          && r.0.records[k].color == Some(table[i].color)
          && (!Truthy(s.records[k].color)
              || (IsFamilyTypeNeedingColorUpdate(table[i].name) && s.records[k].color == Some(LegacyFamilyColor)))
  {
    RunOnOldType(s, userId, personUses, relationshipUses, table, k);
  }

  /**
   * Every type the run creates is the default of a name the user had no
   * type for: it carries that default's name, label and colour, and its
   * inverse link points at the user's type of the default's inverse name.
   */
  lemma EnsureDefaultsNewTypes(s: Store, userId: string, personUses: nat, relationshipUses: nat, table: seq<DefaultType>, k: Id)
    requires Valid(s)
    requires SeedShape(table)
    ensures var r := EnsureDefaultsWith(s, userId, personUses, relationshipUses, table);
      s.nextId <= k < r.0.nextId ==>
      && k in r.0.records
      && exists i :: 0 <= i < |table|
           && !HasType(CleanupRelative(s, userId, personUses, relationshipUses), userId, NameText(table[i].name))
           && r.0.records[k].userId == userId
           && r.0.records[k].name == Some(NameText(table[i].name))
           && r.0.records[k].displayLabel == table[i].displayLabel
           && r.0.records[k].color == Some(table[i].color)
           && r.0.records[k].inverseId.Some?
           && Owns(r.0, userId, r.0.records[k].inverseId.value, NameText(table[i].inverseName))
  {
    var run := RunPass(s, userId, personUses, relationshipUses, table);
    var tm := run.indexAfterCreate;
    RunCovers(s, userId, personUses, relationshipUses, table);
    if s.nextId <= k < run.final.nextId {
      CreateMissingCovers(run.cleaned, userId, table, run.index, k);
      var i :| 0 <= i < |table| && NameText(table[i].name) !in run.index
               && NameText(table[i].name) in tm && tm[NameText(table[i].name)].id == k;
      NewTypeAt(s, userId, personUses, relationshipUses, table, i);
    }
  }

  /** The new type of a missing table entry, at the end of the run. */
  lemma NewTypeAt(s: Store, userId: string, personUses: nat, relationshipUses: nat, table: seq<DefaultType>, i: nat)
    requires Valid(s)
    requires SeedShape(table)
    requires i < |table|
    requires NameText(table[i].name) !in RunPass(s, userId, personUses, relationshipUses, table).index
    ensures var run := RunPass(s, userId, personUses, relationshipUses, table);
      && var t := table[i];
      && var tm := run.indexAfterCreate;
      && NameText(t.name) in tm && NameText(t.inverseName) in tm
      && var k := tm[NameText(t.name)].id;
      && k in run.final.records
      && run.final.records[k]
         == TypeRecord(userId, Some(NameText(t.name)), t.displayLabel, Some(t.color), Some(tm[NameText(t.inverseName)].id))
      && Owns(run.final, userId, tm[NameText(t.inverseName)].id, NameText(t.inverseName))
      && !HasType(run.cleaned, userId, NameText(t.name))
  {
    var run := RunPass(s, userId, personUses, relationshipUses, table);
    var tm := run.indexAfterCreate;
    var t := table[i];
    SeedShapeFacts(table);
    RunCovers(s, userId, personUses, relationshipUses, table);
    IndexByNameSpec(run.cleaned, userId, NameText(t.name));
    CreateMissingNew(run.cleaned, userId, table, run.index, i);
    RunAt(s, userId, personUses, relationshipUses, table, i);
    assert NameText(table[IndexOf(t.inverseName)].name) in tm;
    NewTypeSettled(run.created, run.final, userId, tm, t, tm[NameText(t.name)].id);
  }

  /** A freshly created type ends the run linked to its inverse and still in its default colour. */
  lemma NewTypeSettled(created: Store, final: Store, userId: string, tm: TypeMap, t: DefaultType, k: Id)
    requires Agrees(created, userId, tm)
    requires forall id :: id in created.records ==> id in final.records && SameIdentity(final.records[id], created.records[id])
    requires NameText(t.name) in tm && tm[NameText(t.name)].id == k && NameText(t.inverseName) in tm
    requires k in created.records
    requires created.records[k] == TypeRecord(userId, Some(NameText(t.name)), t.displayLabel, Some(t.color), None)
    requires k in final.records
    requires final.records[k] == WithColor(RelationshipTypes.WithInverse(created.records[k], InverseToSet(t, tm)), ColorToSet(t, tm))
    ensures final.records[k]
         == TypeRecord(userId, Some(NameText(t.name)), t.displayLabel, Some(t.color), Some(tm[NameText(t.inverseName)].id))
    ensures Owns(final, userId, tm[NameText(t.inverseName)].id, NameText(t.inverseName))
  {
    assert Owns(created, userId, tm[NameText(t.inverseName)].id, NameText(t.inverseName));
  }

  /** With every table name already indexed, creation does nothing. */
  lemma {:induction false} CreateMissingNoneMissing(s: Store, userId: string, table: seq<DefaultType>, tm: TypeMap)
    requires Valid(s)
    requires forall i :: 0 <= i < |table| ==> NameText(table[i].name) in tm
    ensures CreateMissing(s, userId, table, tm) == (s, tm, 0)
    decreases |table|
  {
    if |table| > 0 {
      assert forall i :: 0 <= i < |table[1..]| ==> table[1..][i] == table[i + 1];
      CreateMissingNoneMissing(s, userId, table[1..], tm);
    }
  }

  /** With no inverse to write for any entry, the back-fill does nothing. */
  lemma {:induction false} BackfillInversesNoop(s: Store, table: seq<DefaultType>, tm: TypeMap)
    requires forall key :: key in tm ==> tm[key].id in s.records
    requires forall i :: 0 <= i < |table| ==> InverseToSet(table[i], tm).None?
    ensures BackfillInverses(s, table, tm) == s
    decreases |table|
  {
    if |table| > 0 {
      assert forall i :: 0 <= i < |table[1..]| ==> table[1..][i] == table[i + 1];
      BackfillInversesNoop(s, table[1..], tm);
    }
  }

  /** With no colour to write for any entry, the migration does nothing. */
  lemma {:induction false} MigrateColorsNoop(s: Store, table: seq<DefaultType>, tm: TypeMap)
    requires forall key :: key in tm ==> tm[key].id in s.records
    requires forall i :: 0 <= i < |table| ==> ColorToSet(table[i], tm).None?
    ensures MigrateColors(s, table, tm) == s
    decreases |table|
  {
    if |table| > 0 {
      assert forall i :: 0 <= i < |table[1..]| ==> table[1..][i] == table[i + 1];
      MigrateColorsNoop(s, table[1..], tm);
    }
  }

  /** With no unused RELATIVE type left, the cleanup does nothing. */
  lemma CleanupNoop(s: Store, userId: string, personUses: nat, relationshipUses: nat)
    requires forall k :: !Owns(s, userId, k, LegacyName)
    ensures CleanupRelative(s, userId, personUses, relationshipUses) == s
  {
    if personUses == 0 && relationshipUses == 0 {
      var d := DeleteNamed(s, userId, LegacyName);
      forall k | k in s.records ensures k in d.records {
        assert !Owns(s, userId, k, LegacyName);
      }
      assert d.records.Keys == s.records.Keys;
      assert d.records == s.records;
    }
  }

  /** The newest type of a name is unique. */
  lemma LatestUnique(s: Store, userId: string, key: string, a: Id, b: Id)
    requires IsLatest(s, userId, key, a) && IsLatest(s, userId, key, b)
    ensures a == b
  {
  }

  /** After creation, the index points every table name at the user's newest type of that name. */
  lemma LatestAfterCreate(s: Store, userId: string, personUses: nat, relationshipUses: nat, table: seq<DefaultType>, i: nat)
    requires Valid(s)
    requires i < |table|
    ensures var run := RunPass(s, userId, personUses, relationshipUses, table);
      && NameText(table[i].name) in run.indexAfterCreate
      && IsLatest(run.created, userId, NameText(table[i].name), run.indexAfterCreate[NameText(table[i].name)].id)
  {
    var run := RunPass(s, userId, personUses, relationshipUses, table);
    var tm := run.indexAfterCreate;
    var key := NameText(table[i].name);
    RunCovers(s, userId, personUses, relationshipUses, table);
    var id := tm[key].id;
    IndexByNameSpec(run.cleaned, userId, key);
    forall k: Id | Owns(run.created, userId, k, key) ensures k <= id {
      if k in run.cleaned.records {
        assert Owns(run.cleaned, userId, k, key);
      } else {
        CreateMissingCovers(run.cleaned, userId, table, run.index, k);
        var j :| 0 <= j < |table| && NameText(table[j].name) !in run.index && NameText(table[j].name) in tm
                 && tm[NameText(table[j].name)].id == k;
        assert Owns(run.created, userId, k, NameText(table[j].name));
      }
    }
  }

  /** Ownership and names are the same after creation and at the end of the run. */
  lemma OwnsSameAfterRun(s: Store, userId: string, personUses: nat, relationshipUses: nat, table: seq<DefaultType>, key: string)
    requires Valid(s)
    ensures var run := RunPass(s, userId, personUses, relationshipUses, table);
      forall k :: Owns(run.final, userId, k, key) <==> Owns(run.created, userId, k, key)
  {
  }

  /**
   * After a run, the index a second run builds points every table name at
   * the same type as the first run's index, now carrying its final state.
   */
  lemma SecondIndex(s: Store, userId: string, personUses: nat, relationshipUses: nat, table: seq<DefaultType>, i: nat)
    requires Valid(s)
    requires i < |table|
    ensures var run := RunPass(s, userId, personUses, relationshipUses, table);
      && var key := NameText(table[i].name);
      && key in run.indexAfterCreate
      && var id := run.indexAfterCreate[key].id;
      && key in IndexByName(run.final, userId)
      && id in run.final.records
      && IndexByName(run.final, userId)[key] == EntryFor(id, run.final.records[id])
  {
    var run := RunPass(s, userId, personUses, relationshipUses, table);
    var key := NameText(table[i].name);
    LatestAfterCreate(s, userId, personUses, relationshipUses, table, i);
    OwnsSameAfterRun(s, userId, personUses, relationshipUses, table, key);
    var id := run.indexAfterCreate[key].id;
    assert IsLatest(run.final, userId, key, id);
    IndexByNameSpec(run.final, userId, key);
    LatestUnique(run.final, userId, key, id, IndexByName(run.final, userId)[key].id);
  }

  /** The migration's decision depends only on the indexed colour of the entry's name. */
  lemma ColorToSetDepends(t: DefaultType, tm: TypeMap, tm': TypeMap)
    requires NameText(t.name) in tm && NameText(t.name) in tm'
    requires tm[NameText(t.name)].color == tm'[NameText(t.name)].color
    ensures ColorToSet(t, tm) == ColorToSet(t, tm')
  {
  }

  /** After a run, the type of every table entry has an inverse and needs no recolouring. */
  lemma SettledAfterRun(s: Store, userId: string, personUses: nat, relationshipUses: nat, table: seq<DefaultType>, i: nat)
    requires Valid(s)
    requires SeedShape(table)
    requires i < |table|
    ensures var run := RunPass(s, userId, personUses, relationshipUses, table);
      && var idx := IndexByName(run.final, userId);
      && InverseToSet(table[i], idx).None?
      && ColorToSet(table[i], idx).None?
  {
    var run := RunPass(s, userId, personUses, relationshipUses, table);
    var tm := run.indexAfterCreate;
    var key := NameText(table[i].name);
    SeedShapeFacts(table);
    RunAt(s, userId, personUses, relationshipUses, table, i);
    SecondIndex(s, userId, personUses, relationshipUses, table, i);
    RunCovers(s, userId, personUses, relationshipUses, table);
    assert NameText(table[IndexOf(table[i].inverseName)].name) in tm;
    var idx := IndexByName(run.final, userId);
    var id := tm[key].id;
    assert idx[key].inverseId.Some?;
    if ColorToSet(table[i], tm).None? {
      ColorToSetDepends(table[i], tm, idx);
    }
  }

  /** After a run, no default RELATIVE-named type of the user is left when both usage counts are zero. */
  lemma NoLegacyAfterRun(s: Store, userId: string, personUses: nat, relationshipUses: nat, table: seq<DefaultType>, k: Id)
    requires Valid(s)
    requires personUses == 0 && relationshipUses == 0
    ensures !Owns(RunPass(s, userId, personUses, relationshipUses, table).final, userId, k, LegacyName)
  {
    var run := RunPass(s, userId, personUses, relationshipUses, table);
    RunCovers(s, userId, personUses, relationshipUses, table);
    OwnsSameAfterRun(s, userId, personUses, relationshipUses, table, LegacyName);
    if k in run.created.records && k !in run.cleaned.records {
      CreateMissingCovers(run.cleaned, userId, table, run.index, k);
      var j :| 0 <= j < |table| && NameText(table[j].name) !in run.index && NameText(table[j].name) in run.indexAfterCreate
               && run.indexAfterCreate[NameText(table[j].name)].id == k;
      LegacyNameNotDefault(table[j].name);
    }
  }

  /**
   * Idempotence: running the repair pass again right away deletes, creates
   * and changes nothing, and reports zero created types.
   */
  lemma EnsureDefaultsWithIdempotent(s: Store, userId: string, personUses: nat, relationshipUses: nat, table: seq<DefaultType>)
    requires Valid(s)
    requires SeedShape(table)
    ensures var r := EnsureDefaultsWith(s, userId, personUses, relationshipUses, table);
      EnsureDefaultsWith(r.0, userId, personUses, relationshipUses, table) == (r.0, 0)
  {
    var run := RunPass(s, userId, personUses, relationshipUses, table);
    var t := run.final;
    if personUses == 0 && relationshipUses == 0 {
      forall k: Id ensures !Owns(t, userId, k, LegacyName) {
        NoLegacyAfterRun(s, userId, personUses, relationshipUses, table, k);
      }
      CleanupNoop(t, userId, personUses, relationshipUses);
    }
    var idx := IndexByName(t, userId);
    forall i | 0 <= i < |table|
      ensures NameText(table[i].name) in idx
      ensures InverseToSet(table[i], idx).None? && ColorToSet(table[i], idx).None?
    {
      SecondIndex(s, userId, personUses, relationshipUses, table, i);
      SettledAfterRun(s, userId, personUses, relationshipUses, table, i);
    }
    IndexByNameAgrees(t, userId);
    CreateMissingNoneMissing(t, userId, table, idx);
    BackfillInversesNoop(t, table, idx);
    MigrateColorsNoop(t, table, idx);
  }

  /** The user has at most one type named `key`. */
  ghost predicate UniqueName(s: Store, userId: string, key: string) {
    forall a: Id, b: Id :: Owns(s, userId, a, key) && Owns(s, userId, b, key) ==> a == b
  }

  /**
   * The listing order matters only for duplicated names: when the user has
   * at most one type named `key`, the index entry for `key` is that type,
   * the one any listing order would leave there.
   */
  lemma IndexOfUniqueName(s: Store, userId: string, key: string)
    requires Valid(s)
    requires UniqueName(s, userId, key)
    ensures var m := IndexByName(s, userId);
      key in m ==> forall k: Id :: Owns(s, userId, k, key) <==> k == m[key].id
  {
    IndexByNameSpec(s, userId, key);
  }

  /** A type the run creates carries a name the user had no type of, and is that name's index entry. */
  lemma NewTypeOfRun(s: Store, userId: string, personUses: nat, relationshipUses: nat, table: seq<DefaultType>, k: Id)
    requires Valid(s)
    requires SeedShape(table)
    requires RunPass(s, userId, personUses, relationshipUses, table).cleaned.nextId <= k
    requires k < RunPass(s, userId, personUses, relationshipUses, table).created.nextId
    ensures var run := RunPass(s, userId, personUses, relationshipUses, table);
      && k in run.created.records && run.created.records[k].name.Some?
      && var key := run.created.records[k].name.value;
      && key in run.indexAfterCreate && run.indexAfterCreate[key].id == k
      && !HasType(run.cleaned, userId, key)
  {
    var run := RunPass(s, userId, personUses, relationshipUses, table);
    SeedShapeFacts(table);
    CreateMissingCovers(run.cleaned, userId, table, run.index, k);
    var i :| 0 <= i < |table| && NameText(table[i].name) !in run.index
             && NameText(table[i].name) in run.indexAfterCreate && run.indexAfterCreate[NameText(table[i].name)].id == k;
    CreateMissingNew(run.cleaned, userId, table, run.index, i);
    IndexByNameSpec(run.cleaned, userId, NameText(table[i].name));
  }

  /** A type of the user's after the run either survived the cleanup under that name, or is the run's new type of a name they lacked. */
  lemma OwnedAfterRun(s: Store, userId: string, personUses: nat, relationshipUses: nat, table: seq<DefaultType>, a: Id, key: string)
    requires Valid(s)
    requires SeedShape(table)
    requires Owns(RunPass(s, userId, personUses, relationshipUses, table).final, userId, a, key)
    ensures var run := RunPass(s, userId, personUses, relationshipUses, table);
      || Owns(run.cleaned, userId, a, key)
      || (key in run.indexAfterCreate && run.indexAfterCreate[key].id == a && !HasType(run.cleaned, userId, key))
  {
    var run := RunPass(s, userId, personUses, relationshipUses, table);
    RunCovers(s, userId, personUses, relationshipUses, table);
    assert SameIdentity(run.final.records[a], run.created.records[a]);
    if a !in run.cleaned.records {
      NewTypeOfRun(s, userId, personUses, relationshipUses, table, a);
    }
  }

  /**
   * The pass never duplicates a name: a user with at most one type of a
   * name still has at most one afterwards. Stores built only by the
   * application's own creation paths therefore never reach the duplicated
   * case in which the listing order decides the outcome.
   */
  lemma EnsureDefaultsKeepsNamesUnique(s: Store, userId: string, personUses: nat, relationshipUses: nat,
                                       table: seq<DefaultType>, key: string)
    requires Valid(s)
    requires SeedShape(table)
    requires UniqueName(s, userId, key)
    ensures UniqueName(EnsureDefaultsWith(s, userId, personUses, relationshipUses, table).0, userId, key)
  {
    var run := RunPass(s, userId, personUses, relationshipUses, table);
    forall a: Id, b: Id | Owns(run.final, userId, a, key) && Owns(run.final, userId, b, key)
      ensures a == b
    {
      OwnedAfterRun(s, userId, personUses, relationshipUses, table, a, key);
      OwnedAfterRun(s, userId, personUses, relationshipUses, table, b, key);
      if Owns(run.cleaned, userId, a, key) && Owns(run.cleaned, userId, b, key) {
        assert Owns(s, userId, a, key) && Owns(s, userId, b, key);
      } else if Owns(run.cleaned, userId, a, key) || Owns(run.cleaned, userId, b, key) {
        assert HasType(run.cleaned, userId, key);
      }
    }
  }

  /** Idempotence of createDefaultRelationshipTypes over DEFAULT_RELATIONSHIP_TYPES. */
  lemma EnsureDefaultsIdempotent(s: Store, userId: string, personUses: nat, relationshipUses: nat)
    requires Valid(s)
    ensures var r := EnsureDefaults(s, userId, personUses, relationshipUses);
      EnsureDefaults(r.0, userId, personUses, relationshipUses) == (r.0, 0)
  {
    DefaultTypesShape();
    EnsureDefaultsWithIdempotent(s, userId, personUses, relationshipUses, DefaultTypes);
  }
}
