/**
 * The catalogue of relationship types every new user receives, and the
 * two-pass routine that creates them: first one record per catalogue entry,
 * then each record's inverse link (symmetric types link to themselves).
 */
module RelationshipTypes {
  import opened Common
  import opened TypeStore
  import opened RelationshipTypeLabels

  /** How a catalogue entry finds its inverse: itself, or the entry of another name. */
  datatype InverseRule = Symmetric | InverseOf(inverseName: DefaultName)

  /** One entry of PRELOADED_RELATIONSHIP_TYPES. */
  datatype PresetType = PresetType(name: DefaultName, displayLabel: string, color: string, inverse: InverseRule)

  /** The entry of PRELOADED_RELATIONSHIP_TYPES for each canonical name. */
  function CatalogueEntry(n: DefaultName): PresetType {
    match n
    case Parent => PresetType(Parent, "Parent", "#F59E0B", InverseOf(Child))
    case Child => PresetType(Child, "Child", "#F59E0B", InverseOf(Parent))
    case Grandparent => PresetType(Grandparent, "Grandparent", "#F97316", InverseOf(Grandchild))
    case Grandchild => PresetType(Grandchild, "Grandchild", "#FB923C", InverseOf(Grandparent))
    case AuntUncle => PresetType(AuntUncle, "Aunt/Uncle", "#A855F7", InverseOf(NieceNephew))
    case NieceNephew => PresetType(NieceNephew, "Niece/Nephew", "#D946EF", InverseOf(AuntUncle))
    case Cousin => PresetType(Cousin, "Cousin", "#0EA5E9", Symmetric)
    case StepParent => PresetType(StepParent, "Step-Parent", "#EF4444", InverseOf(StepChild))
    case StepChild => PresetType(StepChild, "Step-Child", "#F43F5E", InverseOf(StepParent))
    case ParentInLaw => PresetType(ParentInLaw, "Parent-in-Law", "#22C55E", InverseOf(ChildInLaw))
    case ChildInLaw => PresetType(ChildInLaw, "Child-in-Law", "#16A34A", InverseOf(ParentInLaw))
    case SiblingInLaw => PresetType(SiblingInLaw, "Sibling-in-Law", "#06B6D4", Symmetric)
    case Sibling => PresetType(Sibling, "Sibling", "#8B5CF6", Symmetric)
    case Spouse => PresetType(Spouse, "Spouse", "#EC4899", Symmetric)
    case Partner => PresetType(Partner, "Partner", "#EC4899", Symmetric)
    case Friend => PresetType(Friend, "Friend", "#3B82F6", Symmetric)
    case Colleague => PresetType(Colleague, "Colleague", "#10B981", Symmetric)
    case Acquaintance => PresetType(Acquaintance, "Acquaintance", "#14B8A6", Symmetric)
    case Other => PresetType(Other, "Other", "#6B7280", Symmetric)
  }

  /** The catalogue entries of a list of names, in the order of the list. */
  function CatalogueFrom(names: seq<DefaultName>): (r: seq<PresetType>)
    ensures |r| == |names|
    ensures forall i :: 0 <= i < |names| ==> r[i] == CatalogueEntry(names[i])
  {
    if |names| == 0 then [] else [CatalogueEntry(names[0])] + CatalogueFrom(names[1..])
  }

  /** PRELOADED_RELATIONSHIP_TYPES: one entry per canonical name, in declaration order. */
  const PreloadedTypes: seq<PresetType> :=
    CatalogueFrom(DefaultNames)

  /**
   * A catalogue with one entry per canonical name, entry `i` being the one
   * named `DefaultNames[i]`.
   */
  predicate CatalogueShape(presets: seq<PresetType>) {
    && |presets| == |DefaultNames|
    && forall i :: 0 <= i < |presets| ==> IndexOf(presets[i].name) == i
  }

  /** The entry of a canonical name in a catalogue. */
  function EntryOf(presets: seq<PresetType>, n: DefaultName): PresetType
    requires |presets| == |DefaultNames|
  {
    DefaultNamesComplete();
    presets[IndexOf(n)]
  }

  /** The name an entry designates as its inverse: itself when symmetric. */
  function InverseIn(presets: seq<PresetType>, n: DefaultName): DefaultName
    requires |presets| == |DefaultNames|
  {
    match EntryOf(presets, n).inverse
    case Symmetric => n
    case InverseOf(m) => m
  }

  /** The preloaded catalogue entry of a canonical name. */
  function Preloaded(n: DefaultName): PresetType {
    EntryOf(PreloadedTypes, n)
  }

  /** The name a preloaded entry designates as its inverse. */
  function InverseName(n: DefaultName): DefaultName {
    InverseIn(PreloadedTypes, n)
  }

  /** The names of a list of entries, in order. */
  function Names(presets: seq<PresetType>): seq<DefaultName>
    ensures |Names(presets)| == |presets|
    ensures forall i :: 0 <= i < |presets| ==> Names(presets)[i] == presets[i].name
  {
    seq(|presets|, i requires 0 <= i < |presets| => presets[i].name)
  }

  predicate DistinctNames(presets: seq<PresetType>) {
    forall i, j :: 0 <= i < j < |presets| ==> presets[i].name != presets[j].name
  }

  /**
   * The catalogue has 19 entries, one per canonical name, in the order of the
   * label table; each is found by `Preloaded` under its own name; and each
   * carries the default label of its name, so freshly created types are
   * eligible for translation.
   */
  lemma PreloadedTableWellFormed()
    ensures |PreloadedTypes| == 19
    ensures forall i :: 0 <= i < |PreloadedTypes| ==> PreloadedTypes[i].name == DefaultNames[i]
    ensures DistinctNames(PreloadedTypes)
    ensures forall n: DefaultName :: Preloaded(n).name == n
    ensures forall n: DefaultName :: Preloaded(n).displayLabel == DefaultLabel(n)
  {
    forall i | 0 <= i < |PreloadedTypes| ensures PreloadedTypes[i].name == DefaultNames[i] {
      PresetName(DefaultNames[i]);
    }
    PreloadedShape();
    CatalogueShapeFacts(PreloadedTypes);
    forall n: DefaultName ensures Preloaded(n).displayLabel == DefaultLabel(n) {
      PresetLabelMatches(n);
    }
  }

  lemma PreloadedIsEntry(n: DefaultName)
    ensures Preloaded(n) == CatalogueEntry(n)
  {
    DefaultNamesComplete();
  }

  lemma PresetLabelMatches(n: DefaultName)
    ensures Preloaded(n).displayLabel == DefaultLabel(n)
  {
    PreloadedIsEntry(n);
  }

  /**
   * Inverse naming is an involution: every entry is symmetric or names
   * another entry whose inverse is the first one (PARENT and CHILD, ...).
   */
  lemma InverseNameInvolutive(n: DefaultName)
    ensures InverseName(InverseName(n)) == n
    ensures Preloaded(n).inverse.Symmetric? <==> InverseName(n) == n
  {
    PreloadedIsEntry(n);
    PreloadedIsEntry(InverseName(n));
  }

  /** The inverse id the second pass gives the entry `p`, if any. */
  function InverseIdFor(p: PresetType, typeIds: map<DefaultName, Id>): Option<Id>
    requires p.name in typeIds
  {
    match p.inverse
    case Symmetric => Some(typeIds[p.name])
    case InverseOf(m) => if m in typeIds then Some(typeIds[m]) else None
  }

  /** A record after the second pass has (or has not) given it an inverse. */
  function WithInverse(rec: TypeRecord, inv: Option<Id>): TypeRecord {
    if inv.Some? then rec.(inverseId := inv) else rec
  }

  /** First pass: one new record per entry, remembering each name's new id. */
  function CreatePresets(s: Store, userId: string, presets: seq<PresetType>, typeIds: map<DefaultName, Id>)
    : (r: (Store, map<DefaultName, Id>))
    requires Valid(s)
    ensures Valid(r.0)
    decreases |presets|
  {
    if |presets| == 0 then (s, typeIds)
    else
      var p := presets[0];
      var (s1, id) := Create(s, userId, Some(NameText(p.name)), p.displayLabel, Some(p.color));
      CreatePresets(s1, userId, presets[1..], typeIds[p.name := id])
  }

  /** Second pass: link every created record to the record of its inverse name. */
  function LinkInverses(s: Store, presets: seq<PresetType>, typeIds: map<DefaultName, Id>): (r: Store)
    requires forall n :: n in typeIds ==> typeIds[n] in s.records
    ensures r.records.Keys == s.records.Keys && r.nextId == s.nextId
    decreases |presets|
  {
    if |presets| == 0 then s
    else
      var p := presets[0];
      var s1 :=
        if p.name !in typeIds then s
        else match InverseIdFor(p, typeIds)
          case None => s
          case Some(inv) => SetInverse(s, typeIds[p.name], inv);
      LinkInverses(s1, presets[1..], typeIds)
  }

  /** The first pass hands out one id per entry, consecutively, and keeps every earlier record. */
  lemma {:induction false} CreatePresetsStore(s: Store, userId: string, presets: seq<PresetType>, typeIds: map<DefaultName, Id>)
    requires Valid(s)
    ensures var r := CreatePresets(s, userId, presets, typeIds);
      && r.0.nextId == s.nextId + |presets|
      && (forall k :: k in r.0.records <==> k in s.records || s.nextId <= k < r.0.nextId)
      && (forall k :: k in s.records ==> r.0.records[k] == s.records[k])
    decreases |presets|
  {
    if |presets| > 0 {
      var p := presets[0];
      var (s1, id) := Create(s, userId, Some(NameText(p.name)), p.displayLabel, Some(p.color));
      CreatePresetsStore(s1, userId, presets[1..], typeIds[p.name := id]);
    }
  }

  /** The `i`-th entry becomes the record with id `s.nextId + i`, carrying the entry's data. */
  lemma {:induction false} CreatePresetsRecord(s: Store, userId: string, presets: seq<PresetType>, typeIds: map<DefaultName, Id>, i: nat)
    requires Valid(s)
    requires i < |presets|
    ensures var r := CreatePresets(s, userId, presets, typeIds);
      && s.nextId + i in r.0.records
      && r.0.records[s.nextId + i]
         == TypeRecord(userId, Some(NameText(presets[i].name)), presets[i].displayLabel, Some(presets[i].color), None)
    decreases |presets|
  {
    var p := presets[0];
    var (s1, id) := Create(s, userId, Some(NameText(p.name)), p.displayLabel, Some(p.color));
    if i == 0 {
      CreatePresetsStore(s1, userId, presets[1..], typeIds[p.name := id]);
    } else {
      CreatePresetsRecord(s1, userId, presets[1..], typeIds[p.name := id], i - 1);
    }
  }

  /** A name no entry mentions keeps the id it had in the map. */
  lemma {:induction false} CreatePresetsKeepsOthers(s: Store, userId: string, presets: seq<PresetType>, typeIds: map<DefaultName, Id>, n: DefaultName)
    requires Valid(s)
    requires forall i :: 0 <= i < |presets| ==> presets[i].name != n
    ensures var r := CreatePresets(s, userId, presets, typeIds);
      (n in r.1 <==> n in typeIds) && (n in typeIds ==> r.1[n] == typeIds[n])
    decreases |presets|
  {
    if |presets| > 0 {
      var p := presets[0];
      var (s1, id) := Create(s, userId, Some(NameText(p.name)), p.displayLabel, Some(p.color));
      CreatePresetsKeepsOthers(s1, userId, presets[1..], typeIds[p.name := id], n);
    }
  }

  /** With distinct names, the map sends the `i`-th entry's name to `s.nextId + i`. */
  lemma {:induction false} CreatePresetsId(s: Store, userId: string, presets: seq<PresetType>, typeIds: map<DefaultName, Id>, i: nat)
    requires Valid(s)
    requires DistinctNames(presets)
    requires i < |presets|
    ensures var r := CreatePresets(s, userId, presets, typeIds);
      presets[i].name in r.1 && r.1[presets[i].name] == s.nextId + i
    decreases |presets|
  {
    var p := presets[0];
    var (s1, id) := Create(s, userId, Some(NameText(p.name)), p.displayLabel, Some(p.color));
    var rest := presets[1..];
    assert DistinctNames(rest);
    if i == 0 {
      forall j | 0 <= j < |rest| ensures rest[j].name != p.name {
        assert rest[j] == presets[j + 1];
      }
      CreatePresetsKeepsOthers(s1, userId, rest, typeIds[p.name := id], p.name);
    } else {
      assert rest[i - 1] == presets[i];
      CreatePresetsId(s1, userId, rest, typeIds[p.name := id], i - 1);
    }
  }

  /** Every name in the resulting map was already there or belongs to an entry. */
  lemma {:induction false} CreatePresetsDomain(s: Store, userId: string, presets: seq<PresetType>, typeIds: map<DefaultName, Id>, n: DefaultName)
    requires Valid(s)
    ensures var r := CreatePresets(s, userId, presets, typeIds);
      n in r.1 ==> n in typeIds || exists i :: 0 <= i < |presets| && presets[i].name == n
    decreases |presets|
  {
    if |presets| > 0 {
      var p := presets[0];
      var (s1, id) := Create(s, userId, Some(NameText(p.name)), p.displayLabel, Some(p.color));
      CreatePresetsDomain(s1, userId, presets[1..], typeIds[p.name := id], n);
      var r := CreatePresets(s1, userId, presets[1..], typeIds[p.name := id]);
      if n in r.1 && n !in typeIds && n != p.name {
        var i :| 0 <= i < |presets[1..]| && presets[1..][i].name == n;
        assert presets[i + 1].name == n;
      }
    }
  }

  lemma {:induction false} LinkInversesSpec(s: Store, presets: seq<PresetType>, typeIds: map<DefaultName, Id>)
    requires forall n :: n in typeIds ==> typeIds[n] in s.records
    requires DistinctNames(presets)
    requires forall n, m :: n in typeIds && m in typeIds && n != m ==> typeIds[n] != typeIds[m]
    ensures var r := LinkInverses(s, presets, typeIds);
      && (forall i :: 0 <= i < |presets| && presets[i].name in typeIds ==>
            r.records[typeIds[presets[i].name]]
            == WithInverse(s.records[typeIds[presets[i].name]], InverseIdFor(presets[i], typeIds)))
      && (forall k :: k in s.records && (forall n :: n in Names(presets) && n in typeIds ==> typeIds[n] != k)
            ==> r.records[k] == s.records[k])
    decreases |presets|
  {
    if |presets| > 0 {
      var p := presets[0];
      var rest := presets[1..];
      assert DistinctNames(rest);
      var s1 :=
        if p.name !in typeIds then s
        else match InverseIdFor(p, typeIds)
          case None => s
          case Some(inv) => SetInverse(s, typeIds[p.name], inv);
      assert s1.records.Keys == s.records.Keys;
      LinkInversesSpec(s1, rest, typeIds);
      var r := LinkInverses(s1, rest, typeIds);
      assert r == LinkInverses(s, presets, typeIds);
      assert Names(presets) == [p.name] + Names(rest);
      forall i | 0 <= i < |presets| && presets[i].name in typeIds
        ensures r.records[typeIds[presets[i].name]]
             == WithInverse(s.records[typeIds[presets[i].name]], InverseIdFor(presets[i], typeIds))
      {
        if i == 0 {
          forall n | n in Names(rest) && n in typeIds ensures typeIds[n] != typeIds[p.name] {
            var j :| 0 <= j < |rest| && Names(rest)[j] == n;
            assert rest[j] == presets[j + 1];
          }
        } else {
          assert presets[i] == rest[i - 1];
          assert presets[i].name != p.name;
        }
      }
    }
  }

  lemma IndexOfInjective(n: DefaultName, m: DefaultName)
    requires IndexOf(n) == IndexOf(m)
    ensures n == m
  {
  }

  /** In a well-shaped catalogue every name has its entry, and names are distinct. */
  lemma CatalogueShapeFacts(presets: seq<PresetType>)
    requires CatalogueShape(presets)
    ensures DistinctNames(presets)
    ensures forall n: DefaultName :: IndexOf(n) < |presets| && presets[IndexOf(n)].name == n
  {
    DefaultNamesComplete();
    forall i, j | 0 <= i < j < |presets| ensures presets[i].name != presets[j].name {
      assert IndexOf(presets[i].name) == i && IndexOf(presets[j].name) == j;
    }
    forall n: DefaultName ensures IndexOf(n) < |presets| && presets[IndexOf(n)].name == n {
      IndexOfInjective(presets[IndexOf(n)].name, n);
    }
  }

  lemma PresetName(n: DefaultName)
    ensures CatalogueEntry(n).name == n
  {
  }

  lemma PreloadedShape()
    ensures CatalogueShape(PreloadedTypes)
  {
    forall i | 0 <= i < |PreloadedTypes| ensures IndexOf(PreloadedTypes[i].name) == i {
      IndexOfNameAt(i);
      PresetName(DefaultNames[i]);
    }
  }

  /** After the first pass over a catalogue, name `n` has the id `s.nextId + IndexOf(n)`. */
  lemma FirstPassIdOf(s: Store, userId: string, presets: seq<PresetType>, n: DefaultName)
    requires Valid(s)
    requires CatalogueShape(presets)
    ensures var r := CreatePresets(s, userId, presets, map[]);
      && n in r.1 && r.1[n] == s.nextId + IndexOf(n)
      && r.1[n] in r.0.records
      && r.0.records[r.1[n]]
         == TypeRecord(userId, Some(NameText(n)), EntryOf(presets, n).displayLabel, Some(EntryOf(presets, n).color), None)
  {
    CatalogueShapeFacts(presets);
    CreatePresetsId(s, userId, presets, map[], IndexOf(n));
    CreatePresetsRecord(s, userId, presets, map[], IndexOf(n));
  }

  /** The first pass adds exactly the ids it records in its map, one per name. */
  lemma FirstPassKeys(s: Store, userId: string, presets: seq<PresetType>)
    requires Valid(s)
    requires CatalogueShape(presets)
    ensures var r := CreatePresets(s, userId, presets, map[]);
      && r.0.records.Keys == s.records.Keys + r.1.Values
      && (forall n: DefaultName :: n in r.1 && r.1[n] !in s.records && r.1[n] in r.0.records)
      && (forall n: DefaultName, m: DefaultName :: n != m ==> r.1[n] != r.1[m])
      && (forall k :: k in s.records ==> r.0.records[k] == s.records[k])
  {
    var r := CreatePresets(s, userId, presets, map[]);
    CreatePresetsStore(s, userId, presets, map[]);
    forall n: DefaultName ensures n in r.1 && r.1[n] !in s.records && r.1[n] in r.0.records {
      FirstPassIdOf(s, userId, presets, n);
    }
    forall k | s.nextId <= k < r.0.nextId ensures k in r.1.Values {
      var i := k - s.nextId;
      assert IndexOf(presets[i].name) == i;
      FirstPassIdOf(s, userId, presets, presets[i].name);
    }
    forall n: DefaultName, m: DefaultName | n != m ensures r.1[n] != r.1[m] {
      FirstPassIdOf(s, userId, presets, n);
      FirstPassIdOf(s, userId, presets, m);
      if IndexOf(n) == IndexOf(m) {
        IndexOfInjective(n, m);
      }
    }
  }

  /** After both passes, each created record links to the record of its inverse name. */
  lemma BothPassesAt(s: Store, userId: string, presets: seq<PresetType>, n: DefaultName)
    requires Valid(s)
    requires CatalogueShape(presets)
    ensures var r := CreatePresets(s, userId, presets, map[]);
      && (forall m: DefaultName :: m in r.1 && r.1[m] in r.0.records)
      && LinkInverses(r.0, presets, r.1).records[r.1[n]]
         == TypeRecord(userId, Some(NameText(n)), EntryOf(presets, n).displayLabel, Some(EntryOf(presets, n).color),
                       Some(r.1[InverseIn(presets, n)]))
  {
    var r := CreatePresets(s, userId, presets, map[]);
    FirstPassKeys(s, userId, presets);
    CatalogueShapeFacts(presets);
    FirstPassIdOf(s, userId, presets, n);
    LinkInversesSpec(r.0, presets, r.1);
    assert presets[IndexOf(n)] == EntryOf(presets, n);
  }

  /** Both passes leave every record that existed before untouched. */
  lemma BothPassesKeepOld(s: Store, userId: string, presets: seq<PresetType>)
    requires Valid(s)
    requires CatalogueShape(presets)
    ensures var r := CreatePresets(s, userId, presets, map[]);
      && (forall m: DefaultName :: m in r.1 && r.1[m] in r.0.records)
      && (forall k :: k in s.records ==> k in r.0.records)
      && forall k :: k in s.records ==> LinkInverses(r.0, presets, r.1).records[k] == s.records[k]
  {
    var r := CreatePresets(s, userId, presets, map[]);
    FirstPassKeys(s, userId, presets);
    CatalogueShapeFacts(presets);
    LinkInversesSpec(r.0, presets, r.1);
  }

  lemma BothPasses(s: Store, userId: string, presets: seq<PresetType>)
    requires Valid(s)
    requires CatalogueShape(presets)
    ensures var r := CreatePresets(s, userId, presets, map[]);
      && (forall m: DefaultName :: m in r.1 && r.1[m] in r.0.records)
      && forall n: DefaultName ::
           LinkInverses(r.0, presets, r.1).records[r.1[n]]
           == TypeRecord(userId, Some(NameText(n)), EntryOf(presets, n).displayLabel, Some(EntryOf(presets, n).color),
                         Some(r.1[InverseIn(presets, n)]))
  {
    FirstPassKeys(s, userId, presets);
    forall n: DefaultName
      ensures var r := CreatePresets(s, userId, presets, map[]);
        LinkInverses(r.0, presets, r.1).records[r.1[n]]
        == TypeRecord(userId, Some(NameText(n)), EntryOf(presets, n).displayLabel, Some(EntryOf(presets, n).color),
                      Some(r.1[InverseIn(presets, n)]))
    {
      BothPassesAt(s, userId, presets, n);
    }
  }

  /** Both passes over a well-shaped catalogue; returns the store and the name-to-id map. */
  function CreateCatalogue(s: Store, userId: string, presets: seq<PresetType>): (r: (Store, map<DefaultName, Id>))
    requires Valid(s)
    requires CatalogueShape(presets)
    ensures Valid(r.0)
    ensures forall n: DefaultName :: n in r.1 && r.1[n] !in s.records && r.1[n] in r.0.records
    ensures forall n: DefaultName, m: DefaultName :: n != m ==> r.1[n] != r.1[m]
    ensures r.0.records.Keys == s.records.Keys + r.1.Values
    ensures forall k :: k in s.records ==> r.0.records[k] == s.records[k]
    ensures forall n: DefaultName ::
              r.0.records[r.1[n]]
              == TypeRecord(userId, Some(NameText(n)), EntryOf(presets, n).displayLabel, Some(EntryOf(presets, n).color),
                            Some(r.1[InverseIn(presets, n)]))
  {
    var (s1, typeIds) := CreatePresets(s, userId, presets, map[]);
    FirstPassKeys(s, userId, presets);
    BothPassesKeepOld(s, userId, presets);
    BothPasses(s, userId, presets);
    (LinkInverses(s1, presets, typeIds), typeIds)
  }

  /**
   * createPreloadedRelationshipTypes: 19 new records owned by `userId`, one
   * per canonical name and carrying its catalogue label and colour, each
   * linked to the record of its inverse name (symmetric types to
   * themselves); nothing that existed before changes.
   */
  function CreatePreloadedRelationshipTypes(s: Store, userId: string): (r: (Store, map<DefaultName, Id>))
    requires Valid(s)
    ensures Valid(r.0)
    ensures forall n: DefaultName :: n in r.1 && r.1[n] !in s.records && r.1[n] in r.0.records
    ensures forall n: DefaultName, m: DefaultName :: n != m ==> r.1[n] != r.1[m]
    ensures r.0.records.Keys == s.records.Keys + r.1.Values
    ensures forall k :: k in s.records ==> r.0.records[k] == s.records[k]
    ensures forall n: DefaultName ::
              r.0.records[r.1[n]]
              == TypeRecord(userId, Some(NameText(n)), Preloaded(n).displayLabel, Some(Preloaded(n).color),
                            Some(r.1[InverseName(n)]))
  {
    PreloadedShape();
    CreateCatalogue(s, userId, PreloadedTypes)
  }

  /**
   * The links the routine creates pair up: following the inverse link twice
   * returns to the start, and a type links to itself exactly when its
   * catalogue entry is symmetric.
   */
  lemma PreloadedInversesPair(s: Store, userId: string, n: DefaultName)
    requires Valid(s)
    ensures var r := CreatePreloadedRelationshipTypes(s, userId);
      && r.0.records[r.1[n]].inverseId.Some?
      && r.0.records[r.1[n]].inverseId.value in r.0.records
      && r.0.records[r.0.records[r.1[n]].inverseId.value].inverseId == Some(r.1[n])
      && (r.0.records[r.1[n]].inverseId == Some(r.1[n]) <==> Preloaded(n).inverse.Symmetric?)
  {
    var r := CreatePreloadedRelationshipTypes(s, userId);
    InverseNameInvolutive(n);
    var m := InverseName(n);
    assert r.0.records[r.1[n]].inverseId == Some(r.1[m]);
    assert r.0.records[r.1[m]].inverseId == Some(r.1[InverseName(m)]);
    if r.1[m] == r.1[n] {
      assert m == n;
    }
  }
}
