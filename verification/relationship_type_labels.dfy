/**
 * The built-in relationship-type names, their default labels and
 * translation keys, and the rule that decides whether a relationship type
 * shows its stored label or a translated default.
 *
 * The two constant tables of the original are both keyed by the same 19
 * canonical names; here the names are an enumeration and each table is a
 * total function over it, so the lookup `hasOwnProperty` performs becomes
 * `LookupDefaultName`.
 */
module RelationshipTypeLabels {
  import opened Common
  import Strings

  /** The keys shared by the default-label table and the translation-key table. */
  datatype DefaultName =
    | Parent | Child | Grandparent | Grandchild | AuntUncle | NieceNephew | Cousin
    | StepParent | StepChild | ParentInLaw | ChildInLaw | SiblingInLaw | Sibling
    | Spouse | Partner | Friend | Colleague | Acquaintance | Other

  /** The canonical names in the order the tables declare them. */
  const DefaultNames: seq<DefaultName> := [
    Parent, Child, Grandparent, Grandchild, AuntUncle, NieceNephew, Cousin,
    StepParent, StepChild, ParentInLaw, ChildInLaw, SiblingInLaw, Sibling,
    Spouse, Partner, Friend, Colleague, Acquaintance, Other
  ]

  /** The stored spelling of a canonical name (the table key). */
  function NameText(n: DefaultName): string {
    match n
    case Parent => "PARENT"
    case Child => "CHILD"
    case Grandparent => "GRANDPARENT"
    case Grandchild => "GRANDCHILD"
    case AuntUncle => "AUNT_UNCLE"
    case NieceNephew => "NIECE_NEPHEW"
    case Cousin => "COUSIN"
    case StepParent => "STEP_PARENT"
    case StepChild => "STEP_CHILD"
    case ParentInLaw => "PARENT_IN_LAW"
    case ChildInLaw => "CHILD_IN_LAW"
    case SiblingInLaw => "SIBLING_IN_LAW"
    case Sibling => "SIBLING"
    case Spouse => "SPOUSE"
    case Partner => "PARTNER"
    case Friend => "FRIEND"
    case Colleague => "COLLEAGUE"
    case Acquaintance => "ACQUAINTANCE"
    case Other => "OTHER"
  }

  /** DEFAULT_RELATIONSHIP_TYPE_LABELS. */
  function DefaultLabel(n: DefaultName): string {
    match n
    case Parent => "Parent"
    case Child => "Child"
    case Grandparent => "Grandparent"
    case Grandchild => "Grandchild"
    case AuntUncle => "Aunt/Uncle"
    case NieceNephew => "Niece/Nephew"
    case Cousin => "Cousin"
    case StepParent => "Step-Parent"
    case StepChild => "Step-Child"
    case ParentInLaw => "Parent-in-Law"
    case ChildInLaw => "Child-in-Law"
    case SiblingInLaw => "Sibling-in-Law"
    case Sibling => "Sibling"
    case Spouse => "Spouse"
    case Partner => "Partner"
    case Friend => "Friend"
    case Colleague => "Colleague"
    case Acquaintance => "Acquaintance"
    case Other => "Other"
  }

  /** DEFAULT_RELATIONSHIP_TYPE_KEYS: the localisation key of each default. */
  function TranslationKey(n: DefaultName): string {
    match n
    case Parent => "parent"
    case Child => "child"
    case Grandparent => "grandparent"
    case Grandchild => "grandchild"
    case AuntUncle => "auntUncle"
    case NieceNephew => "nieceNephew"
    case Cousin => "cousin"
    case StepParent => "stepParent"
    case StepChild => "stepChild"
    case ParentInLaw => "parentInLaw"
    case ChildInLaw => "childInLaw"
    case SiblingInLaw => "siblingInLaw"
    case Sibling => "sibling"
    case Spouse => "spouse"
    case Partner => "partner"
    case Friend => "friend"
    case Colleague => "colleague"
    case Acquaintance => "acquaintance"
    case Other => "other"
  }

  /** `hasOwnProperty(DEFAULT_RELATIONSHIP_TYPE_LABELS, s)`, returning the key found. */
  function LookupDefaultName(s: string): (r: Option<DefaultName>)
    ensures r.Some? ==> NameText(r.value) == s
  {
    if s == "PARENT" then Some(Parent)
    else if s == "CHILD" then Some(Child)
    else if s == "GRANDPARENT" then Some(Grandparent)
    else if s == "GRANDCHILD" then Some(Grandchild)
    else if s == "AUNT_UNCLE" then Some(AuntUncle)
    else if s == "NIECE_NEPHEW" then Some(NieceNephew)
    else if s == "COUSIN" then Some(Cousin)
    else if s == "STEP_PARENT" then Some(StepParent)
    else if s == "STEP_CHILD" then Some(StepChild)
    else if s == "PARENT_IN_LAW" then Some(ParentInLaw)
    else if s == "CHILD_IN_LAW" then Some(ChildInLaw)
    else if s == "SIBLING_IN_LAW" then Some(SiblingInLaw)
    else if s == "SIBLING" then Some(Sibling)
    else if s == "SPOUSE" then Some(Spouse)
    else if s == "PARTNER" then Some(Partner)
    else if s == "FRIEND" then Some(Friend)
    else if s == "COLLEAGUE" then Some(Colleague)
    else if s == "ACQUAINTANCE" then Some(Acquaintance)
    else if s == "OTHER" then Some(Other)
    else None
  }

  /** Every table key is found under its own spelling: the lookup and `NameText` are inverse. */
  lemma LookupNameText(n: DefaultName)
    ensures LookupDefaultName(NameText(n)) == Some(n)
  {
  }

  /** Position of a name in `DefaultNames`. */
  function IndexOf(n: DefaultName): nat {
    match n
    case Parent => 0
    case Child => 1
    case Grandparent => 2
    case Grandchild => 3
    case AuntUncle => 4
    case NieceNephew => 5
    case Cousin => 6
    case StepParent => 7
    case StepChild => 8
    case ParentInLaw => 9
    case ChildInLaw => 10
    case SiblingInLaw => 11
    case Sibling => 12
    case Spouse => 13
    case Partner => 14
    case Friend => 15
    case Colleague => 16
    case Acquaintance => 17
    case Other => 18
  }

  lemma IndexOfNameAt(i: nat)
    requires i < |DefaultNames|
    ensures IndexOf(DefaultNames[i]) == i
  {
    if i < 10 {
      if i == 0 {} else if i == 1 {} else if i == 2 {} else if i == 3 {} else if i == 4 {}
      else if i == 5 {} else if i == 6 {} else if i == 7 {} else if i == 8 {} else {}
    } else {
      if i == 10 {} else if i == 11 {} else if i == 12 {} else if i == 13 {} else if i == 14 {}
      else if i == 15 {} else if i == 16 {} else if i == 17 {} else {}
    }
  }

  /** The canonical-name list holds exactly the 19 table keys, each once. */
  lemma DefaultNamesComplete()
    ensures |DefaultNames| == 19
    ensures forall n: DefaultName :: IndexOf(n) < |DefaultNames| && DefaultNames[IndexOf(n)] == n
    ensures forall i, j :: 0 <= i < j < |DefaultNames| ==> DefaultNames[i] != DefaultNames[j]
  {
    forall i, j | 0 <= i < j < |DefaultNames| ensures DefaultNames[i] != DefaultNames[j] {
      IndexOfNameAt(i);
      IndexOfNameAt(j);
    }
  }

  /** A relationship type as the resolver sees it: its optional canonical name and stored label. */
  datatype LabelledType = LabelledType(name: Option<string>, storedLabel: string)

  /**
   * The canonical name `n` matches `t` (case-insensitively) and `t` still
   * carries the built-in label of `n`: `t` is an unedited default.
   */
  predicate IsPristineDefault(t: LabelledType, n: DefaultName) {
    t.name.Some? && Strings.ToUpper(t.name.value) == NameText(n) && t.storedLabel == DefaultLabel(n)
  }

  /**
   * getRelationshipTypeDisplayLabel: the stored label, unless the type is a
   * pristine default and a translator is supplied, in which case the
   * translation of the default's key.
   */
  function DisplayLabel(t: LabelledType, translate: Option<string -> string>): (r: string)
    ensures !Truthy(t.name) ==> r == t.storedLabel
    ensures t.name.Some? && LookupDefaultName(Strings.ToUpper(t.name.value)).None? ==> r == t.storedLabel
    ensures forall n: DefaultName ::
              (t.name.Some? && Strings.ToUpper(t.name.value) == NameText(n) && t.storedLabel != DefaultLabel(n))
              ==> r == t.storedLabel
    ensures translate.None? ==> r == t.storedLabel
    ensures r == t.storedLabel || exists n: DefaultName :: translate.Some? && r == translate.value(TranslationKey(n))
  {
    if !Truthy(t.name) then t.storedLabel
    else
      match LookupDefaultName(Strings.ToUpper(t.name.value))
      case None => t.storedLabel
      case Some(n) =>
        if t.storedLabel != DefaultLabel(n) then t.storedLabel
        else if translate.None? then t.storedLabel
        else translate.value(TranslationKey(n))
  }

  /**
   * The resolver against the declarative notion of a pristine default: with
   * a translator, a pristine default of `n` shows the translation of `n`'s
   * key, and every other type shows its stored label.
   */
  lemma DisplayLabelCharacterised(t: LabelledType, translate: string -> string)
    ensures forall n: DefaultName :: IsPristineDefault(t, n) ==>
              DisplayLabel(t, Some(translate)) == translate(TranslationKey(n))
    ensures (forall n: DefaultName :: !IsPristineDefault(t, n)) ==>
              DisplayLabel(t, Some(translate)) == t.storedLabel
  {
    forall n: DefaultName | IsPristineDefault(t, n)
      ensures DisplayLabel(t, Some(translate)) == translate(TranslationKey(n))
    {
      LookupNameText(n);
      assert t.name.value != "" by {
        assert |Strings.ToUpper(t.name.value)| == |NameText(n)| > 0;
      }
    }
    if (forall n: DefaultName :: !IsPristineDefault(t, n)) && Truthy(t.name) {
      var found := LookupDefaultName(Strings.ToUpper(t.name.value));
      if found.Some? {
        assert !IsPristineDefault(t, found.value);
      }
    }
  }

  /** The name is matched case-insensitively: upper-casing it first changes nothing. */
  lemma DisplayLabelCaseInsensitive(name: string, storedLabel: string, translate: Option<string -> string>)
    ensures DisplayLabel(LabelledType(Some(name), storedLabel), translate)
         == DisplayLabel(LabelledType(Some(Strings.ToUpper(name)), storedLabel), translate)
  {
    Strings.ToUpperIdempotent(name);
  }
}
