/**
 * The pure shaping step of the account export (app/api/user/export/route.ts):
 * parsing the `groupIds` query parameter, choosing which people and groups
 * are exported, dropping group links and relationships that point outside
 * the export, and building the exported records.  The database reads are
 * replaced by their results, passed in as sequences; the user's own row and
 * the export timestamp are left out.
 */
module UserExport {
  import opened Common
  import Strings

  predicate NonEmpty(s: string) {
    s != ""
  }

  /** Dropping empty pieces does not change what they spell when glued together. */
  lemma {:induction false} ConcatDropsEmpty(parts: seq<string>)
    ensures Strings.Concat(Filter(parts, NonEmpty)) == Strings.Concat(parts)
    decreases |parts|
  {
    if |parts| > 0 {
      ConcatDropsEmpty(parts[1..]);
      if NonEmpty(parts[0]) {
        Strings.ConcatAppend([parts[0]], Filter(parts[1..], NonEmpty));
      }
    }
  }

  /**
   * `groupIdsParam ? groupIdsParam.split(',').filter(Boolean) : null`: an
   * absent or empty parameter means no filter; otherwise the non-empty
   * comma-separated pieces, in order.
   */
  function ParseGroupIds(param: Option<string>): (r: Option<seq<string>>)
    ensures r.None? <==> !Truthy(param)
    ensures r.Some? ==> forall i :: 0 <= i < |r.value| ==> r.value[i] != "" && ',' !in r.value[i]
    ensures r.Some? ==> Strings.Concat(r.value) == Strings.RemoveChar(param.value, ',')
  {
    if !Truthy(param) then None
    else
      var pieces := Strings.Split(param.value, [',']);
      Strings.SplitCharPiecesFree(param.value, ',');
      Strings.ConcatSplitChar(param.value, ',');
      ConcatDropsEmpty(pieces);
      Some(Filter(pieces, NonEmpty))
  }

  /**
   * Splitting happens exactly at the commas: a parameter written as
   * comma-free pieces joined by commas parses to those pieces, with the
   * empty ones dropped and the order kept.
   */
  lemma ParseJoined(parts: seq<string>)
    requires |parts| > 0
    requires forall i :: 0 <= i < |parts| ==> ',' !in parts[i]
    requires Strings.Join(parts, ",") != ""
    ensures ParseGroupIds(Some(Strings.Join(parts, ","))) == Some(Filter(parts, NonEmpty))
  {
    Strings.SplitJoin(parts, ",");
  }

  /** A parameter made only of commas yields an empty filter list (which then filters nothing). */
  lemma ParseOnlyCommas()
    ensures ParseGroupIds(Some(",,")) == Some([])
  {
    var pieces := Strings.Split(",,", [',']);
    assert pieces == ["", "", ""] by {
      assert ",,"[..1] == [','];
      assert ",,"[1..] == ",";
      assert ","[..1] == [','];
      assert ","[1..] == "";
    }
  }

  /** `filterByGroups && filterByGroups.length > 0`: a filter that actually restricts. */
  predicate FilterActive(filter: Option<seq<string>>) {
    filter.Some? && |filter.value| > 0
  }

  /** A relationship type as the export selects it. */
  datatype TypeRef = TypeRef(id: string, name: Option<string>, displayLabel: string)

  /** A person's membership of a group, with the group's id and name. */
  datatype GroupLink = GroupLink(groupId: string, groupName: string)

  datatype RelatedPerson = RelatedPerson(id: string, name: string, surname: Option<string>, nickname: Option<string>)

  datatype Relationship = Relationship(
    relatedPersonId: string,
    relatedPerson: RelatedPerson,
    relationshipType: Option<TypeRef>,
    notes: Option<string>)

  /** A person row with its included relations. `lastContact` is kept as its serialised text. */
  datatype Person = Person(
    id: string,
    name: string,
    surname: Option<string>,
    nickname: Option<string>,
    lastContact: Option<string>,
    notes: Option<string>,
    relationshipToUser: Option<TypeRef>,
    groups: seq<GroupLink>,
    relationshipsFrom: seq<Relationship>)

  datatype Group = Group(id: string, name: string, description: Option<string>, color: Option<string>)

  /** `{ name, label }`: the exported form of a relationship type. */
  datatype TypeLabel = TypeLabel(name: Option<string>, displayLabel: string)

  datatype RelationshipOut = RelationshipOut(
    relatedPersonId: string,
    relatedPersonName: string,
    relationshipType: Option<TypeLabel>,
    notes: Option<string>)

  datatype PersonOut = PersonOut(
    id: string,
    name: string,
    surname: Option<string>,
    nickname: Option<string>,
    lastContact: Option<string>,
    notes: Option<string>,
    relationshipToUser: Option<TypeLabel>,
    groups: seq<string>,
    relationships: seq<RelationshipOut>)

  datatype ExportData = ExportData(groups: seq<Group>, people: seq<PersonOut>)

  /** The person belongs to one of the listed groups (`groups: { some: { groupId: { in } } }`). */
  predicate InSomeGroup(p: Person, ids: seq<string>) {
    exists j :: 0 <= j < |p.groups| && p.groups[j].groupId in ids
  }

  /** The people query: all of the user's people, or those in some listed group when the filter is active. */
  function SelectPeople(all: seq<Person>, filter: Option<seq<string>>): (r: seq<Person>)
    ensures !FilterActive(filter) ==> r == all
    ensures FilterActive(filter) ==> forall i :: 0 <= i < |r| ==> InSomeGroup(r[i], filter.value)
    ensures FilterActive(filter) ==> forall i :: 0 <= i < |all| && InSomeGroup(all[i], filter.value) ==> all[i] in r
    ensures IsSubsequence(r, all)
  {
    if FilterActive(filter) then Filter(all, p => InSomeGroup(p, filter.value))
    else
      FilterKeepsAll(all, (p: Person) => true);
      all
  }

  /** The ids of a person's group links. */
  function LinkIds(links: seq<GroupLink>): set<string> {
    set j | 0 <= j < |links| :: links[j].groupId
  }

  /** `allPeople.flatMap(p => p.groups.map(g => g.group.id))`, as a set. */
  function AllGroupIds(people: seq<Person>): (r: set<string>)
    ensures forall id :: id in r <==> exists i :: 0 <= i < |people| && id in LinkIds(people[i].groups)
    decreases |people|
  {
    if |people| == 0 then {}
    else
      var rest := AllGroupIds(people[1..]);
      assert forall i :: 1 <= i < |people| ==> people[i] == people[1..][i - 1];
      LinkIds(people[0].groups) + rest
  }

  /** exportedGroupIds: the filter's ids when it is active, otherwise every group some exported person is in. */
  function ExportedGroupIds(people: seq<Person>, filter: Option<seq<string>>): (r: set<string>)
    ensures FilterActive(filter) ==> forall id :: id in r <==> id in filter.value
    ensures !FilterActive(filter) ==>
              forall id :: id in r <==>
                exists i, j :: 0 <= i < |people| && 0 <= j < |people[i].groups| && people[i].groups[j].groupId == id
  {
    if FilterActive(filter) then set id | id in filter.value
    else AllGroupIds(people)
  }

  /** exportedPersonIds. */
  function PersonIds(people: seq<Person>): set<string> {
    set i | 0 <= i < |people| :: people[i].id
  }

  /**
   * The related person's display name: the name, then the nickname in
   * single quotes if it is non-empty, then the surname if it is non-empty,
   * each preceded by a space.
   */
  function RelatedPersonName(p: RelatedPerson): (r: string)
    ensures |r| == |p.name| + (if Truthy(p.nickname) then |p.nickname.value| + 3 else 0)
                            + (if Truthy(p.surname) then |p.surname.value| + 1 else 0)
    ensures Strings.StartsWith(r, p.name)
    ensures !Truthy(p.nickname) && !Truthy(p.surname) ==> r == p.name
    ensures Truthy(p.surname) ==> r[|r| - |p.surname.value| - 1..] == " " + p.surname.value
    ensures Truthy(p.nickname) ==> r[|p.name|..|p.name| + |p.nickname.value| + 3] == " '" + p.nickname.value + "'"
  {
    var nick := if Truthy(p.nickname) then " '" + p.nickname.value + "'" else "";
    var sur := if Truthy(p.surname) then " " + p.surname.value else "";
    assert (p.name + nick + sur)[..|p.name|] == p.name;
    assert (p.name + nick + sur)[|p.name|..|p.name| + |nick|] == nick;
    p.name + nick + sur
  }

  /** `t ? { name: t.name, label: t.label } : null`. */
  function ProjectType(t: Option<TypeRef>): (r: Option<TypeLabel>)
    ensures r.None? <==> t.None?
    ensures r.Some? ==> r.value.name == t.value.name && r.value.displayLabel == t.value.displayLabel
  {
    match t
    case None => None
    case Some(x) => Some(TypeLabel(x.name, x.displayLabel))
  }

  function ExportRelationship(rel: Relationship): (r: RelationshipOut)
    ensures r.relatedPersonId == rel.relatedPersonId && r.notes == rel.notes
    ensures r.relatedPersonName == RelatedPersonName(rel.relatedPerson)
    ensures r.relationshipType == ProjectType(rel.relationshipType)
  {
    RelationshipOut(rel.relatedPersonId, RelatedPersonName(rel.relatedPerson),
                    ProjectType(rel.relationshipType), rel.notes)
  }

  function MapRelationships(rels: seq<Relationship>): (r: seq<RelationshipOut>)
    ensures |r| == |rels|
    ensures forall i :: 0 <= i < |rels| ==> r[i] == ExportRelationship(rels[i])
  {
    seq(|rels|, i requires 0 <= i < |rels| => ExportRelationship(rels[i]))
  }

  function GroupNames(links: seq<GroupLink>): (r: seq<string>)
    ensures |r| == |links|
    ensures forall i :: 0 <= i < |links| ==> r[i] == links[i].groupName
  {
    seq(|links|, i requires 0 <= i < |links| => links[i].groupName)
  }

  /** The exported form of one person, after its groups and relationships were filtered. */
  function ExportPerson(p: Person, groupIds: set<string>, personIds: set<string>): (r: PersonOut)
    ensures r.id == p.id && r.name == p.name && r.surname == p.surname && r.nickname == p.nickname
    ensures r.lastContact == p.lastContact && r.notes == p.notes
    ensures r.relationshipToUser == ProjectType(p.relationshipToUser)
    ensures r.groups == GroupNames(Filter(p.groups, (g: GroupLink) => g.groupId in groupIds))
    ensures r.relationships == MapRelationships(Filter(p.relationshipsFrom, (rel: Relationship) => rel.relatedPersonId in personIds))
    ensures forall k :: 0 <= k < |r.relationships| ==> r.relationships[k].relatedPersonId in personIds
  {
    var kept := Filter(p.relationshipsFrom, (rel: Relationship) => rel.relatedPersonId in personIds);
    FilterMembership(p.relationshipsFrom, (rel: Relationship) => rel.relatedPersonId in personIds);
    assert forall k :: 0 <= k < |kept| ==> kept[k] in kept;
    PersonOut(p.id, p.name, p.surname, p.nickname, p.lastContact, p.notes,
              ProjectType(p.relationshipToUser),
              GroupNames(Filter(p.groups, (g: GroupLink) => g.groupId in groupIds)),
              MapRelationships(Filter(p.relationshipsFrom, (rel: Relationship) => rel.relatedPersonId in personIds)))
  }

  /**
   * The export of `allPeople` (the user's people) and `allGroups` (the
   * user's groups) under the parsed filter.
   */
  function Export(allPeople: seq<Person>, allGroups: seq<Group>, filter: Option<seq<string>>): (r: ExportData)
    ensures var people := SelectPeople(allPeople, filter);
      && |r.people| == |people|
      && (forall i :: 0 <= i < |people| ==>
            r.people[i] == ExportPerson(people[i], ExportedGroupIds(people, filter), PersonIds(people)))
      && r.groups == Filter(allGroups, (g: Group) => g.id in ExportedGroupIds(people, filter))
    ensures var people := SelectPeople(allPeople, filter);
      forall i, k :: 0 <= i < |r.people| && 0 <= k < |r.people[i].relationships| ==>
        r.people[i].relationships[k].relatedPersonId in PersonIds(people)
    ensures forall g :: g in r.groups <==> g in allGroups && g.id in ExportedGroupIds(SelectPeople(allPeople, filter), filter)
  {
    var people := SelectPeople(allPeople, filter);
    var groupIds := ExportedGroupIds(people, filter);
    var personIds := PersonIds(people);
    FilterMembership(allGroups, (g: Group) => g.id in groupIds);
    ExportData(Filter(allGroups, (g: Group) => g.id in groupIds),
               seq(|people|, i requires 0 <= i < |people| => ExportPerson(people[i], groupIds, personIds)))
  }

  /** An empty filter list (for example from `groupIds=,,`) exports exactly what no filter exports. */
  lemma EmptyFilterIsNoFilter(allPeople: seq<Person>, allGroups: seq<Group>)
    ensures Export(allPeople, allGroups, Some([])) == Export(allPeople, allGroups, None)
  {
  }

  /** A parameter of commas only exports everything, like an absent parameter. */
  lemma CommasOnlyExportsAll(allPeople: seq<Person>, allGroups: seq<Group>)
    ensures Export(allPeople, allGroups, ParseGroupIds(Some(",,"))) == Export(allPeople, allGroups, ParseGroupIds(None))
  {
    ParseOnlyCommas();
    EmptyFilterIsNoFilter(allPeople, allGroups);
  }

  /**
   * Closure of the export: every exported relationship points at an
   * exported person, and every group a person is exported with is among the
   * exported groups; conversely no relationship to an exported person and
   * no link to an exported group is dropped, and the order is kept.
   */
  lemma ExportIsClosed(allPeople: seq<Person>, allGroups: seq<Group>, filter: Option<seq<string>>, i: nat)
    requires i < |SelectPeople(allPeople, filter)|
    ensures var people := SelectPeople(allPeople, filter);
      var p := people[i];
      var out := Export(allPeople, allGroups, filter).people[i];
      var groupIds := ExportedGroupIds(people, filter);
      var kept := Filter(p.relationshipsFrom, (rel: Relationship) => rel.relatedPersonId in PersonIds(people));
      var links := Filter(p.groups, (g: GroupLink) => g.groupId in groupIds);
      && (forall k :: 0 <= k < |out.relationships| ==>
            exists m :: 0 <= m < |people| && people[m].id == out.relationships[k].relatedPersonId)
      && (forall k :: 0 <= k < |p.relationshipsFrom| && p.relationshipsFrom[k].relatedPersonId in PersonIds(people)
            ==> p.relationshipsFrom[k] in kept)
      && IsSubsequence(kept, p.relationshipsFrom)
      && (forall k :: 0 <= k < |links| ==> links[k].groupId in groupIds)
      && (forall k :: 0 <= k < |p.groups| && p.groups[k].groupId in groupIds ==> p.groups[k] in links)
      && IsSubsequence(links, p.groups)
  {
    var people := SelectPeople(allPeople, filter);
    var p := people[i];
    var out := Export(allPeople, allGroups, filter).people[i];
    var kept := Filter(p.relationshipsFrom, (rel: Relationship) => rel.relatedPersonId in PersonIds(people));
    forall k | 0 <= k < |out.relationships|
      ensures exists m :: 0 <= m < |people| && people[m].id == out.relationships[k].relatedPersonId
    {
      assert out.relationships[k].relatedPersonId == kept[k].relatedPersonId;
      assert kept[k].relatedPersonId in PersonIds(people);
    }
  }

  /**
   * With an active filter, the exported groups are exactly the user's
   * groups whose id is listed, every exported person is in one of them, and
   * every person in one of them is exported.
   */
  lemma FilteredExport(allPeople: seq<Person>, allGroups: seq<Group>, filter: Option<seq<string>>)
    requires FilterActive(filter)
    ensures var r := Export(allPeople, allGroups, filter);
      && (forall g :: g in r.groups <==> g in allGroups && g.id in filter.value)
      && (forall i :: 0 <= i < |SelectPeople(allPeople, filter)| ==> InSomeGroup(SelectPeople(allPeople, filter)[i], filter.value))
      && (forall q :: q in allPeople && InSomeGroup(q, filter.value) ==> q in SelectPeople(allPeople, filter))
  {
    var people := SelectPeople(allPeople, filter);
    var ids := ExportedGroupIds(people, filter);
    FilterMembership(allGroups, (g: Group) => g.id in ids);
    FilterMembership(allPeople, p => InSomeGroup(p, filter.value));
  }

  /**
   * Without an active filter, everyone is exported and the exported groups
   * are exactly the user's groups that at least one person belongs to.
   */
  lemma UnfilteredExport(allPeople: seq<Person>, allGroups: seq<Group>, filter: Option<seq<string>>)
    requires !FilterActive(filter)
    ensures var r := Export(allPeople, allGroups, filter);
      && |r.people| == |allPeople|
      && (forall g :: g in r.groups <==>
            g in allGroups && exists i, j :: 0 <= i < |allPeople| && 0 <= j < |allPeople[i].groups|
                                              && allPeople[i].groups[j].groupId == g.id)
  {
    var ids := ExportedGroupIds(allPeople, filter);
    FilterMembership(allGroups, (g: Group) => g.id in ids);
  }
}
