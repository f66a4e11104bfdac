/**
 * The relationship-type table of the database, reduced to what the
 * catalogue routines touch: records keyed by id, each owned by one user.
 * Ids are handed out by the store itself (`nextId`), standing in for the
 * database's id generation; listing a user's types visits ids in ascending
 * order, i.e. in creation order.
 */
module TypeStore {
  import opened Common

  type Id = nat

  /** One row of the relationship-type table. `inverseId` refers to another row's id. */
  datatype TypeRecord = TypeRecord(
    userId: string,
    name: Option<string>,
    displayLabel: string,
    color: Option<string>,
    inverseId: Option<Id>)

  datatype Store = Store(records: map<Id, TypeRecord>, nextId: Id)

  /** Every record's id was handed out before: the next id is fresh. */
  predicate Valid(s: Store) {
    forall id :: id in s.records ==> id < s.nextId
  }

  /** Record `k` exists, belongs to `userId` and is named `name`. */
  predicate Owns(s: Store, userId: string, k: Id, name: string) {
    k in s.records && s.records[k].userId == userId && s.records[k].name == Some(name)
  }

  /** Two versions of a record that differ at most in their inverse link and colour. */
  predicate SameIdentity(a: TypeRecord, b: TypeRecord) {
    a.userId == b.userId && a.name == b.name && a.displayLabel == b.displayLabel
  }

  /** `create`: a new record under a fresh id, with no inverse yet. */
  function Create(s: Store, userId: string, name: Option<string>, displayLabel: string, color: Option<string>)
    : (r: (Store, Id))
    requires Valid(s)
    ensures Valid(r.0)
    ensures r.1 !in s.records && r.1 in r.0.records
    ensures r.0.records == s.records[r.1 := TypeRecord(userId, name, displayLabel, color, None)]
    ensures r.1 == s.nextId && r.0.nextId == s.nextId + 1
  {
    var id := s.nextId;
    (Store(s.records[id := TypeRecord(userId, name, displayLabel, color, None)], id + 1), id)
  }

  /** `update({ where: { id }, data: { inverseId } })`. */
  function SetInverse(s: Store, id: Id, inverseId: Id): (r: Store)
    requires id in s.records
    ensures r.records.Keys == s.records.Keys && r.nextId == s.nextId
    ensures r.records[id] == s.records[id].(inverseId := Some(inverseId))
    ensures forall k :: k in s.records && k != id ==> r.records[k] == s.records[k]
  {
    Store(s.records[id := s.records[id].(inverseId := Some(inverseId))], s.nextId)
  }

  /** `update({ where: { id }, data: { color } })`. */
  function SetColor(s: Store, id: Id, color: string): (r: Store)
    requires id in s.records
    ensures r.records.Keys == s.records.Keys && r.nextId == s.nextId
    ensures r.records[id] == s.records[id].(color := Some(color))
    ensures forall k :: k in s.records && k != id ==> r.records[k] == s.records[k]
  {
    Store(s.records[id := s.records[id].(color := Some(color))], s.nextId)
  }

  /** `deleteMany({ where: { userId, name } })`. */
  function DeleteNamed(s: Store, userId: string, name: string): (r: Store)
    ensures r.nextId == s.nextId
    ensures forall k :: k in r.records <==>
              k in s.records && !(s.records[k].userId == userId && s.records[k].name == Some(name))
    ensures forall k :: k in r.records ==> r.records[k] == s.records[k]
  {
    Store(map k | k in s.records && !(s.records[k].userId == userId && s.records[k].name == Some(name))
            :: s.records[k], s.nextId)
  }
}
