/** The member repository as a map from id to record: `findById`,
    `findByIdAndUseYn`, and `save` as an upsert keyed by the record's id. */
module MemberRepository {
  import opened Common
  import opened MemberInfo

  /** Every stored record carries its own key as its id. */
  ghost predicate WellKeyed(t: map<string, Member>)
  {
    forall k :: k in t ==> t[k].id == Some(k)
  }

  type MemberTable = t: map<string, Member> | WellKeyed(t) witness map[]

  /** `findById`: the record stored under `id`, whatever its flags. */
  function FindById(t: MemberTable, id: string): (r: Option<Member>)
    ensures r.Some? <==> id in t
    ensures r.Some? ==> r.value == t[id] && r.value.id == Some(id)
  {
    if id in t then Some(t[id]) else None
  }

  /** `findByIdAndUseYn`: the record stored under `id`, only if its `useYn`
      flag equals `useYn`. */
  function FindByIdAndUseYn(t: MemberTable, id: string, useYn: string): (r: Option<Member>)
    ensures r.Some? <==> id in t && t[id].useYn == Some(useYn)
    ensures r.Some? ==> r.value == t[id] && r.value.id == Some(id)
  {
    if id in t && t[id].useYn == Some(useYn) then Some(t[id]) else None
  }

  /** A record the repository can save: its `@Id` is assigned. */
  predicate Saveable(m: Member)
  {
    m.id.Some?
  }

  /** `save`: inserts the record, or replaces the whole row with the same id. */
  function Save(t: MemberTable, m: Member): (r: MemberTable)
    requires Saveable(m)
    ensures r.Keys == t.Keys + {m.id.value}
    ensures r[m.id.value] == m
    ensures forall k :: k in t && k != m.id.value ==> r[k] == t[k]
  {
    t[m.id.value := m]
  }

  predicate AllSaveable(saves: seq<Member>)
  {
    forall i :: 0 <= i < |saves| ==> saves[i].id.Some?
  }

  /** The ids a sequence of saves writes to. */
  function SavedKeys(saves: seq<Member>): set<string>
    requires AllSaveable(saves)
  {
    if |saves| == 0 then {} else {saves[0].id.value} + SavedKeys(saves[1..])
  }

  /** The table after a sequence of saves, in order: the saved ids are added,
      the last record saved is stored under its id, and every row no save
      touches is kept. */
  function ApplySaves(t: MemberTable, saves: seq<Member>): (r: MemberTable)
    requires AllSaveable(saves)
    ensures r.Keys == t.Keys + SavedKeys(saves)
    ensures forall k :: k in t && k !in SavedKeys(saves) ==> r[k] == t[k]
    ensures |saves| > 0 ==> saves[|saves| - 1].id.value in r && r[saves[|saves| - 1].id.value] == saves[|saves| - 1]
    decreases |saves|
  {
    if |saves| == 0 then t else ApplySaves(Save(t, saves[0]), saves[1..])
  }
}
