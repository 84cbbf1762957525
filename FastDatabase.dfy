/** The keyed content store: create, read, read-all, update and delete over a
    table of records keyed by their identifiers. */
module Database {

  import opened Wrappers
  import opened Models

  /** The mapper the store is given: `Map` builds a record for a fresh
      identifier from a request, `Patch` applies a request to a stored record;
      either may yield nothing. */
  datatype Mapper = Mapper(
    Map: (Guid, ContentDto) -> Option<Content>,
    Patch: (Content, ContentDto) -> Option<Content>)

  /** The mapper never changes an identifier: the table is keyed by the
      record's own `id`, which the store does not let an update modify. */
  ghost predicate KeepsIds(mapper: Mapper) {
    && (forall id, dto :: mapper.Map(id, dto).Some? ==> mapper.Map(id, dto).value.id == id)
    && (forall e, dto :: mapper.Patch(e, dto).Some? ==> mapper.Patch(e, dto).value.id == e.id)
  }

  /** Every record is stored under its own identifier. */
  ghost predicate KeyedById(table: map<Guid, Content>) {
    forall id :: id in table ==> table[id].id == id
  }

  /** Storing a record under its own id keeps the table keyed by id. */
  lemma KeyedByIdPut(table: map<Guid, Content>, c: Content)
    requires KeyedById(table)
    ensures KeyedById(table[c.id := c])
  {
  }

  /** Removing an entry keeps the table keyed by id. */
  lemma KeyedByIdRemove(table: map<Guid, Content>, id: Guid)
    requires KeyedById(table)
    ensures KeyedById(table - {id})
  {
  }

  /** The elements of a finite set, each once, in some order. */
  method Enumerate(keys: set<Guid>) returns (ids: seq<Guid>)
    ensures |ids| == |keys|
    ensures forall id :: id in ids <==> id in keys
    ensures forall i, j :: 0 <= i < j < |ids| ==> ids[i] != ids[j]
  {
    ids := [];
    var left := keys;
    while left != {}
      invariant left <= keys
      invariant forall id :: id in ids <==> id in keys - left
      invariant |ids| + |left| == |keys|
      invariant forall i, j :: 0 <= i < j < |ids| ==> ids[i] != ids[j]
      decreases left
    {
      var id :| id in left;
      assert id !in ids;
      ids := ids + [id];
      left := left - {id};
    }
  }

  class FastDatabase {
    const mapper: Mapper
    var table: map<Guid, Content>
    /** How many times `Update` has been called. */
    ghost var updateCalls: nat

    ghost predicate Valid()
      reads this
    {
      KeepsIds(mapper) && KeyedById(table)
    }

    /** A store over the rows already present. */
    constructor (mapper: Mapper, rows: map<Guid, Content>)
      requires KeepsIds(mapper) && KeyedById(rows)
      ensures Valid()
      ensures this.mapper == mapper && table == rows && updateCalls == 0
    {
      this.mapper := mapper;
      table := rows;
      updateCalls := 0;
    }

    /** Stores the record the mapper builds for `id`, which must be fresh (the
        source draws it with `Guid.NewGuid`). Nothing is stored when the mapper
        yields nothing. */
    method Create(item: ContentDto, id: Guid) returns (r: Option<Content>)
      requires Valid() && id !in table
      modifies this
      ensures Valid()
      ensures r == mapper.Map(id, item) && updateCalls == old(updateCalls)
      ensures r.Some? ==> r.value.id == id && table == old(table)[id := r.value]
      ensures r.None? ==> table == old(table)
    {
      r := mapper.Map(id, item);
      if r.Some? {
        KeyedByIdPut(table, r.value);
        table := table[r.value.id := r.value];
      }
    }

    /** Removes the record stored under `id` and returns `id`; returns
        `Guid.Empty` and changes nothing when there is none. */
    method Delete(id: Guid) returns (r: Guid)
      requires Valid()
      modifies this
      ensures Valid()
      ensures updateCalls == old(updateCalls)
      ensures id !in old(table) ==> r == EmptyGuid && table == old(table)
      ensures id in old(table) ==> r == id && table == old(table) - {id}
    {
      var entity := Read(id);
      if entity.None? {
        return EmptyGuid;
      }
      KeyedByIdRemove(table, id);
      table := table - {id};
      return id;
    }

    /** The record stored under `id`, if any. */
    method Read(id: Guid) returns (r: Option<Content>)
      requires Valid()
      ensures r.Some? <==> id in table
      ensures r.Some? ==> r.value == table[id] && r.value.id == id
    {
      r := if id in table then Some(table[id]) else None;
    }

    /** Every stored record once, in no particular order. */
    method ReadAll() returns (r: seq<Content>)
      requires Valid()
      ensures |r| == |table|
      ensures forall c :: c in r <==> c in table.Values
      ensures forall i, j :: 0 <= i < j < |r| ==> r[i].id != r[j].id
    {
      var rows := table;
      var ids := Enumerate(rows.Keys);
      r := seq(|ids|, i requires 0 <= i < |ids| => rows[ids[i]]);
      assert forall i :: 0 <= i < |r| ==> r[i] == rows[ids[i]] && r[i].id == ids[i];
      forall c | c in rows.Values
        ensures c in r
      {
        var id :| id in rows && rows[id] == c;
        var i :| 0 <= i < |ids| && ids[i] == id;
        assert r[i] == c;
      }
    }

    /** Applies `item` to the record stored under `id` and stores the patched
        record in its place. Returns nothing and changes nothing when there is
        no such record; changes nothing when the patch yields nothing. */
    method Update(id: Guid, item: ContentDto) returns (r: Option<Content>)
      requires Valid()
      modifies this
      ensures Valid()
      ensures updateCalls == old(updateCalls) + 1
      ensures id !in old(table) ==> r.None? && table == old(table)
      ensures id in old(table) ==> r == mapper.Patch(old(table)[id], item)
      ensures r.Some? ==> r.value.id == id && table == old(table)[id := r.value]
      ensures r.None? ==> table == old(table)
    {
      updateCalls := updateCalls + 1;
      var entity := Read(id);
      if entity.None? {
        return None;
      }
      r := mapper.Patch(entity.value, item);
      if r.Some? {
        KeyedByIdPut(table, r.value);
        table := table[id := r.value];
      }
    }
  }
}
