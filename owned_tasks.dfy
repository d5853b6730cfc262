/** The owner-scoped task list: each task belongs to the user whose token created it, and
    only that user may list, rename or delete it. */
module OwnedTasks {
  import opened Common
  import opened Queries

  /** A stored task of this controller: its id, its title and its owner. */
  datatype OwnedTask = OwnedTask(id: Id, title: string, owner: Id)

  /** `Task.find({ userId: owner })`: the owner's tasks in stored order. */
  function OwnedBy(rows: seq<OwnedTask>, owner: Id): (r: seq<OwnedTask>)
    ensures forall t :: t in r <==> t in rows && t.owner == owner
    ensures |r| == Count(rows, (t: OwnedTask) => t.owner == owner)
    ensures forall t :: multiset(r)[t] == if t.owner == owner then multiset(rows)[t] else 0
  {
    var mine := (t: OwnedTask) => t.owner == owner;
    WhereSelects(rows, mine);
    Where(rows, mine)
  }

  /** The filter `{ _id: id, userId: owner }`: the position of the task with that id,
      provided it belongs to that owner. */
  function FindOwned(rows: seq<OwnedTask>, id: Id, owner: Id): (r: Option<nat>)
    ensures r.Some? ==> r.value < |rows| && rows[r.value].id == id && rows[r.value].owner == owner
    ensures r.None? <==> forall k :: 0 <= k < |rows| ==> !(rows[k].id == id && rows[k].owner == owner)
  {
    FindOne(rows, (t: OwnedTask) => t.id == id && t.owner == owner)
  }

  /** Replacing or removing a task of one owner leaves every other owner's list as it was. */
  lemma OtherOwnersUnaffected(rows: seq<OwnedTask>, i: nat, middle: seq<OwnedTask>, owner: Id, other: Id)
    requires i < |rows| && rows[i].owner == owner && other != owner
    requires |middle| <= 1 && forall t :: t in middle ==> t.owner == owner
    ensures OwnedBy(rows[..i] + middle + rows[i + 1..], other) == OwnedBy(rows, other)
  {
    var f := (t: OwnedTask) => t.owner == other;
    assert rows == rows[..i] + [rows[i]] + rows[i + 1..];
    WhereConcat(rows[..i] + [rows[i]], rows[i + 1..], f);
    WhereConcat(rows[..i], [rows[i]], f);
    WhereConcat(rows[..i] + middle, rows[i + 1..], f);
    WhereConcat(rows[..i], middle, f);
    assert Where([rows[i]], f) == [] by {
      assert [rows[i]][..0] == [];
    }
    assert Where(middle, f) == [] by {
      if middle != [] {
        assert middle[..0] == [];
      }
    }
  }

  /** Removing the row at `i` from rows with unique ids below `nextId` keeps the ids unique
      and below `nextId`, leaves no row with the removed id, and keeps every other row. */
  lemma RemovalFacts(rows: seq<OwnedTask>, i: nat, nextId: nat, rows': seq<OwnedTask>)
    requires i < |rows| && rows' == rows[..i] + rows[i + 1..]
    requires forall k :: 0 <= k < |rows| ==> rows[k].id < nextId
    requires forall a, b :: 0 <= a < b < |rows| ==> rows[a].id != rows[b].id
    ensures forall k :: 0 <= k < |rows'| ==> rows'[k].id < nextId
    ensures forall a, b :: 0 <= a < b < |rows'| ==> rows'[a].id != rows'[b].id
    ensures forall k :: 0 <= k < |rows'| ==> rows'[k].id != rows[i].id
    ensures forall k :: 0 <= k < |rows| && k != i ==> rows[k] in rows'
  {
    forall k | 0 <= k < |rows'| ensures rows'[k] == (if k < i then rows[k] else rows[k + 1]) {
    }
    forall k | 0 <= k < |rows| && k != i ensures rows[k] in rows' {
      if k < i { assert rows'[k] == rows[k]; } else { assert rows'[k - 1] == rows[k]; }
    }
  }

  class TaskTable {
    var rows: seq<OwnedTask>
    var nextId: nat

    /** Task ids are unique and below the next id to hand out. */
    ghost predicate Valid()
      reads this
    {
      && (forall k :: 0 <= k < |rows| ==> rows[k].id < nextId)
      && (forall i, j :: 0 <= i < j < |rows| ==> rows[i].id != rows[j].id)
    }

    /** An empty task collection. */
    constructor ()
      ensures Valid() && rows == [] && nextId == 0
    {
      rows := [];
      nextId := 0;
    }

    /** `createTask`: saves a task whose title is the request's `task` and whose owner is
        the token's user, under an id no stored task has. */
    method CreateTask(title: string, owner: Id) returns (t: OwnedTask)
      requires Valid()
      modifies this
      ensures Valid()
      ensures t.title == title && t.owner == owner
      ensures forall k :: 0 <= k < |old(rows)| ==> old(rows)[k].id != t.id
      ensures rows == old(rows) + [t]
      ensures OwnedBy(rows, owner) == OwnedBy(old(rows), owner) + [t]
      ensures forall other :: other != owner ==> OwnedBy(rows, other) == OwnedBy(old(rows), other)
    {
      t := OwnedTask(nextId, title, owner);
      ghost var before := rows;
      rows := rows + [t];
      nextId := nextId + 1;
      assert rows[..|rows| - 1] == before;
    }

    /** `getAllTasks`: the requester's tasks and no one else's. */
    function GetAllTasks(owner: Id): (r: seq<OwnedTask>)
      reads this
      ensures forall t :: t in r <==> t in rows && t.owner == owner
      ensures |r| == Count(rows, (t: OwnedTask) => t.owner == owner)
      ensures forall t :: multiset(r)[t] == if t.owner == owner then multiset(rows)[t] else 0
    {
      OwnedBy(rows, owner)
    }

    /** `updateTask`: renames the one task with that id and owner, and answers 404 when the
        requester has no such task; nothing else changes. */
    method UpdateTask(id: Id, owner: Id, title: string) returns (r: Result<OwnedTask>)
      requires Valid()
      modifies this
      ensures Valid()
      ensures nextId == old(nextId)
      ensures r.Err? <==> FindOwned(old(rows), id, owner).None?
      ensures r.Err? ==> r.error == NotFound && rows == old(rows)
      ensures r.Ok? ==> var i := FindOwned(old(rows), id, owner).value;
                        && r.value == old(rows)[i].(title := title)
                        && rows == old(rows)[i := r.value]
      ensures forall other :: other != owner ==> OwnedBy(rows, other) == OwnedBy(old(rows), other)
    {
      var found := FindOwned(rows, id, owner);
      if found.None? {
        return Err(NotFound);
      }
      var i := found.value;
      var updated := rows[i].(title := title);
      ghost var before := rows;
      rows := rows[i := updated];
      forall other | other != owner ensures OwnedBy(rows, other) == OwnedBy(before, other) {
        assert rows == before[..i] + [updated] + before[i + 1..];
        OtherOwnersUnaffected(before, i, [updated], owner, other);
      }
      r := Ok(updated);
    }

    /** `deleteTask`: removes the one task with that id and owner, and answers 404 when the
        requester has no such task. No other task is removed, and no other owner's list
        changes. */
    method DeleteTask(id: Id, owner: Id) returns (r: Result<OwnedTask>)
      requires Valid()
      modifies this
      ensures Valid()
      ensures nextId == old(nextId)
      ensures r.Err? <==> FindOwned(old(rows), id, owner).None?
      ensures r.Err? ==> r.error == NotFound && rows == old(rows)
      ensures r.Ok? ==> var i := FindOwned(old(rows), id, owner).value;
                        && r.value == old(rows)[i]
                        && rows == old(rows)[..i] + old(rows)[i + 1..]
      ensures r.Ok? ==> forall k :: 0 <= k < |rows| ==> rows[k].id != id
      ensures forall t :: t in old(rows) && t.owner != owner ==> t in rows
      ensures forall other :: other != owner ==> OwnedBy(rows, other) == OwnedBy(old(rows), other)
    {
      var found := FindOwned(rows, id, owner);
      if found.None? {
        return Err(NotFound);
      }
      var i := found.value;
      var deleted := rows[i];
      ghost var before := rows;
      rows := rows[..i] + rows[i + 1..];
      forall other | other != owner ensures OwnedBy(rows, other) == OwnedBy(before, other) {
        assert rows == before[..i] + [] + before[i + 1..];
        OtherOwnersUnaffected(before, i, [], owner, other);
      }
      RemovalFacts(before, i, nextId, rows);
      r := Ok(deleted);
    }
  }
}
