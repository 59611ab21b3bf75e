/** The todo record, the archive record, and the pure list transforms the
    controller applies to its local copy of the active table: `find`,
    the `map` that flips `completed`, the `filter` that removes an id, and
    the `filter(...).length` that counts completed todos. */
module Todos {

  type Id = string

  /** One row of the active `todos` table; `id` and `createdAt` are assigned
      by the store when the row is inserted. */
  datatype Todo = Todo(id: Id, text: string, completed: bool, createdAt: string)

  /** One row of the `deleted_tasks` table, written when a todo is deleted. */
  datatype ArchivedTask = ArchivedTask(taskId: Id, text: string, completed: bool, createdAt: string)

  datatype Option<T> = None | Some(value: T)

  /** The archive record for `t`: `id` becomes `taskId`, the rest is copied,
      so the record holds everything needed to restore the todo. */
  function ArchiveOf(t: Todo): (r: ArchivedTask)
    ensures Todo(r.taskId, r.text, r.completed, r.createdAt) == t
  {
    ArchivedTask(t.id, t.text, t.completed, t.createdAt)
  }

  /** No two entries share an id. */
  predicate UniqueIds(s: seq<Todo>) {
    forall i, j :: 0 <= i < j < |s| ==> s[i].id != s[j].id
  }

  /** The first entry whose id is `id`, or `None` when no entry has it. */
  function Find(s: seq<Todo>, id: Id): (r: Option<Todo>)
    ensures r.Some? ==> r.value in s && r.value.id == id
    ensures r.None? ==> forall i :: 0 <= i < |s| ==> s[i].id != id
  {
    if s == [] then None
    else if s[0].id == id then Some(s[0])
    else Find(s[1..], id)
  }

  /** The value toggle sends to the store: the negation of the first matching
      entry's flag, or `true` when no entry has the id. */
  function ToggleValue(s: seq<Todo>, id: Id): (v: bool)
    ensures (forall i :: 0 <= i < |s| ==> s[i].id != id) ==> v
    ensures forall k :: 0 <= k < |s| && s[k].id == id && (forall j :: 0 <= j < k ==> s[j].id != id) ==>
      v == !s[k].completed
  {
    assert forall k :: 0 <= k < |s| && s[k].id == id && (forall j :: 0 <= j < k ==> s[j].id != id) ==>
      Find(s, id) == Some(s[k]) by {
      forall k | 0 <= k < |s| && s[k].id == id && (forall j :: 0 <= j < k ==> s[j].id != id) {
        FindFirst(s, id, k);
      }
    }
    match Find(s, id)
    case Some(t) => !t.completed
    case None => true
  }

  /** The local toggle: every entry with the id has `completed` negated;
      every other entry is kept as it is, in the same position. */
  function FlipCompleted(s: seq<Todo>, id: Id): (r: seq<Todo>)
    ensures |r| == |s|
    ensures forall i :: 0 <= i < |s| && s[i].id == id ==>
      r[i].id == id && r[i].text == s[i].text && r[i].createdAt == s[i].createdAt &&
      r[i].completed == !s[i].completed
    ensures forall i :: 0 <= i < |s| && s[i].id != id ==> r[i] == s[i]
  {
    if s == [] then []
    else
      var head := if s[0].id == id then s[0].(completed := !s[0].completed) else s[0];
      [head] + FlipCompleted(s[1..], id)
  }

  /** The store's update of the active table: every row with the id gets
      `completed = v`; every other row is kept. */
  function SetCompleted(s: seq<Todo>, id: Id, v: bool): (r: seq<Todo>)
    ensures |r| == |s|
    ensures forall i :: 0 <= i < |s| && s[i].id == id ==> r[i] == s[i].(completed := v)
    ensures forall i :: 0 <= i < |s| && s[i].id != id ==> r[i] == s[i]
  {
    if s == [] then []
    else
      var head := if s[0].id == id then s[0].(completed := v) else s[0];
      [head] + SetCompleted(s[1..], id, v)
  }

  /** The entries whose id differs from `id`, in their order. */
  function RemoveId(s: seq<Todo>, id: Id): (r: seq<Todo>)
    ensures |r| <= |s|
    ensures forall t :: t in r <==> t in s && t.id != id
  {
    if s == [] then []
    else if s[0].id == id then RemoveId(s[1..], id)
    else [s[0]] + RemoveId(s[1..], id)
  }

  /** The number of completed entries. */
  function CountCompleted(s: seq<Todo>): (n: nat)
    ensures n <= |s|
    ensures n == |s| <==> forall i :: 0 <= i < |s| ==> s[i].completed
    ensures n == 0 <==> forall i :: 0 <= i < |s| ==> !s[i].completed
  {
    if s == [] then 0
    else (if s[0].completed then 1 else 0) + CountCompleted(s[1..])
  }

  // ---------------------------------------------------------------------
  // find

  /** `find` returns the FIRST entry with the id. */
  lemma {:induction false} FindFirst(s: seq<Todo>, id: Id, k: nat)
    requires k < |s| && s[k].id == id
    requires forall j :: 0 <= j < k ==> s[j].id != id
    ensures Find(s, id) == Some(s[k])
  {
    if k > 0 {
      FindFirst(s[1..], id, k - 1);
    }
  }

  /** With unique ids, `find` returns the one entry with the id. */
  lemma FindUnique(s: seq<Todo>, id: Id, k: nat)
    requires UniqueIds(s)
    requires k < |s| && s[k].id == id
    ensures Find(s, id) == Some(s[k])
  {
  }

  // ---------------------------------------------------------------------
  // The local flip

  /** The flip is an involution: toggling the same id twice restores the list. */
  lemma FlipTwice(s: seq<Todo>, id: Id)
    ensures FlipCompleted(FlipCompleted(s, id), id) == s
  {
  }

  /** The flip keeps every id, so it keeps the ids unique. */
  lemma FlipKeepsUnique(s: seq<Todo>, id: Id)
    requires UniqueIds(s)
    ensures UniqueIds(FlipCompleted(s, id))
  {
  }

  /** With unique ids, the local flip equals the store's update with the value
      toggle sends, so local list and active table agree after a toggle. */
  lemma FlipIsSetCompleted(s: seq<Todo>, id: Id)
    requires UniqueIds(s)
    ensures FlipCompleted(s, id) == SetCompleted(s, id, ToggleValue(s, id))
  {
  }

  // ---------------------------------------------------------------------
  // The filter that removes an id

  /** The filter distributes over concatenation: it keeps the relative order
      of the entries it keeps. */
  lemma {:induction false} RemoveIdAppend(a: seq<Todo>, b: seq<Todo>, id: Id)
    ensures RemoveId(a + b, id) == RemoveId(a, id) + RemoveId(b, id)
  {
    if a == [] {
      assert a + b == b;
    } else {
      assert (a + b)[0] == a[0];
      assert (a + b)[1..] == a[1..] + b;
      RemoveIdAppend(a[1..], b, id);
    }
  }

  /** Removing an id that no entry has changes nothing. */
  lemma {:induction false} RemoveIdAbsent(s: seq<Todo>, id: Id)
    requires forall i :: 0 <= i < |s| ==> s[i].id != id
    ensures RemoveId(s, id) == s
  {
    if s != [] {
      RemoveIdAbsent(s[1..], id);
    }
  }

  /** With unique ids, removing the id of entry `k` removes exactly that entry
      and keeps the others in their order. */
  lemma RemoveIdAt(s: seq<Todo>, id: Id, k: nat)
    requires UniqueIds(s)
    requires k < |s| && s[k].id == id
    ensures RemoveId(s, id) == s[..k] + s[k+1..]
    ensures |RemoveId(s, id)| == |s| - 1
  {
    assert s == s[..k] + ([s[k]] + s[k+1..]);
    RemoveIdAppend(s[..k], [s[k]] + s[k+1..], id);
    RemoveIdAppend([s[k]], s[k+1..], id);
    RemoveIdAbsent(s[..k], id);
    RemoveIdAbsent(s[k+1..], id);
    assert RemoveId([s[k]], id) == [];
  }

  /** An entry whose id differs from every id of a unique list can be put in
      front of it. */
  lemma ConsKeepsUnique(t: Todo, s: seq<Todo>)
    requires UniqueIds(s)
    requires forall i :: 0 <= i < |s| ==> s[i].id != t.id
    ensures UniqueIds([t] + s)
  {
  }

  /** The filter keeps the ids unique. */
  lemma {:induction false} RemoveIdKeepsUnique(s: seq<Todo>, id: Id)
    requires UniqueIds(s)
    ensures UniqueIds(RemoveId(s, id))
  {
    if s != [] {
      assert UniqueIds(s[1..]) by {
        forall i, j | 0 <= i < j < |s[1..]| ensures s[1..][i].id != s[1..][j].id {
          assert s[1..][i] == s[i + 1] && s[1..][j] == s[j + 1];
        }
      }
      RemoveIdKeepsUnique(s[1..], id);
      var r := RemoveId(s[1..], id);
      if s[0].id != id {
        forall i | 0 <= i < |r| ensures r[i].id != s[0].id {
          assert r[i] in s[1..];
        }
        ConsKeepsUnique(s[0], r);
      }
    }
  }

  // ---------------------------------------------------------------------
  // The completed count

  /** The count of a concatenation is the sum of the counts. */
  lemma {:induction false} CountAppend(a: seq<Todo>, b: seq<Todo>)
    ensures CountCompleted(a + b) == CountCompleted(a) + CountCompleted(b)
  {
    if a == [] {
      assert a + b == b;
    } else {
      assert (a + b)[0] == a[0];
      assert (a + b)[1..] == a[1..] + b;
      CountAppend(a[1..], b);
    }
  }

  /** With unique ids, toggling entry `k` moves the completed count by one. */
  lemma CountAfterFlip(s: seq<Todo>, id: Id, k: nat)
    requires UniqueIds(s)
    requires k < |s| && s[k].id == id
    ensures CountCompleted(FlipCompleted(s, id)) ==
            if s[k].completed then CountCompleted(s) - 1 else CountCompleted(s) + 1
  {
    var r := FlipCompleted(s, id);
    assert r == s[..k] + ([r[k]] + s[k+1..]);
    assert s == s[..k] + ([s[k]] + s[k+1..]);
    CountAppend(s[..k], [r[k]] + s[k+1..]);
    CountAppend([r[k]], s[k+1..]);
    CountAppend(s[..k], [s[k]] + s[k+1..]);
    CountAppend([s[k]], s[k+1..]);
  }

  /** With unique ids, deleting entry `k` lowers the completed count by one
      exactly when that entry was completed. */
  lemma CountAfterRemove(s: seq<Todo>, id: Id, k: nat)
    requires UniqueIds(s)
    requires k < |s| && s[k].id == id
    ensures CountCompleted(RemoveId(s, id)) ==
            if s[k].completed then CountCompleted(s) - 1 else CountCompleted(s)
  {
    RemoveIdAt(s, id, k);
    assert s == s[..k] + ([s[k]] + s[k+1..]);
    CountAppend(s[..k], s[k+1..]);
    CountAppend(s[..k], [s[k]] + s[k+1..]);
    CountAppend([s[k]], s[k+1..]);
  }
}
