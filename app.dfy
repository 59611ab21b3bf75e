/** The todo-list state controller of `App`: the component state `todos` and
    `loading`, and the four operations that call the remote store and then
    update that state. Each operation runs to completion on its own. */
module App {
  import opened Todos
  import opened Remote

  class TodoApp {
    var todos: seq<Todo>
    var loading: bool
    const store: RemoteStore

    /** The invariant every operation keeps: no delete on the active table was
        issued before a successful archive of that todo. */
    ghost predicate Valid()
      reads this, store
    {
      ArchivedBeforeDeleted(store.log)
    }

    /** The local list mirrors the active table and its ids are unique. */
    ghost predicate Synced()
      reads this, store
    {
      todos == store.active && UniqueIds(todos)
    }

    /** The initial state: an empty list, and loading. */
    constructor (store: RemoteStore)
      requires ArchivedBeforeDeleted(store.log)
      ensures Valid()
      ensures this.store == store && todos == [] && loading
    {
      this.store := store;
      todos := [];
      loading := true;
    }

    /** How many local todos are completed. */
    function CompletedCount(): (n: nat)
      reads this
      ensures n <= |todos|
      ensures n == 0 <==> forall i :: 0 <= i < |todos| ==> !todos[i].completed
    {
      CountCompleted(todos)
    }

    /** `fetchTodos`: one read; on success the list is replaced by the rows
        (`[]` when the data is null), on failure it is kept; `loading` ends
        false either way. */
    method FetchTodos(reply: Reply<Option<seq<Todo>>>)
      requires Valid()
      modifies this, store`log
      ensures Valid()
      ensures !loading
      ensures todos == match reply {
                         case Done(Some(rows)) => rows
                         case Done(None) => []
                         case Failed => old(todos)
                       }
      ensures store.log == old(store.log) + [Event(SelectActive, reply.Done?)]
      ensures reply == Done(Some(store.active)) && UniqueIds(store.active) ==> Synced()
    {
      loading := true;
      AppendOtherKeepsOrdering(store.log, Event(SelectActive, reply.Done?));
      store.Select(reply);
      match reply {
        case Done(data) =>
          todos := if data.Some? then data.value else [];
        case Failed =>
      }
      loading := false;
    }

    /** `addTodo`: one insert of `{text, completed: false}`; only on success is
        the returned row put in front of the list. */
    method AddTodo(text: string, reply: Reply<Todo>)
      requires Valid()
      modifies this`todos, store`active, store`log
      ensures Valid()
      ensures store.log == old(store.log) + [Event(InsertActive(text, false), reply.Done?)]
      ensures reply.Done? ==>
        |todos| == |old(todos)| + 1 && todos[0] == reply.value && todos[1..] == old(todos)
      ensures reply.Failed? ==> todos == old(todos)
      ensures store.active == if reply.Done? then [reply.value] + old(store.active) else old(store.active)
      ensures old(Synced()) && (reply.Done? ==> Find(old(todos), reply.value.id).None?) ==> Synced()
    {
      AppendOtherKeepsOrdering(store.log, Event(InsertActive(text, false), reply.Done?));
      store.Insert(text, false, reply);
      if reply.Done? {
        if UniqueIds(todos) && Find(todos, reply.value.id).None? {
          ConsKeepsUnique(reply.value, todos);
        }
        todos := [reply.value] + todos;
      }
    }

    /** `toggleTodo`: one update that sets `completed` to `!todo?.completed`,
        issued even when no local todo has the id; only on success is the
        local flag of every entry with the id flipped. */
    method ToggleTodo(id: Id, ok: bool)
      requires Valid()
      modifies this`todos, store`active, store`log
      ensures Valid()
      ensures store.log == old(store.log) + [Event(UpdateActive(id, ToggleValue(old(todos), id)), ok)]
      ensures todos == if ok then FlipCompleted(old(todos), id) else old(todos)
      ensures store.active ==
        if ok then SetCompleted(old(store.active), id, ToggleValue(old(todos), id)) else old(store.active)
      ensures old(Synced()) ==> Synced()
    {
      var value := ToggleValue(todos, id);
      if UniqueIds(todos) {
        FlipIsSetCompleted(todos, id);
        FlipKeepsUnique(todos, id);
      }
      AppendOtherKeepsOrdering(store.log, Event(UpdateActive(id, value), ok));
      store.Update(id, value, ok);
      if ok {
        todos := FlipCompleted(todos, id);
      }
    }

    /** `deleteTodo`: look the todo up (a missing id makes no remote call),
        archive it, and only if that succeeded delete it from the active
        table; only if both succeeded is it filtered out of the list. */
    method DeleteTodo(id: Id, archiveOk: bool, deleteOk: bool)
      requires Valid()
      modifies this`todos, store`active, store`archive, store`log
      ensures Valid()
      ensures Find(old(todos), id).None? ==>
        todos == old(todos) && store.log == old(store.log) &&
        store.active == old(store.active) && store.archive == old(store.archive)
      ensures Find(old(todos), id).Some? ==>
        var t := Find(old(todos), id).value;
        store.log == old(store.log) + [Event(InsertArchive(ArchiveOf(t)), archiveOk)] +
                     (if archiveOk then [Event(DeleteActive(id), deleteOk)] else []) &&
        store.archive == (if archiveOk then old(store.archive) + [ArchiveOf(t)] else old(store.archive)) &&
        store.active == (if archiveOk && deleteOk then RemoveId(old(store.active), id) else old(store.active)) &&
        todos == (if archiveOk && deleteOk then RemoveId(old(todos), id) else old(todos))
      ensures old(Synced()) ==> Synced()
    {
      var found := Find(todos, id);
      if found.None? {
        return;
      }
      var t := found.value;
      if !archiveOk {
        AppendOtherKeepsOrdering(store.log, Event(InsertArchive(ArchiveOf(t)), false));
      } else {
        ArchiveThenDeleteKeepsOrdering(store.log, ArchiveOf(t), deleteOk);
      }
      store.Archive(ArchiveOf(t), archiveOk);
      if !archiveOk {
        return;
      }
      store.Delete(id, deleteOk);
      if !deleteOk {
        return;
      }
      if UniqueIds(todos) {
        RemoveIdKeepsUnique(todos, id);
      }
      todos := RemoveId(todos, id);
    }
  }

  /** Two successful toggles of the same id restore the local list, and, when
      the list mirrored the active table, the table too. */
  method ToggleTwice(app: TodoApp, id: Id)
    requires app.Valid()
    modifies app`todos, app.store`active, app.store`log
    ensures app.Valid()
    ensures app.todos == old(app.todos)
    ensures old(app.Synced()) ==> app.Synced() && app.store.active == old(app.store.active)
  {
    app.ToggleTodo(id, true);
    app.ToggleTodo(id, true);
    FlipTwice(old(app.todos), id);
  }
}
