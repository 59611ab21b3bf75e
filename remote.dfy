/** The hosted database as the controller sees it: two tables, `todos` (the
    active table) and `deleted_tasks` (the archive), reached through remote
    calls that either succeed or fail. Whether a call succeeds, and what a
    successful read or insert returns, is decided outside the model and is
    passed in. Every issued call is recorded in a ghost log. */
module Remote {
  import opened Todos

  /** The outcome of a remote call that returns data. */
  datatype Reply<T> = Done(value: T) | Failed

  /** A remote call on the active table or on the archive. */
  datatype Call =
    | SelectActive
    | InsertActive(text: string, completed: bool)
    | UpdateActive(id: Id, completed: bool)
    | DeleteActive(id: Id)
    | InsertArchive(record: ArchivedTask)

  /** A call that was issued, and whether it succeeded. */
  datatype Event = Event(call: Call, succeeded: bool)

  /** `e` is a successful archive insert of the todo `id`. */
  predicate ArchivesId(e: Event, id: Id) {
    e.succeeded && e.call.InsertArchive? && e.call.record.taskId == id
  }

  /** Every delete issued on the active table comes after a successful archive
      insert of the same id. */
  ghost predicate ArchivedBeforeDeleted(log: seq<Event>) {
    forall j :: 0 <= j < |log| && log[j].call.DeleteActive? ==>
      exists i :: 0 <= i < j && ArchivesId(log[i], log[j].call.id)
  }

  /** Issuing a call that is not a delete keeps the ordering. */
  lemma AppendOtherKeepsOrdering(log: seq<Event>, e: Event)
    requires ArchivedBeforeDeleted(log)
    requires !e.call.DeleteActive?
    ensures ArchivedBeforeDeleted(log + [e])
  {
    var log' := log + [e];
    forall j | 0 <= j < |log'| && log'[j].call.DeleteActive?
      ensures exists i :: 0 <= i < j && ArchivesId(log'[i], log'[j].call.id)
    {
      var i :| 0 <= i < j && ArchivesId(log[i], log[j].call.id);
      assert log'[i] == log[i];
    }
  }

  /** A successful archive insert followed by the delete of that id keeps the
      ordering. */
  lemma ArchiveThenDeleteKeepsOrdering(log: seq<Event>, record: ArchivedTask, ok: bool)
    requires ArchivedBeforeDeleted(log)
    ensures ArchivedBeforeDeleted(log + [Event(InsertArchive(record), true)] + [Event(DeleteActive(record.taskId), ok)])
  {
    AppendOtherKeepsOrdering(log, Event(InsertArchive(record), true));
    var log1 := log + [Event(InsertArchive(record), true)];
    var log2 := log1 + [Event(DeleteActive(record.taskId), ok)];
    forall j | 0 <= j < |log2| && log2[j].call.DeleteActive?
      ensures exists i :: 0 <= i < j && ArchivesId(log2[i], log2[j].call.id)
    {
      if j == |log1| {
        assert ArchivesId(log2[|log|], record.taskId);
      } else {
        var i :| 0 <= i < j && ArchivesId(log1[i], log1[j].call.id);
        assert log2[i] == log1[i];
      }
    }
  }

  /** A delete with no archive insert before it breaks the ordering. */
  lemma DeleteFirstBreaksOrdering(id: Id, ok: bool)
    ensures !ArchivedBeforeDeleted([Event(DeleteActive(id), ok)])
  {
    var log := [Event(DeleteActive(id), ok)];
    assert log[0].call.DeleteActive?;
  }

  /** The remote store: the active table, the archive, and the log of calls. */
  class RemoteStore {
    var active: seq<Todo>
    var archive: seq<ArchivedTask>
    ghost var log: seq<Event>

    constructor (active: seq<Todo>, archive: seq<ArchivedTask>)
      ensures this.active == active && this.archive == archive && log == []
    {
      this.active := active;
      this.archive := archive;
      log := [];
    }

    /** A read of the active table; the rows come with the reply. */
    method Select(reply: Reply<Option<seq<Todo>>>)
      modifies this`log
      ensures log == old(log) + [Event(SelectActive, reply.Done?)]
    {
      log := log + [Event(SelectActive, reply.Done?)];
    }

    /** An insert into the active table that asks for the created row back:
        on success the reply carries that row, which joins the table. */
    method Insert(text: string, completed: bool, reply: Reply<Todo>)
      modifies this`active, this`log
      ensures active == if reply.Done? then [reply.value] + old(active) else old(active)
      ensures log == old(log) + [Event(InsertActive(text, completed), reply.Done?)]
    {
      if reply.Done? {
        active := [reply.value] + active;
      }
      log := log + [Event(InsertActive(text, completed), reply.Done?)];
    }

    /** An update of the active table that sets `completed` on the rows with the id. */
    method Update(id: Id, completed: bool, ok: bool)
      modifies this`active, this`log
      ensures active == if ok then SetCompleted(old(active), id, completed) else old(active)
      ensures log == old(log) + [Event(UpdateActive(id, completed), ok)]
    {
      if ok {
        active := SetCompleted(active, id, completed);
      }
      log := log + [Event(UpdateActive(id, completed), ok)];
    }

    /** A delete from the active table of the rows with the id. */
    method Delete(id: Id, ok: bool)
      modifies this`active, this`log
      ensures active == if ok then RemoveId(old(active), id) else old(active)
      ensures log == old(log) + [Event(DeleteActive(id), ok)]
    {
      if ok {
        active := RemoveId(active, id);
      }
      log := log + [Event(DeleteActive(id), ok)];
    }

    /** An insert of one record into the archive. */
    method Archive(record: ArchivedTask, ok: bool)
      modifies this`archive, this`log
      ensures archive == if ok then old(archive) + [record] else old(archive)
      ensures log == old(log) + [Event(InsertArchive(record), ok)]
    {
      if ok {
        archive := archive + [record];
      }
      log := log + [Event(InsertArchive(record), ok)];
    }
  }
}
