/**
 * Task records and the three ways the list of today's tasks is rebuilt:
 * a server-returned task replaces every entry with its id, a reset clears
 * every completed flag, and a newly created task goes in front. The
 * request a click on a task sends asks for the opposite completed flag.
 */
module Tasks {

  /** Identifiers are compared with `===`; the model takes them to be integers. */
  type TaskId = int

  datatype Task = Task(id: TaskId, title: string, completed: bool)

  /** The body of the PATCH request a click sends, addressed to the task's id. */
  datatype PatchRequest = PatchRequest(id: TaskId, completed: bool)

  /** The body of the POST request that creates a task. */
  datatype CreateRequest = CreateRequest(title: string, date: string)

  function Ids(ts: seq<Task>): (r: seq<TaskId>)
    ensures |r| == |ts| && forall i :: 0 <= i < |ts| ==> r[i] == ts[i].id
  {
    if ts == [] then [] else [ts[0].id] + Ids(ts[1..])
  }

  function Titles(ts: seq<Task>): (r: seq<string>)
    ensures |r| == |ts| && forall i :: 0 <= i < |ts| ==> r[i] == ts[i].title
  {
    if ts == [] then [] else [ts[0].title] + Titles(ts[1..])
  }

  /** No two entries share an id. */
  predicate DistinctIds(ts: seq<Task>) {
    forall i, j :: 0 <= i < j < |ts| ==> ts[i].id != ts[j].id
  }

  /**
   * tasks.map(t => t.id === updated.id ? updated : t): every entry with
   * updated's id becomes updated, every other entry stays, and length and
   * order are kept.
   */
  function ReplaceById(ts: seq<Task>, updated: Task): (r: seq<Task>)
    ensures |r| == |ts|
    ensures forall i :: 0 <= i < |ts| && ts[i].id == updated.id ==> r[i] == updated
    ensures forall i :: 0 <= i < |ts| && ts[i].id != updated.id ==> r[i] == ts[i]
  {
    if ts == [] then []
    else [if ts[0].id == updated.id then updated else ts[0]] + ReplaceById(ts[1..], updated)
  }

  /**
   * tasks.map(t => ({ ...t, completed: false })): every entry keeps its id
   * and title and is no longer completed; length and order are kept.
   */
  function ClearCompleted(ts: seq<Task>): (r: seq<Task>)
    ensures |r| == |ts|
    ensures forall i :: 0 <= i < |ts| ==> r[i].id == ts[i].id && r[i].title == ts[i].title && !r[i].completed
  {
    if ts == [] then [] else [ts[0].(completed := false)] + ClearCompleted(ts[1..])
  }

  /** tasks.unshift(created). */
  function Prepend(ts: seq<Task>, created: Task): (r: seq<Task>)
    ensures |r| == |ts| + 1 && r[0] == created && r[1..] == ts
  {
    [created] + ts
  }

  /** The request toggleTask sends for a task: its id, and the opposite of its completed flag. */
  function ToggleRequest(t: Task): (r: PatchRequest)
    ensures r.id == t.id && r.completed != t.completed
  {
    PatchRequest(t.id, !t.completed)
  }

  /** The record a server that carries out the request returns for the task. */
  function Patched(t: Task, req: PatchRequest): (r: Task)
    requires req.id == t.id
    ensures r.id == t.id && r.title == t.title && r.completed == req.completed
  {
    t.(completed := req.completed)
  }

  /** A reset changes no id and no title. */
  lemma {:induction false} ClearCompletedKeepsIdsAndTitles(ts: seq<Task>)
    ensures Ids(ClearCompleted(ts)) == Ids(ts) && Titles(ClearCompleted(ts)) == Titles(ts)
  {
    if ts != [] {
      ClearCompletedKeepsIdsAndTitles(ts[1..]);
    }
  }

  /** Resetting twice is resetting once. */
  lemma {:induction false} ClearCompletedIdempotent(ts: seq<Task>)
    ensures ClearCompleted(ClearCompleted(ts)) == ClearCompleted(ts)
  {
    if ts != [] {
      ClearCompletedIdempotent(ts[1..]);
    }
  }

  /** An update changes no id. */
  lemma {:induction false} ReplaceByIdKeepsIds(ts: seq<Task>, updated: Task)
    ensures Ids(ReplaceById(ts, updated)) == Ids(ts)
  {
    if ts != [] {
      ReplaceByIdKeepsIds(ts[1..], updated);
    }
  }

  /** Applying the same update twice is applying it once. */
  lemma {:induction false} ReplaceByIdIdempotent(ts: seq<Task>, updated: Task)
    ensures ReplaceById(ReplaceById(ts, updated), updated) == ReplaceById(ts, updated)
  {
    if ts != [] {
      ReplaceByIdIdempotent(ts[1..], updated);
    }
  }

  /** An update for an id that is not in the list leaves the list as it is. */
  lemma {:induction false} ReplaceByIdAbsent(ts: seq<Task>, updated: Task)
    requires updated.id !in Ids(ts)
    ensures ReplaceById(ts, updated) == ts
  {
    if ts != [] {
      assert Ids(ts)[0] == ts[0].id;
      assert Ids(ts[1..]) == Ids(ts)[1..];
      ReplaceByIdAbsent(ts[1..], updated);
    }
  }

  /** Reset after an update equals the update, itself reset, applied after reset. */
  lemma {:induction false} ClearCompletedAfterReplace(ts: seq<Task>, updated: Task)
    ensures ClearCompleted(ReplaceById(ts, updated))
         == ReplaceById(ClearCompleted(ts), updated.(completed := false))
  {
    if ts != [] {
      ClearCompletedAfterReplace(ts[1..], updated);
    }
  }

  /**
   * When the server carries out the request a click on entry k sends, and
   * ids are distinct, the update flips entry k's completed flag and
   * changes nothing else.
   */
  lemma ToggleFlipsOne(ts: seq<Task>, k: nat)
    requires k < |ts| && DistinctIds(ts)
    ensures var t := ts[k];
      ReplaceById(ts, Patched(t, ToggleRequest(t))) == ts[k := t.(completed := !t.completed)]
  {
    var t := ts[k];
    var r := ReplaceById(ts, Patched(t, ToggleRequest(t)));
    forall i | 0 <= i < |ts| ensures r[i] == ts[k := t.(completed := !t.completed)][i] {
      if i != k {
        assert ts[i].id != t.id by {
          if i < k { assert ts[i].id != ts[k].id; } else { assert ts[k].id != ts[i].id; }
        }
      }
    }
  }

  /** Two clicks on the same entry, each carried out, give back the list as it was. */
  lemma ToggleTwice(ts: seq<Task>, k: nat)
    requires k < |ts| && DistinctIds(ts)
    ensures var t := ts[k];
      var once := ReplaceById(ts, Patched(t, ToggleRequest(t)));
      var u := once[k];
      ReplaceById(once, Patched(u, ToggleRequest(u))) == ts
  {
    var t := ts[k];
    ToggleFlipsOne(ts, k);
    var once := ts[k := t.(completed := !t.completed)];
    assert DistinctIds(once) by {
      forall i, j | 0 <= i < j < |once| ensures once[i].id != once[j].id {
        assert once[i].id == ts[i].id && once[j].id == ts[j].id;
      }
    }
    ToggleFlipsOne(once, k);
    assert once[k := t] == ts;
  }

  /** Creating a task puts it first and shifts every existing entry back by one. */
  lemma PrependShifts(ts: seq<Task>, created: Task)
    ensures Ids(Prepend(ts, created)) == [created.id] + Ids(ts)
  {
    assert Prepend(ts, created)[1..] == ts;
  }
}
