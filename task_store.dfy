/**
 * The client-side task cache (`useTaskStore`): one list of tasks that every
 * mutator replaces with a new list computed from the current one.
 *
 * The new lists are pure functions of the old one (`map`, `filter`, spread),
 * so they are defined as functions with their properties proved as lemmas; the
 * store itself is a class whose one field is reassigned by each mutator.
 */
module TaskStore {
  import opened Common
  import JsArray

  datatype Status = Pendente | EmAndamento | Concluido

  /** The string each status is written as on the wire and in the view's selectors. */
  function StatusName(s: Status): string {
    match s
    case Pendente => "PENDENTE"
    case EmAndamento => "EM_ANDAMENTO"
    case Concluido => "CONCLUIDO"
  }

  /**
   * A cached task. The declared type makes `descricao` a string, but the edit
   * form sends `descricao: null` for an empty description and the store merges
   * that in, so the model lets it be null.
   */
  datatype Task = Task(
    id: string,
    titulo: string,
    descricao: Option<string>,
    status: Status,
    dataCriacao: string,
    dataConclusao: Option<string>)

  /**
   * The object merged into a task by `updateTask` (`Task_forUpdate` as it is
   * actually built by its callers): each property may be absent, and a present
   * `descricao` or `dataConclusao` may be null. It has no `dataCriacao`.
   * The same shape is the JSON body of the PUT and POST requests.
   */
  datatype TaskPatch = TaskPatch(
    id: Field<string>,
    titulo: Field<string>,
    descricao: Field<Option<string>>,
    status: Field<Status>,
    dataConclusao: Field<Option<string>>)

  /** The patch with no property at all. */
  const EmptyPatch := TaskPatch(Absent, Absent, Absent, Absent, Absent)

  /** `{ ...task, ...patch }`. */
  function Merge(t: Task, p: TaskPatch): (r: Task)
    ensures r.dataCriacao == t.dataCriacao
    ensures p == EmptyPatch ==> r == t
    ensures p.id.Absent? ==> r.id == t.id
  {
    Task(
      p.id.Over(t.id),
      p.titulo.Over(t.titulo),
      p.descricao.Over(t.descricao),
      p.status.Over(t.status),
      t.dataCriacao,
      p.dataConclusao.Over(t.dataConclusao))
  }

  /** Every property the patch has is taken; every other one, `dataCriacao` included, is kept. */
  lemma MergeTakesPresentFields(t: Task, p: TaskPatch)
    ensures Merge(t, p).dataCriacao == t.dataCriacao
    ensures Merge(t, p).id == (if p.id.Present? then p.id.value else t.id)
    ensures Merge(t, p).titulo == (if p.titulo.Present? then p.titulo.value else t.titulo)
    ensures Merge(t, p).descricao == (if p.descricao.Present? then p.descricao.value else t.descricao)
    ensures Merge(t, p).status == (if p.status.Present? then p.status.value else t.status)
    ensures Merge(t, p).dataConclusao
         == (if p.dataConclusao.Present? then p.dataConclusao.value else t.dataConclusao)
  {
  }

  /** Merging the same patch twice is merging it once; the empty patch changes nothing. */
  lemma MergeIdempotent(t: Task, p: TaskPatch)
    ensures Merge(Merge(t, p), p) == Merge(t, p)
    ensures Merge(t, EmptyPatch) == t
  {
  }

  predicate HasId(s: seq<Task>, id: string) {
    exists i :: 0 <= i < |s| && s[i].id == id
  }

  /** The invariant the cache is meant to keep: no two tasks share an id. */
  predicate DistinctIds(s: seq<Task>) {
    forall i, j :: 0 <= i < j < |s| ==> s[i].id != s[j].id
  }

  /** The `map` callback of `updateStatus`. */
  function SetStatusAt(id: string, status: Status): Task -> Task {
    (t: Task) => if t.id == id then t.(status := status) else t
  }

  /** The `map` callback of `updateTask`. */
  function MergeAt(id: string, p: TaskPatch): Task -> Task {
    (t: Task) => if t.id == id then Merge(t, p) else t
  }

  /** The `filter` callback of `deleteTask`. */
  function IdIsNot(id: string): Task -> bool {
    (t: Task) => t.id != id
  }

  /** The list `updateStatus(id, status)` leaves. */
  function WithStatus(s: seq<Task>, id: string, status: Status): (r: seq<Task>)
    ensures |r| == |s|
    ensures forall i :: 0 <= i < |s| && s[i].id == id ==> r[i] == s[i].(status := status)
    ensures forall i :: 0 <= i < |s| && s[i].id != id ==> r[i] == s[i]
  {
    JsArray.Map(s, SetStatusAt(id, status))
  }

  /** The list `updateTask(id, patch)` leaves. */
  function WithUpdate(s: seq<Task>, id: string, p: TaskPatch): (r: seq<Task>)
    ensures |r| == |s|
    ensures forall i :: 0 <= i < |s| && s[i].id == id ==> r[i] == Merge(s[i], p)
    ensures forall i :: 0 <= i < |s| && s[i].id != id ==> r[i] == s[i]
  {
    JsArray.Map(s, MergeAt(id, p))
  }

  /** The list `deleteTask(id)` leaves. */
  function WithoutId(s: seq<Task>, id: string): (r: seq<Task>)
    ensures |r| <= |s|
    ensures forall i :: 0 <= i < |r| ==> r[i].id != id
  {
    JsArray.Filter(s, IdIsNot(id))
  }

  /** A task with every field of `t` but the status, which is `status`. */
  lemma UpdateStatusChangesOnlyStatus(s: seq<Task>, id: string, status: Status, i: int)
    requires 0 <= i < |s|
    ensures WithStatus(s, id, status)[i].id == s[i].id
    ensures WithStatus(s, id, status)[i].status == (if s[i].id == id then status else s[i].status)
    ensures WithStatus(s, id, status)[i].(status := s[i].status) == s[i]
  {
  }

  /** `updateStatus` of an id no task has leaves the list as it was. */
  lemma UpdateStatusAbsent(s: seq<Task>, id: string, status: Status)
    requires !HasId(s, id)
    ensures WithStatus(s, id, status) == s
  {
  }

  /** `updateStatus` keeps every id in place, so it keeps ids distinct (and never makes them so). */
  lemma UpdateStatusKeepsIds(s: seq<Task>, id: string, status: Status)
    ensures forall i :: 0 <= i < |s| ==> WithStatus(s, id, status)[i].id == s[i].id
    ensures DistinctIds(WithStatus(s, id, status)) <==> DistinctIds(s)
  {
  }

  /** Setting the same status twice is setting it once. */
  lemma UpdateStatusIdempotent(s: seq<Task>, id: string, status: Status)
    ensures WithStatus(WithStatus(s, id, status), id, status) == WithStatus(s, id, status)
  {
  }

  /** `updateTask` of an id no task has leaves the list as it was. */
  lemma UpdateTaskAbsent(s: seq<Task>, id: string, p: TaskPatch)
    requires !HasId(s, id)
    ensures WithUpdate(s, id, p) == s
  {
  }

  /**
   * A patch that carries no id, or the matched id itself, keeps every id in
   * place and so keeps ids distinct.
   */
  lemma UpdateTaskKeepsIds(s: seq<Task>, id: string, p: TaskPatch)
    requires p.id.Absent? || p.id == Present(id)
    ensures forall i :: 0 <= i < |s| ==> WithUpdate(s, id, p)[i].id == s[i].id
    ensures DistinctIds(WithUpdate(s, id, p)) <==> DistinctIds(s)
  {
  }

  /** The store does not stop a patch from renaming a task to an id already in use. */
  lemma UpdateTaskCanDuplicateIds(a: Task, b: Task)
    requires a.id != b.id
    ensures DistinctIds([a, b])
    ensures !DistinctIds(WithUpdate([a, b], a.id, EmptyPatch.(id := Present(b.id))))
  {
    var r := WithUpdate([a, b], a.id, EmptyPatch.(id := Present(b.id)));
    assert r[0].id == b.id && r[1].id == b.id;
  }

  /**
   * Exactly when `updateTask` keeps distinct ids distinct: no task has the id,
   * or the patch keeps the id, or it renames to an id no task has.
   */
  lemma UpdateTaskKeepsDistinctIff(s: seq<Task>, id: string, p: TaskPatch)
    requires DistinctIds(s)
    ensures DistinctIds(WithUpdate(s, id, p))
        <==> !HasId(s, id) || p.id.Absent? || p.id == Present(id) || !HasId(s, p.id.value)
  {
    var r := WithUpdate(s, id, p);
    if !HasId(s, id) {
      UpdateTaskAbsent(s, id, p);
    } else if p.id.Absent? || p.id == Present(id) {
      UpdateTaskKeepsIds(s, id, p);
    } else {
      var v := p.id.value;
      var k :| 0 <= k < |s| && s[k].id == id;
      assert r[k].id == v;
      if HasId(s, v) {
        var j :| 0 <= j < |s| && s[j].id == v;
        assert r[j].id == v && j != k;
      } else {
        forall i, j | 0 <= i < j < |r|
          ensures r[i].id != r[j].id
        {
          assert i != k ==> r[i] == s[i];
          assert j != k ==> r[j] == s[j];
        }
      }
    }
  }

  /**
   * Merging the same patch twice is merging it once; a patch that renames the
   * matched tasks finds nothing to match the second time.
   */
  lemma UpdateTaskIdempotent(s: seq<Task>, id: string, p: TaskPatch)
    ensures WithUpdate(WithUpdate(s, id, p), id, p) == WithUpdate(s, id, p)
  {
  }

  /** `deleteTask(id)` keeps exactly the tasks whose id differs from `id`. */
  lemma DeleteKeepsExactlyOthers(s: seq<Task>, id: string, t: Task)
    ensures t in WithoutId(s, id) <==> t in s && t.id != id
  {
    JsArray.FilterMembers(s, IdIsNot(id), t);
  }

  /** After `deleteTask(id)` no task has that id. */
  lemma DeleteRemovesId(s: seq<Task>, id: string)
    ensures !HasId(WithoutId(s, id), id)
  {
    var r := WithoutId(s, id);
    forall i | 0 <= i < |r|
      ensures r[i].id != id
    {
      DeleteKeepsExactlyOthers(s, id, r[i]);
    }
  }

  /** `deleteTask` keeps the relative order of the remaining tasks. */
  lemma DeleteKeepsOrder(a: seq<Task>, b: seq<Task>, id: string)
    ensures WithoutId(a + b, id) == WithoutId(a, id) + WithoutId(b, id)
  {
    JsArray.FilterConcat(a, b, IdIsNot(id));
  }

  /** `deleteTask` of an id no task has leaves the list as it was. */
  lemma DeleteAbsent(s: seq<Task>, id: string)
    requires !HasId(s, id)
    ensures WithoutId(s, id) == s
  {
    JsArray.FilterKeepsAll(s, IdIsNot(id));
  }

  /** Deleting twice is deleting once. */
  lemma DeleteIdempotent(s: seq<Task>, id: string)
    ensures WithoutId(WithoutId(s, id), id) == WithoutId(s, id)
  {
    JsArray.FilterIdempotent(s, IdIsNot(id));
  }

  /** Deleting never introduces a duplicate id. */
  lemma {:induction false} DeleteKeepsDistinct(s: seq<Task>, id: string)
    requires DistinctIds(s)
    ensures DistinctIds(WithoutId(s, id))
  {
    if s != [] {
      var rest := WithoutId(s[1..], id);
      DeleteKeepsDistinct(s[1..], id);
      JsArray.FilterCons(s[0], s[1..], IdIsNot(id));
      assert s == [s[0]] + s[1..];
      forall k | 0 <= k < |rest|
        ensures rest[k].id != s[0].id
      {
        DeleteKeepsExactlyOthers(s[1..], id, rest[k]);
        var j :| 0 <= j < |s[1..]| && s[1..][j] == rest[k];
        assert s[j + 1] == rest[k];
      }
    }
  }

  /**
   * `createTask` appends without looking: the list stays free of duplicate ids
   * exactly when the new task's id is not already there.
   */
  lemma CreateKeepsDistinctIffFresh(s: seq<Task>, t: Task)
    requires DistinctIds(s)
    ensures DistinctIds(s + [t]) <==> !HasId(s, t.id)
  {
    var r := s + [t];
    if HasId(s, t.id) {
      var i :| 0 <= i < |s| && s[i].id == t.id;
      assert r[i].id == r[|s|].id;
    }
  }

  /** One call of a store mutator, for reasoning about sequences of them. */
  datatype StoreOp =
    | SetAll(all: seq<Task>)
    | SetStatus(id: string, status: Status)
    | Update(id: string, patch: TaskPatch)
    | Create(task: Task)
    | Delete(id: string)

  function Step(s: seq<Task>, op: StoreOp): seq<Task> {
    match op
    case SetAll(all) => all
    case SetStatus(id, status) => WithStatus(s, id, status)
    case Update(id, p) => WithUpdate(s, id, p)
    case Create(t) => s + [t]
    case Delete(id) => WithoutId(s, id)
  }

  function Run(s: seq<Task>, ops: seq<StoreOp>): seq<Task>
    decreases |ops|
  {
    if ops == [] then s else Run(Step(s, ops[0]), ops[1..])
  }

  /**
   * What callers must ensure for a mutator to keep ids distinct: a fetched list
   * has distinct ids, a created task's id is new, a patch does not rename.
   */
  predicate Admissible(s: seq<Task>, op: StoreOp) {
    match op
    case SetAll(all) => DistinctIds(all)
    case Update(id, p) => p.id.Absent? || p.id == Present(id)
    case Create(t) => !HasId(s, t.id)
    case _ => true
  }

  predicate AllAdmissible(s: seq<Task>, ops: seq<StoreOp>)
    decreases |ops|
  {
    ops == [] || (Admissible(s, ops[0]) && AllAdmissible(Step(s, ops[0]), ops[1..]))
  }

  /** Each admissible mutator keeps ids distinct. */
  lemma StepKeepsDistinct(s: seq<Task>, op: StoreOp)
    requires DistinctIds(s) && Admissible(s, op)
    ensures DistinctIds(Step(s, op))
  {
    match op
    case SetAll(_) =>
    case SetStatus(id, status) => UpdateStatusKeepsIds(s, id, status);
    case Update(id, p) => UpdateTaskKeepsIds(s, id, p);
    case Create(t) => CreateKeepsDistinctIffFresh(s, t);
    case Delete(id) => DeleteKeepsDistinct(s, id);
  }

  /** Any sequence of admissible mutator calls keeps ids distinct. */
  lemma {:induction false} RunKeepsDistinct(s: seq<Task>, ops: seq<StoreOp>)
    requires DistinctIds(s) && AllAdmissible(s, ops)
    ensures DistinctIds(Run(s, ops))
    decreases |ops|
  {
    if ops != [] {
      StepKeepsDistinct(s, ops[0]);
      RunKeepsDistinct(Step(s, ops[0]), ops[1..]);
    }
  }

  /** The argument of `setTasks`: a new list, or a function of the current one. */
  datatype Updater = Replace(tasks: seq<Task>) | Apply(f: seq<Task> -> seq<Task>)

  /** The store (`useTaskStore`). Each mutator reads the latest list and replaces it. */
  class Store {
    var tasks: seq<Task>

    /** The store starts empty. */
    constructor()
      ensures tasks == []
    {
      tasks := [];
    }

    method SetTasks(updater: Updater)
      modifies this
      ensures updater.Replace? ==> tasks == updater.tasks
      ensures updater.Apply? ==> tasks == updater.f(old(tasks))
    {
      match updater
      case Replace(ts) => tasks := ts;
      case Apply(f) => tasks := f(tasks);
    }

    method UpdateStatus(id: string, status: Status)
      modifies this
      ensures tasks == WithStatus(old(tasks), id, status)
    {
      tasks := WithStatus(tasks, id, status);
    }

    method UpdateTask(id: string, patch: TaskPatch)
      modifies this
      ensures tasks == WithUpdate(old(tasks), id, patch)
    {
      tasks := WithUpdate(tasks, id, patch);
    }

    method CreateTask(t: Task)
      modifies this
      ensures tasks == old(tasks) + [t]
    {
      tasks := tasks + [t];
    }

    method DeleteTask(id: string)
      modifies this
      ensures tasks == WithoutId(old(tasks), id)
    {
      tasks := WithoutId(tasks, id);
    }
  }
}
