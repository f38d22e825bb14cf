/**
 * The create/edit form: the effect that fills or clears its three fields when
 * it opens, the request body it builds from them, and the submit handler that
 * calls the server and then updates the store, appends a toast and closes.
 *
 * Date conversion (`new Date(x).toISOString()`) depends on the time zone and
 * is the parameter `toIso`.
 */
module TaskModal {
  import opened Common
  import opened TaskStore
  import ToastStore
  import opened Remote

  /** The form's three text fields. */
  datatype FormFields = FormFields(titulo: string, descricao: string, dataConclusao: string)

  /** `s.substring(0, n)`, which stops early on a shorter string. */
  function Prefix(s: string, n: nat): (r: string)
    ensures |r| == if |s| <= n then |s| else n
    ensures r <= s
  {
    if |s| <= n then s else s[..n]
  }

  /**
   * What the prefill effect writes: a task's title, description (or "") and
   * the day part of its completion date (or ""); all "" when there is no task.
   */
  function Prefilled(task: Option<Task>, toIso: string -> string): (f: FormFields)
    ensures task.None? ==> f == FormFields("", "", "")
    ensures |f.dataConclusao| <= 10
  {
    match task
    case None => FormFields("", "", "")
    case Some(t) =>
      FormFields(
        t.titulo,
        t.descricao.GetOr(""),
        if t.dataConclusao.Some? && t.dataConclusao.value != ""
        then Prefix(toIso(t.dataConclusao.value), 10)
        else "")
  }

  /**
   * Opening with no task clears the form; opening with one copies its title,
   * its description, and the first ten characters of its converted date.
   */
  lemma PrefillClearsOrCopies(task: Option<Task>, toIso: string -> string)
    ensures task.None? ==> Prefilled(task, toIso) == FormFields("", "", "")
    ensures task.Some? ==> Prefilled(task, toIso).titulo == task.value.titulo
    ensures task.Some? ==>
      Prefilled(task, toIso).descricao
        == (if task.value.descricao.Some? then task.value.descricao.value else "")
    ensures task.Some? && (task.value.dataConclusao.None? || task.value.dataConclusao == Some(""))
        ==> Prefilled(task, toIso).dataConclusao == ""
    ensures task.Some? && task.value.dataConclusao.Some? && task.value.dataConclusao.value != ""
        ==> Prefilled(task, toIso).dataConclusao == Prefix(toIso(task.value.dataConclusao.value), 10)
  {
  }

  /** `task?.id` is truthy: there is a task and its id is not the empty string. */
  predicate IsEdit(task: Option<Task>): (r: bool)
    ensures task.None? ==> !r
    ensures r ==> |task.value.id| > 0
  {
    task.Some? && task.value.id != ""
  }

  /**
   * `taskData`, the request body: the title as typed, an empty description as
   * null, the edited task's status or PENDENTE, an empty date as null and any
   * other date as the instant of its local midnight. It has no id.
   */
  function Draft(task: Option<Task>, f: FormFields, toIso: string -> string): (d: TaskPatch)
    ensures d.id.Absent?
    ensures d.titulo.Present? && d.descricao.Present? && d.status.Present? && d.dataConclusao.Present?
  {
    TaskPatch(
      Absent,
      Present(f.titulo),
      Present(if f.descricao == "" then None else Some(f.descricao)),
      Present(if task.Some? then task.value.status else Pendente),
      Present(if f.dataConclusao == "" then None else Some(toIso(f.dataConclusao + "T00:00:00"))))
  }

  /**
   * The body sets every field but the id: the title as typed; the status kept
   * when editing and PENDENTE when creating; an empty description or date as
   * null, any other description as typed and any other date as the instant of
   * that day's midnight.
   */
  lemma DraftFields(task: Option<Task>, f: FormFields, toIso: string -> string)
    ensures var d := Draft(task, f, toIso);
      && d.id.Absent?
      && d.titulo == Present(f.titulo)
      && d.status == Present(if task.Some? then task.value.status else Pendente)
      && (d.descricao == Present(None) <==> f.descricao == "")
      && (f.descricao != "" ==> d.descricao == Present(Some(f.descricao)))
      && (d.dataConclusao == Present(None) <==> f.dataConclusao == "")
      && (f.dataConclusao != "" ==> d.dataConclusao == Present(Some(toIso(f.dataConclusao + "T00:00:00"))))
  {
  }

  /**
   * Saving an edit form nobody touched keeps the task's id, title, status and
   * creation date; an empty description comes back as null, and so does an
   * absent completion date.
   */
  lemma UntouchedEditKeepsTask(t: Task, toIso: string -> string)
    ensures var m := Merge(t, Draft(Some(t), Prefilled(Some(t), toIso), toIso));
      && m.id == t.id && m.titulo == t.titulo && m.status == t.status
      && m.dataCriacao == t.dataCriacao
      && m.descricao == (if t.descricao == Some("") then None else t.descricao)
      && (t.dataConclusao.None? || t.dataConclusao == Some("") ==> m.dataConclusao.None?)
  {
  }

  /**
   * After a successful edit, every cached task with the edited id shows the
   * form's title, description (null when empty) and date, and the edited
   * task's status, and keeps its own id and creation date; every other cached
   * task is untouched.
   */
  lemma SavedEditShowsForm(s: seq<Task>, task: Task, f: FormFields, toIso: string -> string, i: int)
    requires 0 <= i < |s|
    ensures var r := WithUpdate(s, task.id, Draft(Some(task), f, toIso));
      && |r| == |s|
      && r[i].id == s[i].id && r[i].dataCriacao == s[i].dataCriacao
      && (s[i].id == task.id ==> r[i].titulo == f.titulo && r[i].status == task.status)
      && (s[i].id == task.id ==> r[i].descricao == (if f.descricao == "" then None else Some(f.descricao)))
      && (s[i].id == task.id ==>
            r[i].dataConclusao
              == (if f.dataConclusao == "" then None else Some(toIso(f.dataConclusao + "T00:00:00"))))
      && (s[i].id != task.id ==> r[i] == s[i])
  {
    var d := Draft(Some(task), f, toIso);
    MergeTakesPresentFields(s[i], d);
  }

  /** A successful edit keeps ids distinct: the body it merges carries no id. */
  lemma EditKeepsIdsDistinct(s: seq<Task>, task: Task, f: FormFields, toIso: string -> string)
    requires DistinctIds(s)
    ensures DistinctIds(WithUpdate(s, task.id, Draft(Some(task), f, toIso)))
  {
    UpdateTaskKeepsIds(s, task.id, Draft(Some(task), f, toIso));
  }

  const Saved := ToastStore.ToastInput(
    "Tarefa salva com sucesso!", Some(ToastStore.Success), Some(3000))
  const SaveFailed := ToastStore.ToastInput(
    "Erro ao salvar a tarefa.", Some(ToastStore.Error), Some(5000))

  /** The form's state. */
  class Form {
    var titulo: string
    var descricao: string
    var dataConclusao: string

    /** All three fields start empty. */
    constructor()
      ensures titulo == "" && descricao == "" && dataConclusao == ""
    {
      titulo, descricao, dataConclusao := "", "", "";
    }

    function Fields(): FormFields
      reads this
    {
      FormFields(titulo, descricao, dataConclusao)
    }

    /** The effect run when the form opens or its task changes. */
    method Prefill(task: Option<Task>, toIso: string -> string)
      modifies this
      ensures Fields() == Prefilled(task, toIso)
    {
      var f := Prefilled(task, toIso);
      titulo, descricao, dataConclusao := f.titulo, f.descricao, f.dataConclusao;
    }

    /**
     * `handleSubmit` up to its `await`: the body is fixed from the fields as
     * they are at submission, and sent with PUT when editing a task with an
     * id, with POST otherwise. Nothing changes yet.
     */
    method HandleSubmit(task: Option<Task>, toIso: string -> string)
      returns (body: TaskPatch, sent: Request)
      ensures body == Draft(task, Fields(), toIso)
      ensures sent == if IsEdit(task) then Put(task.value.id, body) else Post(body)
      ensures sent.Put? <==> IsEdit(task)
    {
      body := Draft(task, Fields(), toIso);
      if IsEdit(task) {
        sent := Put(task.value.id, body);
      } else {
        sent := Post(body);
      }
    }
  }

  /**
   * `handleSubmit` after its `await`, given the body fixed at submission: only
   * on success is the store updated (`updateTask` with the same id and body, or
   * `createTask` with the server's task), a success toast appended and the
   * form closed; on failure only an error toast is appended and the form stays
   * open. The form's fields are not read, so edits made while the request is
   * pending change nothing here.
   */
  method SubmitReplied(
    task: Option<Task>, body: TaskPatch, store: TaskStore.Store, toasts: ToastStore.Store,
    reply: Outcome<Task>, now: nat)
    returns (closed: bool)
    modifies store, toasts
    ensures store.tasks ==
      if reply.Failed? then old(store.tasks)
      else if IsEdit(task) then WithUpdate(old(store.tasks), task.value.id, body)
      else old(store.tasks) + [reply.value]
    ensures toasts.toasts == old(toasts.toasts)
      + [ToastStore.Stamped(if reply.Ok? then Saved else SaveFailed, now)]
    ensures closed == reply.Ok?
  {
    if reply.Ok? {
      if IsEdit(task) {
        store.UpdateTask(task.value.id, body);
      } else {
        store.CreateTask(reply.value);
      }
      toasts.AddToast(Saved, now);
      closed := true;
    } else {
      toasts.AddToast(SaveFailed, now);
      closed := false;
    }
  }
}
