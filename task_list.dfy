/**
 * The task list component: the view it derives from the store (filter by
 * status, then sort), the completion-checkbox rule, the overflow-menu toggle,
 * and the two action handlers that call the server and then update the store
 * and the notification queue.
 */
module TaskList {
  import opened Common
  import JsArray
  import opened TaskStore
  import ToastStore
  import opened TitleOrder
  import opened Remote

  // ---------------------------------------------------------------- view

  /** The `filter` callback: `filter === "ALL" || task.status === filter`. */
  function MatchesFilter(filter: string): (keep: Task -> bool)
    ensures filter == "ALL" ==> forall t :: keep(t)
    ensures filter == "PENDENTE" ==> forall t :: keep(t) <==> t.status == Pendente
    ensures filter == "EM_ANDAMENTO" ==> forall t :: keep(t) <==> t.status == EmAndamento
    ensures filter == "CONCLUIDO" ==> forall t :: keep(t) <==> t.status == Concluido
    ensures filter !in {"ALL", "PENDENTE", "EM_ANDAMENTO", "CONCLUIDO"} ==> forall t :: !keep(t)
  {
    (t: Task) => filter == "ALL" || StatusName(t.status) == filter
  }

  /** The status order of "status-pendentes-primeiro". */
  const PendingFirst: seq<string> := ["PENDENTE", "EM_ANDAMENTO", "CONCLUIDO"]

  /** The status order of "status-em-andamento-primeiro". */
  const InProgressFirst: seq<string> := ["EM_ANDAMENTO", "PENDENTE", "CONCLUIDO"]

  /** `order.indexOf(x)`: the first position of `x`, or -1. */
  function IndexOf(order: seq<string>, x: string): (r: int)
    ensures -1 <= r < |order|
    ensures r >= 0 ==> order[r] == x && forall k :: 0 <= k < r ==> order[k] != x
    ensures r == -1 <==> x !in order
  {
    if order == [] then -1
    else if order[0] == x then 0
    else
      var k := IndexOf(order[1..], x);
      if k == -1 then -1 else k + 1
  }

  /** The comparator passed to `sort`, for each value of the sort selector. */
  function Compare(sortOrder: string, a: Task, b: Task): (r: int)
    ensures -2 <= r <= 2
    ensures a == b ==> r == 0
    ensures sortOrder !in {"asc", "desc", "status-pendentes-primeiro", "status-em-andamento-primeiro"} ==> r == 0
  {
    if sortOrder == "asc" then LexCompare(a.titulo, b.titulo)
    else if sortOrder == "desc" then LexCompare(b.titulo, a.titulo)
    else if sortOrder == "status-pendentes-primeiro" then
      IndexOf(PendingFirst, StatusName(a.status)) - IndexOf(PendingFirst, StatusName(b.status))
    else if sortOrder == "status-em-andamento-primeiro" then
      IndexOf(InProgressFirst, StatusName(a.status)) - IndexOf(InProgressFirst, StatusName(b.status))
    else 0
  }

  function Comparator(sortOrder: string): (Task, Task) -> int {
    (a: Task, b: Task) => Compare(sortOrder, a, b)
  }

  /**
   * `filteredTasks`: the store's list filtered by status, then sorted. `sort`
   * runs on the new array `filter` returns, so the store's list is only read.
   */
  function FilteredTasks(tasks: seq<Task>, filter: string, sortOrder: string): (r: seq<Task>)
    ensures |r| <= |tasks|
    ensures forall i :: 0 <= i < |r| ==> filter == "ALL" || StatusName(r[i].status) == filter
  {
    JsArray.Sort(JsArray.Filter(tasks, MatchesFilter(filter)), Comparator(sortOrder))
  }

  /** Position of a status under "status-pendentes-primeiro". */
  function PendingFirstRank(s: Status): nat {
    match s
    case Pendente => 0
    case EmAndamento => 1
    case Concluido => 2
  }

  /** Position of a status under "status-em-andamento-primeiro". */
  function InProgressFirstRank(s: Status): nat {
    match s
    case EmAndamento => 0
    case Pendente => 1
    case Concluido => 2
  }

  /** `indexOf` finds every status in both orders, at the ranks above. */
  lemma StatusRanks(s: Status)
    ensures IndexOf(PendingFirst, StatusName(s)) == PendingFirstRank(s)
    ensures IndexOf(InProgressFirst, StatusName(s)) == InProgressFirstRank(s)
  {
    assert PendingFirst[1..] == ["EM_ANDAMENTO", "CONCLUIDO"];
    assert PendingFirst[1..][1..] == ["CONCLUIDO"];
    assert InProgressFirst[1..] == ["PENDENTE", "CONCLUIDO"];
    assert InProgressFirst[1..][1..] == ["CONCLUIDO"];
  }

  /** The status sorts compare tasks by the rank of their status. */
  lemma StatusCompare(sortOrder: string, a: Task, b: Task)
    ensures sortOrder == "status-pendentes-primeiro" ==>
      Compare(sortOrder, a, b) == PendingFirstRank(a.status) - PendingFirstRank(b.status)
    ensures sortOrder == "status-em-andamento-primeiro" ==>
      Compare(sortOrder, a, b) == InProgressFirstRank(a.status) - InProgressFirstRank(b.status)
  {
    if sortOrder == "status-pendentes-primeiro" || sortOrder == "status-em-andamento-primeiro" {
      assert sortOrder != "asc" && sortOrder != "desc";
      StatusRanks(a.status);
      StatusRanks(b.status);
    }
  }

  /** Swapping two tasks flips the sign of every comparator. */
  lemma CompareFlips(sortOrder: string, a: Task, b: Task)
    ensures Compare(sortOrder, a, b) == -Compare(sortOrder, b, a)
  {
    if sortOrder == "asc" || sortOrder == "desc" {
      LexCompareFlips(a.titulo, b.titulo);
    } else {
      StatusCompare(sortOrder, a, b);
    }
  }

  /** "Not after" is transitive under every comparator. */
  lemma CompareTransitive(sortOrder: string, a: Task, b: Task, c: Task)
    requires Compare(sortOrder, a, b) <= 0 && Compare(sortOrder, b, c) <= 0
    ensures Compare(sortOrder, a, c) <= 0
  {
    if sortOrder == "asc" {
      LexCompareTransitive(a.titulo, b.titulo, c.titulo);
    } else if sortOrder == "desc" {
      LexCompareTransitive(c.titulo, b.titulo, a.titulo);
    } else {
      StatusCompare(sortOrder, a, b);
      StatusCompare(sortOrder, b, c);
      StatusCompare(sortOrder, a, c);
    }
  }

  /** Every comparator the view uses is one `sort` can rely on. */
  lemma ComparatorConsistent(sortOrder: string)
    ensures JsArray.Consistent(Comparator(sortOrder))
  {
    var cmp := Comparator(sortOrder);
    forall a: Task, b: Task
      ensures cmp(a, b) == -cmp(b, a)
    {
      CompareFlips(sortOrder, a, b);
    }
    forall a: Task, b: Task, c: Task | cmp(a, b) <= 0 && cmp(b, c) <= 0
      ensures cmp(a, c) <= 0
    {
      CompareTransitive(sortOrder, a, b, c);
    }
  }

  /** With filter "ALL" every task is kept, in store order. */
  lemma FilterAllKeepsEverything(tasks: seq<Task>)
    ensures JsArray.Filter(tasks, MatchesFilter("ALL")) == tasks
  {
    JsArray.FilterKeepsAll(tasks, MatchesFilter("ALL"));
  }

  /**
   * The view holds exactly the tasks that pass the filter, each as often as
   * the filtered list does: it is a permutation of that subset.
   */
  lemma ViewIsPermutationOfMatching(tasks: seq<Task>, filter: string, sortOrder: string, t: Task)
    ensures multiset(FilteredTasks(tasks, filter, sortOrder))
         == multiset(JsArray.Filter(tasks, MatchesFilter(filter)))
    ensures t in FilteredTasks(tasks, filter, sortOrder)
        <==> t in tasks && (filter == "ALL" || StatusName(t.status) == filter)
  {
    var matching := JsArray.Filter(tasks, MatchesFilter(filter));
    JsArray.FilterMembers(tasks, MatchesFilter(filter), t);
    assert t in FilteredTasks(tasks, filter, sortOrder) <==> t in multiset(matching);
  }

  /** The view is ordered by the comparator of the selected sort. */
  lemma ViewSorted(tasks: seq<Task>, filter: string, sortOrder: string)
    ensures JsArray.SortedBy(FilteredTasks(tasks, filter, sortOrder), Comparator(sortOrder))
  {
    ComparatorConsistent(sortOrder);
    JsArray.SortSorted(JsArray.Filter(tasks, MatchesFilter(filter)), Comparator(sortOrder));
  }

  /** "asc": titles never decrease down the list; "desc": they never increase. */
  lemma ViewTitleOrder(tasks: seq<Task>, filter: string, sortOrder: string)
    ensures var r := FilteredTasks(tasks, filter, sortOrder);
      sortOrder == "asc" ==>
        forall i, j :: 0 <= i < j < |r| ==> LexCompare(r[i].titulo, r[j].titulo) <= 0
    ensures var r := FilteredTasks(tasks, filter, sortOrder);
      sortOrder == "desc" ==>
        forall i, j :: 0 <= i < j < |r| ==> LexCompare(r[j].titulo, r[i].titulo) <= 0
  {
    ViewSorted(tasks, filter, sortOrder);
  }

  /**
   * "status-pendentes-primeiro" lists PENDENTE, then EM_ANDAMENTO, then
   * CONCLUIDO; "status-em-andamento-primeiro" lists EM_ANDAMENTO, then
   * PENDENTE, then CONCLUIDO.
   */
  lemma ViewStatusOrder(tasks: seq<Task>, filter: string, sortOrder: string)
    ensures var r := FilteredTasks(tasks, filter, sortOrder);
      sortOrder == "status-pendentes-primeiro" ==>
        forall i, j :: 0 <= i < j < |r| ==> PendingFirstRank(r[i].status) <= PendingFirstRank(r[j].status)
    ensures var r := FilteredTasks(tasks, filter, sortOrder);
      sortOrder == "status-em-andamento-primeiro" ==>
        forall i, j :: 0 <= i < j < |r| ==> InProgressFirstRank(r[i].status) <= InProgressFirstRank(r[j].status)
  {
    var r := FilteredTasks(tasks, filter, sortOrder);
    ViewSorted(tasks, filter, sortOrder);
    forall i, j | 0 <= i < j < |r|
      ensures sortOrder == "status-pendentes-primeiro" ==>
        PendingFirstRank(r[i].status) <= PendingFirstRank(r[j].status)
      ensures sortOrder == "status-em-andamento-primeiro" ==>
        InProgressFirstRank(r[i].status) <= InProgressFirstRank(r[j].status)
    {
      StatusCompare(sortOrder, r[i], r[j]);
    }
  }

  /** A task with the given status and nothing else of note. */
  function AnyTaskWith(s: Status): Task {
    Task("", "", None, s, "", None)
  }

  lemma StatusNameInjective(s: Status, u: Status)
    ensures StatusName(s) == StatusName(u) <==> s == u
    ensures StatusName(s) != "ALL"
  {
  }

  /** Under a status sort, a task ties with `AnyTaskWith(s)` exactly when its status is `s`. */
  lemma StatusTie(sortOrder: string, s: Status, y: Task)
    requires sortOrder == "status-pendentes-primeiro" || sortOrder == "status-em-andamento-primeiro"
    ensures Compare(sortOrder, AnyTaskWith(s), y) == 0 <==> y.status == s
  {
    StatusCompare(sortOrder, AnyTaskWith(s), y);
  }

  /** The test "has status `s`" is `MatchesFilter` of its name. */
  lemma MatchesStatus(s: Status, y: Task)
    ensures MatchesFilter(StatusName(s))(y) <==> y.status == s
  {
    StatusNameInjective(s, y.status);
  }

  /**
   * The status sorts are stable: for each status, the tasks with that status
   * appear in the view in the same relative order as in the store.
   */
  lemma ViewStatusTiesKeepStoreOrder(tasks: seq<Task>, filter: string, sortOrder: string, s: Status)
    requires sortOrder == "status-pendentes-primeiro" || sortOrder == "status-em-andamento-primeiro"
    ensures JsArray.Filter(FilteredTasks(tasks, filter, sortOrder), MatchesFilter(StatusName(s)))
         == JsArray.Filter(JsArray.Filter(tasks, MatchesFilter(filter)), MatchesFilter(StatusName(s)))
  {
    var cmp := Comparator(sortOrder);
    var x := AnyTaskWith(s);
    var p := MatchesFilter(StatusName(s));
    forall y: Task
      ensures p(y) == (cmp(x, y) == 0)
    {
      StatusTie(sortOrder, s, y);
      MatchesStatus(s, y);
    }
    ComparatorConsistent(sortOrder);
    JsArray.SortStableUnder(JsArray.Filter(tasks, MatchesFilter(filter)), cmp, x, p);
  }

  /** The `filter` test "has this title". */
  function HasTitle(title: string): Task -> bool {
    (t: Task) => t.titulo == title
  }

  /**
   * The title sorts are stable: tasks with equal titles keep their store order.
   * The proof needs only a consistent comparator under which equal titles tie.
   */
  lemma ViewTitleTiesKeepStoreOrder(tasks: seq<Task>, filter: string, sortOrder: string, title: string)
    requires sortOrder == "asc" || sortOrder == "desc"
    ensures JsArray.Filter(FilteredTasks(tasks, filter, sortOrder), HasTitle(title))
         == JsArray.Filter(JsArray.Filter(tasks, MatchesFilter(filter)), HasTitle(title))
  {
    var cmp := Comparator(sortOrder);
    var x := Task("", title, None, Pendente, "", None);
    var p := HasTitle(title);
    forall y: Task | p(y)
      ensures cmp(x, y) == 0
    {
      assert LexCompare(x.titulo, y.titulo) == 0;
    }
    ComparatorConsistent(sortOrder);
    JsArray.SortStableWithin(JsArray.Filter(tasks, MatchesFilter(filter)), cmp, x, p);
  }

  /** Any other sort value compares every pair as equal, so the filtered order is kept. */
  lemma ViewUnknownSortKeepsOrder(tasks: seq<Task>, filter: string, sortOrder: string)
    requires sortOrder !in {"asc", "desc", "status-pendentes-primeiro", "status-em-andamento-primeiro"}
    ensures FilteredTasks(tasks, filter, sortOrder) == JsArray.Filter(tasks, MatchesFilter(filter))
  {
    ComparatorConsistent(sortOrder);
    JsArray.SortAllTied(JsArray.Filter(tasks, MatchesFilter(filter)), Comparator(sortOrder));
  }

  // ------------------------------------------------------- row controls

  /** The status the completion checkbox sends for a task with status `s`. */
  function ToggledStatus(s: Status): (r: Status)
    ensures r != EmAndamento
    ensures r == Pendente <==> s == Concluido
  {
    if s == Concluido then Pendente else Concluido
  }

  /**
   * Toggling twice returns PENDENTE and CONCLUIDO to themselves; an
   * EM_ANDAMENTO task toggled twice ends PENDENTE.
   */
  lemma ToggleTwice(s: Status)
    ensures s != EmAndamento ==> ToggledStatus(ToggledStatus(s)) == s
    ensures s == EmAndamento ==> ToggledStatus(ToggledStatus(s)) == Pendente
  {
  }

  /** The overflow menu after clicking the button of task `clicked`. */
  function NextDropdown(current: Option<string>, clicked: string): (r: Option<string>)
    ensures r == None <==> current == Some(clicked)
    ensures r != None ==> r == Some(clicked)
  {
    if current == Some(clicked) then None else Some(clicked)
  }

  /** Clicking the same button twice from a closed menu, or from that task's menu, comes back. */
  lemma DropdownClickTwice(current: Option<string>, clicked: string)
    requires current == None || current == Some(clicked)
    ensures NextDropdown(NextDropdown(current, clicked), clicked) == current
  {
  }

  /** The component's own state. */
  class TaskListView {
    var filter: string
    var sortOrder: string
    var currentDropdown: Option<string>

    /** Initially: all statuses, titles A-Z, no menu open. */
    constructor()
      ensures filter == "ALL" && sortOrder == "asc" && currentDropdown == None
    {
      filter := "ALL";
      sortOrder := "asc";
      currentDropdown := None;
    }

    /** The click handler of a row's overflow-menu button. */
    method ToggleDropdown(clicked: string)
      modifies this
      ensures currentDropdown == NextDropdown(old(currentDropdown), clicked)
      ensures filter == old(filter) && sortOrder == old(sortOrder)
    {
      currentDropdown := NextDropdown(currentDropdown, clicked);
    }
  }

  // ------------------------------------------------------------ handlers

  const StatusUpdated := ToastStore.ToastInput(
    "Status da tarefa atualizado com sucesso!", Some(ToastStore.Success), Some(3000))
  const StatusUpdateFailed := ToastStore.ToastInput(
    "Erro ao atualizar status da tarefa.", Some(ToastStore.Error), Some(5000))
  const TaskDeleted := ToastStore.ToastInput(
    "Tarefa excluída com sucesso!", Some(ToastStore.Success), Some(3000))
  const DeleteFailed := ToastStore.ToastInput(
    "Erro ao excluir a tarefa.", Some(ToastStore.Error), Some(5000))

  /** The effect that copies a fetched list into the store (`if (data) setTasks(data)`). */
  method ApplyFetched(store: TaskStore.Store, data: Option<seq<Task>>)
    modifies store
    ensures store.tasks == if data.Some? then data.value else old(store.tasks)
  {
    if data.Some? {
      store.SetTasks(Replace(data.value));
    }
  }

  /**
   * `handleStatusChange`: PUT `{ status }`; only when it succeeds, set that
   * status on the matching task through `setTasks` with an updater. Either
   * way, exactly one toast is appended: success (3 s) or error (5 s).
   */
  method HandleStatusChange(
    store: TaskStore.Store, toasts: ToastStore.Store,
    taskId: string, novoStatus: Status, reply: Outcome<()>, now: nat)
    returns (sent: Request)
    modifies store, toasts
    ensures sent == Put(taskId, EmptyPatch.(status := Present(novoStatus)))
    ensures store.tasks == if reply.Ok? then WithStatus(old(store.tasks), taskId, novoStatus) else old(store.tasks)
    ensures toasts.toasts == old(toasts.toasts)
      + [ToastStore.Stamped(if reply.Ok? then StatusUpdated else StatusUpdateFailed, now)]
  {
    sent := Put(taskId, EmptyPatch.(status := Present(novoStatus)));
    if reply.Ok? {
      store.SetTasks(Apply((prev: seq<Task>) => WithStatus(prev, taskId, novoStatus)));
      toasts.AddToast(StatusUpdated, now);
    } else {
      toasts.AddToast(StatusUpdateFailed, now);
    }
  }

  /** The completion checkbox of a row: a status change to the toggled status. */
  method HandleCheckbox(
    store: TaskStore.Store, toasts: ToastStore.Store,
    task: Task, reply: Outcome<()>, now: nat)
    returns (sent: Request)
    modifies store, toasts
    ensures sent == Put(task.id, EmptyPatch.(status := Present(ToggledStatus(task.status))))
    ensures store.tasks
         == if reply.Ok? then WithStatus(old(store.tasks), task.id, ToggledStatus(task.status)) else old(store.tasks)
    ensures toasts.toasts == old(toasts.toasts)
      + [ToastStore.Stamped(if reply.Ok? then StatusUpdated else StatusUpdateFailed, now)]
  {
    sent := HandleStatusChange(store, toasts, task.id, ToggledStatus(task.status), reply, now);
  }

  /**
   * `handleDeleteTask`: DELETE; only when it succeeds, remove the task from
   * the store. Either way, exactly one toast is appended.
   */
  method HandleDeleteTask(
    store: TaskStore.Store, toasts: ToastStore.Store,
    taskId: string, reply: Outcome<()>, now: nat)
    returns (sent: Request)
    modifies store, toasts
    ensures sent == Request.Delete(taskId)
    ensures store.tasks == if reply.Ok? then WithoutId(old(store.tasks), taskId) else old(store.tasks)
    ensures toasts.toasts == old(toasts.toasts)
      + [ToastStore.Stamped(if reply.Ok? then TaskDeleted else DeleteFailed, now)]
  {
    sent := Request.Delete(taskId);
    if reply.Ok? {
      store.DeleteTask(taskId);
      toasts.AddToast(TaskDeleted, now);
    } else {
      toasts.AddToast(DeleteFailed, now);
    }
  }
}
