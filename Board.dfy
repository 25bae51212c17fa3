/**
 * The page's state and its rendering. TaskBoard holds the module-level
 * task list together with the status line and the date line; its methods
 * are the handlers' effects on them once the server has answered, and
 * Render rebuilds the grid from the list.
 */
module Board {
  import opened Tasks
  import Escaping
  import Dates

  /** One child of the grid. */
  datatype Element =
    | Notice(className: string, text: string)
      /** A task's tile; onClick is the task the tile's click handler toggles. */
    | Tile(className: string, tooltip: string, labelClass: string, labelHtml: string, onClick: Task)

  const EmptyText := "No hay tareas para hoy. Agrega una arriba."
  const TileTooltip := "Click para alternar"

  /** "task", followed by " done" for a completed task. */
  function TileClass(completed: bool): (c: string)
    ensures "task" <= c
    ensures c == "task done" <==> completed
    ensures c == "task" <==> !completed
  {
    "task" + (if completed then " done" else "")
  }

  /**
   * The tile for one task: its class tells whether the task is done, and
   * its label is the escaped title: safe markup in which decoding the five
   * references gives back the title.
   */
  function TileFor(t: Task): (e: Element)
    ensures e.Tile? && e.onClick == t && e.tooltip == TileTooltip && e.labelClass == "label"
    ensures e.className == "task done" <==> t.completed
    ensures Escaping.IsSafeMarkup(e.labelHtml) && Escaping.Unescape(e.labelHtml) == t.title
  {
    Escaping.EscapeSafe(t.title);
    Escaping.UnescapeEscape(t.title);
    Tile(TileClass(t.completed), TileTooltip, "label", Escaping.EscapeHtml(t.title), t)
  }

  /** The grid for a list: a single muted notice when it is empty, else one tile per task in order. */
  function View(ts: seq<Task>): (g: seq<Element>)
    ensures ts == [] ==> g == [Notice("muted", EmptyText)]
    ensures ts != [] ==> |g| == |ts| && forall i :: 0 <= i < |ts| ==> g[i] == TileFor(ts[i])
  {
    if ts == [] then [Notice("muted", EmptyText)] else Tiles(ts)
  }

  function Tiles(ts: seq<Task>): (g: seq<Element>)
    ensures |g| == |ts| && forall i :: 0 <= i < |ts| ==> g[i] == TileFor(ts[i])
  {
    if ts == [] then [] else [TileFor(ts[0])] + Tiles(ts[1..])
  }

  /** Distinct titles of two tasks are never rendered as the same label. */
  lemma LabelsDistinguishTitles(a: Task, b: Task)
    requires a.title != b.title
    ensures TileFor(a).labelHtml != TileFor(b).labelHtml
  {
    if TileFor(a).labelHtml == TileFor(b).labelHtml {
      Escaping.EscapeInjective(a.title, b.title);
    }
  }

  /**
   * A click on the i-th tile of the grid sends the request for the i-th
   * task: its id and the opposite of its completed flag.
   */
  lemma ClickRequestsToggle(ts: seq<Task>, i: nat)
    requires i < |ts|
    ensures View(ts)[i].Tile?
    ensures ToggleRequest(View(ts)[i].onClick) == PatchRequest(ts[i].id, !ts[i].completed)
  {
  }

  /** After a reset no tile is shown as done, and the labels are those shown before. */
  lemma ResetView(ts: seq<Task>, i: nat)
    requires i < |ts|
    ensures View(ClearCompleted(ts))[i].className == "task"
    ensures View(ClearCompleted(ts))[i].labelHtml == View(ts)[i].labelHtml
  {
  }

  class TaskBoard {
    /** The module-level list of today's tasks, newest first after a create. */
    var tasks: seq<Task>
    /** The status line's text. */
    var status: string
    /** The date line's text. */
    var dateText: string

    constructor ()
      ensures tasks == [] && status == "" && dateText == ""
    {
      tasks := [];
      status := "";
      dateText := "";
    }

    /**
     * loadToday on the day the clock reports as year, 0-based month index
     * and day, once the server has returned that day's list.
     */
    method Load(year: int, monthIndex: nat, day: nat, fetched: seq<Task>)
      modifies this
      ensures tasks == fetched
      ensures dateText == "Hoy: " + Dates.FormatDate(year, monthIndex, day)
      ensures status == "Tareas de hoy: " + Dates.DecimalString(|fetched|)
    {
      var date := Dates.FormatDate(year, monthIndex, day);
      dateText := "Hoy: " + date;
      status := "Cargando tareas de hoy…";
      tasks := fetched;
      status := "Tareas de hoy: " + Dates.DecimalString(|tasks|);
    }

    /**
     * createTask on the day the clock reports as year, 0-based month index
     * and day, once the server has returned the created record: the
     * request carries the title and that day's date, and the record goes in
     * front of the unchanged old list.
     */
    method Create(title: string, year: int, monthIndex: nat, day: nat, created: Task) returns (request: CreateRequest)
      modifies this
      ensures request == CreateRequest(title, Dates.FormatDate(year, monthIndex, day))
      ensures tasks == Prepend(old(tasks), created)
      ensures |tasks| == |old(tasks)| + 1 && tasks[0] == created && tasks[1..] == old(tasks)
      ensures status == "Tarea creada." && dateText == old(dateText)
    {
      var date := Dates.FormatDate(year, monthIndex, day);
      request := CreateRequest(title, date);
      tasks := [created] + tasks;
      status := "Tarea creada.";
    }

    /**
     * toggleTask, once the server has answered the request with updated:
     * the request asks for the opposite of task's flag, and every entry
     * with updated's id is replaced by it.
     */
    method Toggle(task: Task, updated: Task) returns (request: PatchRequest)
      modifies this
      ensures request == ToggleRequest(task)
      ensures tasks == ReplaceById(old(tasks), updated)
      ensures |tasks| == |old(tasks)| && Ids(tasks) == Ids(old(tasks))
      ensures status == (if updated.completed then "Marcada como hecha." else "Marcada como pendiente.")
      ensures dateText == old(dateText)
    {
      request := ToggleRequest(task);
      ReplaceByIdKeepsIds(tasks, updated);
      tasks := ReplaceById(tasks, updated);
      status := if updated.completed then "Marcada como hecha." else "Marcada como pendiente.";
    }

    /** The reset button: every completed flag is cleared, on the page only. */
    method Reset()
      modifies this
      ensures tasks == ClearCompleted(old(tasks))
      ensures Ids(tasks) == Ids(old(tasks)) && Titles(tasks) == Titles(old(tasks))
      ensures status == "UI reseteada (no guardado)." && dateText == old(dateText)
    {
      ClearCompletedKeepsIdsAndTitles(tasks);
      tasks := ClearCompleted(tasks);
      status := "UI reseteada (no guardado).";
    }

    /** render: the grid is cleared, then filled with the notice or with one tile per task. */
    method Render() returns (grid: seq<Element>)
      ensures grid == View(tasks)
      ensures tasks == [] ==> grid == [Notice("muted", EmptyText)]
      ensures tasks != [] ==> |grid| == |tasks|
      ensures tasks != [] ==> forall i :: 0 <= i < |tasks| ==>
        (grid[i].className == "task done" <==> tasks[i].completed) &&
        Escaping.Unescape(grid[i].labelHtml) == tasks[i].title && grid[i].onClick == tasks[i]
    {
      grid := [];
      if |tasks| == 0 {
        grid := grid + [Notice("muted", EmptyText)];
        return;
      }
      for i := 0 to |tasks|
        invariant |grid| == i
        invariant forall k :: 0 <= k < i ==> grid[k] == TileFor(tasks[k])
      {
        var el := Tile(TileClass(tasks[i].completed), TileTooltip, "label",
                       Escaping.EscapeHtml(tasks[i].title), tasks[i]);
        grid := grid + [el];
      }
    }
  }
}
