/** The `TodoList` component's state cells and the event handlers that update them. Each React
    state cell is a field; each handler is a method that assigns the cells its `set…` calls update,
    using the list transformations of `Tasks` and the page arithmetic of `Paging`. */
module TodoListComponent {
  import opened Todos
  import Tasks
  import Paging

  class TodoList {
    var todos: seq<Todo>
    var input: string
    var selectedCategory: string
    var selectedPriority: Priority
    var selectedDate: Option<Date>
    var showDatePicker: bool
    var currentPage: int

    /** The component's invariant: identifiers are distinct and the page index addresses an
        existing page (a non-empty one whenever there are tasks). */
    ghost predicate Valid()
      reads this
    {
      DistinctIds(todos) && Paging.PageValid(|todos|, currentPage)
    }

    /** The tasks the current page renders. */
    function Visible(): (v: seq<Todo>)
      reads this
      ensures 0 <= currentPage ==> |v| <= Paging.ItemsPerPage
      ensures 0 <= currentPage && v != [] ==>
        var first := currentPage * Paging.ItemsPerPage;
        first + |v| <= |todos| && v == todos[first..first + |v|]
    {
      Paging.CurrentTodos(todos, currentPage)
    }

    /** The initial state: no tasks, an empty form with the first category and low priority,
        no date, the picker closed, page 0. */
    constructor ()
      ensures todos == [] && input == "" && selectedCategory == Categories[0]
      ensures selectedPriority == Low && selectedDate == None && !showDatePicker
      ensures currentPage == 0 && Valid()
    {
      todos := [];
      input := "";
      selectedCategory := Categories[0];
      selectedPriority := Low;
      selectedDate := None;
      showDatePicker := false;
      currentPage := 0;
    }

    /** The text field's onChange: `setInput(e.target.value)`. */
    method SetInput(value: string)
      modifies this
      ensures input == value
      ensures todos == old(todos) && currentPage == old(currentPage) && selectedDate == old(selectedDate)
      ensures selectedCategory == old(selectedCategory) && selectedPriority == old(selectedPriority)
      ensures showDatePicker == old(showDatePicker)
    {
      input := value;
    }

    /** The category selector: `setSelectedCategory(e.target.value)`. */
    method SelectCategory(category: string)
      modifies this
      ensures selectedCategory == category
      ensures todos == old(todos) && currentPage == old(currentPage) && input == old(input)
      ensures selectedDate == old(selectedDate) && selectedPriority == old(selectedPriority)
      ensures showDatePicker == old(showDatePicker)
    {
      selectedCategory := category;
    }

    /** A priority button: `setSelectedPriority(priority)`. */
    method SelectPriority(priority: Priority)
      modifies this
      ensures selectedPriority == priority
      ensures todos == old(todos) && currentPage == old(currentPage) && input == old(input)
      ensures selectedDate == old(selectedDate) && selectedCategory == old(selectedCategory)
      ensures showDatePicker == old(showDatePicker)
    {
      selectedPriority := priority;
    }

    /** The date picker's onChange: the date is stored and the picker closes. */
    method SelectDate(date: Option<Date>)
      modifies this
      ensures selectedDate == date && !showDatePicker
      ensures todos == old(todos) && currentPage == old(currentPage) && input == old(input)
      ensures selectedCategory == old(selectedCategory) && selectedPriority == old(selectedPriority)
    {
      selectedDate := date;
      showDatePicker := false;
    }

    /** `addTodo`. A blank input changes nothing. Otherwise one task (trimmed text, not completed,
        the selected priority, category and date) is appended, the form is cleared, and the page
        jumps to the one holding the new task. `id` stands for the `Date.now()` reading. */
    method AddTodo(id: nat)
      modifies this
      ensures IsBlank(old(input)) ==> unchanged(this)
      ensures !IsBlank(old(input)) ==>
        && todos == old(todos) + [Todo(id, Trim(old(input)), false, old(selectedPriority), old(selectedCategory), old(selectedDate))]
        && input == "" && selectedDate == None && !showDatePicker
        && currentPage == Paging.PageAfterAdd(|old(todos)|)
        && selectedCategory == old(selectedCategory) && selectedPriority == old(selectedPriority)
      ensures !IsBlank(old(input)) ==> Visible() != [] && Visible()[|Visible()| - 1].id == id
      ensures old(Valid()) && FreshId(old(todos), id) ==> Valid()
    {
      var task := Tasks.NewTask(id, input, selectedPriority, selectedCategory, selectedDate);
      if task.text != [] {
        AppendTask(task);
      }
    }

    /** The state updates of an accepted `addTodo`: `task` is appended, the text and date fields are
        cleared, the picker closes, and the page jumps to the one that shows the new task. */
    method AppendTask(task: Todo)
      modifies this
      ensures todos == old(todos) + [task]
      ensures input == "" && selectedDate == None && !showDatePicker
      ensures currentPage == Paging.PageAfterAdd(|old(todos)|)
      ensures selectedCategory == old(selectedCategory) && selectedPriority == old(selectedPriority)
      ensures Visible() != [] && Visible()[|Visible()| - 1] == task
      ensures old(Valid()) && FreshId(old(todos), task.id) ==> Valid()
    {
      Paging.AddedTaskVisible(todos, task);
      if DistinctIds(todos) && FreshId(todos, task.id) {
        AppendFreshKeepsDistinct(todos, task);
      }
      var n := |todos|;
      todos := todos + [task];
      input := "";
      selectedDate := None;
      showDatePicker := false;
      currentPage := Paging.PageAfterAdd(n);
    }

    /** `toggleTodo`: `completed` flips on the tasks carrying `id`; nothing else changes. */
    method ToggleTodo(id: nat)
      modifies this
      ensures todos == Tasks.Toggle(old(todos), id)
      ensures currentPage == old(currentPage) && input == old(input) && selectedDate == old(selectedDate)
      ensures selectedCategory == old(selectedCategory) && selectedPriority == old(selectedPriority)
      ensures showDatePicker == old(showDatePicker)
      ensures old(Valid()) ==> Valid()
    {
      if DistinctIds(todos) {
        Tasks.ToggleKeepsDistinct(todos, id);
      }
      todos := Tasks.Toggle(todos, id);
    }

    /** `deleteTodo`: the tasks carrying `id` are filtered out, and the page steps back by one
        when it now starts at or past the end of the list and is not the first page. */
    method DeleteTodo(id: nat)
      modifies this
      ensures todos == Tasks.Delete(old(todos), id)
      ensures currentPage == Paging.PageAfterDelete(|todos|, old(currentPage))
      ensures input == old(input) && selectedDate == old(selectedDate) && showDatePicker == old(showDatePicker)
      ensures selectedCategory == old(selectedCategory) && selectedPriority == old(selectedPriority)
      ensures old(Valid()) ==> Valid()
    {
      ghost var wasValid := Valid();
      var newTodos := Tasks.Delete(todos, id);
      var newPage := Paging.PageAfterDelete(|newTodos|, currentPage);
      ghost var keeps := DistinctIds(newTodos) && Paging.PageValid(|newTodos|, newPage);
      if wasValid {
        DeleteKeepsValid(todos, id, currentPage);
      }
      assert wasValid ==> keeps;
      todos, currentPage := newTodos, newPage;
      assert keeps ==> Valid();
    }

    /** `handleDragEnd`: dropping a task on itself changes nothing; dropping it on another task
        moves it to that task's index, the other tasks keeping their relative order. */
    method HandleDragEnd(activeId: nat, overId: nat)
      requires HasId(todos, activeId) && HasId(todos, overId)
      modifies this
      ensures activeId == overId ==> todos == old(todos)
      ensures activeId != overId ==> todos == Tasks.Reorder(old(todos), activeId, overId)
      ensures currentPage == old(currentPage) && input == old(input) && selectedDate == old(selectedDate)
      ensures selectedCategory == old(selectedCategory) && selectedPriority == old(selectedPriority)
      ensures showDatePicker == old(showDatePicker)
      ensures old(Valid()) ==> Valid()
      ensures old(DistinctIds(todos)) && 0 <= currentPage && HasId(old(Visible()), activeId) && HasId(old(Visible()), overId) ==>
        && todos[..currentPage * Paging.ItemsPerPage] == old(todos)[..currentPage * Paging.ItemsPerPage]
        && |todos| == |old(todos)|
        && todos[Paging.Min(currentPage * Paging.ItemsPerPage + Paging.ItemsPerPage, |todos|)..]
           == old(todos)[Paging.Min(currentPage * Paging.ItemsPerPage + Paging.ItemsPerPage, |todos|)..]
        && multiset(Visible()) == multiset(old(Visible()))
    {
      if DistinctIds(todos) && 0 <= currentPage && HasId(Visible(), activeId) && HasId(Visible(), overId) {
        DragStaysOnPage(todos, activeId, overId, currentPage);
      }
      if activeId != overId {
        if DistinctIds(todos) {
          Tasks.ReorderKeepsDistinct(todos, activeId, overId);
        }
        todos := Tasks.Reorder(todos, activeId, overId);
      }
    }

    /** `handlePageChange`: the page index is set to the argument as given, without clamping. */
    method HandlePageChange(newPage: int)
      modifies this
      ensures currentPage == newPage
      ensures todos == old(todos) && input == old(input) && selectedDate == old(selectedDate)
      ensures selectedCategory == old(selectedCategory) && selectedPriority == old(selectedPriority)
      ensures showDatePicker == old(showDatePicker)
    {
      currentPage := newPage;
    }

    /** The Previous button, rendered only when there are tasks and enabled unless on page 0. */
    method Previous()
      requires |todos| > 0 && currentPage != 0
      modifies this
      ensures currentPage == old(currentPage) - 1 && todos == old(todos)
      ensures input == old(input) && selectedDate == old(selectedDate) && showDatePicker == old(showDatePicker)
      ensures selectedCategory == old(selectedCategory) && selectedPriority == old(selectedPriority)
      ensures old(Valid()) ==> Valid()
    {
      if Paging.PageValid(|todos|, currentPage) {
        Paging.PreviousKeepsPageValid(|todos|, currentPage);
      }
      HandlePageChange(currentPage - 1);
    }

    /** The Next button, rendered only when there are tasks and enabled unless on the last page. */
    method Next()
      requires |todos| > 0 && currentPage != Paging.TotalPages(|todos|) - 1
      modifies this
      ensures currentPage == old(currentPage) + 1 && todos == old(todos)
      ensures input == old(input) && selectedDate == old(selectedDate) && showDatePicker == old(showDatePicker)
      ensures selectedCategory == old(selectedCategory) && selectedPriority == old(selectedPriority)
      ensures old(Valid()) ==> Valid()
    {
      if Paging.PageValid(|todos|, currentPage) {
        Paging.NextKeepsPageValid(|todos|, currentPage);
      }
      HandlePageChange(currentPage + 1);
    }
  }

  /** With distinct identifiers, a delete and its page step keep the component's invariant. */
  lemma DeleteKeepsValid(s: seq<Todo>, id: nat, page: int)
    requires DistinctIds(s) && Paging.PageValid(|s|, page)
    ensures var r := Tasks.Delete(s, id);
            DistinctIds(r) && Paging.PageValid(|r|, Paging.PageAfterDelete(|r|, page))
  {
    Tasks.DeleteKeepsDistinct(s, id);
    Tasks.DeleteLength(s, id);
    Paging.DeleteKeepsPageValid(|s|, |Tasks.Delete(s, id)|, page);
  }

  /** With distinct identifiers, dragging one task of a page onto another task of the same page
      (the only drags the rendered page offers) moves nothing before or after that page,
      and the page shows the same tasks as before, possibly in another order. */
  lemma DragStaysOnPage(s: seq<Todo>, activeId: nat, overId: nat, page: int)
    requires DistinctIds(s) && 0 <= page
    requires HasId(Paging.CurrentTodos(s, page), activeId) && HasId(Paging.CurrentTodos(s, page), overId)
    ensures HasId(s, activeId) && HasId(s, overId)
    ensures var r := Tasks.Reorder(s, activeId, overId);
            var lo := page * Paging.ItemsPerPage;
            var hi := Paging.Min(lo + Paging.ItemsPerPage, |s|);
            && lo <= hi && r[..lo] == s[..lo] && r[hi..] == s[hi..]
            && multiset(Paging.CurrentTodos(r, page)) == multiset(Paging.CurrentTodos(s, page))
  {
    var lo := page * Paging.ItemsPerPage;
    Paging.PageWindow(s, page);
    Tasks.ReorderWithin(s, activeId, overId, lo, Paging.Min(lo + Paging.ItemsPerPage, |s|));
    Paging.PageWindow(Tasks.Reorder(s, activeId, overId), page);
  }

  /** Start empty, add "Buy milk" in the shopping category at low priority, toggle it, delete it. */
  method FirstTaskLifecycle(id: nat) {
    var list := new TodoList();
    list.SetInput("Buy milk");
    list.SelectCategory(Categories[2]);
    assert list.input[0] == 'B' && !IsWhitespace('B');
    assert !IsBlank(list.input);
    assert Trim("Buy milk") == "Buy milk" by {
      assert !IsWhitespace('k');
      assert TrimStart("Buy milk") == "Buy milk";
    }
    list.AddTodo(id);
    assert |list.todos| == 1 && list.todos[0].text == "Buy milk" && !list.todos[0].completed;
    assert list.currentPage == 0 && list.Valid();
    list.ToggleTodo(id);
    assert list.todos[0].completed;
    list.DeleteTodo(id);
    assert list.todos == [] && list.currentPage == 0;
  }

  /** Six tasks added one after the other to an empty list: the sixth opens page 1. */
  method AddSixTasks() returns (list: TodoList)
    ensures fresh(list) && list.Valid()
    ensures |list.todos| == 6 && list.todos[5].id == 6 && list.currentPage == 1
  {
    list := new TodoList();
    var text := "task";
    assert text[0] == 't' && !IsWhitespace('t');
    assert !IsBlank(text);
    var id: nat := 1;
    while id <= 6
      invariant 1 <= id <= 7 && |list.todos| == id - 1 && list.Valid()
      invariant forall i :: 0 <= i < |list.todos| ==> list.todos[i].id == i + 1
      invariant id > 1 ==> list.currentPage == Paging.PageAfterAdd(id - 2)
    {
      ghost var before := list.todos;
      list.SetInput(text);
      assert !IsBlank(list.input) && FreshId(before, id);
      list.AddTodo(id);
      assert |list.todos| == |before| + 1 && list.todos[..|before|] == before && list.todos[|before|].id == id;
      id := id + 1;
    }
    assert list.currentPage == Paging.PageAfterAdd(5);
  }

  /** Six tasks on pages of five: deleting the sixth task from page 1 returns the list to page 0. */
  method SixthTaskOpensSecondPage() {
    var list := AddSixTasks();
    assert Paging.TotalPages(6) == 2;
    Tasks.DeleteLength(list.todos, 6);
    list.DeleteTodo(6);
    assert |list.todos| == 5 && list.currentPage == 0;
  }
}
