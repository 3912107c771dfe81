/** The store object: one mutable field, `todos`, that every action replaces
    whole with a list computed from the old one, as `set(...)` does. */
module TodoStore {
  import opened Lists
  import opened Text
  import opened TodoModel

  class Store {
    var todos: seq<Todo>

    /** The store starts with no todos (a persisted list is not loaded here). */
    constructor ()
      ensures todos == [] && WellFormed(todos)
    {
      todos := [];
    }

    /** `addTodo`, with the id and the creation time passed in. The list stays
        well formed only if the caller's id is fresh: nothing here checks it. */
    method AddTodo(text: string, id: string, now: Timestamp)
      modifies this
      ensures todos == TodoModel.AddTodo(old(todos), text, id, now)
      ensures IsBlank(text) ==> todos == old(todos)
      ensures !IsBlank(text) ==> todos == old(todos) + [Todo(id, Trim(text), false, now)]
      ensures WellFormed(old(todos)) && id !in Ids(old(todos)) ==> WellFormed(todos)
    {
      if TextsTrimmed(todos) {
        AddTodoKeepsTextsTrimmed(todos, text, id, now);
      }
      AddTodoIdsDistinct(todos, text, id, now);
      if |Trim(text)| == 0 {
        return;
      }
      var newTodo := Todo(id, Trim(text), false, now);
      todos := todos + [newTodo];
    }

    /** `deleteTodo`: drops every todo with the id, keeps the rest in order. */
    method DeleteTodo(id: string)
      modifies this
      ensures todos == TodoModel.DeleteTodo(old(todos), id)
      ensures IsSubsequence(todos, old(todos))
      ensures forall t :: t in todos <==> t in old(todos) && t.id != id
      ensures id !in Ids(old(todos)) ==> todos == old(todos)
      ensures WellFormed(old(todos)) ==> WellFormed(todos)
    {
      DeleteTodoRemovesExactly(todos, id);
      FilterKeepsIds(todos, HasOtherId(id));
      if id !in Ids(todos) {
        DeleteTodoAbsent(todos, id);
      }
      if TextsTrimmed(todos) {
        FilterKeepsTextsTrimmed(todos, HasOtherId(id));
      }
      todos := Filter(todos, HasOtherId(id));
    }

    /** `toggleTodo`: flips `completed` on every todo with the id. */
    method ToggleTodo(id: string)
      modifies this
      ensures todos == TodoModel.ToggleTodo(old(todos), id)
      ensures id !in Ids(old(todos)) ==> todos == old(todos)
      ensures WellFormed(old(todos)) ==> WellFormed(todos)
    {
      if id !in Ids(todos) {
        ToggleTodoAbsent(todos, id);
      }
      ToggleAndEditKeepIds(todos, id, "");
      todos := TodoModel.ToggleTodo(todos, id);
    }

    /** `editTodo`: blank text is refused; otherwise every todo with the id
        gets the trimmed text. */
    method EditTodo(id: string, newText: string)
      modifies this
      ensures todos == TodoModel.EditTodo(old(todos), id, newText)
      ensures IsBlank(newText) || id !in Ids(old(todos)) ==> todos == old(todos)
      ensures WellFormed(old(todos)) ==> WellFormed(todos)
    {
      if id !in Ids(todos) {
        EditTodoAbsent(todos, id, newText);
      }
      ToggleAndEditKeepIds(todos, id, newText);
      if TextsTrimmed(todos) {
        EditTodoKeepsTextsTrimmed(todos, id, newText);
      }
      if |Trim(newText)| == 0 {
        return;
      }
      todos := TodoModel.EditTodo(todos, id, newText);
    }

    /** `clearCompleted`: keeps exactly the todos that are not completed. */
    method ClearCompleted()
      modifies this
      ensures todos == TodoModel.ClearCompleted(old(todos))
      ensures IsSubsequence(todos, old(todos))
      ensures forall t :: multiset(todos)[t] == if t.completed then 0 else multiset(old(todos))[t]
      ensures WellFormed(old(todos)) ==> WellFormed(todos)
    {
      ClearCompletedKeepsPending(todos);
      ClearCompletedKeepsIds(todos);
      if TextsTrimmed(todos) {
        FilterKeepsTextsTrimmed(todos, IsPending);
      }
      todos := Filter(todos, IsPending);
    }

    /** `getTodoStats`: reads the list and changes nothing. */
    method GetTodoStats() returns (stats: Stats)
      ensures stats.total == |todos|
      ensures stats.completed == Count(todos, IsCompleted)
      ensures stats.completed + stats.pending == stats.total
      ensures 0 <= stats.pending && stats.pending == |TodoModel.ClearCompleted(todos)|
    {
      stats := TodoStats(todos);
    }
  }
}
