/** The todo list of the store as a value: the `Todo` record and, for each
    action of the store, the new list it computes from the old one. */
module TodoModel {
  import opened Lists
  import opened Text

  /** A `Date`, as the milliseconds since the epoch it holds. */
  type Timestamp = int

  datatype Todo = Todo(id: string, text: string, completed: bool, createdAt: Timestamp)

  /** What `getTodoStats` returns. `pending` is a difference, so it is an `int`. */
  datatype Stats = Stats(total: nat, completed: nat, pending: int)

  predicate IsCompleted(t: Todo) { t.completed }

  predicate IsPending(t: Todo) { !t.completed }

  /** The callback `deleteTodo` filters with. */
  function HasOtherId(id: string): Todo -> bool {
    (t: Todo) => t.id != id
  }

  /** The ids present in the list. */
  function Ids(todos: seq<Todo>): set<string> {
    set t | t in todos :: t.id
  }

  /** No two todos of the list share an id. */
  predicate IdsDistinct(todos: seq<Todo>) {
    forall i, j :: 0 <= i < j < |todos| ==> todos[i].id != todos[j].id
  }

  /** Text as the store writes it: not empty, and neither starting nor ending
      with white space. */
  predicate IsTrimmedText(s: string) {
    s != [] && !IsWhitespace(s[0]) && !IsWhitespace(s[|s| - 1])
  }

  predicate TextsTrimmed(todos: seq<Todo>) {
    forall i :: 0 <= i < |todos| ==> IsTrimmedText(todos[i].text)
  }

  /** The list as the app keeps it when every added id is fresh: ids
      pairwise distinct, texts non-empty and trimmed. */
  predicate WellFormed(todos: seq<Todo>) {
    IdsDistinct(todos) && TextsTrimmed(todos)
  }

  // ----- the actions of the store, as functions of the list -----

  /** `addTodo`: blank text changes nothing; otherwise a todo with the trimmed
      text, not completed, with the given id and time, goes at the end. */
  function AddTodo(todos: seq<Todo>, text: string, id: string, now: Timestamp): (r: seq<Todo>)
    ensures IsBlank(text) ==> r == todos
    ensures !IsBlank(text) ==> |r| == |todos| + 1 && r[..|todos|] == todos
    ensures !IsBlank(text) ==> r[|todos|] == Todo(id, Trim(text), false, now)
    ensures !IsBlank(text) ==> IsTrimmedText(r[|todos|].text)
  {
    if |Trim(text)| == 0 then todos
    else todos + [Todo(id, Trim(text), false, now)]
  }

  /** `deleteTodo`: keep the todos whose id differs from `id`. */
  function DeleteTodo(todos: seq<Todo>, id: string): (r: seq<Todo>)
    ensures |r| <= |todos|
    ensures IsSubsequence(r, todos)
    ensures forall t :: multiset(r)[t] == if t.id == id then 0 else multiset(todos)[t]
  {
    FilterIsSubsequence(todos, HasOtherId(id));
    forall t ensures multiset(Filter(todos, HasOtherId(id)))[t] == if t.id == id then 0 else multiset(todos)[t] {
      FilterMultiplicity(todos, HasOtherId(id), t);
    }
    Filter(todos, HasOtherId(id))
  }

  /** `toggleTodo`: flip `completed` on every todo whose id is `id`. */
  function ToggleTodo(todos: seq<Todo>, id: string): (r: seq<Todo>)
    ensures |r| == |todos|
    ensures forall i :: 0 <= i < |todos| ==>
              r[i].id == todos[i].id && r[i].text == todos[i].text
              && r[i].createdAt == todos[i].createdAt
              && (r[i].completed <==> (todos[i].completed != (todos[i].id == id)))
  {
    Map(todos, (t: Todo) => if t.id == id then t.(completed := !t.completed) else t)
  }

  /** `editTodo`: blank text changes nothing; otherwise every todo whose id is
      `id` gets the trimmed text. */
  function EditTodo(todos: seq<Todo>, id: string, newText: string): (r: seq<Todo>)
    ensures IsBlank(newText) ==> r == todos
    ensures |r| == |todos|
    ensures forall i :: 0 <= i < |todos| ==>
              r[i].id == todos[i].id && r[i].completed == todos[i].completed
              && r[i].createdAt == todos[i].createdAt
              && r[i].text == if todos[i].id == id && !IsBlank(newText) then Trim(newText) else todos[i].text
  {
    if |Trim(newText)| == 0 then todos
    else Map(todos, (t: Todo) => if t.id == id then t.(text := Trim(newText)) else t)
  }

  /** `clearCompleted`: keep the todos that are not completed. */
  function ClearCompleted(todos: seq<Todo>): (r: seq<Todo>)
    ensures |r| <= |todos|
    ensures IsSubsequence(r, todos)
    ensures forall t :: multiset(r)[t] == if t.completed then 0 else multiset(todos)[t]
  {
    FilterIsSubsequence(todos, IsPending);
    forall t ensures multiset(Filter(todos, IsPending))[t] == if t.completed then 0 else multiset(todos)[t] {
      FilterMultiplicity(todos, IsPending, t);
    }
    Filter(todos, IsPending)
  }

  /** `getTodoStats`: `completed` is the length of the filter of completed
      todos, `pending` what is left of the total. */
  function TodoStats(todos: seq<Todo>): (r: Stats)
    ensures r.total == |todos|
    ensures r.completed == Count(todos, IsCompleted)
    ensures r.completed + r.pending == r.total
    ensures 0 <= r.pending && r.pending == |ClearCompleted(todos)|
  {
    FilterLength(todos, IsCompleted);
    FilterLength(todos, IsPending);
    CountComplement(todos, IsCompleted, IsPending);
    var completed := |Filter(todos, IsCompleted)|;
    Stats(|todos|, completed, |todos| - completed)
  }

  // ----- deleteTodo -----

  /** `deleteTodo` removes every todo with the id and nothing else, and keeps
      the others in their order. */
  lemma DeleteTodoRemovesExactly(todos: seq<Todo>, id: string)
    ensures IsSubsequence(DeleteTodo(todos, id), todos)
    ensures forall t :: multiset(DeleteTodo(todos, id))[t] == if t.id == id then 0 else multiset(todos)[t]
    ensures forall t :: t in DeleteTodo(todos, id) <==> t in todos && t.id != id
  {
    FilterIsSubsequence(todos, HasOtherId(id));
    forall t ensures multiset(DeleteTodo(todos, id))[t] == if t.id == id then 0 else multiset(todos)[t] {
      FilterMultiplicity(todos, HasOtherId(id), t);
    }
    forall t ensures t in DeleteTodo(todos, id) <==> t in todos && t.id != id {
      FilterMembership(todos, HasOtherId(id), t);
    }
  }

  /** Conversely, a list that keeps the order of `todos` and holds exactly its
      todos with other ids is what `deleteTodo` yields. */
  lemma DeleteTodoCharacterised(todos: seq<Todo>, id: string, r: seq<Todo>)
    requires IsSubsequence(r, todos)
    requires forall t :: multiset(r)[t] == if t.id == id then 0 else multiset(todos)[t]
    ensures r == DeleteTodo(todos, id)
  {
    FilterUnique(todos, HasOtherId(id), r);
  }

  /** Deleting an id that is not in the list changes nothing. */
  lemma DeleteTodoAbsent(todos: seq<Todo>, id: string)
    requires id !in Ids(todos)
    ensures DeleteTodo(todos, id) == todos
  {
    forall i | 0 <= i < |todos| ensures HasOtherId(id)(todos[i]) {
      assert todos[i] in todos;
    }
    FilterKeepsAll(todos, HasOtherId(id));
  }

  // ----- toggleTodo -----

  /** Toggling the same id twice gives back the original list. */
  lemma ToggleTodoTwice(todos: seq<Todo>, id: string)
    ensures ToggleTodo(ToggleTodo(todos, id), id) == todos
  {
    var r := ToggleTodo(ToggleTodo(todos, id), id);
    forall i | 0 <= i < |todos| ensures r[i] == todos[i] { }
  }

  /** Toggling an id that is not in the list changes nothing. */
  lemma ToggleTodoAbsent(todos: seq<Todo>, id: string)
    requires id !in Ids(todos)
    ensures ToggleTodo(todos, id) == todos
  {
    var r := ToggleTodo(todos, id);
    forall i | 0 <= i < |todos| ensures r[i] == todos[i] {
      assert todos[i] in todos;
    }
  }

  // ----- editTodo -----

  /** Editing with non-blank text stores text that is trimmed. */
  lemma EditTodoStoresTrimmed(todos: seq<Todo>, id: string, newText: string, i: nat)
    requires i < |todos| && todos[i].id == id && !IsBlank(newText)
    ensures EditTodo(todos, id, newText)[i].text == Trim(newText)
    ensures IsTrimmedText(EditTodo(todos, id, newText)[i].text)
  {
  }

  /** Editing an id that is not in the list changes nothing. */
  lemma EditTodoAbsent(todos: seq<Todo>, id: string, newText: string)
    requires id !in Ids(todos)
    ensures EditTodo(todos, id, newText) == todos
  {
    var r := EditTodo(todos, id, newText);
    forall i | 0 <= i < |todos| ensures r[i] == todos[i] {
      assert todos[i] in todos;
    }
  }

  // ----- clearCompleted -----

  /** `clearCompleted` keeps every todo that is not completed, drops every
      completed one, and keeps the order. */
  lemma ClearCompletedKeepsPending(todos: seq<Todo>)
    ensures IsSubsequence(ClearCompleted(todos), todos)
    ensures forall t :: multiset(ClearCompleted(todos))[t] == if t.completed then 0 else multiset(todos)[t]
    ensures forall i :: 0 <= i < |ClearCompleted(todos)| ==> !ClearCompleted(todos)[i].completed
  {
    FilterIsSubsequence(todos, IsPending);
    forall t ensures multiset(ClearCompleted(todos))[t] == if t.completed then 0 else multiset(todos)[t] {
      FilterMultiplicity(todos, IsPending, t);
    }
  }

  /** Clearing twice is clearing once. */
  lemma ClearCompletedTwice(todos: seq<Todo>)
    ensures ClearCompleted(ClearCompleted(todos)) == ClearCompleted(todos)
  {
    FilterIdempotent(todos, IsPending);
  }

  // ----- ids -----

  /** A filter of the list brings in no id, and keeps distinct ids distinct. */
  lemma {:induction false} FilterKeepsIds(todos: seq<Todo>, p: Todo -> bool)
    ensures Ids(Filter(todos, p)) <= Ids(todos)
    ensures IdsDistinct(todos) ==> IdsDistinct(Filter(todos, p))
  {
    var r := Filter(todos, p);
    forall x | x in Ids(r) ensures x in Ids(todos) {
      var t :| t in r && t.id == x;
      FilterMembership(todos, p, t);
    }
    if todos != [] && IdsDistinct(todos) {
      var h, rest := todos[0], todos[1..];
      FilterKeepsIds(rest, p);
      assert IdsDistinct(rest);
      var r' := Filter(rest, p);
      if p(h) {
        assert r == [h] + r';
        forall j | 0 <= j < |r'| ensures r'[j].id != h.id {
          FilterMembership(rest, p, r'[j]);
          var k :| 0 <= k < |rest| && rest[k] == r'[j];
          assert todos[k + 1] == rest[k];
        }
      }
    }
  }

  /** `deleteTodo` brings in no id and keeps distinct ids distinct. */
  lemma DeleteTodoKeepsIds(todos: seq<Todo>, id: string)
    ensures Ids(DeleteTodo(todos, id)) == Ids(todos) - {id}
    ensures IdsDistinct(todos) ==> IdsDistinct(DeleteTodo(todos, id))
  {
    FilterKeepsIds(todos, HasOtherId(id));
    DeleteTodoRemovesExactly(todos, id);
    forall x | x in Ids(todos) - {id} ensures x in Ids(DeleteTodo(todos, id)) {
      var t :| t in todos && t.id == x;
      assert t in DeleteTodo(todos, id);
    }
  }

  /** `clearCompleted` brings in no id and keeps distinct ids distinct. */
  lemma ClearCompletedKeepsIds(todos: seq<Todo>)
    ensures Ids(ClearCompleted(todos)) <= Ids(todos)
    ensures IdsDistinct(todos) ==> IdsDistinct(ClearCompleted(todos))
  {
    FilterKeepsIds(todos, IsPending);
  }

  /** Two lists with the same ids position by position have the same ids. */
  lemma SameIds(a: seq<Todo>, b: seq<Todo>)
    requires |a| == |b| && forall i :: 0 <= i < |a| ==> a[i].id == b[i].id
    ensures Ids(a) == Ids(b)
    ensures IdsDistinct(a) == IdsDistinct(b)
  {
    forall x | x in Ids(a) ensures x in Ids(b) {
      var t :| t in a && t.id == x;
      var i :| 0 <= i < |a| && a[i] == t;
      assert b[i] in b;
    }
    forall x | x in Ids(b) ensures x in Ids(a) {
      var t :| t in b && t.id == x;
      var i :| 0 <= i < |b| && b[i] == t;
      assert a[i] in a;
    }
  }

  /** `toggleTodo` and `editTodo` keep the ids, and so their distinctness. */
  lemma ToggleAndEditKeepIds(todos: seq<Todo>, id: string, newText: string)
    ensures Ids(ToggleTodo(todos, id)) == Ids(todos)
    ensures IdsDistinct(ToggleTodo(todos, id)) == IdsDistinct(todos)
    ensures Ids(EditTodo(todos, id, newText)) == Ids(todos)
    ensures IdsDistinct(EditTodo(todos, id, newText)) == IdsDistinct(todos)
  {
    SameIds(ToggleTodo(todos, id), todos);
    SameIds(EditTodo(todos, id, newText), todos);
  }

  /** `addTodo` keeps the ids distinct exactly when the text is blank or the
      new id is not in the list yet: nothing in the store checks this. */
  lemma AddTodoIdsDistinct(todos: seq<Todo>, text: string, id: string, now: Timestamp)
    ensures IdsDistinct(AddTodo(todos, text, id, now))
            <==> IdsDistinct(todos) && (IsBlank(text) || id !in Ids(todos))
  {
    var r := AddTodo(todos, text, id, now);
    if !IsBlank(text) {
      if id in Ids(todos) {
        var t :| t in todos && t.id == id;
        var i :| 0 <= i < |todos| && todos[i] == t;
        assert r[i].id == r[|todos|].id;
      } else if IdsDistinct(todos) {
        forall i | 0 <= i < |todos| ensures r[i].id != id {
          assert todos[i] in todos;
        }
      }
      if IdsDistinct(r) {
        assert forall i, j :: 0 <= i < j < |todos| ==> todos[i] == r[i] && todos[j] == r[j];
      }
    }
  }

  // ----- text -----

  /** `addTodo` keeps all texts non-empty and trimmed. */
  lemma AddTodoKeepsTextsTrimmed(todos: seq<Todo>, text: string, id: string, now: Timestamp)
    requires TextsTrimmed(todos)
    ensures TextsTrimmed(AddTodo(todos, text, id, now))
  {
    var r := AddTodo(todos, text, id, now);
    forall i | 0 <= i < |r| ensures IsTrimmedText(r[i].text) {
      if i < |todos| { assert r[i] == r[..|todos|][i] == todos[i]; }
    }
  }

  /** `editTodo` keeps all texts non-empty and trimmed. */
  lemma EditTodoKeepsTextsTrimmed(todos: seq<Todo>, id: string, newText: string)
    requires TextsTrimmed(todos)
    ensures TextsTrimmed(EditTodo(todos, id, newText))
  {
    var r := EditTodo(todos, id, newText);
    forall i | 0 <= i < |r| ensures IsTrimmedText(r[i].text) {
      if todos[i].id == id && !IsBlank(newText) {
        assert r[i].text == Trim(newText);
      }
    }
  }

  /** `deleteTodo` and `clearCompleted`, being filters, keep all texts
      non-empty and trimmed. */
  lemma FilterKeepsTextsTrimmed(todos: seq<Todo>, p: Todo -> bool)
    requires TextsTrimmed(todos)
    ensures TextsTrimmed(Filter(todos, p))
  {
    var r := Filter(todos, p);
    forall i | 0 <= i < |r| ensures IsTrimmedText(r[i].text) {
      FilterMembership(todos, p, r[i]);
    }
  }

  // ----- a session -----

  /** Add two todos to an empty list ("Buy milk", then "Walk dog", say) and
      complete the first: the statistics are two in all, one completed, one
      pending, and clearing the completed todos leaves the second alone. The
      two ids differ, as freshly generated ids do. */
  lemma Walkthrough(first: string, second: string, id1: string, id2: string, t1: Timestamp, t2: Timestamp)
    requires !IsBlank(first) && !IsBlank(second) && id1 != id2
    ensures var todos := ToggleTodo(AddTodo(AddTodo([], first, id1, t1), second, id2, t2), id1);
            TodoStats(todos) == Stats(2, 1, 1)
            && ClearCompleted(todos) == [Todo(id2, Trim(second), false, t2)]
  {
    var a, b := Todo(id1, Trim(first), false, t1), Todo(id2, Trim(second), false, t2);
    var added := AddTodo([], first, id1, t1);
    assert added == [a];
    added := AddTodo(added, second, id2, t2);
    assert added == [a, b];
    var todos := ToggleTodo(added, id1);
    assert todos == [a.(completed := true), b];
    assert todos[1..] == [b] && [b][1..] == [];
    assert Count(todos, IsCompleted) == 1;
    assert ClearCompleted(todos) == Filter([b], IsPending) == [b] + Filter([], IsPending);
  }
}
