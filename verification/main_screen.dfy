/**
  The state and the two event handlers of the to-do screen: the pending text
  of the input field and the ordered list of `{ id, text }` records, with
  "add" (a trim-guarded append that clears the field) and "delete" (a filter
  by id). Each handler is one atomic transition of an immutable state.
 */
module MainScreen {
  import opened JsString

  /** One record of the list. In the program the id is the current clock
      reading rendered as a string, so here it is whatever the caller
      supplies; nothing makes it unique. */
  datatype Todo = Todo(id: string, text: string)

  /** The two pieces of screen state: the text field and the list. */
  datatype Screen = Screen(input: string, todos: seq<Todo>)

  /** Both state hooks start empty. */
  const Initial: Screen := Screen("", [])

  /** The ids present in a list. */
  function Ids(todos: seq<Todo>): set<string> {
    set t | t in todos :: t.id
  }

  /** No two records share an id: what the list's key extractor takes for
      granted, and what add does not check. */
  predicate DistinctIds(todos: seq<Todo>) {
    forall i, j :: 0 <= i < j < |todos| ==> todos[i].id != todos[j].id
  }

  /** `a` can be obtained from `b` by deleting elements, the rest keeping
      their relative order. */
  predicate IsSubsequence(a: seq<Todo>, b: seq<Todo>)
    decreases |b|
  {
    if |a| == 0 then true
    else if |b| == 0 then false
    else (a[0] == b[0] && IsSubsequence(a[1..], b[1..])) || IsSubsequence(a, b[1..])
  }

  /** The text field's change handler: replaces the pending text and leaves
      the list alone. */
  function ChangeText(s: Screen, text: string): (r: Screen)
    ensures r.input == text && r.todos == s.todos
  {
    s.(input := text)
  }

  /** The add handler. A pending text that trims to nothing is rejected and
      the state is unchanged. Otherwise the untrimmed text is appended under
      the given id, after every existing record, and the field is cleared. */
  function AddTodo(s: Screen, id: string): (r: Screen)
    ensures AllWhitespace(s.input) ==> r == s
    ensures !AllWhitespace(s.input) ==>
              && |r.todos| == |s.todos| + 1
              && r.todos[..|s.todos|] == s.todos
              && r.todos[|s.todos|] == Todo(id, s.input)
              && r.input == ""
  {
    if |Trim(s.input)| > 0 then
      Screen("", s.todos + [Todo(id, s.input)])
    else
      s
  }

  /** The list without any record whose id is `id`: every such record goes
      (all of them when ids collide) and the rest keep their order. Which
      records stay, and how often, is `TodoLaws.WithoutMembers` and
      `TodoLaws.WithoutCounts`. */
  function Without(todos: seq<Todo>, id: string): (r: seq<Todo>)
    ensures |r| <= |todos|
    ensures IsSubsequence(r, todos)
    ensures forall i :: 0 <= i < |r| ==> r[i].id != id
  {
    if |todos| == 0 then
      []
    else
      var x, rest := todos[0], Without(todos[1..], id);
      if x.id == id then
        rest
      else
        var r := [x] + rest;
        assert r[1..] == rest;
        r
  }

  /** The delete handler: the pending text is untouched and the list is
      filtered by id. */
  function DeleteTodo(s: Screen, id: string): (r: Screen)
    ensures r.input == s.input
    ensures IsSubsequence(r.todos, s.todos)
    ensures forall i :: 0 <= i < |r.todos| ==> r.todos[i].id != id
  {
    s.(todos := Without(s.todos, id))
  }

  /** The user actions the screen wires to its handlers: typing in the field,
      pressing "Add" (the clock reading that becomes the id is a parameter)
      and pressing a record's "Delete". */
  datatype Event = Type(text: string) | PressAdd(id: string) | PressDelete(id: string)

  /** One event applied to the state. Typing never touches the list; delete
      never touches the field and never lengthens the list; add either
      changes nothing or appends one record and clears the field. Any id may
      be deleted, where the screen only offers the ids of rendered records. */
  function Step(s: Screen, e: Event): (r: Screen)
    ensures e.Type? ==> r.todos == s.todos && r.input == e.text
    ensures e.PressDelete? ==> r.input == s.input && |r.todos| <= |s.todos|
    ensures e.PressAdd? ==>
              || r == s
              || (r.input == "" && r.todos == s.todos + [Todo(e.id, s.input)])
  {
    match e
    case Type(text) => ChangeText(s, text)
    case PressAdd(id) => AddTodo(s, id)
    case PressDelete(id) => DeleteTodo(s, id)
  }

  /** A sequence of events applied in order. */
  function Run(s: Screen, events: seq<Event>): Screen
    decreases |events|
  {
    if |events| == 0 then s else Run(Step(s, events[0]), events[1..])
  }
}
