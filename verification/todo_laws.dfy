/**
  Laws of the screen's add and delete transitions: the no-op cases,
  idempotence and commutation of delete, the add-then-delete round trip and
  the list invariants the transitions keep.
 */
module TodoLaws {
  import opened JsString
  import opened MainScreen

  /** Deleting an id that no record carries changes nothing. */
  lemma {:induction false} WithoutAbsent(todos: seq<Todo>, id: string)
    requires id !in Ids(todos)
    ensures Without(todos, id) == todos
  {
    if |todos| > 0 {
      assert todos[0] in todos;
      assert forall t :: t in todos[1..] ==> t in todos;
      WithoutAbsent(todos[1..], id);
    }
  }

  /** Every record without the id survives delete exactly as often as it
      occurs in the list; records with the id do not survive at all. */
  lemma {:induction false} WithoutCounts(todos: seq<Todo>, id: string)
    ensures forall t :: multiset(Without(todos, id))[t] == if t.id == id then 0 else multiset(todos)[t]
  {
    if |todos| > 0 {
      WithoutCounts(todos[1..], id);
      assert todos == [todos[0]] + todos[1..];
    }
  }

  /** A record survives delete exactly when it was in the list and carries
      another id: nothing else is removed and nothing is added. */
  lemma {:induction false} WithoutMembers(todos: seq<Todo>, id: string)
    ensures forall t :: t in Without(todos, id) <==> t in todos && t.id != id
  {
    WithoutCounts(todos, id);
    assert forall t :: t in Without(todos, id) <==> multiset(Without(todos, id))[t] > 0;
  }

  /** After delete no remaining record has the id, and every record of the
      original screen's list with another id is still there. */
  lemma DeleteRemovesExactlyId(s: Screen, id: string)
    ensures id !in Ids(DeleteTodo(s, id).todos)
    ensures forall t :: t in s.todos && t.id != id ==> t in DeleteTodo(s, id).todos
  {
    WithoutMembers(s.todos, id);
  }

  /** Deleting the same id twice is the same as deleting it once. */
  lemma {:induction false} WithoutIdempotent(todos: seq<Todo>, id: string)
    ensures Without(Without(todos, id), id) == Without(todos, id)
  {
    WithoutAbsent(Without(todos, id), id);
  }

  /** The list keeps its length under delete exactly when the id is absent;
      otherwise it gets strictly shorter. */
  lemma {:induction false} WithoutShrinksIffPresent(todos: seq<Todo>, id: string)
    ensures |Without(todos, id)| == |todos| <==> id !in Ids(todos)
    ensures id in Ids(todos) ==> |Without(todos, id)| < |todos|
  {
    if |todos| > 0 {
      var x, rest := todos[0], todos[1..];
      WithoutShrinksIffPresent(rest, id);
      assert todos == [x] + rest;
      assert id in Ids(todos) <==> x.id == id || id in Ids(rest) by {
        assert forall t :: t in todos <==> t == x || t in rest;
      }
    }
  }

  /** Delete distributes over concatenation: it works record by record. */
  lemma {:induction false} WithoutAppend(a: seq<Todo>, b: seq<Todo>, id: string)
    ensures Without(a + b, id) == Without(a, id) + Without(b, id)
  {
    if |a| == 0 {
      assert a + b == b;
    } else {
      assert (a + b)[1..] == a[1..] + b;
      WithoutAppend(a[1..], b, id);
    }
  }

  /** Deletes of two ids may be done in either order. */
  lemma {:induction false} WithoutCommutes(todos: seq<Todo>, a: string, b: string)
    ensures Without(Without(todos, a), b) == Without(Without(todos, b), a)
  {
    if |todos| > 0 {
      WithoutCommutes(todos[1..], a, b);
    }
  }

  /** Adding a record under an id the list does not yet hold and then
      deleting that id gives back the original list; the field stays cleared. */
  lemma AddThenDeleteRoundTrip(s: Screen, id: string)
    requires !AllWhitespace(s.input)
    requires id !in Ids(s.todos)
    ensures DeleteTodo(AddTodo(s, id), id) == Screen("", s.todos)
  {
    var added := AddTodo(s, id);
    assert added.todos == s.todos + [Todo(id, s.input)];
    WithoutAppend(s.todos, [Todo(id, s.input)], id);
    WithoutAbsent(s.todos, id);
  }

  /** Without a fresh id the round trip fails: when the clock reading
      repeats an id already in the list, the delete after the add also takes
      the older records carrying that id, so the list comes back shorter. */
  lemma CollidingIdBreaksRoundTrip(s: Screen, id: string)
    requires !AllWhitespace(s.input)
    requires id in Ids(s.todos)
    ensures DeleteTodo(AddTodo(s, id), id).todos == Without(s.todos, id)
    ensures |DeleteTodo(AddTodo(s, id), id).todos| < |s.todos|
  {
    var added := [Todo(id, s.input)];
    WithoutAppend(s.todos, added, id);
    assert Without(added, id) == Without(added[1..], id);
    WithoutShrinksIffPresent(s.todos, id);
  }

  /** Trimming decides only whether the add happens: a text that starts or
      ends with whitespace is stored as typed, although trimming changes it. */
  lemma AddStoresUntrimmedText(s: Screen, id: string)
    requires !AllWhitespace(s.input)
    requires IsWhitespace(s.input[0]) || IsWhitespace(s.input[|s.input| - 1])
    ensures AddTodo(s, id).todos[|s.todos|].text == s.input
    ensures Trim(s.input) != s.input
  {
  }

  /** Typing a text that is not blank and pressing "Add" stores exactly what
      was typed, at the end of the list. */
  lemma TypeThenAdd(s: Screen, text: string, id: string)
    requires !AllWhitespace(text)
    ensures Run(s, [Type(text), PressAdd(id)]) == Screen("", s.todos + [Todo(id, text)])
  {
    var typed := ChangeText(s, text);
    assert [Type(text), PressAdd(id)][1..] == [PressAdd(id)];
    assert Run(s, [Type(text), PressAdd(id)]) == Run(typed, [PressAdd(id)]);
    assert AddTodo(typed, id).todos == s.todos + [Todo(id, text)];
  }

  /** No stored record has a blank text. */
  predicate TextsNotBlank(todos: seq<Todo>) {
    forall t :: t in todos ==> !AllWhitespace(t.text)
  }

  /** Every event keeps the list free of blank texts, whatever the ids. */
  lemma StepKeepsTextsNotBlank(s: Screen, e: Event)
    requires TextsNotBlank(s.todos)
    ensures TextsNotBlank(Step(s, e).todos)
  {
    if e.PressDelete? {
      WithoutMembers(s.todos, e.id);
    }
  }

  /** From a list without blank texts (the initial empty one included), no
      sequence of events ever stores a blank text. */
  lemma {:induction false} RunKeepsTextsNotBlank(s: Screen, events: seq<Event>)
    requires TextsNotBlank(s.todos)
    ensures TextsNotBlank(Run(s, events).todos)
    decreases |events|
  {
    if |events| > 0 {
      StepKeepsTextsNotBlank(s, events[0]);
      RunKeepsTextsNotBlank(Step(s, events[0]), events[1..]);
    }
  }

  /** A list with distinct ids is a head whose id is not in the tail, and a
      tail with distinct ids. */
  lemma DistinctIdsCons(x: Todo, rest: seq<Todo>)
    ensures DistinctIds([x] + rest) <==> x.id !in Ids(rest) && DistinctIds(rest)
  {
    var r := [x] + rest;
    if x.id !in Ids(rest) && DistinctIds(rest) {
      forall i, j | 0 <= i < j < |r|
        ensures r[i].id != r[j].id
      {
        assert r[j] == rest[j - 1];
        if i == 0 {
          assert r[j] in rest;
        } else {
          assert r[i] == rest[i - 1];
        }
      }
    }
    if DistinctIds(r) {
      assert r[0] == x;
      forall t | t in rest
        ensures t.id != x.id
      {
        var j :| 0 <= j < |rest| && rest[j] == t;
        assert r[j + 1] == t;
      }
      forall i, j | 0 <= i < j < |rest|
        ensures rest[i].id != rest[j].id
      {
        assert rest[i] == r[i + 1] && rest[j] == r[j + 1];
      }
    }
  }

  /** Delete keeps ids distinct. */
  lemma {:induction false} WithoutKeepsDistinct(todos: seq<Todo>, id: string)
    requires DistinctIds(todos)
    ensures DistinctIds(Without(todos, id))
  {
    if |todos| > 0 {
      var x, rest := todos[0], todos[1..];
      assert todos == [x] + rest;
      DistinctIdsCons(x, rest);
      WithoutKeepsDistinct(rest, id);
      if x.id != id {
        WithoutMembers(rest, id);
        assert x.id !in Ids(Without(rest, id));
        DistinctIdsCons(x, Without(rest, id));
      }
    }
  }

  /** Add keeps ids distinct when the id it is given is fresh. */
  lemma AddFreshKeepsDistinct(s: Screen, id: string)
    requires DistinctIds(s.todos)
    requires id !in Ids(s.todos)
    ensures DistinctIds(AddTodo(s, id).todos)
  {
  }

  /** The adds of `events`, started from `s`, each get an id not in the list
      at that moment (what the clock-based ids are relied on to do). */
  predicate FreshAdds(s: Screen, events: seq<Event>)
    decreases |events|
  {
    if |events| == 0 then true
    else
      && (events[0].PressAdd? ==> events[0].id !in Ids(s.todos))
      && FreshAdds(Step(s, events[0]), events[1..])
  }

  /** From the initial empty screen, any sequence of events whose adds get
      fresh ids leaves a list with distinct ids and no blank text. */
  lemma {:induction false} RunFromInitial(events: seq<Event>)
    requires FreshAdds(Initial, events)
    ensures DistinctIds(Run(Initial, events).todos)
    ensures TextsNotBlank(Run(Initial, events).todos)
  {
    RunKeepsDistinct(Initial, events);
    RunKeepsTextsNotBlank(Initial, events);
  }

  /** With fresh ids on every add, no sequence of events makes two records
      share an id, so the list's keys stay unique. */
  lemma {:induction false} RunKeepsDistinct(s: Screen, events: seq<Event>)
    requires DistinctIds(s.todos)
    requires FreshAdds(s, events)
    ensures DistinctIds(Run(s, events).todos)
    decreases |events|
  {
    if |events| > 0 {
      match events[0] {
        case Type(_) =>
        case PressAdd(id) => AddFreshKeepsDistinct(s, id);
        case PressDelete(id) => WithoutKeepsDistinct(s.todos, id);
      }
      RunKeepsDistinct(Step(s, events[0]), events[1..]);
    }
  }
}
