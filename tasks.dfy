/** The pure transformations of the ordered task list behind each handler of the component:
    the spread-append of an add, the `map` of a toggle, the `filter` of a delete,
    and the `findIndex` + `arrayMove` of a drag. */
module Tasks {
  import opened Todos

  /** The task an accepted add appends: trimmed text, not completed, the form's other choices. */
  function NewTask(id: nat, input: string, priority: Priority, category: string, dueDate: Option<Date>): (t: Todo)
    ensures t.id == id && !t.completed
    ensures t.priority == priority && t.category == category && t.dueDate == dueDate
    ensures t.text == Trim(input)
    ensures t.text == [] <==> IsBlank(input)
  {
    TrimEmptyIffBlank(input);
    Todo(id, Trim(input), false, priority, category, dueDate)
  }

  // ---------------------------------------------------------------- toggle

  /** `prev.map(todo => todo.id === id ? { ...todo, completed: !todo.completed } : todo)`:
      the same tasks in the same order, with `completed` flipped exactly on those carrying `id`. */
  function Toggle(s: seq<Todo>, id: nat): (r: seq<Todo>)
    ensures |r| == |s|
    ensures forall i :: 0 <= i < |s| ==>
      && r[i].id == s[i].id && r[i].text == s[i].text && r[i].priority == s[i].priority
      && r[i].category == s[i].category && r[i].dueDate == s[i].dueDate
      && (r[i].completed != s[i].completed <==> s[i].id == id)
  {
    if s == [] then []
    else
      var head := if s[0].id == id then s[0].(completed := !s[0].completed) else s[0];
      [head] + Toggle(s[1..], id)
  }

  /** Toggling the same identifier twice restores the list. */
  lemma ToggleTwice(s: seq<Todo>, id: nat)
    ensures Toggle(Toggle(s, id), id) == s
  {
    var r := Toggle(Toggle(s, id), id);
    assert forall i :: 0 <= i < |s| ==> r[i] == s[i];
  }

  /** Toggling an identifier no task carries changes nothing. */
  lemma ToggleAbsent(s: seq<Todo>, id: nat)
    requires FreshId(s, id)
    ensures Toggle(s, id) == s
  {
    var r := Toggle(s, id);
    assert forall i :: 0 <= i < |s| ==> r[i] == s[i];
  }

  /** Toggling keeps the identifiers distinct (it does not touch them). */
  lemma ToggleKeepsDistinct(s: seq<Todo>, id: nat)
    requires DistinctIds(s)
    ensures DistinctIds(Toggle(s, id))
  {
  }

  // ---------------------------------------------------------------- delete

  /** The number of tasks carrying identifier `id`. */
  function CountId(s: seq<Todo>, id: nat): (c: nat)
    ensures c <= |s|
    ensures c == 0 <==> FreshId(s, id)
  {
    if s == [] then 0 else (if s[0].id == id then 1 else 0) + CountId(s[1..], id)
  }

  /** `a` is `b` with some elements left out, the kept ones in their original order. */
  ghost predicate SubsequenceOf(a: seq<Todo>, b: seq<Todo>)
    decreases |b|
  {
    || a == []
    || (b != [] && ((a[0] == b[0] && SubsequenceOf(a[1..], b[1..])) || SubsequenceOf(a, b[1..])))
  }

  /** The tasks carrying `id`, in list order: what a delete of `id` takes out. */
  function Removed(s: seq<Todo>, id: nat): (m: seq<Todo>)
    ensures |m| == CountId(s, id)
    ensures forall i :: 0 <= i < |m| ==> m[i].id == id
  {
    if s == [] then [] else (if s[0].id == id then [s[0]] else []) + Removed(s[1..], id)
  }

  /** If `r` and `m` together make up the tail of `s` up to order, putting the head of `s` in
      front of either one makes up `s`. */
  lemma ConsMultiset(s: seq<Todo>, r: seq<Todo>, m: seq<Todo>)
    requires s != [] && multiset(r) + multiset(m) == multiset(s[1..])
    ensures multiset([s[0]] + r) + multiset(m) == multiset(s)
    ensures multiset(r) + multiset([s[0]] + m) == multiset(s)
  {
    assert s == [s[0]] + s[1..];
  }

  /** Putting a task that does not carry `id` in front keeps `id` fresh. */
  lemma ConsFresh(x: Todo, r: seq<Todo>, id: nat)
    requires x.id != id && FreshId(r, id)
    ensures FreshId([x] + r, id)
  {
  }

  /** `prev.filter(todo => todo.id !== id)`: exactly the tasks carrying `id` are removed
      (what is left together with `Removed(s, id)` is `s` up to order), and the survivors keep
      their relative order. */
  function Delete(s: seq<Todo>, id: nat): (r: seq<Todo>)
    ensures |r| == |s| - CountId(s, id)
    ensures FreshId(r, id)
    ensures multiset(r) + multiset(Removed(s, id)) == multiset(s)
    ensures SubsequenceOf(r, s)
  {
    if s == [] then []
    else
      var rest := Delete(s[1..], id);
      ConsMultiset(s, rest, Removed(s[1..], id));
      if s[0].id == id then rest
      else
        ConsFresh(s[0], rest, id);
        assert ([s[0]] + rest)[1..] == rest;
        [s[0]] + rest
  }

  /** Every task not carrying `id` survives a delete as often as it occurred; none carrying it does. */
  lemma DeleteCounts(s: seq<Todo>, id: nat, t: Todo)
    ensures multiset(Delete(s, id))[t] == if t.id == id then 0 else multiset(s)[t]
  {
    var r, m := Delete(s, id), Removed(s, id);
    if t.id == id {
      assert t !in r;
    } else {
      assert t !in m;
    }
  }

  /** Deleting an identifier no task carries changes nothing. */
  lemma {:induction false} DeleteAbsent(s: seq<Todo>, id: nat)
    requires FreshId(s, id)
    ensures Delete(s, id) == s
  {
    if s != [] {
      DeleteAbsent(s[1..], id);
    }
  }

  /** A second delete of the same identifier is a no-op. */
  lemma DeleteIdempotent(s: seq<Todo>, id: nat)
    ensures Delete(Delete(s, id), id) == Delete(s, id)
  {
    DeleteAbsent(Delete(s, id), id);
  }

  /** With distinct identifiers at most one task carries a given identifier. */
  lemma {:induction false} CountIdDistinct(s: seq<Todo>, id: nat)
    requires DistinctIds(s)
    ensures CountId(s, id) <= 1
  {
    if s != [] {
      CountIdDistinct(s[1..], id);
      if s[0].id == id {
        assert FreshId(s[1..], id);
      }
    }
  }

  /** With distinct identifiers a delete shortens the list by one exactly when the identifier is present. */
  lemma DeleteLength(s: seq<Todo>, id: nat)
    requires DistinctIds(s)
    ensures |Delete(s, id)| == if HasId(s, id) then |s| - 1 else |s|
  {
    CountIdDistinct(s, id);
  }

  /** Every task left by a delete comes from the original list. */
  lemma DeleteFrom(s: seq<Todo>, id: nat, i: nat)
    requires i < |Delete(s, id)|
    ensures Delete(s, id)[i] in s
  {
    var r := Delete(s, id);
    assert r[i] in multiset(r);
    DeleteCounts(s, id, r[i]);
  }

  /** Deleting keeps the identifiers distinct. */
  lemma {:induction false} DeleteKeepsDistinct(s: seq<Todo>, id: nat)
    requires DistinctIds(s)
    ensures DistinctIds(Delete(s, id))
  {
    if s != [] {
      DeleteKeepsDistinct(s[1..], id);
      var rest := Delete(s[1..], id);
      forall i | 0 <= i < |rest| ensures rest[i].id != s[0].id {
        DeleteFrom(s[1..], id, i);
      }
    }
  }

  // ---------------------------------------------------------------- reorder

  /** `items.findIndex(item => item.id === id)`: the first index carrying `id`, or -1 when there is none. */
  function FindIndex(s: seq<Todo>, id: nat): (i: int)
    ensures -1 <= i < |s|
    ensures i == -1 <==> FreshId(s, id)
    ensures 0 <= i ==> s[i].id == id && FreshId(s[..i], id)
  {
    if s == [] then -1
    else if s[0].id == id then 0
    else
      var j := FindIndex(s[1..], id);
      if j == -1 then -1
      else
        assert s[1..][..j] == s[1..j + 1];
        j + 1
  }

  /** With distinct identifiers `findIndex` finds a task exactly where it is. */
  lemma FindIndexDistinct(s: seq<Todo>, i: nat)
    requires DistinctIds(s) && i < |s|
    ensures FindIndex(s, s[i].id) == i
  {
  }

  /** The sequence without its element at index `i`. */
  function RemoveAt<T>(s: seq<T>, i: nat): (r: seq<T>)
    requires i < |s|
    ensures |r| == |s| - 1
    ensures forall k :: 0 <= k < |r| ==> r[k] == s[if k < i then k else k + 1]
  {
    s[..i] + s[i + 1..]
  }

  /** Taking out the element at `i` takes exactly one occurrence of it out of the multiset. */
  lemma RemoveAtMultiset<T>(s: seq<T>, i: nat)
    requires i < |s|
    ensures multiset(RemoveAt(s, i)) + multiset{s[i]} == multiset(s)
  {
    assert s == s[..i] + [s[i]] + s[i + 1..];
  }

  /** The sequence with `x` put at index `i`, the elements from `i` on shifted up by one. */
  function InsertAt<T>(s: seq<T>, i: nat, x: T): (r: seq<T>)
    requires i <= |s|
    ensures |r| == |s| + 1 && r[i] == x
    ensures RemoveAt(r, i) == s
    ensures multiset(r) == multiset(s) + multiset{x}
  {
    var r := s[..i] + [x] + s[i..];
    assert RemoveAt(r, i) == s;
    RemoveAtMultiset(r, i);
    r
  }

  /** dnd-kit's `arrayMove(array, from, to)`: take the element at `from` out and put it back at `to`.
      The moved element lands at `to`, the others keep their relative order, nothing is lost or added. */
  function ArrayMove<T>(s: seq<T>, from: nat, to: nat): (r: seq<T>)
    requires from < |s| && to < |s|
    ensures |r| == |s| && r[to] == s[from]
    ensures RemoveAt(r, to) == RemoveAt(s, from)
    ensures multiset(r) == multiset(s)
  {
    RemoveAtMultiset(s, from);
    InsertAt(RemoveAt(s, from), to, s[from])
  }

  /** The index in the original sequence that `ArrayMove(s, from, to)` puts at index `k`. */
  function MoveSource(from: nat, to: nat, k: nat): nat {
    if k == to then from
    else
      var j := if k < to then k else k - 1;
      if j < from then j else j + 1
  }

  /** Position by position, a move reads the original sequence through `MoveSource`. */
  lemma ArrayMoveAt<T>(s: seq<T>, from: nat, to: nat, k: nat)
    requires from < |s| && to < |s| && k < |s|
    ensures MoveSource(from, to, k) < |s|
    ensures ArrayMove(s, from, to)[k] == s[MoveSource(from, to, k)]
  {
    var r := ArrayMove(s, from, to);
    if k != to {
      var j := if k < to then k else k - 1;
      assert r[k] == RemoveAt(r, to)[j];
    }
  }

  /** Moving an element back to where it came from undoes a move. */
  lemma ArrayMoveInverse<T>(s: seq<T>, from: nat, to: nat)
    requires from < |s| && to < |s|
    ensures ArrayMove(ArrayMove(s, from, to), to, from) == s
  {
    var r := ArrayMove(s, from, to);
    var back := ArrayMove(r, to, from);
    assert RemoveAt(back, from) == RemoveAt(s, from);
    forall k | 0 <= k < |s| ensures back[k] == s[k] {
      if k < from {
        assert back[k] == RemoveAt(back, from)[k];
      } else if k > from {
        assert back[k] == RemoveAt(back, from)[k - 1];
      }
    }
  }

  /** Moving an element onto its own index changes nothing. */
  lemma ArrayMoveSame<T>(s: seq<T>, i: nat)
    requires i < |s|
    ensures ArrayMove(s, i, i) == s
  {
    var r := ArrayMove(s, i, i);
    forall k | 0 <= k < |s| ensures r[k] == s[k] {
      ArrayMoveAt(s, i, i, k);
    }
  }

  /** Two sequences that agree outside the window `[lo, hi)` and hold the same multiset
      hold the same multiset inside the window. */
  lemma WindowMultiset<T>(a: seq<T>, b: seq<T>, lo: nat, hi: nat)
    requires lo <= hi <= |a| == |b| && multiset(a) == multiset(b)
    requires a[..lo] == b[..lo] && a[hi..] == b[hi..]
    ensures multiset(a[lo..hi]) == multiset(b[lo..hi])
  {
    assert a == a[..lo] + a[lo..hi] + a[hi..];
    assert b == b[..lo] + b[lo..hi] + b[hi..];
    assert multiset(a) == multiset(a[..lo]) + multiset(a[lo..hi]) + multiset(a[hi..]);
    assert multiset(b) == multiset(a[..lo]) + multiset(b[lo..hi]) + multiset(a[hi..]);
    forall x ensures multiset(a[lo..hi])[x] == multiset(b[lo..hi])[x] {
      assert multiset(a)[x] == multiset(b)[x];
    }
  }

  /** A move whose two indices lie inside one window `[lo, hi)` (one page) leaves everything
      outside that window where it was, and only permutes the window. */
  lemma ArrayMoveWithin<T>(s: seq<T>, from: nat, to: nat, lo: nat, hi: nat)
    requires lo <= from < hi && lo <= to < hi && hi <= |s|
    ensures ArrayMove(s, from, to)[..lo] == s[..lo]
    ensures ArrayMove(s, from, to)[hi..] == s[hi..]
    ensures multiset(ArrayMove(s, from, to)[lo..hi]) == multiset(s[lo..hi])
  {
    var r := ArrayMove(s, from, to);
    forall k | 0 <= k < |s| && (k < lo || hi <= k) ensures r[k] == s[k] {
      ArrayMoveAt(s, from, to, k);
    }
    assert r[..lo] == s[..lo];
    assert r[hi..] == s[hi..];
    WindowMultiset(r, s, lo, hi);
  }

  /** `MoveSource` never sends two positions to the same original index. */
  lemma MoveSourceInjective(from: nat, to: nat, k1: nat, k2: nat)
    requires k1 != k2
    ensures MoveSource(from, to, k1) != MoveSource(from, to, k2)
  {
  }

  /** A move keeps the identifiers distinct. */
  lemma ArrayMoveKeepsDistinct(s: seq<Todo>, from: nat, to: nat)
    requires DistinctIds(s) && from < |s| && to < |s|
    ensures DistinctIds(ArrayMove(s, from, to))
  {
    var r := ArrayMove(s, from, to);
    forall i, j | 0 <= i < j < |r| ensures r[i].id != r[j].id {
      ArrayMoveAt(s, from, to, i);
      ArrayMoveAt(s, from, to, j);
      MoveSourceInjective(from, to, i, j);
    }
  }

  /** The list `handleDragEnd` hands to `setTodos`: the dragged task (`activeId`) moved to the
      index the task it was dropped on (`overId`) had, both looked up over the whole list. */
  function Reorder(s: seq<Todo>, activeId: nat, overId: nat): (r: seq<Todo>)
    requires HasId(s, activeId) && HasId(s, overId)
    ensures |r| == |s| && multiset(r) == multiset(s)
    ensures r[FindIndex(s, overId)].id == activeId
    ensures RemoveAt(r, FindIndex(s, overId)) == RemoveAt(s, FindIndex(s, activeId))
  {
    ArrayMove(s, FindIndex(s, activeId), FindIndex(s, overId))
  }

  /** A drop on the dragged task itself would change nothing. */
  lemma ReorderSame(s: seq<Todo>, id: nat)
    requires HasId(s, id)
    ensures Reorder(s, id, id) == s
  {
    ArrayMoveSame(s, FindIndex(s, id));
  }

  /** Reordering keeps the identifiers distinct. */
  lemma ReorderKeepsDistinct(s: seq<Todo>, activeId: nat, overId: nat)
    requires DistinctIds(s) && HasId(s, activeId) && HasId(s, overId)
    ensures DistinctIds(Reorder(s, activeId, overId))
  {
    ArrayMoveKeepsDistinct(s, FindIndex(s, activeId), FindIndex(s, overId));
  }

  /** A task of the window `[lo, hi)` carrying `id` sits at some index of that window. */
  lemma IndexInWindow(s: seq<Todo>, id: nat, lo: nat, hi: nat) returns (i: nat)
    requires lo <= hi <= |s| && HasId(s[lo..hi], id)
    ensures lo <= i < hi && s[i].id == id
  {
    var w := s[lo..hi];
    var a :| 0 <= a < |w| && w[a].id == id;
    assert s[lo + a] == w[a];
    i := lo + a;
  }

  /** With distinct identifiers, a reorder whose two tasks sit inside the window `[lo, hi)`
      leaves everything outside the window where it was and only permutes the window. */
  lemma ReorderWithin(s: seq<Todo>, activeId: nat, overId: nat, lo: nat, hi: nat)
    requires DistinctIds(s) && lo <= hi <= |s|
    requires HasId(s[lo..hi], activeId) && HasId(s[lo..hi], overId)
    ensures HasId(s, activeId) && HasId(s, overId)
    ensures var r := Reorder(s, activeId, overId);
            && r[..lo] == s[..lo] && r[hi..] == s[hi..]
            && multiset(r[lo..hi]) == multiset(s[lo..hi])
  {
    var i := IndexInWindow(s, activeId, lo, hi);
    var j := IndexInWindow(s, overId, lo, hi);
    FindIndexDistinct(s, i);
    FindIndexDistinct(s, j);
    assert Reorder(s, activeId, overId) == ArrayMove(s, i, j);
    ArrayMoveWithin(s, i, j, lo, hi);
  }

  /** A drag is undone by dragging the same task back onto the task that now occupies its old index:
      on [A, B, C], dragging A onto C gives [B, C, A], and dragging A onto B then gives [A, B, C]. */
  lemma ReorderUndo(s: seq<Todo>, activeId: nat, overId: nat)
    requires DistinctIds(s) && HasId(s, activeId) && HasId(s, overId)
    ensures var r := Reorder(s, activeId, overId);
            var back := r[FindIndex(s, activeId)].id;
            HasId(r, back) && Reorder(r, activeId, back) == s
  {
    var i, j := FindIndex(s, activeId), FindIndex(s, overId);
    var r := Reorder(s, activeId, overId);
    ReorderKeepsDistinct(s, activeId, overId);
    FindIndexDistinct(r, j);
    FindIndexDistinct(r, i);
    ArrayMoveInverse(s, i, j);
  }

  // ---------------------------------------------------------------- stats

  /** `todos.filter(t => t.completed).length`: how many tasks are completed. */
  function CompletedCount(s: seq<Todo>): (c: nat)
    ensures c <= |s|
    ensures c == |s| <==> forall i :: 0 <= i < |s| ==> s[i].completed
  {
    if s == [] then 0 else (if s[0].completed then 1 else 0) + CompletedCount(s[1..])
  }

  /** With distinct identifiers, toggling a present task moves the completed count by exactly one,
      up if that task was open and down if it was done. */
  lemma {:induction false} ToggleCompletedCount(s: seq<Todo>, i: nat)
    requires DistinctIds(s) && i < |s|
    ensures CompletedCount(Toggle(s, s[i].id)) == if s[i].completed then CompletedCount(s) - 1 else CompletedCount(s) + 1
  {
    var id := s[i].id;
    var r := Toggle(s, id);
    assert r[1..] == Toggle(s[1..], id);
    if i == 0 {
      assert FreshId(s[1..], id);
      ToggleAbsent(s[1..], id);
    } else {
      ToggleCompletedCount(s[1..], i - 1);
    }
  }
}
