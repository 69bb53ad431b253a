/** The in-memory task list of the home screen, as pure functions on sequences.
    `Where` and `MapTasks` are JavaScript's `Array.prototype.filter` and `map`;
    every list update the screen performs is one of them with a particular callback. */
module TaskList {

  /** One to-do item. `date` is the creation timestamp, kept as an uninterpreted string. */
  datatype Task = Task(id: int, text: string, completed: bool, date: string)

  /** The completion filter of the screen: "all" | "completed" | "pending". */
  datatype Filter = All | Completed | Pending

  /** The callback of `getFilteredTasks`: does task `t` pass filter `f`? */
  predicate Keeps(f: Filter, t: Task)
  {
    match f
    case All => true
    case Completed => t.completed
    case Pending => !t.completed
  }

  /** `r` is obtained from `s` by dropping some elements, keeping the order of the rest. */
  ghost predicate IsSubsequence<T>(r: seq<T>, s: seq<T>)
    decreases |s|
  {
    r == [] ||
    (s != [] && ((r[0] == s[0] && IsSubsequence(r[1..], s[1..])) || IsSubsequence(r, s[1..])))
  }

  /** No two tasks of `s` share an id (the database's primary key). */
  ghost predicate UniqueIds(s: seq<Task>)
  {
    forall i, j :: 0 <= i < j < |s| ==> s[i].id != s[j].id
  }

  /** Some task of `s` has id `id`. */
  ghost predicate HasId(s: seq<Task>, id: int)
  {
    exists t :: t in s && t.id == id
  }

  // ---------------------------------------------------------------------------
  // filter and map

  /** `s.filter(p)`. */
  function Where(s: seq<Task>, p: Task -> bool): seq<Task>
  {
    if s == [] then [] else (if p(s[0]) then [s[0]] else []) + Where(s[1..], p)
  }

  /** `s.map(g)`. */
  function MapTasks(s: seq<Task>, g: Task -> Task): seq<Task>
  {
    if s == [] then [] else [g(s[0])] + MapTasks(s[1..], g)
  }

  /** `filter` keeps the order of the elements it keeps. */
  lemma {:induction false} WhereSubsequence(s: seq<Task>, p: Task -> bool)
    ensures IsSubsequence(Where(s, p), s)
  {
    if s != [] {
      WhereSubsequence(s[1..], p);
      var r := Where(s, p);
      if p(s[0]) {
        assert r[0] == s[0] && r[1..] == Where(s[1..], p);
      } else {
        assert r == Where(s[1..], p);
      }
    }
  }

  /** `filter` keeps each passing element as often as it occurs and drops every other one. */
  lemma {:induction false} WhereCount(s: seq<Task>, p: Task -> bool)
    ensures forall t :: multiset(Where(s, p))[t] == if p(t) then multiset(s)[t] else 0
  {
    if s != [] {
      WhereCount(s[1..], p);
      assert s == [s[0]] + s[1..];
    }
  }

  /** `filter` keeps the elements that pass, in their original order, each as often as it occurs. */
  lemma WhereSpec(s: seq<Task>, p: Task -> bool)
    ensures IsSubsequence(Where(s, p), s)
    ensures forall t :: multiset(Where(s, p))[t] == if p(t) then multiset(s)[t] else 0
    ensures forall t :: t in Where(s, p) <==> t in s && p(t)
  {
    WhereSubsequence(s, p);
    WhereCount(s, p);
    forall t ensures t in Where(s, p) <==> t in s && p(t) {
      assert t in Where(s, p) <==> multiset(Where(s, p))[t] > 0;
      assert t in s <==> multiset(s)[t] > 0;
    }
  }

  /** `filter` with a callback every element passes returns the array unchanged. */
  lemma {:induction false} WhereAllPass(s: seq<Task>, p: Task -> bool)
    requires forall t :: t in s ==> p(t)
    ensures Where(s, p) == s
  {
    if s != [] {
      WhereAllPass(s[1..], p);
      assert s == [s[0]] + s[1..];
    }
  }

  /** `map` keeps the length and applies the callback at every index. */
  lemma {:induction false} MapTasksAt(s: seq<Task>, g: Task -> Task)
    ensures |MapTasks(s, g)| == |s|
    ensures forall i :: 0 <= i < |s| ==> MapTasks(s, g)[i] == g(s[i])
  {
    if s != [] {
      MapTasksAt(s[1..], g);
    }
  }

  // ---------------------------------------------------------------------------
  // getFilteredTasks

  /** `getFilteredTasks(s)` while the screen's filter is `f`. */
  function Filtered(s: seq<Task>, f: Filter): seq<Task>
  {
    Where(s, t => Keeps(f, t))
  }

  /** The filtered list is the ordered subsequence of exactly the tasks that pass the filter. */
  lemma FilteredSpec(s: seq<Task>, f: Filter)
    ensures IsSubsequence(Filtered(s, f), s)
    ensures forall t :: multiset(Filtered(s, f))[t] == if Keeps(f, t) then multiset(s)[t] else 0
    ensures forall t :: t in Filtered(s, f) <==> t in s && Keeps(f, t)
  {
    WhereSpec(s, t => Keeps(f, t));
  }

  /** Filtering with "all" changes nothing. */
  lemma FilteredAll(s: seq<Task>)
    ensures Filtered(s, All) == s
  {
    WhereAllPass(s, t => Keeps(All, t));
  }

  /** Every task is either completed or pending: the two filtered lists split the list. */
  lemma {:induction false} FilteredPartition(s: seq<Task>)
    ensures |Filtered(s, Completed)| + |Filtered(s, Pending)| == |s|
    ensures multiset(Filtered(s, Completed)) + multiset(Filtered(s, Pending)) == multiset(s)
  {
    if s != [] {
      FilteredPartition(s[1..]);
      assert s == [s[0]] + s[1..];
    }
  }

  /** The filter that results from filtering by `f` and then by `g`, when it is not empty. */
  function Narrower(f: Filter, g: Filter): Filter
  {
    if f == All then g else f
  }

  /** One of the two filters keeps only completed tasks and the other only pending ones. */
  predicate Opposite(f: Filter, g: Filter)
  {
    (f == Completed && g == Pending) || (f == Pending && g == Completed)
  }

  /** Filtering twice: the same filter again changes nothing, "all" is neutral, and
      the two opposite filters one after the other leave nothing. */
  lemma {:induction false} FilteredTwice(s: seq<Task>, f: Filter, g: Filter)
    ensures Filtered(Filtered(s, f), g) == if Opposite(f, g) then [] else Filtered(s, Narrower(f, g))
  {
    if s != [] {
      var x, u := s[0], s[1..];
      FilteredTwice(u, f, g);
      var m := Filtered(s, f);
      if Keeps(f, x) {
        assert m == [x] + Filtered(u, f);
        assert m[0] == x && m[1..] == Filtered(u, f);
        assert Filtered(m, g) == (if Keeps(g, x) then [x] else []) + Filtered(Filtered(u, f), g);
      } else {
        assert m == Filtered(u, f);
      }
    }
  }

  /** Filtering is idempotent. */
  lemma FilteredIdempotent(s: seq<Task>, f: Filter)
    ensures Filtered(Filtered(s, f), f) == Filtered(s, f)
  {
    FilteredTwice(s, f, f);
  }

  // ---------------------------------------------------------------------------
  // the updates of the four handlers

  /** The callback of `handleToggleTask`'s `map`. */
  function Flip(t: Task, id: int): Task
  {
    if t.id == id then t.(completed := !t.completed) else t
  }

  /** `tasks.map(task => task.id === id ? { ...task, completed: !task.completed } : task)`. */
  function Toggled(s: seq<Task>, id: int): seq<Task>
  {
    MapTasks(s, t => Flip(t, id))
  }

  /** The callback of `handleEditTask`'s `map`. */
  function Retext(t: Task, id: int, text: string): Task
  {
    if t.id == id then t.(text := text) else t
  }

  /** `tasks.map(task => task.id === id ? { ...task, text: text } : task)`. */
  function Edited(s: seq<Task>, id: int, text: string): seq<Task>
  {
    MapTasks(s, t => Retext(t, id, text))
  }

  /** `tasks.filter(task => task.id !== id)`. */
  function Deleted(s: seq<Task>, id: int): seq<Task>
  {
    Where(s, (t: Task) => t.id != id)
  }

  /** Toggle keeps the length and every other task; a matching task keeps id, text and date
      and has its completion negated. */
  lemma ToggledAt(s: seq<Task>, id: int)
    ensures |Toggled(s, id)| == |s|
    ensures forall i :: 0 <= i < |s| && s[i].id != id ==> Toggled(s, id)[i] == s[i]
    ensures forall i :: 0 <= i < |s| && s[i].id == id ==>
      var r := Toggled(s, id)[i];
      r.id == s[i].id && r.text == s[i].text && r.date == s[i].date && r.completed == !s[i].completed
  {
    MapTasksAt(s, t => Flip(t, id));
  }

  /** Toggling the same id twice restores the list. */
  lemma ToggledTwice(s: seq<Task>, id: int)
    ensures Toggled(Toggled(s, id), id) == s
  {
    ToggledAt(s, id);
    ToggledAt(Toggled(s, id), id);
  }

  /** Edit keeps the length and every other task; a matching task keeps id, completion and date
      and gets the new text. */
  lemma EditedAt(s: seq<Task>, id: int, text: string)
    ensures |Edited(s, id, text)| == |s|
    ensures forall i :: 0 <= i < |s| && s[i].id != id ==> Edited(s, id, text)[i] == s[i]
    ensures forall i :: 0 <= i < |s| && s[i].id == id ==>
      Edited(s, id, text)[i] == Task(id, text, s[i].completed, s[i].date)
  {
    MapTasksAt(s, t => Retext(t, id, text));
  }

  /** Editing the same id twice: the second text wins. */
  lemma EditedTwice(s: seq<Task>, id: int, text1: string, text2: string)
    ensures Edited(Edited(s, id, text1), id, text2) == Edited(s, id, text2)
  {
    EditedAt(s, id, text1);
    EditedAt(Edited(s, id, text1), id, text2);
    EditedAt(s, id, text2);
  }

  /** Toggle and edit do nothing to a list without the id. */
  lemma UpdatesOfAbsentId(s: seq<Task>, id: int, text: string)
    requires !HasId(s, id)
    ensures Toggled(s, id) == s
    ensures Edited(s, id, text) == s
  {
    ToggledAt(s, id);
    EditedAt(s, id, text);
  }

  /** Delete leaves exactly the tasks with another id, in their order; none with the id remains,
      and a list without the id is left as it is. */
  lemma DeletedSpec(s: seq<Task>, id: int)
    ensures IsSubsequence(Deleted(s, id), s)
    ensures forall t :: multiset(Deleted(s, id))[t] == if t.id != id then multiset(s)[t] else 0
    ensures !HasId(Deleted(s, id), id)
    ensures !HasId(s, id) ==> Deleted(s, id) == s
  {
    WhereSpec(s, (t: Task) => t.id != id);
    if !HasId(s, id) {
      WhereAllPass(s, (t: Task) => t.id != id);
    }
  }

  /** With unique ids, deleting a present id removes exactly one task. */
  lemma {:induction false} DeletedOne(s: seq<Task>, id: int)
    requires UniqueIds(s) && HasId(s, id)
    ensures |Deleted(s, id)| == |s| - 1
  {
    assert s == [s[0]] + s[1..];
    if s[0].id == id {
      assert !HasId(s[1..], id) by {
        forall t | t in s[1..] ensures t.id != id {
          var k :| 0 <= k < |s[1..]| && s[1..][k] == t;
          assert s[k + 1] == t;
        }
      }
      DeletedSpec(s[1..], id);
    } else {
      var t :| t in s && t.id == id;
      assert t in s[1..];
      DeletedOne(s[1..], id);
    }
  }

  /** Adding a task with a fresh id and then deleting that id restores the list. */
  lemma AddThenDelete(s: seq<Task>, t: Task)
    requires !HasId(s, t.id)
    ensures Deleted(s + [t], t.id) == s
  {
    DeletedSpec(s, t.id);
    WhereAppend(s, [t], (u: Task) => u.id != t.id);
  }

  /** `filter` distributes over concatenation. */
  lemma {:induction false} WhereAppend(s: seq<Task>, u: seq<Task>, p: Task -> bool)
    ensures Where(s + u, p) == Where(s, p) + Where(u, p)
  {
    if s != [] {
      WhereAppend(s[1..], u, p);
      var head := if p(s[0]) then [s[0]] else [];
      assert (s + u)[0] == s[0];
      assert (s + u)[1..] == s[1..] + u;
      calc {
        Where(s + u, p);
        head + Where(s[1..] + u, p);
        head + (Where(s[1..], p) + Where(u, p));
        (head + Where(s[1..], p)) + Where(u, p);
      }
    } else {
      assert s + u == u;
    }
  }

  // ---------------------------------------------------------------------------
  // unique ids

  /** A subsequence of a list with unique ids has unique ids. */
  lemma {:induction false} SubsequenceUniqueIds(r: seq<Task>, s: seq<Task>)
    requires IsSubsequence(r, s) && UniqueIds(s)
    ensures UniqueIds(r)
    decreases |s|
  {
    if r != [] {
      assert UniqueIds(s[1..]) by {
        forall i, j | 0 <= i < j < |s[1..]| ensures s[1..][i].id != s[1..][j].id {
          assert s[i + 1].id != s[j + 1].id;
        }
      }
      if r[0] == s[0] && IsSubsequence(r[1..], s[1..]) {
        SubsequenceUniqueIds(r[1..], s[1..]);
        forall j | 0 < j < |r| ensures r[0].id != r[j].id {
          SubsequenceMember(r[1..], s[1..], j - 1);
          var k :| 0 <= k < |s[1..]| && s[1..][k] == r[j];
          assert s[k + 1] == r[j];
        }
      } else {
        SubsequenceUniqueIds(r, s[1..]);
      }
    }
  }

  /** Every sequence is a subsequence of itself. */
  lemma {:induction false} SubsequenceReflexive<T>(s: seq<T>)
    ensures IsSubsequence(s, s)
  {
    if s != [] {
      SubsequenceReflexive(s[1..]);
    }
  }

  /** Every element of a subsequence occurs in the larger sequence. */
  lemma {:induction false} SubsequenceMember<T>(r: seq<T>, s: seq<T>, j: nat)
    requires IsSubsequence(r, s) && j < |r|
    ensures r[j] in s
    decreases |s|
  {
    if r[0] == s[0] && IsSubsequence(r[1..], s[1..]) {
      if j > 0 {
        SubsequenceMember(r[1..], s[1..], j - 1);
      }
    } else {
      SubsequenceMember(r, s[1..], j);
    }
  }

  /** Toggle keeps ids unique: it changes no id. */
  lemma ToggledKeepsUniqueIds(s: seq<Task>, id: int)
    requires UniqueIds(s)
    ensures UniqueIds(Toggled(s, id))
  {
    ToggledAt(s, id);
  }

  /** Edit keeps ids unique: it changes no id. */
  lemma EditedKeepsUniqueIds(s: seq<Task>, id: int, text: string)
    requires UniqueIds(s)
    ensures UniqueIds(Edited(s, id, text))
  {
    EditedAt(s, id, text);
  }

  /** Delete keeps ids unique: it only drops tasks. */
  lemma DeletedKeepsUniqueIds(s: seq<Task>, id: int)
    requires UniqueIds(s)
    ensures UniqueIds(Deleted(s, id))
  {
    WhereSubsequence(s, (t: Task) => t.id != id);
    SubsequenceUniqueIds(Deleted(s, id), s);
  }

  /** The completion filter keeps ids unique: it only drops tasks. */
  lemma FilteredKeepsUniqueIds(s: seq<Task>, f: Filter)
    requires UniqueIds(s)
    ensures UniqueIds(Filtered(s, f))
  {
    WhereSubsequence(s, t => Keeps(f, t));
    SubsequenceUniqueIds(Filtered(s, f), s);
  }

  /** Appending a task keeps ids unique exactly when its id is fresh. */
  lemma AppendKeepsUniqueIds(s: seq<Task>, t: Task)
    requires UniqueIds(s)
    ensures UniqueIds(s + [t]) <==> !HasId(s, t.id)
  {
    var r := s + [t];
    if HasId(s, t.id) {
      var u :| u in s && u.id == t.id;
      var k :| 0 <= k < |s| && s[k] == u;
      assert r[k].id == r[|s|].id;
    } else {
      forall i, j | 0 <= i < j < |r| ensures r[i].id != r[j].id {
        if j == |s| {
          assert r[i] in s;
        } else {
          assert r[i] == s[i] && r[j] == s[j];
        }
      }
    }
  }

  // ---------------------------------------------------------------------------
  // day buckets

  /** `getTasksForToday` / `getTasksForYesterday`: the completion filter, then a test on the
      creation date. The calendar comparison against the clock is the parameter `onDay`. */
  function TasksForDay(s: seq<Task>, f: Filter, onDay: string -> bool): seq<Task>
  {
    Where(Filtered(s, f), (t: Task) => onDay(t.date))
  }

  /** A day bucket is the ordered subsequence of the filtered list whose dates pass the day test,
      each such task kept as often as it occurs. */
  lemma TasksForDaySpec(s: seq<Task>, f: Filter, onDay: string -> bool)
    ensures IsSubsequence(TasksForDay(s, f, onDay), Filtered(s, f))
    ensures forall t :: multiset(TasksForDay(s, f, onDay))[t] == if Keeps(f, t) && onDay(t.date) then multiset(s)[t] else 0
    ensures forall t :: t in TasksForDay(s, f, onDay) <==> t in s && Keeps(f, t) && onDay(t.date)
  {
    FilteredSpec(s, f);
    WhereSpec(Filtered(s, f), (t: Task) => onDay(t.date));
  }
}
