/**
 * The order in which data/TaskRepository.kt lists tasks:
 * `sortedWith(compareByDescending { it.date }.thenByDescending { it.time })`.
 * Dates and times are compared as plain strings, so "DD/MM/YYYY" dates are ordered by
 * day first, not by calendar. Kotlin's `sortedWith` is stable; the stable insertion
 * sort below is the reference for it.
 */
module TaskOrder {
  import opened Text
  import opened TaskCsv

  /** `a` is listed strictly before `b`: a later date string, or the same date and a
      later time string. */
  function Precedes(a: Task, b: Task): (r: bool)
    ensures r ==> !SameSortKey(a, b)
  {
    LexIrreflexive(a.date);
    LexIrreflexive(a.time);
    LexLess(b.date, a.date) || (a.date == b.date && LexLess(b.time, a.time))
  }

  /** The comparator sees the two tasks as equal. */
  predicate SameSortKey(a: Task, b: Task) {
    a.date == b.date && a.time == b.time
  }

  lemma PrecedesIrreflexive(a: Task)
    ensures !Precedes(a, a)
  {
    LexIrreflexive(a.date);
    LexIrreflexive(a.time);
  }

  lemma PrecedesTransitive(a: Task, b: Task, c: Task)
    requires Precedes(a, b) && Precedes(b, c)
    ensures Precedes(a, c)
  {
    if LexLess(b.date, a.date) && LexLess(c.date, b.date) {
      LexTransitive(c.date, b.date, a.date);
    } else if a.date == b.date && b.date == c.date {
      LexTransitive(c.time, b.time, a.time);
    }
  }

  /** Any two tasks are ordered one way or the other, or have the same sort key. */
  lemma PrecedesTotal(a: Task, b: Task)
    ensures Precedes(a, b) || Precedes(b, a) || SameSortKey(a, b)
  {
    LexTotal(a.date, b.date);
    LexTotal(a.time, b.time);
  }

  /** Whatever precedes c precedes b or is preceded... by b: the order is a strict weak order. */
  lemma PrecedesSplit(a: Task, b: Task, c: Task)
    requires Precedes(a, c)
    ensures Precedes(a, b) || Precedes(b, c)
  {
    PrecedesTotal(a, b);
    if Precedes(b, a) {
      PrecedesTransitive(b, a, c);
    }
  }

  /** Listed by date descending, then time descending. */
  predicate Sorted(s: seq<Task>) {
    forall i, j :: 0 <= i < j < |s| ==> !Precedes(s[j], s[i])
  }

  /** Put x in front of the first task that does not strictly precede it. */
  function Insert(x: Task, s: seq<Task>): (r: seq<Task>)
    ensures multiset(r) == multiset(s) + multiset{x}
  {
    if s == [] then [x]
    else if Precedes(s[0], x) then
      assert s == [s[0]] + s[1..];
      [s[0]] + Insert(x, s[1..])
    else [x] + s
  }

  lemma SortedCons(a: Task, s: seq<Task>)
    requires Sorted(s)
    requires forall y | y in s :: !Precedes(y, a)
    ensures Sorted([a] + s)
  {
    var r := [a] + s;
    forall i, j | 0 <= i < j < |r| ensures !Precedes(r[j], r[i]) {
      if i > 0 {
        assert r[i] == s[i - 1] && r[j] == s[j - 1];
      } else {
        assert r[j] in s;
      }
    }
  }

  lemma {:induction false} InsertSorted(x: Task, s: seq<Task>)
    requires Sorted(s)
    ensures Sorted(Insert(x, s))
    decreases |s|
  {
    if s != [] {
      if Precedes(s[0], x) {
        var rest := Insert(x, s[1..]);
        InsertSorted(x, s[1..]);
        forall y | y in rest ensures !Precedes(y, s[0]) {
          assert y in multiset(rest);
          if y == x {
            PrecedesIrreflexive(x);
            if Precedes(x, s[0]) { PrecedesTransitive(x, s[0], x); }
          } else {
            assert y in s[1..];
          }
        }
        SortedCons(s[0], rest);
      } else {
        forall y | y in s ensures !Precedes(y, x) {
          PrecedesIrreflexive(s[0]);
          var j :| 0 <= j < |s| && s[j] == y;
          if Precedes(y, x) {
            PrecedesSplit(y, s[0], x);
          }
        }
        SortedCons(x, s);
      }
    }
  }

  /** `sortedWith` under the date-then-time descending comparator: a stable sort. */
  function SortByDateTimeDesc(s: seq<Task>): (r: seq<Task>)
    ensures multiset(r) == multiset(s)
    ensures Sorted(r)
  {
    if s == [] then []
    else
      var rest := SortByDateTimeDesc(s[1..]);
      InsertSorted(s[0], rest);
      assert s == [s[0]] + s[1..];
      Insert(s[0], rest)
  }

  /** The tasks of s that share the given sort key, in the order of s. */
  function WithSortKey(s: seq<Task>, date: string, time: string): seq<Task> {
    if s == [] then []
    else (if s[0].date == date && s[0].time == time then [s[0]] else []) + WithSortKey(s[1..], date, time)
  }

  lemma WithSortKeyCons(a: Task, s: seq<Task>, date: string, time: string)
    ensures WithSortKey([a] + s, date, time)
            == (if a.date == date && a.time == time then [a] else []) + WithSortKey(s, date, time)
  {
    assert ([a] + s)[1..] == s;
  }

  lemma PrependEitherOrder(a: seq<Task>, b: seq<Task>, rest: seq<Task>)
    requires a == [] || b == []
    ensures a + (b + rest) == b + (a + rest)
  {
  }

  lemma {:induction false} InsertWithSortKey(x: Task, s: seq<Task>, date: string, time: string)
    ensures WithSortKey(Insert(x, s), date, time)
            == (if x.date == date && x.time == time then [x] else []) + WithSortKey(s, date, time)
    decreases |s|
  {
    var mine := if x.date == date && x.time == time then [x] else [];
    if s == [] {
      WithSortKeyCons(x, [], date, time);
      assert [x] + [] == [x];
    } else if Precedes(s[0], x) {
      var rest := Insert(x, s[1..]);
      var first := if s[0].date == date && s[0].time == time then [s[0]] else [];
      InsertWithSortKey(x, s[1..], date, time);
      WithSortKeyCons(s[0], rest, date, time);
      WithSortKeyCons(s[0], s[1..], date, time);
      assert [s[0]] + s[1..] == s;
      assert first == [] || mine == [] by {
        PrecedesIrreflexive(x);
      }
      assert Insert(x, s) == [s[0]] + rest;
      PrependEitherOrder(first, mine, WithSortKey(s[1..], date, time));
    } else {
      WithSortKeyCons(x, s, date, time);
    }
  }

  /** Stability: tasks with equal dates and times keep their relative order. */
  lemma {:induction false} SortIsStable(s: seq<Task>, date: string, time: string)
    ensures WithSortKey(SortByDateTimeDesc(s), date, time) == WithSortKey(s, date, time)
    decreases |s|
  {
    if s != [] {
      SortIsStable(s[1..], date, time);
      InsertWithSortKey(s[0], SortByDateTimeDesc(s[1..]), date, time);
    }
  }

  /** A list that is already in order is left as it is. */
  lemma SortedTail(s: seq<Task>)
    requires s != [] && Sorted(s)
    ensures Sorted(s[1..])
  {
    forall i, j | 0 <= i < j < |s[1..]| ensures !Precedes(s[1..][j], s[1..][i]) {
      assert s[1..][j] == s[j + 1] && s[1..][i] == s[i + 1];
    }
  }

  lemma {:induction false} SortOfSorted(s: seq<Task>)
    requires Sorted(s)
    ensures SortByDateTimeDesc(s) == s
    decreases |s|
  {
    if s != [] {
      SortedTail(s);
      SortOfSorted(s[1..]);
      if |s| > 1 {
        assert !Precedes(s[1], s[0]);
      }
      assert s == [s[0]] + s[1..];
    }
  }

  /** Lexical, not calendar, order: 20 December 2024 is listed before 5 January 2025,
      although it is the earlier day. */
  lemma DayFirstDatesSortLexically(early: Task, late: Task)
    requires early.date == "20/12/2024" && late.date == "05/01/2025"
    ensures SortByDateTimeDesc([late, early]) == [early, late]
  {
    assert LexLess(late.date, early.date);
    assert [late, early][1..] == [early];
  }
}
