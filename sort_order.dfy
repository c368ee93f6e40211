/** The sorted projection of the table: the comparator the table hands to
    `Array.prototype.sort`, and the result of sorting a copy of the cached
    list with it. `sort` is stable in every edition of the language standard
    since 2019, and for a consistent comparator a stable sort has exactly one
    possible result (StableOrderUnique), so the projection is modelled by a
    stable insertion sort and characterised by that uniqueness lemma. */
module SortOrder {
  import opened JsStrings
  import opened TodoRecord

  /** `x` sorts strictly before `y` in direction `dir`. */
  predicate KeyBefore(x: string, y: string, dir: Direction)
  {
    if dir == Asc then Less(x, y) else Less(y, x)
  }

  /** `x` may sort before `y` in direction `dir` (equal keys included). */
  predicate KeyOrdered(x: string, y: string, dir: Direction)
  {
    if dir == Asc then LessEq(x, y) else LessEq(y, x)
  }

  lemma KeyOrderedTransitive(x: string, y: string, z: string, dir: Direction)
    requires KeyOrdered(x, y, dir) && KeyOrdered(y, z, dir)
    ensures KeyOrdered(x, z, dir)
  {
    if x != y && y != z {
      if dir == Asc {
        LessTransitive(x, y, z);
      } else {
        LessTransitive(z, y, x);
      }
    }
  }

  lemma KeyOrderedAntisymmetric(x: string, y: string, dir: Direction)
    requires KeyOrdered(x, y, dir) && KeyOrdered(y, x, dir)
    ensures x == y
  {
    if Less(x, y) {
      LessAsymmetric(x, y);
    }
  }

  lemma KeyBeforeThenOrdered(x: string, y: string, z: string, dir: Direction)
    requires KeyBefore(x, y, dir) && KeyOrdered(y, z, dir)
    ensures KeyBefore(x, z, dir) && x != z
  {
    if y != z {
      if dir == Asc {
        LessTransitive(x, y, z);
      } else {
        LessTransitive(z, y, x);
      }
    }
    if dir == Asc {
      LessAsymmetric(x, z);
    } else {
      LessAsymmetric(z, x);
    }
  }

  /** The comparator of the sorted projection: it reads the selected field
      of both rows, returns -1 or 1 as the first is smaller or larger under
      JavaScript string order (signs swapped for a descending sort), and 0
      for equal keys. */
  function Compare(a: Todo, b: Todo, col: Column, dir: Direction): (r: int)
    ensures r == -1 || r == 0 || r == 1
    ensures r == 0 <==> Key(a, col) == Key(b, col)
    ensures r < 0 <==> KeyBefore(Key(a, col), Key(b, col), dir)
    ensures r <= 0 <==> KeyOrdered(Key(a, col), Key(b, col), dir)
  {
    var x, y := Key(a, col), Key(b, col);
    if Less(x, y) then
      LessAsymmetric(x, y);
      if dir == Asc then -1 else 1
    else if Less(y, x) then
      LessAsymmetric(y, x);
      if dir == Asc then 1 else -1
    else
      LessTrichotomy(x, y);
      0
  }

  /** The comparator is consistent in the sense the language standard asks
      of a `sort` comparator: swapping the arguments negates the result, and
      "before", "tied" and "before or tied" are transitive. */
  lemma CompareConsistent(a: Todo, b: Todo, c: Todo, col: Column, dir: Direction)
    ensures Compare(a, b, col, dir) == -Compare(b, a, col, dir)
    ensures Compare(a, b, col, dir) < 0 && Compare(b, c, col, dir) < 0 ==> Compare(a, c, col, dir) < 0
    ensures Compare(a, b, col, dir) == 0 && Compare(b, c, col, dir) == 0 ==> Compare(a, c, col, dir) == 0
    ensures Compare(a, b, col, dir) <= 0 && Compare(b, c, col, dir) <= 0 ==> Compare(a, c, col, dir) <= 0
  {
    var x, y, z := Key(a, col), Key(b, col), Key(c, col);
    LessTrichotomy(x, y);
    if Less(x, y) {
      LessAsymmetric(x, y);
    } else if Less(y, x) {
      LessAsymmetric(y, x);
    }
    if KeyBefore(x, y, dir) && KeyBefore(y, z, dir) {
      KeyBeforeThenOrdered(x, y, z, dir);
    }
    if KeyOrdered(x, y, dir) && KeyOrdered(y, z, dir) {
      KeyOrderedTransitive(x, y, z, dir);
    }
  }

  /** Every row of `s` may precede every later row: non-decreasing in the
      selected field for `Asc`, non-increasing for `Desc`. */
  ghost predicate Ordered(s: seq<Todo>, col: Column, dir: Direction)
  {
    forall i, j :: 0 <= i < j < |s| ==> KeyOrdered(Key(s[i], col), Key(s[j], col), dir)
  }

  /** The rows of `s` whose selected field equals `k`, in their order in `s`. */
  function WithKey(s: seq<Todo>, col: Column, k: string): seq<Todo>
  {
    if s == [] then []
    else (if Key(s[0], col) == k then [s[0]] else []) + WithKey(s[1..], col, k)
  }

  /** Only rows of `s` that carry key `k` are selected. */
  lemma {:induction false} WithKeyMembers(s: seq<Todo>, col: Column, k: string)
    ensures forall e :: e in WithKey(s, col, k) ==> e in s && Key(e, col) == k
  {
    if s != [] {
      WithKeyMembers(s[1..], col, k);
    }
  }

  lemma WithKeyCons(e: Todo, s: seq<Todo>, col: Column, k: string)
    ensures WithKey([e] + s, col, k) == (if Key(e, col) == k then [e] else []) + WithKey(s, col, k)
  {
    assert ([e] + s)[1..] == s;
  }

  /** A sort that keeps rows with equal keys in their original relative order. */
  ghost predicate KeepsTies(r: seq<Todo>, s: seq<Todo>, col: Column)
  {
    forall k :: WithKey(r, col, k) == WithKey(s, col, k)
  }

  /** Place `x` in front of the first row it may precede. */
  function Insert(x: Todo, s: seq<Todo>, col: Column, dir: Direction): (r: seq<Todo>)
    ensures multiset(r) == multiset(s) + multiset{x}
  {
    if s == [] then [x]
    else if Compare(x, s[0], col, dir) <= 0 then [x] + s
    else
      assert s == [s[0]] + s[1..];
      [s[0]] + Insert(x, s[1..], col, dir)
  }

  /** The sorted projection: a sorted copy of the cached list; the list
      itself is a value and is left as it was. */
  function SortedTodos(todos: seq<Todo>, col: Column, dir: Direction): (r: seq<Todo>)
    ensures multiset(r) == multiset(todos)
    ensures |r| == |todos|
  {
    if todos == [] then []
    else
      assert todos == [todos[0]] + todos[1..];
      Insert(todos[0], SortedTodos(todos[1..], col, dir), col, dir)
  }

  /** A row that may precede the head of an ordered list may precede all of it. */
  lemma OrderedCons(x: Todo, s: seq<Todo>, col: Column, dir: Direction)
    requires Ordered(s, col, dir)
    requires forall e :: e in s ==> KeyOrdered(Key(x, col), Key(e, col), dir)
    ensures Ordered([x] + s, col, dir)
  {
    var r := [x] + s;
    forall i, j | 0 <= i < j < |r|
      ensures KeyOrdered(Key(r[i], col), Key(r[j], col), dir)
    {
      assert r[j] == s[j - 1];
      if i > 0 {
        assert r[i] == s[i - 1];
      }
    }
  }

  /** A row that sorts before or with the head of an ordered list sorts
      before or with every row of it. */
  lemma BeforeHeadBeforeAll(x: Todo, s: seq<Todo>, col: Column, dir: Direction)
    requires Ordered(s, col, dir) && s != [] && Compare(x, s[0], col, dir) <= 0
    ensures forall e | e in s :: KeyOrdered(Key(x, col), Key(e, col), dir)
  {
    forall e | e in s
      ensures KeyOrdered(Key(x, col), Key(e, col), dir)
    {
      var j :| 0 <= j < |s| && s[j] == e;
      if j > 0 {
        KeyOrderedTransitive(Key(x, col), Key(s[0], col), Key(e, col), dir);
      }
    }
  }

  /** Inserting into the tail a row that sorts after the head leaves the
      head before or with every row of the result. */
  lemma HeadBeforeInsertedTail(x: Todo, s: seq<Todo>, col: Column, dir: Direction)
    requires Ordered(s, col, dir) && s != [] && Compare(x, s[0], col, dir) > 0
    ensures forall e | e in Insert(x, s[1..], col, dir) :: KeyOrdered(Key(s[0], col), Key(e, col), dir)
  {
    var tail := Insert(x, s[1..], col, dir);
    CompareConsistent(x, s[0], x, col, dir);
    forall e | e in tail
      ensures KeyOrdered(Key(s[0], col), Key(e, col), dir)
    {
      assert e in multiset(tail);
      if e != x {
        assert e in multiset(s[1..]);
        var j :| 0 <= j < |s[1..]| && s[1..][j] == e;
        assert s[j + 1] == e;
      }
    }
  }

  lemma {:induction false} InsertOrdered(x: Todo, s: seq<Todo>, col: Column, dir: Direction)
    requires Ordered(s, col, dir)
    ensures Ordered(Insert(x, s, col, dir), col, dir)
  {
    if s == [] {
    } else if Compare(x, s[0], col, dir) <= 0 {
      BeforeHeadBeforeAll(x, s, col, dir);
      OrderedCons(x, s, col, dir);
    } else {
      InsertOrdered(x, s[1..], col, dir);
      HeadBeforeInsertedTail(x, s, col, dir);
      OrderedCons(s[0], Insert(x, s[1..], col, dir), col, dir);
    }
  }

  /** Two rows with different keys can trade places without changing the
      rows selected for any key. */
  lemma SwapDifferentKeys(x: Todo, y: Todo, s: seq<Todo>, col: Column, k: string)
    requires Key(x, col) != Key(y, col)
    ensures WithKey([y] + ([x] + s), col, k) == WithKey([x] + ([y] + s), col, k)
  {
    WithKeyCons(y, [x] + s, col, k);
    WithKeyCons(x, s, col, k);
    WithKeyCons(x, [y] + s, col, k);
    WithKeyCons(y, s, col, k);
  }

  /** Inserting a row never moves it past a row with the same key: rows with
      any given key appear in the same order as when `x` is simply put first. */
  lemma {:induction false} InsertKeepsTies(x: Todo, s: seq<Todo>, col: Column, dir: Direction, k: string)
    ensures WithKey(Insert(x, s, col, dir), col, k) == WithKey([x] + s, col, k)
  {
    if s != [] && Compare(x, s[0], col, dir) > 0 {
      var s0, rest := s[0], s[1..];
      var tail := Insert(x, rest, col, dir);
      assert Insert(x, s, col, dir) == [s0] + tail;
      assert s == [s0] + rest;
      calc {
        WithKey([s0] + tail, col, k);
        { WithKeyCons(s0, tail, col, k); InsertKeepsTies(x, rest, col, dir, k); WithKeyCons(s0, [x] + rest, col, k); }
        WithKey([s0] + ([x] + rest), col, k);
        { SwapDifferentKeys(x, s0, rest, col, k); }
        WithKey([x] + ([s0] + rest), col, k);
      }
    }
  }

  /** With "asc" the projection is non-decreasing in the selected field, with
      "desc" non-increasing. */
  lemma {:induction false} SortedTodosOrdered(todos: seq<Todo>, col: Column, dir: Direction)
    ensures Ordered(SortedTodos(todos, col, dir), col, dir)
  {
    if todos != [] {
      SortedTodosOrdered(todos[1..], col, dir);
      InsertOrdered(todos[0], SortedTodos(todos[1..], col, dir), col, dir);
    }
  }

  /** Rows whose selected fields compare as 0 keep their original relative order. */
  lemma {:induction false} SortedTodosKeepsTies(todos: seq<Todo>, col: Column, dir: Direction, k: string)
    ensures WithKey(SortedTodos(todos, col, dir), col, k) == WithKey(todos, col, k)
  {
    if todos != [] {
      var rest := SortedTodos(todos[1..], col, dir);
      SortedTodosKeepsTies(todos[1..], col, dir, k);
      InsertKeepsTies(todos[0], rest, col, dir, k);
      assert ([todos[0]] + rest)[1..] == rest;
    }
  }

  /** The sorted projection is ordered on the selected column and keeps tied
      rows in input order. */
  lemma SortedTodosCorrect(todos: seq<Todo>, col: Column, dir: Direction)
    ensures Ordered(SortedTodos(todos, col, dir), col, dir)
    ensures KeepsTies(SortedTodos(todos, col, dir), todos, col)
  {
    SortedTodosOrdered(todos, col, dir);
    forall k
      ensures WithKey(SortedTodos(todos, col, dir), col, k) == WithKey(todos, col, k)
    {
      SortedTodosKeepsTies(todos, col, dir, k);
    }
  }

  lemma {:induction false} HeadOfWithKey(s: seq<Todo>, col: Column)
    requires s != []
    ensures WithKey(s, col, Key(s[0], col)) != []
    ensures WithKey(s, col, Key(s[0], col))[0] == s[0]
  {
  }

  /** Two ordered lists that agree on the rows of every key have the same first key. */
  lemma HeadsShareKey(r1: seq<Todo>, r2: seq<Todo>, col: Column, dir: Direction)
    requires r1 != [] && r2 != []
    requires Ordered(r1, col, dir) && Ordered(r2, col, dir)
    requires KeepsTies(r1, r2, col)
    ensures Key(r1[0], col) == Key(r2[0], col)
  {
    var x, y := Key(r1[0], col), Key(r2[0], col);
    HeadOfWithKey(r1, col);
    HeadOfWithKey(r2, col);
    WithKeyMembers(r1, col, y);
    WithKeyMembers(r2, col, x);
    assert WithKey(r1, col, x) == WithKey(r2, col, x);
    assert WithKey(r1, col, y) == WithKey(r2, col, y);
    assert r1[0] in WithKey(r2, col, x);
    assert r2[0] in WithKey(r1, col, y);
    var j :| 0 <= j < |r2| && r2[j] == r1[0];
    var i :| 0 <= i < |r1| && r1[i] == r2[0];
    if 0 < i && 0 < j {
      KeyOrderedAntisymmetric(x, y, dir);
    }
  }

  /** A stable sort has a single possible outcome: two lists that are both
      ordered and both keep every key's rows in the same order are equal. */
  lemma {:induction false} StableOrderUnique(r1: seq<Todo>, r2: seq<Todo>, col: Column, dir: Direction)
    requires Ordered(r1, col, dir) && Ordered(r2, col, dir)
    requires KeepsTies(r1, r2, col)
    ensures r1 == r2
    decreases |r1|
  {
    if r1 != [] && r2 != [] {
      HeadsShareKey(r1, r2, col, dir);
      HeadOfWithKey(r1, col);
      HeadOfWithKey(r2, col);
      assert WithKey(r1, col, Key(r1[0], col)) == WithKey(r2, col, Key(r1[0], col));
      assert r1[0] == r2[0];
      forall k
        ensures WithKey(r1[1..], col, k) == WithKey(r2[1..], col, k)
      {
        var head := if Key(r1[0], col) == k then [r1[0]] else [];
        assert WithKey(r1, col, k) == WithKey(r2, col, k);
        WithKeyCons(r1[0], r1[1..], col, k);
        WithKeyCons(r2[0], r2[1..], col, k);
        assert r1 == [r1[0]] + r1[1..] && r2 == [r2[0]] + r2[1..];
        assert (head + WithKey(r1[1..], col, k))[|head|..] == WithKey(r1[1..], col, k);
        assert (head + WithKey(r2[1..], col, k))[|head|..] == WithKey(r2[1..], col, k);
      }
      StableOrderUnique(r1[1..], r2[1..], col, dir);
      assert r1 == [r1[0]] + r1[1..] && r2 == [r2[0]] + r2[1..];
    } else if r1 != [] {
      HeadOfWithKey(r1, col);
      assert false;
    } else if r2 != [] {
      HeadOfWithKey(r2, col);
      assert false;
    }
  }

  /** Any list that is ordered and keeps ties in input order is the sorted
      projection: whatever stable algorithm the engine uses, it returns
      SortedTodos. */
  lemma SortSpecDeterminesResult(todos: seq<Todo>, r: seq<Todo>, col: Column, dir: Direction)
    requires Ordered(r, col, dir) && KeepsTies(r, todos, col)
    ensures r == SortedTodos(todos, col, dir)
  {
    var s := SortedTodos(todos, col, dir);
    SortedTodosOrdered(todos, col, dir);
    forall k
      ensures WithKey(r, col, k) == WithKey(s, col, k)
    {
      SortedTodosKeepsTies(todos, col, dir, k);
    }
    StableOrderUnique(r, s, col, dir);
  }

  /** `s` read from its last row to its first. */
  function Reverse(s: seq<Todo>): (r: seq<Todo>)
    ensures |r| == |s|
    ensures forall i :: 0 <= i < |s| ==> r[i] == s[|s| - 1 - i]
  {
    if s == [] then [] else Reverse(s[1..]) + [s[0]]
  }

  lemma ReverseReverse(s: seq<Todo>)
    ensures Reverse(Reverse(s)) == s
  {
    assert forall i :: 0 <= i < |s| ==> Reverse(Reverse(s))[i] == s[i];
  }

  lemma ReverseAppend(a: seq<Todo>, b: seq<Todo>)
    ensures Reverse(a + b) == Reverse(b) + Reverse(a)
  {
    var l, r := Reverse(a + b), Reverse(b) + Reverse(a);
    forall i | 0 <= i < |l|
      ensures l[i] == r[i]
    {
      if i < |b| {
        assert l[i] == (a + b)[|a| + |b| - 1 - i] == b[|b| - 1 - i];
      } else {
        assert l[i] == (a + b)[|a| + |b| - 1 - i] == a[|a| + |b| - 1 - i];
      }
    }
  }

  lemma ConcatAssociative(x: seq<Todo>, y: seq<Todo>, z: seq<Todo>)
    ensures x + (y + z) == (x + y) + z
  {
  }

  lemma {:induction false} WithKeyAppend(a: seq<Todo>, b: seq<Todo>, col: Column, k: string)
    ensures WithKey(a + b, col, k) == WithKey(a, col, k) + WithKey(b, col, k)
  {
    if a == [] {
      assert a + b == b;
    } else {
      var e, rest := a[0], a[1..];
      var h := if Key(e, col) == k then [e] else [];
      ConcatAssociative([e], rest, b);
      assert a == [e] + rest;
      WithKeyCons(e, rest + b, col, k);
      WithKeyAppend(rest, b, col, k);
      WithKeyCons(e, rest, col, k);
      ConcatAssociative(h, WithKey(rest, col, k), WithKey(b, col, k));
    }
  }

  /** Reading the list backwards reads each key's rows backwards. */
  lemma {:induction false} WithKeyReverse(s: seq<Todo>, col: Column, k: string)
    ensures WithKey(Reverse(s), col, k) == Reverse(WithKey(s, col, k))
  {
    if s != [] {
      var head := if Key(s[0], col) == k then [s[0]] else [];
      WithKeyReverse(s[1..], col, k);
      WithKeyAppend(Reverse(s[1..]), [s[0]], col, k);
      WithKeyCons(s[0], [], col, k);
      assert [s[0]] + [] == [s[0]];
      assert WithKey(s, col, k) == head + WithKey(s[1..], col, k);
      ReverseAppend(head, WithKey(s[1..], col, k));
      assert Reverse(head) == head;
    }
  }

  lemma OrderedReverse(s: seq<Todo>, col: Column, dir: Direction)
    requires Ordered(s, col, dir)
    ensures Ordered(Reverse(s), col, Flip(dir))
  {
    var r := Reverse(s);
    forall i, j | 0 <= i < j < |r|
      ensures KeyOrdered(Key(r[i], col), Key(r[j], col), Flip(dir))
    {
      assert r[i] == s[|s| - 1 - i] && r[j] == s[|s| - 1 - j];
    }
  }

  /** The descending projection is the ascending projection of the reversed
      list, read backwards: keys run from largest to smallest, and rows with
      equal keys still keep their original order. */
  lemma DescendingIsBackwardsAscendingOfReversed(todos: seq<Todo>, col: Column)
    ensures SortedTodos(todos, col, Desc) == Reverse(SortedTodos(Reverse(todos), col, Asc))
  {
    var asc := SortedTodos(Reverse(todos), col, Asc);
    var r := Reverse(asc);
    SortedTodosOrdered(Reverse(todos), col, Asc);
    OrderedReverse(asc, col, Asc);
    forall k
      ensures WithKey(r, col, k) == WithKey(todos, col, k)
    {
      WithKeyReverse(asc, col, k);
      SortedTodosKeepsTies(Reverse(todos), col, Asc, k);
      WithKeyReverse(todos, col, k);
      ReverseReverse(WithKey(todos, col, k));
    }
    SortSpecDeterminesResult(todos, r, col, Desc);
  }

  /** No two rows share a value in column `col`. */
  ghost predicate DistinctKeys(s: seq<Todo>, col: Column)
  {
    forall i, j :: 0 <= i < j < |s| ==> Key(s[i], col) != Key(s[j], col)
  }

  lemma {:induction false} NoRowWithKey(s: seq<Todo>, col: Column, k: string)
    requires forall e :: e in s ==> Key(e, col) != k
    ensures WithKey(s, col, k) == []
  {
    if s != [] {
      assert s[0] in s;
      NoRowWithKey(s[1..], col, k);
    }
  }

  lemma {:induction false} DistinctKeysAtMostOne(s: seq<Todo>, col: Column, k: string)
    requires DistinctKeys(s, col)
    ensures |WithKey(s, col, k)| <= 1
  {
    if s != [] {
      var rest := WithKey(s[1..], col, k);
      if Key(s[0], col) == k {
        forall e | e in s[1..]
          ensures Key(e, col) != k
        {
          var j :| 0 <= j < |s[1..]| && s[1..][j] == e;
          assert s[j + 1] == e;
        }
        NoRowWithKey(s[1..], col, k);
      } else {
        DistinctKeysAtMostOne(s[1..], col, k);
      }
    }
  }

  lemma ReversedAscendingKeepsTiesWhenDistinct(todos: seq<Todo>, col: Column, k: string)
    requires DistinctKeys(todos, col)
    ensures WithKey(Reverse(SortedTodos(todos, col, Asc)), col, k) == WithKey(todos, col, k)
  {
    var w := WithKey(todos, col, k);
    WithKeyReverse(SortedTodos(todos, col, Asc), col, k);
    SortedTodosKeepsTies(todos, col, Asc, k);
    DistinctKeysAtMostOne(todos, col, k);
    assert Reverse(w) == w;
  }

  /** Clicking the active header turns an ascending view into its exact
      reverse only when no two rows tie in that column. */
  lemma DescendingReversesAscendingWhenKeysDistinct(todos: seq<Todo>, col: Column)
    requires DistinctKeys(todos, col)
    ensures SortedTodos(todos, col, Desc) == Reverse(SortedTodos(todos, col, Asc))
  {
    var asc := SortedTodos(todos, col, Asc);
    SortedTodosOrdered(todos, col, Asc);
    OrderedReverse(asc, col, Asc);
    forall k
      ensures WithKey(Reverse(asc), col, k) == WithKey(todos, col, k)
    {
      ReversedAscendingKeepsTiesWhenDistinct(todos, col, k);
    }
    SortSpecDeterminesResult(todos, Reverse(asc), col, Desc);
  }

  /** With a tie the two views are not each other's reverse: both keep the
      tied rows in input order. */
  lemma TiedRowsKeepOrderInBothDirections()
    ensures var a := Todo("1", "same", "", "", "", "");
            var b := Todo("2", "same", "", "", "", "");
            SortedTodos([a, b], Title, Asc) == [a, b] &&
            SortedTodos([a, b], Title, Desc) == [a, b] &&
            Reverse(SortedTodos([a, b], Title, Asc)) == [b, a]
  {
    var a := Todo("1", "same", "", "", "", "");
    var b := Todo("2", "same", "", "", "", "");
    assert [a, b][1..] == [b];
    assert SortedTodos([b], Title, Asc) == [b];
    assert SortedTodos([b], Title, Desc) == [b];
  }

  /** Two rows titled "b" and "a": sorting on the title puts "a" first, and
      the descending view puts "b" first. */
  lemma SortByTitleExample()
    ensures var r2 := Todo("2", "b", "", "", "", "");
            var r1 := Todo("1", "a", "", "", "", "");
            SortedTodos([r2, r1], Title, Asc) == [r1, r2] &&
            SortedTodos([r2, r1], Title, Desc) == [r2, r1]
  {
    var r2 := Todo("2", "b", "", "", "", "");
    var r1 := Todo("1", "a", "", "", "", "");
    assert Less("a", "b");
    assert [r2, r1][1..] == [r1];
    assert SortedTodos([r1], Title, Asc) == [r1];
    assert SortedTodos([r1], Title, Desc) == [r1];
  }
}
