/** Scoring of finished positions and the positional ordering of candidate moves. */
module Strategy {

  import opened Players
  import opened Rules

  /** +1 when the AI has won, -1 when the human has, 0 otherwise. */
  function EvaluateTerminalState(state: GameState): (r: int)
    ensures r == 1 <==> state == Win(AI)
    ensures r == -1 <==> state == Win(Human)
    ensures r == 0 <==> !state.Win?
  {
    match state
    case Win(AI) => 1
    case Win(Human) => -1
    case Draw => 0
    case InProgress => 0
  }

  /** Positional value of a cell: center 3, corner 2, edge 1, off the grid 0. */
  function MovePriority(position: nat): (r: int)
    ensures 0 <= r <= 3
  {
    if position == 4 then 3
    else if position == 0 || position == 2 || position == 6 || position == 8 then 2
    else if position == 1 || position == 3 || position == 5 || position == 7 then 1
    else 0
  }

  /** The center outranks every corner, every corner outranks every edge, and every
      cell of the grid outranks any position off it. */
  lemma CenterCornerEdge(corner: nat, edge: nat, off: nat)
    requires corner in {0, 2, 6, 8} && edge in {1, 3, 5, 7} && off >= 9
    ensures MovePriority(4) > MovePriority(corner) > MovePriority(edge) > MovePriority(off)
  {
  }

  /** Score of a board at the search's depth limit: the terminal score of a decided
      board, 0 for a board still in progress. */
  function HeuristicEvaluation(g: Grid): (r: int)
    ensures r == EvaluateTerminalState(GameStateOf(g))
    ensures -1 <= r <= 1
  {
    match GameStateOf(g)
    case InProgress => 0
    case Win(_) => EvaluateTerminalState(GameStateOf(g))
    case Draw => EvaluateTerminalState(GameStateOf(g))
  }

  /** The moves of priority `q`, in their order in `s`. */
  function Filter(s: seq<nat>, q: int): seq<nat>
  {
    if s == [] then []
    else (if MovePriority(s[0]) == q then [s[0]] else []) + Filter(s[1..], q)
  }

  /** Reference result of a stable sort by descending priority: each priority class
      in input order, highest class first. */
  function ByPriority(s: seq<nat>): seq<nat>
  {
    Filter(s, 3) + Filter(s, 2) + Filter(s, 1) + Filter(s, 0)
  }

  /** Non-increasing in `MovePriority`. */
  predicate Sorted(s: seq<nat>)
  {
    forall k, l :: 0 <= k < l < |s| ==> MovePriority(s[k]) >= MovePriority(s[l])
  }

  /** Every priority class appears in `r` in the same order as in `s`: what it means
      for a sort by priority to be stable. */
  predicate SameClassOrder(r: seq<nat>, s: seq<nat>)
  {
    forall q :: 0 <= q <= 3 ==> Filter(r, q) == Filter(s, q)
  }

  lemma {:induction false} FilterMembers(s: seq<nat>, q: int)
    ensures forall x :: x in Filter(s, q) ==> x in s && MovePriority(x) == q
  {
    if s != [] {
      FilterMembers(s[1..], q);
    }
  }

  lemma {:induction false} FilterAbsent(s: seq<nat>, q: int)
    requires forall l :: 0 <= l < |s| ==> MovePriority(s[l]) != q
    ensures Filter(s, q) == []
  {
    if s != [] {
      FilterAbsent(s[1..], q);
    }
  }

  lemma {:induction false} FilterConcat(s: seq<nat>, t: seq<nat>, q: int)
    ensures Filter(s + t, q) == Filter(s, q) + Filter(t, q)
  {
    if s != [] {
      assert (s + t)[1..] == s[1..] + t;
      FilterConcat(s[1..], t, q);
    } else {
      assert s + t == t;
    }
  }

  lemma {:induction false} FilterOfFilter(s: seq<nat>, q: int, q': int)
    ensures Filter(Filter(s, q), q') == if q == q' then Filter(s, q) else []
  {
    if s != [] {
      FilterOfFilter(s[1..], q, q');
      var head := if MovePriority(s[0]) == q then [s[0]] else [];
      FilterConcat(head, Filter(s[1..], q), q');
    }
  }

  /** A move never occurs in a class other than its own. */
  lemma FilterCountOther(s: seq<nat>, x: nat, q: int)
    requires MovePriority(x) != q
    ensures multiset(Filter(s, q))[x] == 0
  {
    FilterMembers(s, q);
  }

  /** A move occurs in its own priority class as often as in the whole sequence. */
  lemma {:induction false} FilterCount(s: seq<nat>, x: nat)
    ensures multiset(Filter(s, MovePriority(x)))[x] == multiset(s)[x]
  {
    if s != [] {
      var t, p := s[1..], MovePriority(x);
      FilterCount(t, x);
      assert s == [s[0]] + t;
      if MovePriority(s[0]) == p {
        assert Filter(s, p) == [s[0]] + Filter(t, p);
      } else {
        assert Filter(s, p) == Filter(t, p) && s[0] != x;
      }
    }
  }

  /** Swapping two neighbours of different priority keeps every priority class in order. */
  lemma SwapKeepsClassOrder(s: seq<nat>, k: nat)
    requires k + 1 < |s| && MovePriority(s[k]) != MovePriority(s[k + 1])
    ensures SameClassOrder(s[k := s[k + 1]][k + 1 := s[k]], s)
  {
    var t := s[k := s[k + 1]][k + 1 := s[k]];
    assert s == s[..k] + [s[k]] + [s[k + 1]] + s[k + 2..];
    assert t == s[..k] + [s[k + 1]] + [s[k]] + s[k + 2..];
    forall q | 0 <= q <= 3 ensures Filter(t, q) == Filter(s, q) {
      FilterConcat(s[..k] + [s[k]] + [s[k + 1]], s[k + 2..], q);
      FilterConcat(s[..k] + [s[k]], [s[k + 1]], q);
      FilterConcat(s[..k], [s[k]], q);
      FilterConcat(s[..k] + [s[k + 1]] + [s[k]], s[k + 2..], q);
      FilterConcat(s[..k] + [s[k + 1]], [s[k]], q);
      FilterConcat(s[..k], [s[k + 1]], q);
    }
  }

  lemma SortedConcat(a: seq<nat>, b: seq<nat>)
    requires Sorted(a) && Sorted(b)
    requires forall x, y :: x in a && y in b ==> MovePriority(x) >= MovePriority(y)
    ensures Sorted(a + b)
  {
    forall k, l | 0 <= k < l < |a + b|
      ensures MovePriority((a + b)[k]) >= MovePriority((a + b)[l])
    {
      if k < |a| && l >= |a| {
        assert (a + b)[k] in a && (a + b)[l] in b;
      }
    }
  }

  lemma ByPriorityCount(s: seq<nat>, x: nat)
    ensures multiset(ByPriority(s))[x] == multiset(s)[x]
  {
    var f3, f2, f1, f0 := Filter(s, 3), Filter(s, 2), Filter(s, 1), Filter(s, 0);
    FilterCount(s, x);
    var p := MovePriority(x);
    if p != 3 { FilterCountOther(s, x, 3); }
    if p != 2 { FilterCountOther(s, x, 2); }
    if p != 1 { FilterCountOther(s, x, 1); }
    if p != 0 { FilterCountOther(s, x, 0); }
    assert multiset(ByPriority(s)) == multiset(f3) + multiset(f2) + multiset(f1) + multiset(f0);
  }

  /** The stable sort by descending priority is a permutation of its input. */
  lemma ByPriorityIsPermutation(s: seq<nat>)
    ensures multiset(ByPriority(s)) == multiset(s)
    ensures |ByPriority(s)| == |s|
  {
    forall x | true
      ensures multiset(ByPriority(s))[x] == multiset(s)[x]
    {
      ByPriorityCount(s, x);
    }
    assert multiset(ByPriority(s)) == multiset(s);
    assert |multiset(ByPriority(s))| == |multiset(s)|;
  }

  /** The stable sort by descending priority is non-increasing in priority. */
  lemma ByPriorityIsSorted(s: seq<nat>)
    ensures Sorted(ByPriority(s))
  {
    var f3, f2, f1, f0 := Filter(s, 3), Filter(s, 2), Filter(s, 1), Filter(s, 0);
    FilterMembers(s, 3);
    FilterMembers(s, 2);
    FilterMembers(s, 1);
    FilterMembers(s, 0);
    SortedConcat(f3, f2);
    SortedConcat(f3 + f2, f1);
    SortedConcat(f3 + f2 + f1, f0);
  }

  lemma FilterConcat4(a: seq<nat>, b: seq<nat>, c: seq<nat>, d: seq<nat>, q: int)
    ensures Filter(a + b + c + d, q) == Filter(a, q) + Filter(b, q) + Filter(c, q) + Filter(d, q)
  {
    FilterConcat(a + b + c, d, q);
    FilterConcat(a + b, c, q);
    FilterConcat(a, b, q);
  }

  /** The class of priority `q` in the stable sort is the class of `q` in the input. */
  lemma ByPriorityClass(s: seq<nat>, q: int)
    requires 0 <= q <= 3
    ensures Filter(ByPriority(s), q) == Filter(s, q)
  {
    var f3, f2, f1, f0 := Filter(s, 3), Filter(s, 2), Filter(s, 1), Filter(s, 0);
    FilterConcat4(f3, f2, f1, f0, q);
    FilterOfFilter(s, 3, q);
    FilterOfFilter(s, 2, q);
    FilterOfFilter(s, 1, q);
    FilterOfFilter(s, 0, q);
    var g3, g2, g1, g0 := Filter(f3, q), Filter(f2, q), Filter(f1, q), Filter(f0, q);
    if q == 3 {
      assert g2 == [] && g1 == [] && g0 == [];
      assert g3 + g2 + g1 + g0 == g3;
    } else if q == 2 {
      assert g3 == [] && g1 == [] && g0 == [];
      assert g3 + g2 + g1 + g0 == g2;
    } else if q == 1 {
      assert g3 == [] && g2 == [] && g0 == [];
      assert g3 + g2 + g1 + g0 == g1;
    } else {
      assert g3 == [] && g2 == [] && g1 == [];
      assert g3 + g2 + g1 + g0 == g0;
    }
  }

  /** The stable sort by descending priority keeps equal-priority moves in input order. */
  lemma ByPriorityIsStable(s: seq<nat>)
    ensures SameClassOrder(ByPriority(s), s)
  {
    forall q | 0 <= q <= 3 ensures Filter(ByPriority(s), q) == Filter(s, q) {
      ByPriorityClass(s, q);
    }
  }

  /** Prepending `x` to the classes of a sorted sequence puts it at the head of its own
      class `p`, given that every higher class is empty. */
  lemma ConsIntoClass(x: nat, h3: seq<nat>, h2: seq<nat>, h1: seq<nat>, h0: seq<nat>)
    requires MovePriority(x) < 3 ==> h3 == []
    requires MovePriority(x) < 2 ==> h2 == []
    requires MovePriority(x) < 1 ==> h1 == []
    ensures [x] + (h3 + h2 + h1 + h0) ==
            ((if MovePriority(x) == 3 then [x] else []) + h3) +
            ((if MovePriority(x) == 2 then [x] else []) + h2) +
            ((if MovePriority(x) == 1 then [x] else []) + h1) +
            ((if MovePriority(x) == 0 then [x] else []) + h0)
  {
    var p := MovePriority(x);
    if p == 3 {
      assert [x] + (h3 + h2 + h1 + h0) == ([x] + h3) + h2 + h1 + h0;
    } else if p == 2 {
      assert h3 + ([x] + h2) + h1 + h0 == [x] + h2 + h1 + h0;
    } else if p == 1 {
      assert h3 + h2 + ([x] + h1) + h0 == [x] + h1 + h0;
    } else {
      assert h3 + h2 + h1 + ([x] + h0) == [x] + h0;
    }
  }

  /** A sorted sequence is its own stable sort. */
  lemma {:induction false} SortedIsByPriority(r: seq<nat>)
    requires Sorted(r)
    ensures r == ByPriority(r)
  {
    if r != [] {
      var x, t := r[0], r[1..];
      assert r == [x] + t;
      assert Sorted(t);
      SortedIsByPriority(t);
      var p := MovePriority(x);
      assert forall l :: 0 <= l < |t| ==> t[l] == r[l + 1];
      forall q | q > p ensures Filter(t, q) == [] {
        FilterAbsent(t, q);
      }
      ConsIntoClass(x, Filter(t, 3), Filter(t, 2), Filter(t, 1), Filter(t, 0));
    }
  }

  /** A sequence that is non-increasing in priority and keeps every priority class of
      `s` in order is the stable sort of `s`: the stable sort is unique. */
  lemma SortedAndStableIsByPriority(r: seq<nat>, s: seq<nat>)
    requires Sorted(r) && SameClassOrder(r, s)
    ensures r == ByPriority(s)
  {
    SortedIsByPriority(r);
    assert Filter(r, 3) == Filter(s, 3) && Filter(r, 2) == Filter(s, 2);
    assert Filter(r, 1) == Filter(s, 1) && Filter(r, 0) == Filter(s, 0);
  }

  /** One step of the insertion sort: moves `a[i]` left past the neighbours of strictly
      lower priority, so that `a[..i + 1]` is sorted and each class keeps its order. */
  method InsertStep(a: array<nat>, i: nat)
    requires i < a.Length
    requires forall k, l :: 0 <= k < l < i ==> MovePriority(a[k]) >= MovePriority(a[l])
    modifies a
    ensures forall k, l :: 0 <= k < l <= i ==> MovePriority(a[k]) >= MovePriority(a[l])
    ensures SameClassOrder(a[..i + 1], old(a[..i + 1]))
    ensures a[i + 1..] == old(a[i + 1..])
  {
    var j := i;
    while j > 0 && MovePriority(a[j - 1]) < MovePriority(a[j])
      invariant 0 <= j <= i
      invariant forall k, l :: 0 <= k < l <= i && k != j && l != j ==> MovePriority(a[k]) >= MovePriority(a[l])
      invariant forall l :: j < l <= i ==> MovePriority(a[j]) > MovePriority(a[l])
      invariant SameClassOrder(a[..i + 1], old(a[..i + 1]))
      invariant a[i + 1..] == old(a[i + 1..])
    {
      ghost var before := a[..i + 1];
      a[j - 1], a[j] := a[j], a[j - 1];
      assert a[..i + 1] == before[j - 1 := before[j]][j := before[j - 1]];
      SwapKeepsClassOrder(before, j - 1);
      j := j - 1;
    }
  }

  lemma ClassOrderExtend(r: seq<nat>, s: seq<nat>, x: nat)
    requires SameClassOrder(r, s)
    ensures SameClassOrder(r + [x], s + [x])
  {
    forall q | 0 <= q <= 3 ensures Filter(r + [x], q) == Filter(s + [x], q) {
      FilterConcat(r, [x], q);
      FilterConcat(s, [x], q);
    }
  }

  /** Stable in-place insertion sort of the candidate moves by descending priority. */
  method OrderMoves(moves: seq<nat>) returns (ordered: seq<nat>)
    ensures ordered == ByPriority(moves)
  {
    var a := new nat[|moves|](i requires 0 <= i < |moves| => moves[i]);
    var i := 0;
    while i < a.Length
      invariant 0 <= i <= a.Length
      invariant forall k, l :: 0 <= k < l < i ==> MovePriority(a[k]) >= MovePriority(a[l])
      invariant SameClassOrder(a[..i], moves[..i])
      invariant a[i..] == moves[i..]
    {
      ghost var done := a[..i];
      assert a[..i + 1] == done + [moves[i]];
      assert moves[..i + 1] == moves[..i] + [moves[i]];
      ClassOrderExtend(done, moves[..i], moves[i]);
      InsertStep(a, i);
      i := i + 1;
    }
    ordered := a[..];
    assert ordered == a[..a.Length] && moves == moves[..a.Length];
    SortedAndStableIsByPriority(ordered, moves);
  }
}
