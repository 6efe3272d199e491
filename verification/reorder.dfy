/** The "Move up" / "Move down" buttons shared by the container list and by the
    colour and icon orders (mac_easy_manager.py, cont_/color_/icon_move_up and
    _down), and the handlers that enable or disable them on a selection change.
    The selection is a predicate `sel` on items: a container is selected when its
    id is in the tree selection, a colour or icon when its name is. */
module Reorder {
  import opened Wrappers

  /** The items whose selectedness is `b`, in order. */
  function Keep<T>(s: seq<T>, sel: T -> bool, b: bool): seq<T>
  {
    if |s| == 0 then [] else KeepOne(s[0], sel, b) + Keep(s[1..], sel, b)
  }

  function KeepOne<T>(x: T, sel: T -> bool, b: bool): seq<T>
  {
    if sel(x) == b then [x] else []
  }

  lemma KeepCons<T>(x: T, t: seq<T>, sel: T -> bool, b: bool)
    ensures Keep([x] + t, sel, b) == KeepOne(x, sel, b) + Keep(t, sel, b)
  {
    assert ([x] + t)[1..] == t;
  }

  lemma KeepAppend<T>(a: seq<T>, c: seq<T>, sel: T -> bool, b: bool)
    ensures Keep(a + c, sel, b) == Keep(a, sel, b) + Keep(c, sel, b)
  {
    if |a| == 0 {
      assert a + c == c;
    } else {
      assert (a + c)[1..] == a[1..] + c;
      KeepAppend(a[1..], c, sel, b);
    }
  }

  /** Everything `Keep` returns has the requested selectedness. */
  lemma {:induction false} KeepSelectedness<T>(s: seq<T>, sel: T -> bool, b: bool)
    ensures forall i :: 0 <= i < |Keep(s, sel, b)| ==> sel(Keep(s, sel, b)[i]) == b
  {
    if |s| > 0 {
      KeepSelectedness(s[1..], sel, b);
      var k, t := KeepOne(s[0], sel, b), Keep(s[1..], sel, b);
      assert forall i :: |k| <= i < |k| + |t| ==> (k + t)[i] == t[i - |k|];
    }
  }

  /** Reference result of moving every selected item one place earlier: each
      unselected item travels down past the selected run that follows it. */
  function MoveUp<T>(s: seq<T>, sel: T -> bool): (r: seq<T>)
    ensures |r| == |s|
  {
    if |s| == 0 then [] else Carry(s[0], s[1..], sel)
  }

  /** MoveUp of `[c] + rest`, where `c` is the item the scan carries along. */
  function Carry<T>(c: T, rest: seq<T>, sel: T -> bool): (r: seq<T>)
    ensures |r| == |rest| + 1
    decreases |rest|
  {
    if |rest| == 0 then [c]
    else if !sel(c) && sel(rest[0]) then [rest[0]] + Carry(c, rest[1..], sel)
    else [c] + Carry(rest[0], rest[1..], sel)
  }

  /** Reference result of moving every selected item one place later (the mirror of MoveUp). */
  function MoveDown<T>(s: seq<T>, sel: T -> bool): (r: seq<T>)
    ensures |r| == |s|
  {
    if |s| == 0 then [] else CarryDown(s[..|s| - 1], s[|s| - 1], sel)
  }

  /** MoveDown of `front + [c]`, scanning from the end. */
  function CarryDown<T>(front: seq<T>, c: T, sel: T -> bool): (r: seq<T>)
    ensures |r| == |front| + 1
    decreases |front|
  {
    if |front| == 0 then [c]
    else
      var n := |front|;
      if !sel(c) && sel(front[n - 1]) then CarryDown(front[..n - 1], c, sel) + [front[n - 1]]
      else CarryDown(front[..n - 1], front[n - 1], sel) + [c]
  }

  lemma {:induction false} CarryPermutes<T>(c: T, rest: seq<T>, sel: T -> bool)
    ensures multiset(Carry(c, rest, sel)) == multiset{c} + multiset(rest)
    decreases |rest|
  {
    if |rest| > 0 {
      assert rest == [rest[0]] + rest[1..];
      if !sel(c) && sel(rest[0]) {
        CarryPermutes(c, rest[1..], sel);
      } else {
        CarryPermutes(rest[0], rest[1..], sel);
      }
    }
  }

  /** Moving up only permutes the list. */
  lemma MoveUpPermutes<T>(s: seq<T>, sel: T -> bool)
    ensures multiset(MoveUp(s, sel)) == multiset(s)
  {
    if |s| > 0 {
      CarryPermutes(s[0], s[1..], sel);
      assert s == [s[0]] + s[1..];
    }
  }

  lemma {:induction false} CarryDownPermutes<T>(front: seq<T>, c: T, sel: T -> bool)
    ensures multiset(CarryDown(front, c, sel)) == multiset(front) + multiset{c}
    decreases |front|
  {
    var n := |front|;
    if n > 0 {
      assert front == front[..n - 1] + [front[n - 1]];
      if !sel(c) && sel(front[n - 1]) {
        CarryDownPermutes(front[..n - 1], c, sel);
      } else {
        CarryDownPermutes(front[..n - 1], front[n - 1], sel);
      }
    }
  }

  /** Moving down only permutes the list. */
  lemma MoveDownPermutes<T>(s: seq<T>, sel: T -> bool)
    ensures multiset(MoveDown(s, sel)) == multiset(s)
  {
    var n := |s|;
    if n > 0 {
      CarryDownPermutes(s[..n - 1], s[n - 1], sel);
      assert s == s[..n - 1] + [s[n - 1]];
    }
  }

  lemma {:induction false} CarryShiftsSelected<T>(c: T, rest: seq<T>, sel: T -> bool)
    requires !sel(c)
    ensures forall i :: 0 <= i < |rest| && sel(rest[i]) ==> Carry(c, rest, sel)[i] == rest[i]
    decreases |rest|
  {
    if |rest| > 0 {
      var r := Carry(c, rest, sel);
      if sel(rest[0]) {
        CarryShiftsSelected(c, rest[1..], sel);
        forall i | 1 <= i < |rest| && sel(rest[i])
          ensures r[i] == rest[i]
        {
          assert rest[1..][i - 1] == rest[i];
        }
      } else {
        CarryShiftsSelected(rest[0], rest[1..], sel);
        forall i | 1 <= i < |rest| && sel(rest[i])
          ensures r[i] == rest[i]
        {
          assert rest[1..][i - 1] == rest[i];
        }
      }
    }
  }

  /** When the first item is not selected, every selected item lands one place earlier. */
  lemma MoveUpShiftsSelected<T>(s: seq<T>, sel: T -> bool)
    requires |s| == 0 || !sel(s[0])
    ensures forall i :: 1 <= i < |s| && sel(s[i]) ==> MoveUp(s, sel)[i - 1] == s[i]
  {
    if |s| > 0 {
      CarryShiftsSelected(s[0], s[1..], sel);
      forall i | 1 <= i < |s| && sel(s[i])
        ensures MoveUp(s, sel)[i - 1] == s[i]
      {
        assert s[1..][i - 1] == s[i];
      }
    }
  }

  lemma {:induction false} CarryDownShiftsSelected<T>(front: seq<T>, c: T, sel: T -> bool)
    requires !sel(c)
    ensures forall i :: 0 <= i < |front| && sel(front[i]) ==> CarryDown(front, c, sel)[i + 1] == front[i]
    decreases |front|
  {
    var n := |front|;
    if n > 0 {
      var r := CarryDown(front, c, sel);
      var f := front[..n - 1];
      if sel(front[n - 1]) {
        CarryDownShiftsSelected(f, c, sel);
      } else {
        CarryDownShiftsSelected(f, front[n - 1], sel);
      }
      forall i | 0 <= i < n - 1 && sel(front[i])
        ensures r[i + 1] == front[i]
      {
        assert f[i] == front[i];
      }
    }
  }

  /** When the last item is not selected, every selected item lands one place later. */
  lemma MoveDownShiftsSelected<T>(s: seq<T>, sel: T -> bool)
    requires |s| == 0 || !sel(s[|s| - 1])
    ensures forall i :: 0 <= i < |s| - 1 && sel(s[i]) ==> MoveDown(s, sel)[i + 1] == s[i]
  {
    var n := |s|;
    if n > 0 {
      CarryDownShiftsSelected(s[..n - 1], s[n - 1], sel);
      forall i | 0 <= i < n - 1 && sel(s[i])
        ensures MoveDown(s, sel)[i + 1] == s[i]
      {
        assert s[..n - 1][i] == s[i];
      }
    }
  }

  lemma {:induction false} CarryKeepsOrder<T>(c: T, rest: seq<T>, sel: T -> bool, b: bool)
    ensures Keep(Carry(c, rest, sel), sel, b) == Keep([c] + rest, sel, b)
    decreases |rest|
  {
    if |rest| == 0 {
      assert [c] + rest == [c];
    } else {
      var y, t := rest[0], rest[1..];
      assert rest == [y] + t;
      if !sel(c) && sel(y) {
        CarryKeepsOrder(c, t, sel, b);
        KeepCons(y, Carry(c, t, sel), sel, b);
        KeepCons(c, t, sel, b);
        KeepCons(c, rest, sel, b);
        KeepCons(y, t, sel, b);
        if b {
          assert KeepOne(c, sel, b) == [];
        } else {
          assert KeepOne(y, sel, b) == [];
        }
      } else {
        CarryKeepsOrder(y, t, sel, b);
        KeepCons(c, Carry(y, t, sel), sel, b);
        KeepCons(c, rest, sel, b);
      }
    }
  }

  /** Moving up keeps the selected items, and separately the unselected ones, in their order. */
  lemma MoveUpKeepsOrder<T>(s: seq<T>, sel: T -> bool, b: bool)
    ensures Keep(MoveUp(s, sel), sel, b) == Keep(s, sel, b)
  {
    if |s| > 0 {
      CarryKeepsOrder(s[0], s[1..], sel, b);
      assert s == [s[0]] + s[1..];
    }
  }

  lemma KeepSingle<T>(x: T, sel: T -> bool, b: bool)
    ensures Keep([x], sel, b) == KeepOne(x, sel, b)
  {
    KeepCons(x, [], sel, b);
    assert [x] + [] == [x];
  }

  lemma {:induction false} CarryDownKeepsOrder<T>(front: seq<T>, c: T, sel: T -> bool, b: bool)
    ensures Keep(CarryDown(front, c, sel), sel, b) == Keep(front + [c], sel, b)
    decreases |front|
  {
    var n := |front|;
    if n == 0 {
      assert front + [c] == [c];
    } else {
      var f, y := front[..n - 1], front[n - 1];
      assert front == f + [y];
      KeepSingle(c, sel, b);
      KeepSingle(y, sel, b);
      KeepAppend(front, [c], sel, b);
      KeepAppend(f, [y], sel, b);
      if !sel(c) && sel(y) {
        CarryDownKeepsOrder(f, c, sel, b);
        KeepAppend(CarryDown(f, c, sel), [y], sel, b);
        KeepAppend(f, [c], sel, b);
        if b {
          assert KeepOne(c, sel, b) == [];
        } else {
          assert KeepOne(y, sel, b) == [];
        }
      } else {
        CarryDownKeepsOrder(f, y, sel, b);
        KeepAppend(CarryDown(f, y, sel), [c], sel, b);
      }
    }
  }

  lemma MoveDownKeepsOrder<T>(s: seq<T>, sel: T -> bool, b: bool)
    ensures Keep(MoveDown(s, sel), sel, b) == Keep(s, sel, b)
  {
    var n := |s|;
    if n > 0 {
      CarryDownKeepsOrder(s[..n - 1], s[n - 1], sel, b);
      assert s == s[..n - 1] + [s[n - 1]];
    }
  }

  /** The in-place loop of cont_move_up: walk the list by index and swap each
      selected item with its predecessor (index -1 being the last item, as in
      Python). The button is disabled when the first item is selected. */
  method MoveUpInPlace<T>(s: seq<T>, sel: T -> bool) returns (r: seq<T>)
    requires |s| == 0 || !sel(s[0])
    ensures r == MoveUp(s, sel)
  {
    r := s;
    if |s| == 0 {
      return;
    }
    ghost var target := MoveUp(s, sel);
    ghost var done: seq<T> := [];
    ghost var c := s[0];
    assert s == done + [c] + s[1..];
    var i := 1;
    while i < |r|
      invariant 1 <= i <= |s| == |r|
      invariant r == done + [c] + s[i..]
      invariant !sel(c)
      invariant done + Carry(c, s[i..], sel) == target
    {
      var y := r[i];
      UpIteration(s, sel, i, c, done, r, target);
      if sel(y) {
        var a, b := r[i - 1], r[i];
        r := r[i := a][i - 1 := b];
        done := done + [y];
      } else {
        done := done + [c];
        c := y;
      }
      i := i + 1;
    }
  }

  /** One iteration of cont_move_up's loop: a selected item trades places with
      the unselected item carried before it. */
  lemma UpIteration<T>(s: seq<T>, sel: T -> bool, i: nat, c: T, done: seq<T>, r: seq<T>, target: seq<T>)
    requires 1 <= i < |s| == |r| && r == done + [c] + s[i..]
    requires !sel(c) && done + Carry(c, s[i..], sel) == target
    ensures var y := s[i];
            r[i - 1] == c && r[i] == y
            && if sel(y) then
                 r[i := c][i - 1 := y] == (done + [y]) + [c] + s[i + 1..]
                 && (done + [y]) + Carry(c, s[i + 1..], sel) == target
               else
                 r == (done + [c]) + [y] + s[i + 1..]
                 && (done + [c]) + Carry(y, s[i + 1..], sel) == target
  {
    assert s[i..] == [s[i]] + s[i + 1..];
    SwapLayout(done, c, s[i], s[i + 1..]);
    CarryStep(done, c, s[i], s[i + 1..], sel, target);
  }

  /** The list around positions `|done|` and `|done| + 1`, before and after a swap. */
  lemma SwapLayout<T>(done: seq<T>, c: T, y: T, rest: seq<T>)
    ensures var r := done + [c] + ([y] + rest);
            |r| == |done| + 2 + |rest| && r[|done|] == c && r[|done| + 1] == y
            && r[|done| + 1 := c][|done| := y] == (done + [y]) + [c] + rest
            && r == (done + [c]) + [y] + rest
  {
    var r := done + [c] + ([y] + rest);
    assert r[|done| + 1 := c][|done| := y] == (done + [y]) + [c] + rest by {
      var t := r[|done| + 1 := c][|done| := y];
      forall k | 0 <= k < |t|
        ensures t[k] == ((done + [y]) + [c] + rest)[k]
      {
      }
    }
  }

  /** One iteration of cont_move_up's loop on the reference result: the carried
      unselected item `c` trades places with a selected `y` or is left behind. */
  lemma CarryStep<T>(done: seq<T>, c: T, y: T, rest: seq<T>, sel: T -> bool, target: seq<T>)
    requires !sel(c)
    requires done + Carry(c, [y] + rest, sel) == target
    ensures sel(y) ==> (done + [y]) + Carry(c, rest, sel) == target
    ensures !sel(y) ==> (done + [c]) + Carry(y, rest, sel) == target
  {
    assert ([y] + rest)[0] == y && ([y] + rest)[1..] == rest;
  }

  /** Python's `list.index`: the first position holding `x`. */
  function IndexOf<T(==)>(s: seq<T>, x: T): (i: nat)
    requires x in s
    ensures i < |s| && s[i] == x
    ensures forall j :: 0 <= j < i ==> s[j] != x
  {
    if s[0] == x then 0 else 1 + IndexOf(s[1..], x)
  }

  /** The loop of cont_move_down: walk a reversed copy of the list and swap each
      selected item, found again with `list.index`, with its successor. The tree
      holds each item once, and the button is disabled when the last item is selected. */
  method MoveDownInPlace<T(==)>(s: seq<T>, sel: T -> bool) returns (r: seq<T>)
    requires forall i, j :: 0 <= i < j < |s| ==> s[i] != s[j]
    requires |s| == 0 || !sel(s[|s| - 1])
    ensures r == MoveDown(s, sel)
  {
    r := s;
    if |s| == 0 {
      return;
    }
    ghost var target := MoveDown(s, sel);
    ghost var after: seq<T> := [];
    var k := |s| - 1;
    ghost var c := s[k];
    assert s == s[..k] + [c] + after;
    while k > 0
      invariant 0 <= k < |s| == |r|
      invariant r == s[..k] + [c] + after
      invariant !sel(c)
      invariant CarryDown(s[..k], c, sel) + after == target
    {
      var y := s[k - 1];
      DownIteration(s, sel, k, c, r, after, target);
      if sel(y) {
        var ind := IndexOf(r, y);
        r := r[ind := r[ind + 1]][ind + 1 := y];
        after := [y] + after;
      } else {
        after := [c] + after;
        c := y;
      }
      k := k - 1;
    }
  }

  /** One iteration of cont_move_down's loop: the item before the carried one is
      found again by `list.index` and, when selected, trades places with it. */
  lemma DownIteration<T>(s: seq<T>, sel: T -> bool, k: nat, c: T, r: seq<T>, after: seq<T>, target: seq<T>)
    requires forall i, j :: 0 <= i < j < |s| ==> s[i] != s[j]
    requires 0 < k < |s| == |r| && r == s[..k] + [c] + after
    requires !sel(c) && CarryDown(s[..k], c, sel) + after == target
    ensures var y := s[k - 1];
            if sel(y) then
              y in r && IndexOf(r, y) == k - 1 && r[k] == c
              && r[k - 1 := c][k := y] == s[..k - 1] + [c] + ([y] + after)
              && CarryDown(s[..k - 1], c, sel) + ([y] + after) == target
            else
              r == s[..k - 1] + [y] + ([c] + after)
              && CarryDown(s[..k - 1], y, sel) + ([c] + after) == target
  {
    var y := s[k - 1];
    CarryDownStep(s[..k], c, after, sel, target);
    assert s[..k][..k - 1] == s[..k - 1];
    TakeSnoc(s, k - 1);
    SwapDownLayout(s[..k - 1], y, c, after);
    if sel(y) {
      FirstOfDistinct(s, k - 1, c, after, r);
    }
  }

  lemma TakeSnoc<T>(s: seq<T>, k: nat)
    requires k < |s|
    ensures s[..k + 1] == s[..k] + [s[k]]
  {
  }

  /** The list around positions `|front|` and `|front| + 1`, before and after a swap. */
  lemma SwapDownLayout<T>(front: seq<T>, y: T, c: T, after: seq<T>)
    ensures var r := (front + [y]) + [c] + after;
            |r| == |front| + 2 + |after| && r[|front|] == y && r[|front| + 1] == c
            && r[|front| := c][|front| + 1 := y] == front + [c] + ([y] + after)
            && r == front + [y] + ([c] + after)
  {
    var r := (front + [y]) + [c] + after;
    assert r[|front| := c][|front| + 1 := y] == front + [c] + ([y] + after) by {
      var t := r[|front| := c][|front| + 1 := y];
      forall k | 0 <= k < |t|
        ensures t[k] == (front + [c] + ([y] + after))[k]
      {
      }
    }
  }

  /** One iteration of cont_move_down's loop on the reference result. */
  lemma CarryDownStep<T>(front: seq<T>, c: T, after: seq<T>, sel: T -> bool, target: seq<T>)
    requires |front| > 0 && !sel(c)
    requires CarryDown(front, c, sel) + after == target
    ensures var y := front[|front| - 1];
            var f := front[..|front| - 1];
            (sel(y) ==> CarryDown(f, c, sel) + ([y] + after) == target)
            && (!sel(y) ==> CarryDown(f, y, sel) + ([c] + after) == target)
  {
    var y := front[|front| - 1];
    var f := front[..|front| - 1];
    if sel(y) {
      assert CarryDown(front, c, sel) == CarryDown(f, c, sel) + [y];
    } else {
      assert CarryDown(front, c, sel) == CarryDown(f, y, sel) + [c];
    }
  }

  /** With distinct items, `list.index` finds the item at `k` there. */
  lemma FirstOfDistinct<T>(s: seq<T>, k: nat, c: T, after: seq<T>, r: seq<T>)
    requires forall i, j :: 0 <= i < j < |s| ==> s[i] != s[j]
    requires k < |s| && r == s[..k + 1] + [c] + after
    ensures s[k] in r && IndexOf(r, s[k]) == k && k + 1 < |r|
  {
    assert r[k] == s[k];
    forall j | 0 <= j < k
      ensures r[j] != s[k]
    {
      assert r[j] == s[j];
    }
    IndexOfFirst(r, s[k], k);
  }

  lemma IndexOfFirst<T>(s: seq<T>, x: T, k: nat)
    requires k < |s| && s[k] == x
    requires forall j :: 0 <= j < k ==> s[j] != x
    ensures IndexOf(s, x) == k
  {
  }

  /** Positions of the selected items, in tree order. */
  function SelectedPositions<T>(s: seq<T>, sel: T -> bool, from: nat): (ps: seq<nat>)
    requires from <= |s|
    ensures forall j :: 0 <= j < |ps| ==> from <= ps[j] < |s| && sel(s[ps[j]])
    ensures forall i :: from <= i < |s| && sel(s[i]) ==> i in ps
    decreases |s| - from
  {
    if from == |s| then []
    else (if sel(s[from]) then [from] else []) + SelectedPositions(s, sel, from + 1)
  }

  function Min(xs: seq<nat>): nat
    requires |xs| > 0
  {
    if |xs| == 1 then xs[0] else var m := Min(xs[1..]); if xs[0] < m then xs[0] else m
  }

  function Max(xs: seq<nat>): nat
    requires |xs| > 0
  {
    if |xs| == 1 then xs[0] else var m := Max(xs[1..]); if xs[0] > m then xs[0] else m
  }

  lemma {:induction false} MinMaxAttained(xs: seq<nat>)
    requires |xs| > 0
    ensures Min(xs) in xs && Max(xs) in xs
    ensures forall j :: 0 <= j < |xs| ==> Min(xs) <= xs[j] <= Max(xs)
    decreases |xs|
  {
    if |xs| > 1 {
      MinMaxAttained(xs[1..]);
      forall j | 1 <= j < |xs|
        ensures Min(xs) <= xs[j] <= Max(xs)
      {
        assert xs[j] == xs[1..][j - 1];
      }
    }
  }

  /** The selection handler: with nothing selected no button changes (`None`);
      otherwise Move up is enabled unless the smallest selected index is 0, and
      Move down unless the largest is the last index. */
  function MoveButtons<T>(s: seq<T>, sel: T -> bool): (r: Option<(bool, bool)>)
    ensures r.None? <==> forall i :: 0 <= i < |s| ==> !sel(s[i])
    ensures r.Some? ==> |s| > 0 && (r.value.0 <==> !sel(s[0])) && (r.value.1 <==> !sel(s[|s| - 1]))
  {
    var ps := SelectedPositions(s, sel, 0);
    if |ps| == 0 then None
    else
      MinMaxAttained(ps);
      Some((Min(ps) != 0, Max(ps) != |s| - 1))
  }
}
