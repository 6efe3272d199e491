/** The container sort (mac_easy_manager.py, handle_sorting_options and sort):
    three keys, name (0), colour (1) and icon (2), in the order the Primary and
    Secondary radio buttons choose, each position with its own Reverse box. */
module SortKeys {
  import opened Wrappers
  import opened Ordering
  import opened StableSort
  import opened Identities
  import Reorder

  /** The Secondary choice after a Primary button is pressed: an unset choice,
      or one equal to the Primary, becomes the next key round. */
  function HandleSortingOptions(prim: nat, sec: Option<nat>): (r: nat)
    requires prim < 3
    requires sec.Some? ==> sec.value < 3
    ensures r < 3 && r != prim
    ensures sec.Some? && sec.value != prim ==> r == sec.value
    ensures sec.None? || sec.value == prim ==> r == (prim + 1) % 3
  {
    if sec.None? || sec.value == prim then (prim + 1) % 3 else sec.value
  }

  /** `tuple({0, 1, 2} - {p, s})[0]`: the smallest key neither button chose. */
  function Third(p: nat, s: nat): (r: nat)
    ensures r < 3 && r != p && r != s
    ensures r >= 1 ==> p == 0 || s == 0
    ensures r == 2 ==> p == 1 || s == 1
  {
    if p != 0 && s != 0 then 0 else if p != 1 && s != 1 then 1 else 2
  }

  /** Once Primary and Secondary differ, the three positions hold every key once. */
  lemma KeyOrderIsPermutation(p: nat, s: nat)
    requires p < 3 && s < 3 && p != s
    ensures {p, s, Third(p, s)} == {0, 1, 2}
  {
    if p == 0 {
      assert s == 1 || s == 2;
    } else if p == 1 {
      assert s == 0 || s == 2;
    }
  }

  /** The key list of positions: Primary, Secondary, then the remaining key. */
  function Options(p: nat, s: nat): (r: seq<nat>)
    ensures |r| == 3 && r[0] == p && r[1] == s && r[2] != p && r[2] != s
    ensures 0 in r
  {
    [p, s, Third(p, s)]
  }

  /** Python's `list.index` on the colour or icon order. */
  function OrderIndex(order: seq<string>, x: string): (r: Option<nat>)
    ensures r.None? <==> x !in order
    ensures r.Some? ==> r.value < |order| && order[r.value] == x
    ensures r.Some? ==> forall j :: 0 <= j < r.value ==> order[j] != x
  {
    if |order| == 0 then None
    else if order[0] == x then Some(0)
    else match OrderIndex(order[1..], x)
      case Some(i) => Some(i + 1)
      case None => None
  }

  /** What one sort key sees of a container, before any negation: the lower-cased
      name, or the position of its colour or icon in the current order. `None`
      where the key function raises (no name, or a colour or icon not in the order). */
  function RawComponent(k: nat, x: Identity, colors: seq<string>, icons: seq<string>, lower: string -> string): (r: Option<Atom>)
    requires k < 3
    ensures r.Some? ==> (k == 0 <==> r.value.Text?)
    ensures k == 0 ==> (r.None? <==> x.name.None?) && (r.Some? ==> r.value == Text(lower(x.name.value)))
    ensures k == 1 ==> (r.None? <==> x.color !in colors) && (r.Some? ==> r.value == Num(OrderIndex(colors, x.color).value))
    ensures k == 2 ==> (r.None? <==> x.icon !in icons) && (r.Some? ==> r.value == Num(OrderIndex(icons, x.icon).value))
  {
    if k == 0 then (if x.name.Some? then Some(Text(lower(x.name.value))) else None)
    else
      var o := OrderIndex(if k == 1 then colors else icons, if k == 1 then x.color else x.icon);
      if o.Some? then Some(Num(o.value)) else None
  }

  /** The sort settings: the Primary and Secondary keys, one Reverse box per
      position, and the colour and icon orders the colour and icon keys use. */
  datatype Settings = Settings(prim: nat, sec: nat, boxes: seq<bool>, colors: seq<string>, icons: seq<string>)
  {
    predicate Valid() {
      prim < 3 && sec < 3 && |boxes| == 3
    }
  }

  /** The whole key vector of a container in position order, without negation. */
  function RawKey(x: Identity, st: Settings, lower: string -> string): (r: Option<seq<Atom>>)
    requires st.Valid()
    ensures r.Some? ==> |r.value| == 3
  {
    var opts := Options(st.prim, st.sec);
    var a :- RawComponent(opts[0], x, st.colors, st.icons, lower);
    var b :- RawComponent(opts[1], x, st.colors, st.icons, lower);
    var c :- RawComponent(opts[2], x, st.colors, st.icons, lower);
    Some([a, b, c])
  }

  /** The `reverse` argument of `list.sort`: the Reverse box of the name key's position. */
  function Reverse(st: Settings): bool
    requires st.Valid()
  {
    st.boxes[Reorder.IndexOf(Options(st.prim, st.sec), 0)]
  }

  /** Which positions the program negates: a non-name key whose box differs from `reverse`. */
  function Negated(st: Settings): (r: seq<bool>)
    requires st.Valid()
    ensures |r| == 3
  {
    var opts := Options(st.prim, st.sec);
    seq(3, i requires 0 <= i < 3 => opts[i] != 0 && st.boxes[i] != Reverse(st))
  }

  function NegAtom(a: Atom, neg: bool): Atom {
    if neg && a.Num? then Num(-a.n) else a
  }

  /** The key list the program sorts by: the raw key with the negated positions negated. */
  function Negate(u: seq<Atom>, neg: seq<bool>): (r: seq<Atom>)
    requires |neg| == |u|
    ensures |r| == |u|
    ensures forall i :: 0 <= i < |u| ==> r[i] == NegAtom(u[i], neg[i])
  {
    seq(|u|, i requires 0 <= i < |u| => NegAtom(u[i], neg[i]))
  }

  /** The key function handed to `list.sort`; only used where every key exists. */
  function SortKey(st: Settings, lower: string -> string): Identity -> seq<Atom>
    requires st.Valid()
  {
    x => var k := RawKey(x, st, lower); if k.Some? then Negate(k.value, Negated(st)) else []
  }

  /** Lines 716-758. The key lists are computed before any element moves, so a
      key that raises leaves the list as it was (`None`); otherwise the result
      is Python's stable sort. */
  function SortReady(ready: seq<Identity>, st: Settings, lower: string -> string): (r: Option<seq<Identity>>)
    requires st.Valid()
    ensures r.None? <==> exists i :: 0 <= i < |ready| && RawKey(ready[i], st, lower).None?
    ensures r.Some? ==> multiset(r.value) == multiset(ready)
  {
    if forall i :: 0 <= i < |ready| ==> RawKey(ready[i], st, lower).Some? then
      Some(SortBy(ready, SortKey(st, lower), Reverse(st)))
    else None
  }

  // ---- What the negation trick achieves ----

  /** `a` before `b` at one key position, ascending or (with `desc`) descending. */
  predicate DirAtomLess(a: Atom, b: Atom, desc: bool) {
    if desc then AtomLess(b, a) else AtomLess(a, b)
  }

  /** The intended order: lexicographic over the positions, each position in the
      direction of its own Reverse box. */
  predicate DirLess(u: seq<Atom>, v: seq<Atom>, dirs: seq<bool>)
    requires |u| == |v| == |dirs|
    decreases |u|
  {
    |u| > 0
    && (DirAtomLess(u[0], v[0], dirs[0]) || (u[0] == v[0] && DirLess(u[1..], v[1..], dirs[1..])))
  }

  function Flip(d: seq<bool>): (r: seq<bool>)
    ensures |r| == |d| && forall i :: 0 <= i < |d| ==> r[i] == !d[i]
  {
    seq(|d|, i requires 0 <= i < |d| => !d[i])
  }

  /** Positions that may be negated hold numbers in both keys. */
  predicate NumbersWhereNegated(u: seq<Atom>, neg: seq<bool>)
    requires |u| == |neg|
  {
    forall i :: 0 <= i < |u| && neg[i] ==> u[i].Num?
  }

  lemma NegAtomOrder(a: Atom, b: Atom, neg: bool)
    requires neg ==> a.Num? && b.Num?
    ensures AtomLess(NegAtom(a, neg), NegAtom(b, neg)) <==> DirAtomLess(a, b, neg)
    ensures NegAtom(a, neg) == NegAtom(b, neg) <==> a == b
  {
  }

  /** Ascending comparison of negated keys is the per-position order with the
      negated positions descending. */
  lemma {:induction false} NegateOrder(u: seq<Atom>, v: seq<Atom>, neg: seq<bool>)
    requires |u| == |v| == |neg|
    requires NumbersWhereNegated(u, neg) && NumbersWhereNegated(v, neg)
    ensures VecLess(Negate(u, neg), Negate(v, neg)) <==> DirLess(u, v, neg)
    decreases |u|
  {
    if |u| > 0 {
      var nu, nv := Negate(u, neg), Negate(v, neg);
      NegAtomOrder(u[0], v[0], neg[0]);
      assert nu[1..] == Negate(u[1..], neg[1..]);
      assert nv[1..] == Negate(v[1..], neg[1..]);
      NegateOrder(u[1..], v[1..], neg[1..]);
    }
  }

  /** Swapping the arguments is flipping every direction. */
  lemma {:induction false} DirLessFlip(u: seq<Atom>, v: seq<Atom>, d: seq<bool>)
    requires |u| == |v| == |d|
    ensures DirLess(v, u, d) <==> DirLess(u, v, Flip(d))
    decreases |u|
  {
    if |u| > 0 {
      assert Flip(d)[1..] == Flip(d[1..]);
      DirLessFlip(u[1..], v[1..], d[1..]);
    }
  }

  lemma RawKeyShape(x: Identity, st: Settings, lower: string -> string)
    requires st.Valid() && RawKey(x, st, lower).Some?
    ensures NumbersWhereNegated(RawKey(x, st, lower).value, Negated(st))
    ensures forall i :: 0 <= i < 3 ==> (RawKey(x, st, lower).value[i].Text? <==> Options(st.prim, st.sec)[i] == 0)
  {
    var u := RawKey(x, st, lower).value;
    var opts := Options(st.prim, st.sec);
    forall i | 0 <= i < 3
      ensures u[i].Text? <==> opts[i] == 0
    {
      RawKeyAt(x, st, lower, i);
    }
  }

  /** Position `i` of the key vector is the component of the key chosen for `i`. */
  lemma RawKeyAt(x: Identity, st: Settings, lower: string -> string, i: nat)
    requires st.Valid() && RawKey(x, st, lower).Some? && i < 3
    ensures var opts := Options(st.prim, st.sec);
            var c := RawComponent(opts[i], x, st.colors, st.icons, lower);
            c.Some? && RawKey(x, st, lower).value[i] == c.value
  {
  }

  /** Every key sorts in the direction of its own position's Reverse box: the
      program's comparison of two containers is DirLess with the boxes as directions. */
  lemma SortKeyOrder(x: Identity, y: Identity, st: Settings, lower: string -> string, u: seq<Atom>, v: seq<Atom>)
    requires st.Valid() && st.prim != st.sec
    requires RawKey(x, st, lower) == Some(u) && RawKey(y, st, lower) == Some(v)
    ensures Before(SortKey(st, lower), Reverse(st), x, y) <==> DirLess(u, v, st.boxes)
  {
    var neg := Negated(st);
    RawKeyShape(x, st, lower);
    RawKeyShape(y, st, lower);
    assert SortKey(st, lower)(x) == Negate(u, neg) && SortKey(st, lower)(y) == Negate(v, neg);
    NegatedBoxes(st);
    if Reverse(st) {
      NegateOrder(v, u, neg);
      DirLessFlip(u, v, neg);
    } else {
      NegateOrder(u, v, neg);
    }
  }

  /** With distinct Primary and Secondary, the negated positions are the boxes
      that differ from `reverse`: every position other than the name's. */
  lemma NegatedBoxes(st: Settings)
    requires st.Valid() && st.prim != st.sec
    ensures Reverse(st) ==> Flip(Negated(st)) == st.boxes
    ensures !Reverse(st) ==> Negated(st) == st.boxes
  {
    var opts := Options(st.prim, st.sec);
    var pos := Reorder.IndexOf(opts, 0);
    assert forall i :: 0 <= i < 3 && i != pos ==> opts[i] != 0;
  }

  /** Every container has a full key and no later one is DirLess than an earlier
      one, with the boxes as directions. */
  predicate OrderedByBoxes(r: seq<Identity>, st: Settings, lower: string -> string)
    requires st.Valid()
  {
    forall i, j :: 0 <= i < j < |r| ==>
      RawKey(r[i], st, lower).Some? && RawKey(r[j], st, lower).Some?
      && !DirLess(RawKey(r[j], st, lower).value, RawKey(r[i], st, lower).value, st.boxes)
  }

  /** A successful sort puts the containers in DirLess order with the boxes as directions. */
  lemma SortReadyOrdered(ready: seq<Identity>, st: Settings, lower: string -> string)
    requires st.Valid() && st.prim != st.sec
    requires forall i :: 0 <= i < |ready| ==> RawKey(ready[i], st, lower).Some?
    ensures SortReady(ready, st, lower).Some? && OrderedByBoxes(SortReady(ready, st, lower).value, st, lower)
  {
    var key, desc := SortKey(st, lower), Reverse(st);
    var r := SortBy(ready, key, desc);
    assert r == SortReady(ready, st, lower).value;
    SortBySorted(ready, key, desc);
    KeysSurviveSort(ready, r, st, lower);
    forall i, j | 0 <= i < j < |r|
      ensures !DirLess(RawKey(r[j], st, lower).value, RawKey(r[i], st, lower).value, st.boxes)
    {
      NotBeforeIsOrdered(r, i, j, st, lower);
    }
  }

  lemma NotBeforeIsOrdered(r: seq<Identity>, i: nat, j: nat, st: Settings, lower: string -> string)
    requires st.Valid() && st.prim != st.sec
    requires i < j < |r| && Sorted(r, SortKey(st, lower), Reverse(st))
    requires RawKey(r[i], st, lower).Some? && RawKey(r[j], st, lower).Some?
    ensures !DirLess(RawKey(r[j], st, lower).value, RawKey(r[i], st, lower).value, st.boxes)
  {
    assert !Before(SortKey(st, lower), Reverse(st), r[j], r[i]);
    SortKeyOrder(r[j], r[i], st, lower, RawKey(r[j], st, lower).value, RawKey(r[i], st, lower).value);
  }

  /** The sorted list holds the same containers, so each still has a key. */
  lemma KeysSurviveSort(ready: seq<Identity>, r: seq<Identity>, st: Settings, lower: string -> string)
    requires st.Valid()
    requires forall i :: 0 <= i < |ready| ==> RawKey(ready[i], st, lower).Some?
    requires multiset(r) == multiset(ready)
    ensures forall i :: 0 <= i < |r| ==> RawKey(r[i], st, lower).Some?
  {
    forall i | 0 <= i < |r|
      ensures RawKey(r[i], st, lower).Some?
    {
      assert r[i] in multiset(ready);
      assert r[i] in ready;
    }
  }

  /** A successful sort keeps equal-keyed containers in their previous order. */
  lemma SortReadyStable(ready: seq<Identity>, st: Settings, lower: string -> string, k: seq<Atom>)
    requires st.Valid()
    requires forall i :: 0 <= i < |ready| ==> RawKey(ready[i], st, lower).Some?
    ensures SortReady(ready, st, lower).Some?
    ensures WithKey(SortReady(ready, st, lower).value, SortKey(st, lower), k) == WithKey(ready, SortKey(st, lower), k)
  {
    SortByStable(ready, SortKey(st, lower), Reverse(st), k);
  }
}
