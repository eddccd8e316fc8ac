/**
 * Canonical ordering (section 3.11 of the Unicode Standard) as an operation on code points: what
 * a reordering may do, that there is one ordered reordering, and how exchanges lead there.
 * `cls` gives each code point its combining class; class 0 marks a starter.
 */
module CanonicalOrder {

  // ---------- What a canonical reordering is ----------

  /** The starters and the units of class `c`, in order. */
  function Project(s: seq<int>, c: nat, cls: int -> nat): seq<int> {
    if s == [] then []
    else
      var last := s[|s| - 1];
      Project(s[..|s| - 1], c, cls) + (if cls(last) == 0 || cls(last) == c then [last] else [])
  }

  /** No unit has moved past a starter or past another unit of its own class. */
  ghost predicate Reordering(s: seq<int>, t: seq<int>, cls: int -> nat) {
    forall c: nat :: Project(s, c, cls) == Project(t, c, cls)
  }

  /** Within each run of non-starters the classes ascend. */
  predicate OrderedUpTo(s: seq<int>, end: int, cls: int -> nat) {
    forall i :: 0 < i < |s| && i <= end ==> cls(s[i]) == 0 || cls(s[i - 1]) <= cls(s[i])
  }

  predicate Ordered(s: seq<int>, cls: int -> nat) {
    OrderedUpTo(s, |s|, cls)
  }

  lemma {:induction false} ProjectConcat(a: seq<int>, b: seq<int>, c: nat, cls: int -> nat)
    ensures Project(a + b, c, cls) == Project(a, c, cls) + Project(b, c, cls)
  {
    if b == [] {
      assert a + b == a;
    } else {
      assert (a + b)[..|a + b| - 1] == a + b[..|b| - 1];
      ProjectConcat(a, b[..|b| - 1], c, cls);
    }
  }

  lemma ReorderingConcat(a: seq<int>, a': seq<int>, b: seq<int>, cls: int -> nat)
    requires Reordering(a, a', cls)
    ensures Reordering(a + b, a' + b, cls)
  {
    forall c: nat
      ensures Project(a + b, c, cls) == Project(a' + b, c, cls)
    {
      ProjectConcat(a, b, c, cls);
      ProjectConcat(a', b, c, cls);
    }
  }

  lemma ReorderingTransitive(s: seq<int>, t: seq<int>, u: seq<int>, cls: int -> nat)
    requires Reordering(s, t, cls) && Reordering(t, u, cls)
    ensures Reordering(s, u, cls)
  {
    forall c: nat
      ensures Project(s, c, cls) == Project(u, c, cls)
    {
      assert Project(s, c, cls) == Project(t, c, cls);
    }
  }

  // ---------- There is exactly one ordered reordering ----------

  /** An ordered string whose last unit relevant to class `b` has class `b` ends in a class not below it. */
  lemma {:induction false} EndsHigh(s: seq<int>, b: nat, cls: int -> nat)
    requires Ordered(s, cls) && b > 0
    requires var p := Project(s, b, cls); p != [] && cls(p[|p| - 1]) == b
    ensures s != [] && cls(s[|s| - 1]) >= b
  {
    var last := s[|s| - 1];
    var init := s[..|s| - 1];
    if cls(last) != 0 && cls(last) != b {
      assert Ordered(init, cls);
      EndsHigh(init, b, cls);
      assert cls(s[|s| - 2]) <= cls(last);
    }
  }

  lemma LastProjected(s: seq<int>, cls: int -> nat)
    requires s != []
    ensures var last := s[|s| - 1];
      var p := Project(s, cls(last), cls); p != [] && p[|p| - 1] == last
    ensures forall c: nat :: cls(s[|s| - 1]) == 0 ==> var p := Project(s, c, cls); p != [] && p[|p| - 1] == s[|s| - 1]
  {}

  lemma SameLast(s: seq<int>, t: seq<int>, cls: int -> nat)
    requires Ordered(s, cls) && Ordered(t, cls) && Reordering(s, t, cls) && s != [] && t != []
    requires cls(s[|s| - 1]) <= cls(t[|t| - 1])
    ensures s[|s| - 1] == t[|t| - 1]
  {
    var x, y := s[|s| - 1], t[|t| - 1];
    LastProjected(s, cls);
    LastProjected(t, cls);
    assert Project(s, cls(y), cls) == Project(t, cls(y), cls);
    if cls(x) != cls(y) && cls(x) != 0 {
      EndsHigh(s, cls(y), cls);
    }
  }

  lemma ReorderingOfNothing(s: seq<int>, cls: int -> nat)
    requires Reordering(s, [], cls)
    ensures s == []
  {
    if s != [] {
      LastProjected(s, cls);
    }
  }

  lemma ReorderingInit(s: seq<int>, t: seq<int>, cls: int -> nat)
    requires s != [] && t != [] && s[|s| - 1] == t[|t| - 1] && Reordering(s, t, cls)
    ensures Reordering(s[..|s| - 1], t[..|t| - 1], cls)
  {
    var s', t' := s[..|s| - 1], t[..|t| - 1];
    forall c: nat
      ensures Project(s', c, cls) == Project(t', c, cls)
    {
      var p, q := Project(s, c, cls), Project(t, c, cls);
      assert p == q && Project(s', c, cls) <= p && Project(t', c, cls) <= q;
    }
  }

  lemma {:induction false} OrderedReorderingUnique(s: seq<int>, t: seq<int>, cls: int -> nat)
    requires Ordered(s, cls) && Ordered(t, cls) && Reordering(s, t, cls)
    ensures s == t
  {
    ReorderingSymmetric(s, t, cls);
    if s == [] {
      ReorderingOfNothing(t, cls);
    } else if t == [] {
      ReorderingOfNothing(s, cls);
    } else {
      if cls(s[|s| - 1]) <= cls(t[|t| - 1]) {
        SameLast(s, t, cls);
      } else {
        SameLast(t, s, cls);
      }
      ReorderingInit(s, t, cls);
      OrderedReorderingUnique(s[..|s| - 1], t[..|t| - 1], cls);
      assert s == s[..|s| - 1] + [s[|s| - 1]] && t == t[..|t| - 1] + [t[|t| - 1]];
    }
  }

  lemma ReorderingSymmetric(s: seq<int>, t: seq<int>, cls: int -> nat)
    requires Reordering(s, t, cls)
    ensures Reordering(t, s, cls)
  {
    forall c: nat
      ensures Project(t, c, cls) == Project(s, c, cls)
    {
      assert Project(s, c, cls) == Project(t, c, cls);
    }
  }

  // ---------- The ordered reordering, by stable insertion ----------

  /** Puts `u` behind every unit of its run that does not exceed its class. */
  function Place(s: seq<int>, u: int, cls: int -> nat): (r: seq<int>)
    ensures |r| == |s| + 1
  {
    if s == [] || cls(u) == 0 || cls(s[|s| - 1]) <= cls(u) then s + [u]
    else Place(s[..|s| - 1], u, cls) + [s[|s| - 1]]
  }

  function Canonical(s: seq<int>, cls: int -> nat): (r: seq<int>)
    ensures |r| == |s|
  {
    if s == [] then [] else Place(Canonical(s[..|s| - 1], cls), s[|s| - 1], cls)
  }

  lemma {:induction false} PlaceOrdered(s: seq<int>, u: int, cls: int -> nat)
    requires Ordered(s, cls)
    ensures Ordered(Place(s, u, cls), cls)
    ensures var r := Place(s, u, cls);
      s != [] && cls(u) != 0 && cls(s[|s| - 1]) > cls(u) ==> r[|r| - 1] == s[|s| - 1]
    ensures var r := Place(s, u, cls);
      !(s != [] && cls(u) != 0 && cls(s[|s| - 1]) > cls(u)) ==> r[|r| - 1] == u
  {
    if s != [] && cls(u) != 0 && cls(s[|s| - 1]) > cls(u) {
      var init := s[..|s| - 1];
      assert Ordered(init, cls);
      PlaceOrdered(init, u, cls);
    }
  }

  lemma {:induction false} PlaceProjects(s: seq<int>, u: int, c: nat, cls: int -> nat)
    ensures Project(Place(s, u, cls), c, cls) == Project(s + [u], c, cls)
  {
    ProjectConcat(s, [u], c, cls);
    if s != [] && cls(u) != 0 && cls(s[|s| - 1]) > cls(u) {
      var init, last := s[..|s| - 1], s[|s| - 1];
      PlaceProjects(init, u, c, cls);
      ProjectConcat(init, [u], c, cls);
      ProjectConcat(Place(init, u, cls), [last], c, cls);
    }
  }

  lemma {:induction false} CanonicalOrders(s: seq<int>, cls: int -> nat)
    ensures Ordered(Canonical(s, cls), cls) && Reordering(s, Canonical(s, cls), cls)
  {
    if s != [] {
      var init, last := s[..|s| - 1], s[|s| - 1];
      CanonicalOrders(init, cls);
      PlaceOrdered(Canonical(init, cls), last, cls);
      assert s == init + [last];
      ReorderingConcat(init, Canonical(init, cls), [last], cls);
      forall c: nat
        ensures Project(s, c, cls) == Project(Canonical(s, cls), c, cls)
      {
        PlaceProjects(Canonical(init, cls), last, c, cls);
        assert Project(init + [last], c, cls) == Project(Canonical(init, cls) + [last], c, cls);
      }
    }
  }

  /** The stable insertion sort of each run is the one ordered reordering there is. */
  lemma CanonicalIsTheOrderedReordering(s: seq<int>, t: seq<int>, cls: int -> nat)
    ensures t == Canonical(s, cls) <==> Ordered(t, cls) && Reordering(s, t, cls)
  {
    CanonicalOrders(s, cls);
    if Ordered(t, cls) && Reordering(s, t, cls) {
      ReorderingSymmetric(s, t, cls);
      ReorderingTransitive(t, s, Canonical(s, cls), cls);
      OrderedReorderingUnique(t, Canonical(s, cls), cls);
    }
  }

  lemma {:induction false} CanonicalPermutes(s: seq<int>, cls: int -> nat)
    ensures multiset(Canonical(s, cls)) == multiset(s)
  {
    if s != [] {
      var init, last := s[..|s| - 1], s[|s| - 1];
      CanonicalPermutes(init, cls);
      PlacePermutes(Canonical(init, cls), last, cls);
      assert s == init + [last];
    }
  }

  lemma {:induction false} PlacePermutes(s: seq<int>, u: int, cls: int -> nat)
    ensures multiset(Place(s, u, cls)) == multiset(s) + multiset{u}
  {
    if s != [] && cls(u) != 0 && cls(s[|s| - 1]) > cls(u) {
      var init := s[..|s| - 1];
      PlacePermutes(init, u, cls);
      assert s == init + [s[|s| - 1]];
    }
  }

  /** Starters do not move, and nothing else becomes one. */
  lemma {:induction false} CanonicalKeepsStarters(s: seq<int>, cls: int -> nat)
    ensures forall i :: 0 <= i < |s| ==>
      if cls(s[i]) == 0 then Canonical(s, cls)[i] == s[i] else cls(Canonical(s, cls)[i]) != 0
  {
    if s != [] {
      var init, last := s[..|s| - 1], s[|s| - 1];
      CanonicalKeepsStarters(init, cls);
      PlaceKeepsStarters(Canonical(init, cls), last, cls);
    }
  }

  lemma {:induction false} PlaceKeepsStarters(s: seq<int>, u: int, cls: int -> nat)
    ensures forall i :: 0 <= i <= |s| ==> var r := Place(s, u, cls);
      if cls((s + [u])[i]) == 0 then r[i] == (s + [u])[i] else cls(r[i]) != 0
  {
    if s != [] && cls(u) != 0 && cls(s[|s| - 1]) > cls(u) {
      var init := s[..|s| - 1];
      PlaceKeepsStarters(init, u, cls);
      assert forall i :: 0 <= i < |init| ==> (init + [u])[i] == (s + [u])[i];
    }
  }

  // ---------- The loop ----------

  /** Classes weighted by the distance to the end: every exchange lowers it. */
  function Weight(s: seq<int>, cls: int -> nat): nat {
    if s == [] then 0 else |s| * cls(s[0]) + Weight(s[1..], cls)
  }

  function Exchange(s: seq<int>, i: nat): seq<int>
    requires i + 1 < |s|
  {
    s[i := s[i + 1]][i + 1 := s[i]]
  }

  lemma {:induction false} ExchangeLowersWeight(s: seq<int>, i: nat, cls: int -> nat)
    requires i + 1 < |s| && cls(s[i]) > cls(s[i + 1])
    ensures Weight(Exchange(s, i), cls) < Weight(s, cls)
  {
    var t := Exchange(s, i);
    if i == 0 {
      assert t[1..][1..] == s[1..][1..];
      assert |s| * (cls(s[0]) - cls(s[1])) > (|s| - 1) * (cls(s[0]) - cls(s[1]));
    } else {
      assert t[1..] == Exchange(s[1..], i - 1);
      ExchangeLowersWeight(s[1..], i - 1, cls);
    }
  }

  lemma ExchangeSplit(s: seq<int>, i: nat)
    requires i + 1 < |s|
    ensures s == (s[..i] + [s[i]] + [s[i + 1]]) + s[i + 2..]
    ensures Exchange(s, i) == (s[..i] + [s[i + 1]] + [s[i]]) + s[i + 2..]
  {}

  lemma ExchangeReorders(s: seq<int>, i: nat, cls: int -> nat)
    requires i + 1 < |s| && cls(s[i]) > cls(s[i + 1]) > 0
    ensures Reordering(s, Exchange(s, i), cls)
  {
    var a, x, y, b := s[..i], s[i], s[i + 1], s[i + 2..];
    ExchangeSplit(s, i);
    forall c: nat
      ensures Project(a + [x] + [y], c, cls) == Project(a + [y] + [x], c, cls)
    {
      ProjectConcat(a + [x], [y], c, cls);
      ProjectConcat(a + [y], [x], c, cls);
      ProjectConcat(a, [x], c, cls);
      ProjectConcat(a, [y], c, cls);
    }
    ReorderingConcat(a + [x] + [y], a + [y] + [x], b, cls);
  }
}
