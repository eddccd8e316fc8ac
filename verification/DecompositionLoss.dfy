/**
 * What the decomposing loop loses: each replacement goes over as many units as it has itself. A
 * longer one takes the text behind it, a shorter one leaves a low surrogate behind. When all is well.
 */
module DecompositionLoss {
  import opened Units
  import opened Utf16Text
  import opened QString
  import opened Decompose

  // ---------- When replacements fit ----------

  function Width(c: int): nat {
    if IsPair(c) then 2 else 1
  }

  /** How many units the full decomposition of a code point has. */
  ghost function Length(c: int, rep: Replacements, rank: int -> nat): nat
    requires WellFounded(rep, rank)
  {
    |Text(Expand(c, rep, rank).points)|
  }

  /**
   * What `c` decomposes to is no shorter than `c`, and so on for what it is replaced by, where all
   * but the last are as long as what they decompose to.
   */
  ghost predicate FitsInside(c: int, rep: Replacements, rank: int -> nat)
    requires WellFounded(rep, rank)
    decreases rank(c)
  {
    match rep(c)
    case None => true
    case Some(d) =>
      && Length(c, rep, rank) >= Width(c)
      && var ds := CodePoints(d);
         forall i :: 0 <= i < |ds| ==>
           FitsInside(ds[i], rep, rank) && (i < |ds| - 1 ==> Length(ds[i], rep, rank) == Width(ds[i]))
  }

  /** Each decomposes to as many units as it has. */
  ghost predicate AllFit(cs: seq<int>, rep: Replacements, rank: int -> nat)
    requires WellFounded(rep, rank)
  {
    forall i :: 0 <= i < |cs| ==> FitsInside(cs[i], rep, rank) && Length(cs[i], rep, rank) == Width(cs[i])
  }

  /** So do all but the last, which fills `room` more units, or at the end of the text as many as it likes. */
  ghost predicate Fits(cs: seq<int>, room: nat, atEnd: bool, rep: Replacements, rank: int -> nat)
    requires WellFounded(rep, rank)
  {
    if cs == [] then room == 0
    else
      var last := cs[|cs| - 1];
      && AllFit(cs[..|cs| - 1], rep, rank) && FitsInside(last, rep, rank)
      && Length(last, rep, rank) >= Width(last) + room
      && (atEnd || Length(last, rep, rank) == Width(last) + room)
  }

  lemma WidthIs(c: int)
    requires 0 <= c < 0x11_0000
    ensures |Encode(c)| == Width(c)
  {}

  lemma LengthOfPlain(c: int, rep: Replacements, rank: int -> nat)
    requires WellFounded(rep, rank) && rep(c).None? && 0 <= c < 0x11_0000
    ensures Length(c, rep, rank) == Width(c)
  {
    TextOfOne(c);
  }

  lemma AllFitSnoc(cs: seq<int>, c: int, rep: Replacements, rank: int -> nat)
    requires WellFounded(rep, rank)
    ensures AllFit(cs + [c], rep, rank)
       <==> AllFit(cs, rep, rank) && FitsInside(c, rep, rank) && Length(c, rep, rank) == Width(c)
  {
    var all := cs + [c];
    assert all[|cs|] == c;
    assert forall i :: 0 <= i < |cs| ==> all[i] == cs[i];
  }

  lemma AllFitConcat(a: seq<int>, b: seq<int>, rep: Replacements, rank: int -> nat)
    requires WellFounded(rep, rank)
    ensures AllFit(a + b, rep, rank) <==> AllFit(a, rep, rank) && AllFit(b, rep, rank)
  {
    var all := a + b;
    assert forall i :: 0 <= i < |a| ==> all[i] == a[i];
    assert forall i :: 0 <= i < |b| ==> b[i] == all[|a| + i];
  }

  lemma {:induction false} AllFitLength(cs: seq<int>, rep: Replacements, rank: int -> nat)
    requires WellFounded(rep, rank) && AllFit(cs, rep, rank) && forall i :: 0 <= i < |cs| ==> 0 <= cs[i] < 0x11_0000
    ensures |Text(ExpandAll(cs, rep, rank).points)| == |Text(cs)|
  {
    if cs != [] {
      var init, last := cs[..|cs| - 1], cs[|cs| - 1];
      AllFitLength(init, rep, rank);
      TextConcat(ExpandAll(init, rep, rank).points, Expand(last, rep, rank).points);
      WidthIs(last);
    }
  }

  /** The length of what a replaced code point decomposes to. */
  lemma LengthOfReplaced(c: int, ds: seq<int>, rep: Replacements, rank: int -> nat)
    requires WellFounded(rep, rank) && rep(c).Some? && ds == CodePoints(rep(c).value) != []
    requires AllFit(ds[..|ds| - 1], rep, rank)
    ensures var last := ds[|ds| - 1];
      Length(c, rep, rank) + Width(last) == |rep(c).value| + Length(last, rep, rank)
  {
    LengthOfAll(ds, rep, rank);
    LengthOfText(rep(c).value);
    CodePointsAreParsed(rep(c).value);
    AllFitLength(ds[..|ds| - 1], rep, rank);
    assert Expand(c, rep, rank).points == ExpandAll(ds, rep, rank).points;
  }

  lemma LengthOfAll(cs: seq<int>, rep: Replacements, rank: int -> nat)
    requires WellFounded(rep, rank) && cs != []
    ensures |Text(ExpandAll(cs, rep, rank).points)|
         == |Text(ExpandAll(cs[..|cs| - 1], rep, rank).points)| + Length(cs[|cs| - 1], rep, rank)
  {
    TextConcat(ExpandAll(cs[..|cs| - 1], rep, rank).points, Expand(cs[|cs| - 1], rep, rank).points);
  }

  lemma LengthOfText(s: seq<Unit>)
    requires CodePoints(s) != []
    ensures var cs := CodePoints(s);
      |s| == |Text(cs[..|cs| - 1])| + Width(cs[|cs| - 1])
  {
    CodePointsAreParsed(s);
    TextOfCodePoints(s);
    WidthIs(CodePoints(s)[|CodePoints(s)| - 1]);
  }

  /** What fitting means for the code points of a replacement. */
  lemma FitsInsideIs(c: int, ds: seq<int>, rep: Replacements, rank: int -> nat)
    requires WellFounded(rep, rank) && rep(c).Some? && ds == CodePoints(rep(c).value) != []
    ensures FitsInside(c, rep, rank)
       <==> Length(c, rep, rank) >= Width(c) && AllFit(ds[..|ds| - 1], rep, rank)
            && FitsInside(ds[|ds| - 1], rep, rank)
  {
    AllFitButLast(ds, rep, rank);
  }

  lemma AllFitButLast(ds: seq<int>, rep: Replacements, rank: int -> nat)
    requires WellFounded(rep, rank) && ds != []
    ensures (forall i :: 0 <= i < |ds| ==>
               FitsInside(ds[i], rep, rank) && (i < |ds| - 1 ==> Length(ds[i], rep, rank) == Width(ds[i])))
       <==> AllFit(ds[..|ds| - 1], rep, rank) && FitsInside(ds[|ds| - 1], rep, rank)
  {
    var init := ds[..|ds| - 1];
    assert forall i :: 0 <= i < |init| ==> init[i] == ds[i];
  }

  lemma FitsSnoc(init: seq<int>, c: int, room: nat, atEnd: bool, rep: Replacements, rank: int -> nat)
    requires WellFounded(rep, rank)
    ensures Fits(init + [c], room, atEnd, rep, rank)
       <==> AllFit(init, rep, rank) && FitsInside(c, rep, rank) && Length(c, rep, rank) >= Width(c) + room
            && (atEnd || Length(c, rep, rank) == Width(c) + room)
  {
    assert (init + [c])[..|init|] == init;
  }

  /** A code point without replacement fits if there is no room behind it, and all in front fit. */
  lemma FitsKept(init: seq<int>, c: int, room: nat, atEnd: bool, rep: Replacements, rank: int -> nat)
    requires WellFounded(rep, rank) && rep(c).None? && 0 <= c < 0x11_0000
    ensures Fits(init + [c], room, atEnd, rep, rank) <==> room == 0 && Fits(init, 0, false, rep, rank)
  {
    FitsSnoc(init, c, room, atEnd, rep, rank);
    LengthOfPlain(c, rep, rank);
    AllFitIs(init, rep, rank);
  }

  lemma AllFitIs(cs: seq<int>, rep: Replacements, rank: int -> nat)
    requires WellFounded(rep, rank)
    ensures AllFit(cs, rep, rank) <==> Fits(cs, 0, false, rep, rank)
  {
    if cs != [] {
      AllFitSnoc(cs[..|cs| - 1], cs[|cs| - 1], rep, rank);
      assert cs == cs[..|cs| - 1] + [cs[|cs| - 1]];
    }
  }

  lemma NoShorter(c: int, rep: Replacements, rank: int -> nat)
    requires WellFounded(rep, rank) && FitsInside(c, rep, rank) && 0 <= c < 0x11_0000
    ensures Length(c, rep, rank) >= Width(c)
  {
    if rep(c).None? {
      LengthOfPlain(c, rep, rank);
    }
  }

  /** A replacement takes up room, and more than there is only at the end. */
  lemma FitsReplaced(init: seq<int>, c: int, room: nat, atEnd: bool, rep: Replacements, rank: int -> nat)
    requires WellFounded(rep, rank) && rep(c).Some? && CodePoints(rep(c).value) != []
    ensures var n, ds, all := |rep(c).value|, CodePoints(rep(c).value), Width(c) + room;
      Fits(init + [c], room, atEnd, rep, rank)
      <==> (n <= all || atEnd) && Fits(init + ds, if n <= all then all - n else 0, atEnd, rep, rank)
  {
    var ds := CodePoints(rep(c).value);
    var ds0, last := ds[..|ds| - 1], ds[|ds| - 1];
    var n, all := |rep(c).value|, Width(c) + room;
    FitsSnoc(init, c, room, atEnd, rep, rank);
    FitsInsideIs(c, ds, rep, rank);
    if AllFit(ds0, rep, rank) {
      LengthOfReplaced(c, ds, rep, rank);
    }
    AllFitConcat(init, ds0, rep, rank);
    assert init + ds == (init + ds0) + [last];
    FitsSnoc(init + ds0, last, if n <= all then all - n else 0, atEnd, rep, rank);
    CodePointsAreParsed(rep(c).value);
    if FitsInside(last, rep, rank) {
      NoShorter(last, rep, rank);
    }
  }

  // ---------- What survives ----------

  /** The units of a text that are not low surrogates without a high one. */
  function Whole(s: seq<Unit>): (n: nat)
    ensures n <= |s|
  {
    if s == [] then 0
    else Whole(s[..|s| - 1]) + if IsLow(s[|s| - 1]) && !(|s| >= 2 && IsHigh(s[|s| - 2])) then 0 else 1
  }

  lemma {:induction false} WholeConcat(a: seq<Unit>, b: seq<Unit>)
    requires Separate(a, b)
    ensures Whole(a + b) == Whole(a) + Whole(b)
  {
    if b == [] {
      assert a + b == a;
    } else {
      WholeConcat(a, b[..|b| - 1]);
      WholeSnoc(a, b[..|b| - 1], b[|b| - 1]);
      assert b == b[..|b| - 1] + [b[|b| - 1]];
    }
  }

  lemma WholeSnoc(a: seq<Unit>, b: seq<Unit>, u: Unit)
    requires Separate(a, b + [u]) && Whole(a + b) == Whole(a) + Whole(b)
    ensures Whole(a + (b + [u])) == Whole(a) + Whole(b + [u])
  {
    WholeNext(b, u);
    WholeNext(a + b, u);
    Regroup(a, b, [u]);
  }

  lemma WholeNext(s: seq<Unit>, u: Unit)
    ensures Whole(s + [u]) == Whole(s) + if IsLow(u) && (s == [] || !IsHigh(s[|s| - 1])) then 0 else 1
  {
    assert (s + [u])[..|s|] == s;
  }

  lemma WholeOfOne(u: Unit)
    ensures Whole([u]) == if IsLow(u) then 0 else 1
  {
    WholeNext([], u);
    assert [] + [u] == [u];
  }

  lemma WholeOfTwo(u: Unit, v: Unit)
    requires IsHigh(u) && IsLow(v)
    ensures Whole([u, v]) == 2
  {
    WholeOfOne(u);
    WholeNext([u], v);
    assert [u] + [v] == [u, v];
  }

  /** What is whole stays so when units are taken from the front, but its own units are missing then. */
  lemma WholeOfTail(s: seq<Unit>)
    requires s != []
    ensures Whole(s[1..]) <= Whole(s)
    ensures !IsLow(s[0]) ==> Whole(s[1..]) < Whole(s)
  {
    var u, rest := s[0], s[1..];
    assert s == [u] + rest;
    WholeOfOne(u);
    if Separate([u], rest) {
      WholeConcat([u], rest);
    } else {
      var v, more := rest[0], rest[1..];
      assert rest == [v] + more && s == [u, v] + more;
      WholeOfOne(v);
      WholeOfTwo(u, v);
      WholeConcat([v], more);
      WholeConcat([u, v], more);
    }
  }

  lemma {:induction false} WholeOfRest(s: seq<Unit>, n: nat)
    ensures Whole(Rest(s, n)) <= Whole(s)
    ensures n > 0 && s != [] && !IsLow(s[0]) ==> Whole(Rest(s, n)) < Whole(s)
  {
    if n > 0 && s != [] {
      WholeOfTail(s);
      WholeOfRest(s[1..], n - 1);
      RestOfTail(s, n);
    }
  }

  lemma RestOfTail(s: seq<Unit>, n: nat)
    requires s != [] && n > 0
    ensures Rest(s, n) == Rest(s[1..], n - 1)
  {}

  /** Scalar values are whole. */
  lemma WholeOfPoint(c: int)
    requires IsScalar(c)
    ensures Whole(Encode(c)) == |Encode(c)| == Width(c) && !IsLow(Encode(c)[0]) && !IsHigh(Encode(c)[|Encode(c)| - 1])
  {
    if IsPair(c) {
      WholeOfTwo(High(c), Low(c));
    } else {
      WholeOfOne(c);
    }
  }

  lemma WholeBehind(c: int, t: seq<Unit>)
    requires IsScalar(c)
    ensures Whole(Encode(c) + t) == Width(c) + Whole(t)
  {
    WholeOfPoint(c);
    WholeConcat(Encode(c), t);
  }

  lemma {:induction false} WholeText(cs: seq<int>)
    requires AllScalar(cs)
    ensures Whole(Text(cs)) == |Text(cs)| && (cs != [] ==> !IsHigh(Text(cs)[|Text(cs)| - 1]))
  {
    if cs != [] {
      var init, last := cs[..|cs| - 1], cs[|cs| - 1];
      WholeText(init);
      WholeOfPoint(last);
      if init == [] {
        assert Text(init) == [];
      }
      WholeConcat(Text(init), Encode(last));
    }
  }

  // ---------- What the loop makes of room and text behind it ----------

  predicate AllLow(junk: seq<Unit>) {
    forall i :: 0 <= i < |junk| ==> IsLow(junk[i])
  }

  lemma {:induction false} JunkIsNotWhole(junk: seq<Unit>, t: seq<Unit>)
    requires AllLow(junk)
    ensures Whole(junk + t) == Whole(t)
  {
    if junk == [] {
      assert junk + t == t;
    } else {
      var u, rest := junk[0], junk[1..];
      JunkIsNotWhole(rest, t);
      WholeOfOne(u);
      WholeConcat([u], rest + t);
      assert junk + t == [u] + (rest + t);
    }
  }

  /** A text with at most low surrogates out of place, and replacements as they should be. */
  ghost predicate Loopable(p: seq<Unit>, rep: Replacements, rank: int -> nat) {
    WellFounded(rep, rank) && Tidy(rep) && WellFormed(rep) && NoneEmpty(rep) && NoHigh(CodePoints(p))
  }

  /** The same for a well-formed text. */
  ghost predicate LoopableText(p: seq<Unit>, rep: Replacements, rank: int -> nat) {
    Loopable(p, rep, rank) && AllScalar(CodePoints(p))
  }

  /** Its last code point, in front of it the rest. */
  lemma LastTurn(p: seq<Unit>, rep: Replacements, rank: int -> nat)
    requires Loopable(p, rep, rank) && p != []
    ensures var start, c := |p| - LastWidth(p), LastPoint(p); var rest := p[..start];
      && 0 <= c < 0x11_0000 && !IsHigh(c) && p[start..] == Encode(c) && |p[start..]| == Width(c)
      && Loopable(rest, rep, rank) && CodePoints(p) == CodePoints(rest) + [c]
      && match rep(c)
         case None => |Decomposed(p, rep, rank)| == |Decomposed(rest, rep, rank)| + Width(c)
                      && Decomposed(p, rep, rank) == Decomposed(rest, rep, rank) + Encode(c)
                      && Looks(rest, rep, rank) < Looks(p, rep, rank)
         case Some(d) => Loopable(rest + d, rep, rank) && CodePoints(rest + d) == CodePoints(rest) + CodePoints(d)
                         && CodePoints(d) != [] && Decomposed(rest + d, rep, rank) == Decomposed(p, rep, rank)
                         && Looks(rest + d, rep, rank) < Looks(p, rep, rank)
  {
    var start, c := |p| - LastWidth(p), LastPoint(p);
    CutLast(p, rep, rank);
    LastEncodes(p);
    WidthIs(c);
    if rep(c).None? {
      KeepLast(p, rep, rank);
    } else {
      ReplaceLast(p, rep, rank);
      LoopableOnceReplaced(p[..start], c, rep(c).value, rep, rank);
    }
  }

  lemma CutLast(p: seq<Unit>, rep: Replacements, rank: int -> nat)
    requires Loopable(p, rep, rank) && p != []
    ensures var c, rest := LastPoint(p), p[..|p| - LastWidth(p)];
      && 0 <= c < 0x11_0000 && !IsHigh(c) && Loopable(rest, rep, rank) && CodePoints(p) == CodePoints(rest) + [c]
  {
    var cs, init := CodePoints(p), CodePoints(p[..|p| - LastWidth(p)]);
    assert cs == init + [LastPoint(p)] && cs[|cs| - 1] == LastPoint(p);
    assert forall i :: 0 <= i < |init| ==> init[i] == cs[i];
  }

  lemma LoopableOnceReplaced(rest: seq<Unit>, c: int, d: seq<Unit>, rep: Replacements, rank: int -> nat)
    requires Loopable(rest, rep, rank) && rep(c) == Some(d)
    ensures Loopable(rest + d, rep, rank) && CodePoints(rest + d) == CodePoints(rest) + CodePoints(d)
    ensures CodePoints(d) != []
  {
    CodePointsConcat(rest, d);
  }

  /** Well-formed text stays well-formed in front of the cursor. */
  lemma ScalarTurn(p: seq<Unit>, rep: Replacements, rank: int -> nat)
    requires LoopableText(p, rep, rank) && p != []
    ensures var c, rest := LastPoint(p), p[..|p| - LastWidth(p)];
      && IsScalar(c) && LoopableText(rest, rep, rank)
      && (rep(c).Some? ==> LoopableText(rest + rep(c).value, rep, rank))
  {
    LastTurn(p, rep, rank);
    ScalarsSplit(CodePoints(p[..|p| - LastWidth(p)]), [LastPoint(p)]);
    assert [LastPoint(p)][0] == LastPoint(p);
  }

  lemma ScalarsSplit(a: seq<int>, b: seq<int>)
    ensures AllScalar(a + b) <==> AllScalar(a) && AllScalar(b)
  {
    var all := a + b;
    assert forall i :: 0 <= i < |a| ==> all[i] == a[i];
    assert forall i :: 0 <= i < |b| ==> b[i] == all[|a| + i];
  }

  /** How the loop goes on behind a last code point that it keeps, with `junk` to fill and then `t`. */
  lemma NextKept(p: seq<Unit>, junk: seq<Unit>, t: seq<Unit>, rep: Replacements, rank: int -> nat)
    requires Loopable(p, rep, rank) && p != [] && rep(LastPoint(p)).None?
    ensures Written(p, junk + t, rep, rank)
         == Written(p[..|p| - LastWidth(p)], Encode(LastPoint(p)) + (junk + t), rep, rank)
  {
    LastEncodes(p);
  }

  /** And behind one that it replaces, if there is room for that. */
  lemma NextInRoom(p: seq<Unit>, junk: seq<Unit>, t: seq<Unit>, d: seq<Unit>, left: seq<Unit>,
                   rep: Replacements, rank: int -> nat)
    requires Loopable(p, rep, rank) && p != [] && rep(LastPoint(p)) == Some(d)
    requires |d| <= |Encode(LastPoint(p)) + junk| && left == (Encode(LastPoint(p)) + junk)[|d|..]
    ensures Written(p, junk + t, rep, rank) == Written(p[..|p| - LastWidth(p)] + d, left + t, rep, rank)
  {
    LastEncodes(p);
    RestOfRoom(Encode(LastPoint(p)), junk, t, |d|);
  }

  /** And if there is not. */
  lemma NextBeyond(p: seq<Unit>, junk: seq<Unit>, t: seq<Unit>, d: seq<Unit>, n: nat,
                   rep: Replacements, rank: int -> nat)
    requires Loopable(p, rep, rank) && p != [] && rep(LastPoint(p)) == Some(d)
    requires |d| == |Encode(LastPoint(p)) + junk| + n && n > 0
    ensures Written(p, junk + t, rep, rank) == Written(p[..|p| - LastWidth(p)] + d, Rest(t, n), rep, rank)
  {
    LastEncodes(p);
    RestOfRoom(Encode(LastPoint(p)), junk, t, |d|);
  }

  lemma RestOfRoom(cu: seq<Unit>, junk: seq<Unit>, t: seq<Unit>, n: nat)
    ensures Rest(cu + (junk + t), n)
         == if n <= |cu + junk| then (cu + junk)[n..] + t else Rest(t, n - |cu + junk|)
  {
    assert cu + (junk + t) == (cu + junk) + t;
  }

  /** The remainder of the code point that has been gone over, and of the junk, is junk. */
  lemma JunkLeft(c: int, junk: seq<Unit>, n: nat)
    requires IsScalar(c) && AllLow(junk) && 0 < n <= |Encode(c)| + |junk|
    ensures AllLow((Encode(c) + junk)[n..])
  {}

  /** Where the replacements fit, the loop decomposes, and leaves `t` alone. */
  lemma {:induction false} FittingIsWritten(p: seq<Unit>, junk: seq<Unit>, t: seq<Unit>, rep: Replacements,
                                            rank: int -> nat)
    requires Loopable(p, rep, rank) && Fits(CodePoints(p), |junk|, t == [], rep, rank)
    ensures Written(p, junk + t, rep, rank) == Decomposed(p, rep, rank) + t
    decreases Looks(p, rep, rank), 1
  {
    if p == [] {
      assert Decomposed(p, rep, rank) == [] && junk + t == t && [] + t == t;
    } else if rep(LastPoint(p)).None? {
      WrittenByKeeping(p, junk, t, rep, rank);
    } else {
      WrittenByReplacing(p, junk, t, rep, rank);
    }
  }

  lemma WrittenByKeeping(p: seq<Unit>, junk: seq<Unit>, t: seq<Unit>, rep: Replacements, rank: int -> nat)
    requires Loopable(p, rep, rank) && Fits(CodePoints(p), |junk|, t == [], rep, rank)
    requires p != [] && rep(LastPoint(p)).None?
    ensures Written(p, junk + t, rep, rank) == Decomposed(p, rep, rank) + t
    decreases Looks(p, rep, rank), 0
  {
    LastTurn(p, rep, rank);
    NextKept(p, junk, t, rep, rank);
    var c, rest := LastPoint(p), p[..|p| - LastWidth(p)];
    FitsKept(CodePoints(rest), c, |junk|, t == [], rep, rank);
    WidthIs(c);
    assert junk + t == t && [] + (Encode(c) + t) == Encode(c) + t;
    FittingIsWritten(rest, [], Encode(c) + t, rep, rank);
    Regroup(Decomposed(rest, rep, rank), Encode(c), t);
  }

  lemma WrittenByReplacing(p: seq<Unit>, junk: seq<Unit>, t: seq<Unit>, rep: Replacements, rank: int -> nat)
    requires Loopable(p, rep, rank) && Fits(CodePoints(p), |junk|, t == [], rep, rank)
    requires p != [] && rep(LastPoint(p)).Some?
    ensures Written(p, junk + t, rep, rank) == Decomposed(p, rep, rank) + t
    decreases Looks(p, rep, rank), 0
  {
    LastTurn(p, rep, rank);
    var c, rest := LastPoint(p), p[..|p| - LastWidth(p)];
    var d, room := rep(c).value, Encode(c) + junk;
    FitsReplaced(CodePoints(rest), c, |junk|, t == [], rep, rank);
    if |d| <= |room| {
      var left := room[|d|..];
      NextInRoom(p, junk, t, d, left, rep, rank);
      FittingIsWritten(rest + d, left, t, rep, rank);
    } else {
      NextBeyond(p, junk, t, d, |d| - |room|, rep, rank);
      assert t == [] && [] + t == t;
      FittingIsWritten(rest + d, [], t, rep, rank);
    }
  }

  /** The loop makes no more whole units than there should be. */
  lemma {:induction false} WholeWritten(p: seq<Unit>, t: seq<Unit>, rep: Replacements, rank: int -> nat)
    requires LoopableText(p, rep, rank)
    ensures Whole(Written(p, t, rep, rank)) <= |Decomposed(p, rep, rank)| + Whole(t)
    decreases Looks(p, rep, rank)
  {
    if p != [] {
      LastTurn(p, rep, rank);
      ScalarTurn(p, rep, rank);
      var start, c := |p| - LastWidth(p), LastPoint(p);
      var cu, rest := p[start..], p[..start];
      if rep(c).None? {
        WholeWritten(rest, cu + t, rep, rank);
        WholeBehind(c, t);
      } else {
        var d := rep(c).value;
        WholeWritten(rest + d, Rest(cu + t, |d|), rep, rank);
        WholeGoneOver(c, t, |d|);
      }
    }
  }

  lemma WholeGoneOver(c: int, t: seq<Unit>, n: nat)
    requires IsScalar(c) && n > 0
    ensures Whole(Rest(Encode(c) + t, n)) <= Whole(t)
  {
    var cu := Encode(c);
    TailOfBoth(cu, t, n);
    JunkIsNotWhole(cu[1..], t);
    WholeOfRest(cu[1..] + t, n - 1);
  }

  lemma TailOfBoth(cu: seq<Unit>, t: seq<Unit>, n: nat)
    requires cu != [] && n > 0
    ensures Rest(cu + t, n) == Rest(cu[1..] + t, n - 1)
  {
    assert (cu + t)[1..] == cu[1..] + t;
  }

  ghost predicate EndsIn(w: seq<Unit>, t: seq<Unit>) {
    |w| >= |t| && w[|w| - |t|..] == t
  }

  /** Whatever the loop goes over is missing. */
  lemma GoneOver(p: seq<Unit>, t: seq<Unit>, n: nat, rep: Replacements, rank: int -> nat)
    requires LoopableText(p, rep, rank) && t != [] && !IsLow(t[0]) && n > 0
    ensures Whole(Written(p, Rest(t, n), rep, rank)) < |Decomposed(p, rep, rank)| + Whole(t)
  {
    WholeWritten(p, Rest(t, n), rep, rank);
    WholeOfRest(t, n);
  }

  lemma LostBeyond(p: seq<Unit>, junk: seq<Unit>, t: seq<Unit>, d: seq<Unit>, rep: Replacements, rank: int -> nat)
    requires LoopableText(p, rep, rank) && p != [] && rep(LastPoint(p)) == Some(d) && t != [] && !IsLow(t[0])
    requires |d| > |Encode(LastPoint(p)) + junk|
    ensures Whole(Written(p, junk + t, rep, rank)) < |Decomposed(p, rep, rank)| + Whole(t)
  {
    var n := |d| - |Encode(LastPoint(p)) + junk|;
    LastTurn(p, rep, rank);
    ScalarTurn(p, rep, rank);
    NextBeyond(p, junk, t, d, n, rep, rank);
    GoneOver(p[..|p| - LastWidth(p)] + d, t, n, rep, rank);
  }

  /** Text behind the cursor and its junk is still there at the end, or something is missing. */
  lemma {:induction false} KeptOrLost(p: seq<Unit>, junk: seq<Unit>, t: seq<Unit>, rep: Replacements, rank: int -> nat)
    requires LoopableText(p, rep, rank) && AllLow(junk) && t != [] && !IsLow(t[0])
    ensures IsKept(Written(p, junk + t, rep, rank), |Decomposed(p, rep, rank)|, t)
    decreases Looks(p, rep, rank), 1
  {
    if p == [] {
      assert EndsIn(junk + t, t);
    } else if rep(LastPoint(p)).None? {
      KeptByKeeping(p, junk, t, rep, rank);
    } else {
      KeptByReplacing(p, junk, t, rep, rank);
    }
  }

  ghost predicate IsKept(w: seq<Unit>, n: nat, t: seq<Unit>) {
    EndsIn(w, t) || Whole(w) < n + Whole(t)
  }

  lemma KeptByKeeping(p: seq<Unit>, junk: seq<Unit>, t: seq<Unit>, rep: Replacements, rank: int -> nat)
    requires LoopableText(p, rep, rank) && AllLow(junk) && t != [] && !IsLow(t[0])
    requires p != [] && rep(LastPoint(p)).None?
    ensures IsKept(Written(p, junk + t, rep, rank), |Decomposed(p, rep, rank)|, t)
    decreases Looks(p, rep, rank), 0
  {
    LastTurn(p, rep, rank);
    ScalarTurn(p, rep, rank);
    NextKept(p, junk, t, rep, rank);
    var c, rest := LastPoint(p), p[..|p| - LastWidth(p)];
    var t' := Encode(c) + (junk + t);
    StartsWhole(c, junk + t);
    KeptOrLost(rest, [], t', rep, rank);
    KeptBehind(Written(rest, t', rep, rank), |Decomposed(rest, rep, rank)|, c, junk, t);
  }

  lemma KeptByReplacing(p: seq<Unit>, junk: seq<Unit>, t: seq<Unit>, rep: Replacements, rank: int -> nat)
    requires LoopableText(p, rep, rank) && AllLow(junk) && t != [] && !IsLow(t[0])
    requires p != [] && rep(LastPoint(p)).Some?
    ensures IsKept(Written(p, junk + t, rep, rank), |Decomposed(p, rep, rank)|, t)
    decreases Looks(p, rep, rank), 0
  {
    var c, rest := LastPoint(p), p[..|p| - LastWidth(p)];
    var d, room := rep(c).value, Encode(c) + junk;
    if |d| > |room| {
      LostBeyond(p, junk, t, d, rep, rank);
    } else {
      var left := room[|d|..];
      LastTurn(p, rep, rank);
      ScalarTurn(p, rep, rank);
      JunkLeft(c, junk, |d|);
      NextInRoom(p, junk, t, d, left, rep, rank);
      KeptOrLost(rest + d, left, t, rep, rank);
    }
  }

  lemma StartsWhole(c: int, t: seq<Unit>)
    requires IsScalar(c)
    ensures var t' := Encode(c) + t; t' != [] && !IsLow(t'[0]) && [] + t' == t'
  {}

  lemma KeptBehind(w: seq<Unit>, n: nat, c: int, junk: seq<Unit>, t: seq<Unit>)
    requires IsScalar(c) && AllLow(junk)
    requires IsKept(w, n, Encode(c) + (junk + t))
    ensures IsKept(w, n + Width(c), t)
  {
    WholeBehind(c, junk + t);
    JunkIsNotWhole(junk, t);
    if EndsIn(w, Encode(c) + (junk + t)) {
      EndsInTail(w, Encode(c), junk + t);
      EndsInTail(w, junk, t);
    }
  }

  lemma EndsInTail(w: seq<Unit>, a: seq<Unit>, t: seq<Unit>)
    requires EndsIn(w, a + t)
    ensures EndsIn(w, t)
  {
    assert w[|w| - |t|..] == w[|w| - |a + t|..][|a|..];
  }

  /** Junk that is still there is seen. */
  lemma JunkIsSeen(w: seq<Unit>, c: int, junk: seq<Unit>, t: seq<Unit>)
    requires IsScalar(c) && AllLow(junk) && junk != []
    ensures EndsIn(w, Encode(c) + (junk + t)) ==> Whole(w) < |w|
  {
    if EndsIn(w, Encode(c) + (junk + t)) {
      JunkInside(w, c, junk, t);
    }
  }

  lemma JunkInside(w: seq<Unit>, c: int, junk: seq<Unit>, t: seq<Unit>)
    requires IsScalar(c) && AllLow(junk) && junk != [] && EndsIn(w, Encode(c) + (junk + t))
    ensures Whole(w) < |w|
  {
    EndsInTail(w, Encode(c), junk + t);
    var n := |w| - |junk + t|;
    var front := w[..n];
    assert w == front + (junk + t) && front[|front| - |Encode(c)|..] == Encode(c);
    WholeOfPoint(c);
    assert front[|front| - 1] == Encode(c)[|Encode(c)| - 1];
    WholeConcat(front, junk + t);
    JunkIsNotWhole(junk, t);
  }

  /** Where the replacements do not fit, something is missing, or a low surrogate is left over. */
  lemma {:induction false} MisfitIsSeen(p: seq<Unit>, junk: seq<Unit>, t: seq<Unit>, rep: Replacements,
                                        rank: int -> nat)
    requires LoopableText(p, rep, rank) && AllLow(junk) && (t != [] ==> !IsLow(t[0]))
    requires !Fits(CodePoints(p), |junk|, t == [], rep, rank)
    ensures Seen(Written(p, junk + t, rep, rank), |Decomposed(p, rep, rank)| + Whole(t))
    decreases Looks(p, rep, rank), 1
  {
    if p == [] {
      JunkIsNotWhole(junk, t);
    } else if rep(LastPoint(p)).None? {
      SeenByKeeping(p, junk, t, rep, rank);
    } else {
      SeenByReplacing(p, junk, t, rep, rank);
    }
  }

  lemma SeenByKeeping(p: seq<Unit>, junk: seq<Unit>, t: seq<Unit>, rep: Replacements, rank: int -> nat)
    requires LoopableText(p, rep, rank) && AllLow(junk) && (t != [] ==> !IsLow(t[0]))
    requires !Fits(CodePoints(p), |junk|, t == [], rep, rank) && p != [] && rep(LastPoint(p)).None?
    ensures Seen(Written(p, junk + t, rep, rank), |Decomposed(p, rep, rank)| + Whole(t))
    decreases Looks(p, rep, rank), 0
  {
    LastTurn(p, rep, rank);
    ScalarTurn(p, rep, rank);
    NextKept(p, junk, t, rep, rank);
    var c, rest := LastPoint(p), p[..|p| - LastWidth(p)];
    var t' := Encode(c) + (junk + t);
    FitsKept(CodePoints(rest), c, |junk|, t == [], rep, rank);
    StartsWhole(c, junk + t);
    WholeBehind(c, junk + t);
    JunkIsNotWhole(junk, t);
    if junk == [] {
      MisfitIsSeen(rest, [], t', rep, rank);
    } else {
      KeptOrLost(rest, [], t', rep, rank);
      JunkIsSeen(Written(rest, t', rep, rank), c, junk, t);
    }
  }

  lemma SeenByReplacing(p: seq<Unit>, junk: seq<Unit>, t: seq<Unit>, rep: Replacements, rank: int -> nat)
    requires LoopableText(p, rep, rank) && AllLow(junk) && (t != [] ==> !IsLow(t[0]))
    requires !Fits(CodePoints(p), |junk|, t == [], rep, rank) && p != [] && rep(LastPoint(p)).Some?
    ensures Seen(Written(p, junk + t, rep, rank), |Decomposed(p, rep, rank)| + Whole(t))
    decreases Looks(p, rep, rank), 0
  {
    LastTurn(p, rep, rank);
    ScalarTurn(p, rep, rank);
    var c, rest := LastPoint(p), p[..|p| - LastWidth(p)];
    var d, room := rep(c).value, Encode(c) + junk;
    FitsReplaced(CodePoints(rest), c, |junk|, t == [], rep, rank);
    if |d| <= |room| {
      JunkLeft(c, junk, |d|);
      NextInRoom(p, junk, t, d, room[|d|..], rep, rank);
      MisfitIsSeen(rest + d, room[|d|..], t, rep, rank);
    } else if t == [] {
      NextBeyond(p, junk, t, d, |d| - |room|, rep, rank);
      assert [] + t == t;
      MisfitIsSeen(rest + d, [], t, rep, rank);
    } else {
      LostBeyond(p, junk, t, d, rep, rank);
    }
  }

  /** Something is missing from `n` units, or there is a low surrogate without a high one. */
  predicate Seen(w: seq<Unit>, n: nat) {
    Whole(w) < |w| || Whole(w) < n
  }

  /**
   * On well-formed text the loop decomposes recursively exactly when every code point but the last
   * decomposes to as many units as it has, on the way as well as in the end, and the last to no fewer.
   * Otherwise the result lacks something, or has a low surrogate without a high one.
   */
  lemma LoopDecomposesExactly(s: seq<Unit>, rep: Replacements, rank: int -> nat)
    requires LoopableText(s, rep, rank)
    ensures Written(s, [], rep, rank) == Decomposed(s, rep, rank) <==> Fits(CodePoints(s), 0, true, rep, rank)
    ensures !Fits(CodePoints(s), 0, true, rep, rank) ==> Seen(Written(s, [], rep, rank), |Decomposed(s, rep, rank)|)
  {
    var nothing: seq<Unit> := [];
    assert nothing + nothing == nothing && Decomposed(s, rep, rank) + nothing == Decomposed(s, rep, rank);
    if Fits(CodePoints(s), 0, true, rep, rank) {
      FittingIsWritten(s, [], [], rep, rank);
    } else {
      MisfitIsSeen(s, [], [], rep, rank);
      ExpandAllIsWellFormed(CodePoints(s), rep, rank);
      WholeText(ExpandAll(CodePoints(s), rep, rank).points);
    }
  }

  // ---------- Examples ----------

  /** The unit behind a composed one is lost. */
  lemma NextIsLost(c: Unit, a: Unit, b: Unit, u: Unit, rep: Replacements, rank: int -> nat)
    requires WellFounded(rep, rank) && Tidy(rep) && NoSurrogates([c, a, b, u])
    requires rep(c) == Some([a, b]) && rep(a).None? && rep(b).None? && rep(u).None?
    ensures Written([c, u], [], rep, rank) == [a, b]
  {
    assert !IsLow([c, a, b, u][0]) && !IsLow([c, a, b, u][1]) && !IsLow([c, a, b, u][2]) && !IsLow([c, a, b, u][3]);
    assert [c, u][..1] == [c] && [c, u][1..] + [] == [u];
    assert [c][..0] + [a, b] == [a, b] && Rest([c] + [u], 2) == [];
    assert [a, b][..1] == [a] && [a, b][1..] + [] == [b];
    assert [a][..0] == [] && [a][0..] + [b] == [a, b];
    assert Written([c, u], [], rep, rank) == Written([c], [u], rep, rank);
    assert Written([c], [u], rep, rank) == Written([a, b], [], rep, rank);
    assert Written([a, b], [], rep, rank) == Written([a], [b], rep, rank);
  }

  /** U+00C1 U+0062, for one, becomes U+0041 U+0301. */
  lemma LossExample(rep: Replacements, rank: int -> nat)
    requires WellFounded(rep, rank) && Tidy(rep) && rep(0xc1) == Some([0x41, 0x301])
    requires rep(0x41).None? && rep(0x301).None? && rep(0x62).None?
    ensures Written([0xc1, 0x62], [], rep, rank) == [0x41, 0x301]
    ensures Decomposed([0xc1, 0x62], rep, rank) == [0x41, 0x301, 0x62]
  {
    NextIsLost(0xc1, 0x41, 0x301, 0x62, rep, rank);
    DecomposedOfTwo(0xc1, 0x62, [0x41, 0x301], rep, rank);
    assert [0x41, 0x301] + [0x62] == [0x41, 0x301, 0x62];
  }

  lemma DecomposedOfTwo(c: Unit, u: Unit, d: seq<Unit>, rep: Replacements, rank: int -> nat)
    requires WellFounded(rep, rank) && NoSurrogates([c, u]) && NoSurrogates([u]) && NoSurrogates(d)
    requires rep(c) == Some(d) && rep(u).None? && FullyDecomposed(d, rep)
    ensures Decomposed([c, u], rep, rank) == d + [u]
  {
    CodePointsOfUnits([c, u]);
    assert [c, u] == [c] + [u];
    ExpandedOnce(c, d, rep, rank);
    OneMoreExpanded([c], u, rep, rank);
    TextWithOneMore(d, u);
  }

  lemma TextWithOneMore(d: seq<Unit>, u: Unit)
    requires NoSurrogates(d) && NoSurrogates([u])
    ensures Text(d + [u]) == d + [u]
  {
    assert [u][0] == u;
    TextOfUnits(d + [u]);
  }

  /** A replacement by basic code points that have none. */
  lemma ExpandedOnce(c: int, d: seq<Unit>, rep: Replacements, rank: int -> nat)
    requires WellFounded(rep, rank) && NoSurrogates(d) && rep(c) == Some(d) && FullyDecomposed(d, rep)
    ensures ExpandAll([c], rep, rank).points == d
  {
    CodePointsOfUnits(d);
    FullyDecomposedStays(d, rep, rank);
    ExpandOne(c, rep, rank);
  }

  lemma OneMoreExpanded(cs: seq<int>, u: int, rep: Replacements, rank: int -> nat)
    requires WellFounded(rep, rank) && rep(u).None?
    ensures ExpandAll(cs + [u], rep, rank).points == ExpandAll(cs, rep, rank).points + [u]
  {
    ExpandFull(u, rep, rank);
    ExpandAllConcat(cs, [u], rep, rank);
  }

  /** A pair with a replacement of one unit leaves its low surrogate behind. */
  lemma LowIsLeft(c: int, v: Unit, rep: Replacements, rank: int -> nat)
    requires WellFounded(rep, rank) && Tidy(rep) && 0x1_0000 <= c < 0x11_0000 && NoSurrogates([v])
    requires rep(c) == Some([v]) && rep(v).None?
    ensures Written(Encode(c), [], rep, rank) == [v, Low(c)] && Decomposed(Encode(c), rep, rank) == [v]
  {
    var p := Encode(c);
    assert !IsLow([v][0]);
    assert LastPoint(p) == c && p[..0] + [v] == [v] && Rest(p[0..] + [], 1) == [Low(c)];
    assert [v][..0] == [] && [v][0..] + [Low(c)] == [v, Low(c)];
    assert Written(p, [], rep, rank) == Written([v], [Low(c)], rep, rank);
    CodePointsOfOne(c);
    ExpandedOnce(c, [v], rep, rank);
    TextOfUnits([v]);
  }

  /** U+2F800, for one, becomes U+4E3D and a low surrogate. */
  lemma LeftoverExample(rep: Replacements, rank: int -> nat)
    requires WellFounded(rep, rank) && Tidy(rep) && rep(0x2f800) == Some([0x4e3d]) && rep(0x4e3d).None?
    ensures Written([0xd87e, 0xdc00], [], rep, rank) == [0x4e3d, 0xdc00]
    ensures Decomposed([0xd87e, 0xdc00], rep, rank) == [0x4e3d]
  {
    assert Encode(0x2f800) == [0xd87e, 0xdc00];
    LowIsLeft(0x2f800, 0x4e3d, rep, rank);
  }
}
