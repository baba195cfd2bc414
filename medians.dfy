/**
 * The median of a double array with NaNs removed: the middle element of the sorted non-NaN
 * values, or the mean of the two middle ones when their number is even, and NaN when there
 * are none. (Commons Math's Median with NaNStrategy.REMOVED and its default estimation.)
 */
module Medians {
  import opened Doubles

  predicate Sorted(t: seq<real>) {
    forall i, j :: 0 <= i < j < |t| ==> t[i] <= t[j]
  }

  /** The non-NaN values of `s`, in order. */
  function NonNaN(s: seq<Double>): (t: seq<real>)
    ensures |t| <= |s|
  {
    if s == [] then []
    else (if s[0].NaN? then [] else [s[0].v]) + NonNaN(s[1..])
  }

  /** A value is kept exactly when it occurs in `s` as a number. */
  lemma {:induction false} NonNaNMembers(s: seq<Double>)
    ensures forall x :: x in NonNaN(s) <==> Num(x) in s
  {
    if s != [] {
      NonNaNMembers(s[1..]);
      assert s == [s[0]] + s[1..];
    }
  }

  /** Nothing is kept exactly when every entry is NaN. */
  lemma {:induction false} NonNaNEmpty(s: seq<Double>)
    ensures |NonNaN(s)| == 0 <==> forall i :: 0 <= i < |s| ==> s[i].NaN?
  {
    if s != [] {
      NonNaNEmpty(s[1..]);
      if s[0].NaN? {
        forall i | 1 <= i < |s| ensures s[i] == s[1..][i - 1] { }
      }
    }
  }

  /** Inserts `x` before the first element not less than it. */
  function Insert(x: real, t: seq<real>): (r: seq<real>)
    ensures |r| == |t| + 1
  {
    if t == [] || x <= t[0] then [x] + t
    else [t[0]] + Insert(x, t[1..])
  }

  lemma {:induction false} InsertPerm(x: real, t: seq<real>)
    ensures multiset(Insert(x, t)) == multiset(t) + multiset{x}
  {
    if t != [] && x > t[0] {
      InsertPerm(x, t[1..]);
      assert t == [t[0]] + t[1..];
    }
  }

  lemma {:induction false} InsertSorted(x: real, t: seq<real>)
    requires Sorted(t)
    ensures Sorted(Insert(x, t))
  {
    if t != [] && x > t[0] {
      InsertSorted(x, t[1..]);
      InsertPerm(x, t[1..]);
      var rest := Insert(x, t[1..]);
      assert Insert(x, t) == [t[0]] + rest;
      forall j | 0 <= j < |rest| ensures t[0] <= rest[j] {
        assert rest[j] in multiset(rest);
      }
    }
  }

  /** Insertion sort: a sorted permutation of `t`. */
  function Sort(t: seq<real>): (r: seq<real>)
    ensures Sorted(r)
    ensures multiset(r) == multiset(t)
  {
    if t == [] then []
    else
      assert t == [t[0]] + t[1..];
      var rest := Sort(t[1..]);
      InsertSorted(t[0], rest);
      InsertPerm(t[0], rest);
      Insert(t[0], rest)
  }

  function MiddleOf(t: seq<real>): Double {
    if |t| == 0 then NaN
    else if |t| % 2 == 1 then Num(t[|t| / 2])
    else Num((t[|t| / 2 - 1] + t[|t| / 2]) / 2.0)
  }

  /** The NaN-removed median. */
  function Median(s: seq<Double>): (m: Double)
    ensures m.NaN? <==> forall i :: 0 <= i < |s| ==> s[i].NaN?
  {
    NonNaNEmpty(s);
    MiddleOf(Sort(NonNaN(s)))
  }

  /** A numeric median lies between two of the numbers it was computed from. */
  lemma MedianBounds(s: seq<Double>)
    requires Median(s).Num?
    ensures exists i :: 0 <= i < |s| && s[i].Num? && s[i].v <= Median(s).v
    ensures exists j :: 0 <= j < |s| && s[j].Num? && Median(s).v <= s[j].v
  {
    var t := NonNaN(s);
    var r := Sort(t);
    var m := MiddleOf(r);
    assert |r| == |multiset(r)| == |multiset(t)| == |t|;
    var k := |r| / 2;
    assert r[0] <= r[k] <= r[|r| - 1];
    if |r| % 2 == 0 {
      assert r[0] <= r[k - 1] <= r[|r| - 1];
    }
    assert r[0] <= m.v <= r[|r| - 1];
    assert r[0] in multiset(t) && r[|r| - 1] in multiset(t);
    NonNaNMembers(s);
    assert Num(r[0]) in s && Num(r[|r| - 1]) in s;
    var i :| 0 <= i < |s| && s[i] == Num(r[0]);
    var j :| 0 <= j < |s| && s[j] == Num(r[|r| - 1]);
    assert s[i].Num? && s[i].v <= m.v;
    assert s[j].Num? && m.v <= s[j].v;
  }

  // ---------------------------------------------------------------------------------------
  // Translation equivariance: median(x - c) == median(x) - c.

  /** Every value of `s` minus `c` (NaN stays NaN). */
  function SubAll(s: seq<Double>, c: real): (r: seq<Double>)
    ensures |r| == |s|
  {
    if s == [] then [] else [Sub(s[0], Num(c))] + SubAll(s[1..], c)
  }

  lemma {:induction false} SubAllAt(s: seq<Double>, c: real, i: nat)
    requires i < |s|
    ensures SubAll(s, c)[i] == Sub(s[i], Num(c))
  {
    if i > 0 {
      SubAllAt(s[1..], c, i - 1);
    }
  }

  function Shift(t: seq<real>, c: real): (r: seq<real>)
    ensures |r| == |t|
  {
    if t == [] then [] else [t[0] - c] + Shift(t[1..], c)
  }

  lemma {:induction false} ShiftAt(t: seq<real>, c: real, i: nat)
    requires i < |t|
    ensures Shift(t, c)[i] == t[i] - c
  {
    if i > 0 {
      ShiftAt(t[1..], c, i - 1);
    }
  }

  lemma {:induction false} NonNaNSubAll(s: seq<Double>, c: real)
    ensures NonNaN(SubAll(s, c)) == Shift(NonNaN(s), c)
  {
    if s != [] {
      NonNaNSubAll(s[1..], c);
      var u := SubAll(s, c);
      assert u[0] == Sub(s[0], Num(c)) && u[1..] == SubAll(s[1..], c);
      var t := NonNaN(s);
      if s[0].NaN? {
        assert t == NonNaN(s[1..]);
      } else {
        assert t == [s[0].v] + NonNaN(s[1..]);
        assert t[0] == s[0].v && t[1..] == NonNaN(s[1..]);
      }
    }
  }

  lemma ShiftCons(a: real, t: seq<real>, c: real)
    ensures Shift([a] + t, c) == [a - c] + Shift(t, c)
  {
    assert ([a] + t)[1..] == t;
  }

  lemma {:induction false} InsertShift(x: real, t: seq<real>, c: real)
    ensures Insert(x - c, Shift(t, c)) == Shift(Insert(x, t), c)
  {
    if t != [] {
      assert t == [t[0]] + t[1..];
      ShiftCons(t[0], t[1..], c);
      if x > t[0] {
        InsertShift(x, t[1..], c);
        ShiftCons(t[0], Insert(x, t[1..]), c);
      } else {
        ShiftCons(x, t, c);
      }
    }
  }

  lemma ShiftSorted(t: seq<real>, c: real)
    requires Sorted(t)
    ensures Sorted(Shift(t, c))
  {
    forall i, j | 0 <= i < j < |t| ensures Shift(t, c)[i] <= Shift(t, c)[j] {
      ShiftAt(t, c, i);
      ShiftAt(t, c, j);
    }
  }

  lemma {:induction false} SortShift(t: seq<real>, c: real)
    ensures Sort(Shift(t, c)) == Shift(Sort(t), c)
  {
    if t != [] {
      var u := Shift(t, c);
      assert u[0] == t[0] - c && u[1..] == Shift(t[1..], c);
      calc {
        Sort(u);
        Insert(t[0] - c, Sort(Shift(t[1..], c)));
        { SortShift(t[1..], c); }
        Insert(t[0] - c, Shift(Sort(t[1..]), c));
        { InsertShift(t[0], Sort(t[1..]), c); }
        Shift(Insert(t[0], Sort(t[1..])), c);
      }
    }
  }

  lemma MiddleOfShift(r: seq<real>, c: real)
    ensures MiddleOf(Shift(r, c)) == Sub(MiddleOf(r), Num(c))
  {
    var u := Shift(r, c);
    var k := |r| / 2;
    if |r| > 0 {
      ShiftAt(r, c, k);
      if |r| % 2 == 0 {
        ShiftAt(r, c, k - 1);
        assert (u[k - 1] + u[k]) / 2.0 == (r[k - 1] + r[k]) / 2.0 - c;
      }
    }
  }

  /** Subtracting a constant from every value shifts the median by that constant. */
  lemma MedianShift(s: seq<Double>, c: real)
    ensures Median(SubAll(s, c)) == Sub(Median(s), Num(c))
  {
    var t := NonNaN(s);
    NonNaNSubAll(s, c);
    assert NonNaN(SubAll(s, c)) == Shift(t, c);
    SortShift(t, c);
    assert Sort(Shift(t, c)) == Shift(Sort(t), c);
    MiddleOfShift(Sort(t), c);
  }

  /** Centring a sequence on its own median gives median 0. */
  lemma CentredMedianIsZero(s: seq<Double>)
    requires Median(s).Num?
    ensures Median(SubAll(s, Median(s).v)) == Num(0.0)
  {
    MedianShift(s, Median(s).v);
  }
}
