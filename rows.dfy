/** Row selection on sequences: what the mask filter keeps and what
    `dropna` erases, stated once for both. */
module Rows {

  /** The elements of `d` at the positions where `m` is true, in order. */
  function Select<T>(d: seq<T>, m: seq<bool>): (r: seq<T>)
    requires |m| == |d|
    ensures |r| == CountTrue(m)
  {
    if d == [] then []
    else Select(d[..|d| - 1], m[..|m| - 1]) + (if m[|m| - 1] then [d[|d| - 1]] else [])
  }

  /** The number of true entries of `m`. */
  function CountTrue(m: seq<bool>): nat
  {
    if m == [] then 0 else CountTrue(m[..|m| - 1]) + (if m[|m| - 1] then 1 else 0)
  }

  /** Counting distributes over concatenation. */
  lemma {:induction false} CountAppend(m1: seq<bool>, m2: seq<bool>)
    ensures CountTrue(m1 + m2) == CountTrue(m1) + CountTrue(m2)
    decreases |m2|
  {
    if m2 == [] {
      assert m1 + m2 == m1;
    } else {
      var m := m1 + m2;
      assert m[..|m| - 1] == m1 + m2[..|m2| - 1];
      assert m[|m| - 1] == m2[|m2| - 1];
      CountAppend(m1, m2[..|m2| - 1]);
    }
  }

  /** An all-true mask counts its length; no mask counts more. */
  lemma {:induction false} CountBounds(m: seq<bool>)
    ensures CountTrue(m) <= |m|
    ensures (forall i :: 0 <= i < |m| ==> m[i]) ==> CountTrue(m) == |m|
  {
    if m != [] {
      CountBounds(m[..|m| - 1]);
    }
  }

  /** Selection distributes over concatenation. */
  lemma {:induction false} SelectAppend<T>(d1: seq<T>, m1: seq<bool>, d2: seq<T>, m2: seq<bool>)
    requires |m1| == |d1| && |m2| == |d2|
    ensures Select(d1 + d2, m1 + m2) == Select(d1, m1) + Select(d2, m2)
    decreases |d2|
  {
    if d2 == [] {
      assert d1 + d2 == d1 && m1 + m2 == m1;
    } else {
      var d, m := d1 + d2, m1 + m2;
      assert d[..|d| - 1] == d1 + d2[..|d2| - 1];
      assert m[..|m| - 1] == m1 + m2[..|m2| - 1];
      SelectAppend(d1, m1, d2[..|d2| - 1], m2[..|m2| - 1]);
    }
  }

  /** An all-true mask keeps everything. */
  lemma {:induction false} SelectAllTrue<T>(d: seq<T>, m: seq<bool>)
    requires |m| == |d|
    requires forall i :: 0 <= i < |m| ==> m[i]
    ensures Select(d, m) == d
  {
    if d != [] {
      SelectAllTrue(d[..|d| - 1], m[..|m| - 1]);
    }
  }

  /** An all-false mask keeps nothing. */
  lemma {:induction false} SelectAllFalse<T>(d: seq<T>, m: seq<bool>)
    requires |m| == |d|
    requires forall i :: 0 <= i < |m| ==> !m[i]
    ensures Select(d, m) == []
  {
    if d != [] {
      SelectAllFalse(d[..|d| - 1], m[..|m| - 1]);
    }
  }

  /** Every selected element sits at a position the mask keeps. */
  lemma {:induction false} SelectFrom<T>(d: seq<T>, m: seq<bool>, x: T)
    requires |m| == |d|
    requires x in Select(d, m)
    ensures exists i :: 0 <= i < |d| && m[i] && d[i] == x
  {
    var n := |d| - 1;
    if x in Select(d[..n], m[..n]) {
      SelectFrom(d[..n], m[..n], x);
      var i :| 0 <= i < n && m[..n][i] && d[..n][i] == x;
      assert m[i] && d[i] == x;
    } else {
      assert m[n] && d[n] == x;
    }
  }

  /** A non-empty prefix is the shorter prefix and its last element. */
  lemma PrefixSnoc<T>(s: seq<T>, n: nat)
    requires 1 <= n <= |s|
    ensures s[..n] == s[..n - 1] + [s[n - 1]]
  {
    assert s[..n][..n - 1] == s[..n - 1];
  }

  /** The mask that keeps the rows whose cell in `key` is not missing. */
  function PresentMask(key: seq<string>): (m: seq<bool>)
    ensures |m| == |key|
  {
    seq(|key|, i requires 0 <= i < |key| => key[i] != "")
  }

  /** The mask of `key[..e]` split at `b`. */
  lemma PresentMaskSplit(key: seq<string>, b: nat, e: nat)
    requires b <= e <= |key|
    ensures PresentMask(key[..e]) == PresentMask(key[..b]) + PresentMask(key[b..e])
  {
    var l, r := PresentMask(key[..e]), PresentMask(key[..b]) + PresentMask(key[b..e]);
    forall i | 0 <= i < e ensures l[i] == r[i] {
      if i >= b {
        assert r[i] == PresentMask(key[b..e])[i - b];
      }
    }
  }

  /** The mask up to `p + 1`, split at `b` and at `p`. */
  lemma MaskStep(key: seq<string>, b: nat, p: nat)
    requires b <= p < |key|
    ensures PresentMask(key[..p + 1]) == PresentMask(key[..b]) + PresentMask(key[b..p]) + [key[p] != ""]
  {
    var l, r := PresentMask(key[..p + 1]), PresentMask(key[..b]) + PresentMask(key[b..p]) + [key[p] != ""];
    forall i | 0 <= i <= p ensures l[i] == r[i] {
      if b <= i < p {
        assert r[i] == PresentMask(key[b..p])[i - b];
      }
    }
  }

  /** What `dropna` leaves of a column `d` when the key column is `key`:
      the rows among the first |key| whose key cell is missing are gone,
      the rest keep their order (rows past the key's length stay). */
  function DropRows(key: seq<string>, d: seq<string>): seq<string>
    requires |key| <= |d|
  {
    Select(d[..|key|], PresentMask(key)) + d[|key|..]
  }

  /** `d` without its element at position `p` (`vector::erase`). */
  function Erase<T>(d: seq<T>, p: nat): (r: seq<T>)
    requires p < |d|
    ensures |r| == |d| - 1
  {
    d[..p] + d[p + 1..]
  }

  /** What is left of column `o` after the erasures for the missing key
      cells before `b`: the kept rows before `b`, then everything from `b`
      on. */
  function PartlyDropped(o: seq<string>, key: seq<string>, b: nat): (r: seq<string>)
    requires b <= |key| <= |o|
    ensures |r| == CountTrue(PresentMask(key[..b])) + (|o| - b)
  {
    Select(o[..b], PresentMask(key[..b])) + o[b..]
  }

  /** Nothing is erased before the first pass. */
  lemma PartlyDroppedNone(o: seq<string>, key: seq<string>)
    requires |key| <= |o|
    ensures PartlyDropped(o, key, 0) == o
  {
    assert o[0..] == o;
  }

  /** One erasure of `dropna`: with the rows before `b` already handled and
      the next missing key cell at `p`, erasing at the shifted position
      `p - (number erased so far)` handles the rows before `p + 1`. */
  lemma DropStep(o: seq<string>, key: seq<string>, b: nat, p: nat)
    requires b <= p < |key| <= |o|
    requires key[p] == ""
    requires forall i :: b <= i < p ==> key[i] != ""
    ensures Erase(PartlyDropped(o, key, b), CountTrue(PresentMask(key[..b])) + (p - b))
         == PartlyDropped(o, key, p + 1)
  {
    var a := Select(o[..b], PresentMask(key[..b]));
    EraseShifted(a, o, b, p);
    SelectUpTo(o, key, b, p);
  }

  /** Erasing at position `|a| + (p - b)` of `a + o[b..]` removes `o[p]`. */
  lemma EraseShifted(a: seq<string>, o: seq<string>, b: nat, p: nat)
    requires b <= p < |o|
    ensures Erase(a + o[b..], |a| + (p - b)) == a + o[b..p] + o[p + 1..]
  {
    var cur := a + o[b..];
    var q := |a| + (p - b);
    assert cur[..q] == a + o[b..p];
    assert cur[q + 1..] == o[p + 1..];
  }

  /** Up to a missing key cell at `p`, with none in `[b, p)`, the kept rows
      are those kept before `b` and all of `o[b..p]`. */
  lemma SelectUpTo(o: seq<string>, key: seq<string>, b: nat, p: nat)
    requires b <= p < |key| <= |o|
    requires key[p] == ""
    requires forall i :: b <= i < p ==> key[i] != ""
    ensures Select(o[..p + 1], PresentMask(key[..p + 1])) == Select(o[..b], PresentMask(key[..b])) + o[b..p]
  {
    assert o[..p + 1] == o[..b] + o[b..p] + [o[p]];
    MaskStep(key, b, p);
    SelectAppend(o[..b] + o[b..p], PresentMask(key[..b]) + PresentMask(key[b..p]), [o[p]], [false]);
    SelectAppend(o[..b], PresentMask(key[..b]), o[b..p], PresentMask(key[b..p]));
    SelectAllTrue(o[b..p], PresentMask(key[b..p]));
    assert Select([o[p]], [false]) == [];
  }

  /** After the last erasure no missing key cell is left past `b`, so the
      column is what `DropRows` says. */
  lemma DropFinish(o: seq<string>, key: seq<string>, b: nat)
    requires b <= |key| <= |o|
    requires forall i :: b <= i < |key| ==> key[i] != ""
    ensures PartlyDropped(o, key, b) == DropRows(key, o)
  {
    var n := |key|;
    var x, y, z := o[..b], o[b..n], o[n..];
    var mx, my := PresentMask(key[..b]), PresentMask(key[b..n]);
    assert key[..n] == key;
    PresentMaskSplit(key, b, n);
    assert o[..n] == x + y;
    SelectKeepAllAfter(x, y, mx, my);
    assert DropRows(key, o) == (Select(x, mx) + y) + z;
    assert o[b..] == y + z;
  }

  /** Selecting with a mask whose tail is all true keeps that tail. */
  lemma SelectKeepAllAfter<T>(x: seq<T>, y: seq<T>, mx: seq<bool>, my: seq<bool>)
    requires |mx| == |x| && |my| == |y|
    requires forall i :: 0 <= i < |my| ==> my[i]
    ensures Select(x + y, mx + my) == Select(x, mx) + y
  {
    SelectAppend(x, mx, y, my);
    SelectAllTrue(y, my);
  }

  /** The key column itself has no missing cell left after `dropna`. */
  lemma DropRowsOfKey(key: seq<string>)
    ensures forall i :: 0 <= i < |DropRows(key, key)| ==> DropRows(key, key)[i] != ""
  {
    assert key[..|key|] == key && key[|key|..] == [];
    forall i | 0 <= i < |DropRows(key, key)|
      ensures DropRows(key, key)[i] != ""
    {
      var x := DropRows(key, key)[i];
      SelectFrom(key, PresentMask(key), x);
    }
  }

  /** A key column without missing cells removes nothing. */
  lemma DropRowsNoMissing(key: seq<string>, d: seq<string>)
    requires |key| <= |d|
    requires forall i :: 0 <= i < |key| ==> key[i] != ""
    ensures DropRows(key, d) == d
  {
    SelectAllTrue(d[..|key|], PresentMask(key));
    assert d[..|key|] + d[|key|..] == d;
  }
}
