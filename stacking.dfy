/** The stacking order `window_order`: a sequence of window ids, topmost last.
    The array operations the source applies to it (`indexOf`, `splice(i, 1)`, `push`)
    are written out here with JavaScript's semantics. */
module Stacking {

  /** No id occurs twice. */
  predicate NoDup(s: seq<string>) {
    forall i, j :: 0 <= i < j < |s| ==> s[i] != s[j]
  }

  /** `Array.prototype.indexOf`: the first position of `x` in `s`, or -1 when it is absent. */
  function IndexOf(s: seq<string>, x: string): (i: int)
    ensures -1 <= i < |s|
    ensures i == -1 <==> x !in s
    ensures 0 <= i ==> s[i] == x && x !in s[..i]
  {
    if s == [] then -1
    else if s[0] == x then 0
    else
      var j := IndexOf(s[1..], x);
      if j == -1 then -1
      else
        assert s[..j + 1] == [s[0]] + s[1..][..j];
        j + 1
  }

  /** `Array.prototype.splice(start, 1)`: a negative start counts back from the end
      (clamped at 0), and a start at or past the end removes nothing. */
  function SpliceOne(s: seq<string>, start: int): (r: seq<string>)
    ensures |s| - 1 <= |r| <= |s|
    ensures multiset(r) <= multiset(s)
    ensures 0 <= start < |s| ==> r == s[..start] + s[start + 1..]
    ensures start == -1 && s != [] ==> r == s[..|s| - 1]
  {
    var k := if start < 0 then (if |s| + start < 0 then 0 else |s| + start)
             else if start > |s| then |s| else start;
    if k < |s| then
      assert s == s[..k] + [s[k]] + s[k + 1..];
      s[..k] + s[k + 1..]
    else s
  }

  /** The ids of `s` other than `x`, in their order. */
  function Without(s: seq<string>, x: string): (r: seq<string>)
    ensures x !in r
    ensures forall y :: y != x ==> (y in r <==> y in s)
    ensures |r| <= |s|
  {
    if s == [] then []
    else if s[0] == x then Without(s[1..], x)
    else [s[0]] + Without(s[1..], x)
  }

  /** The raise operation the stacking order is meant to support: take `x` out wherever it
      is and put it on top. Used as the reference for `FocusOrder`. */
  function Raise(s: seq<string>, x: string): (r: seq<string>)
    ensures r != [] && r[|r| - 1] == x
    ensures x in r && forall y :: y != x ==> (y in r <==> y in s)
  {
    Without(s, x) + [x]
  }

  /** The reply handler's update of the order for a `window_focus` reply:
      `order.splice(order.indexOf(x), 1); order.push(x)`. */
  function FocusOrder(s: seq<string>, x: string): (r: seq<string>)
    ensures r != [] && r[|r| - 1] == x
    ensures |r| == if s == [] then 1 else |s|
    ensures multiset(r) <= multiset(s) + multiset{x}
  {
    var i := IndexOf(s, x);
    var t := SpliceOne(s, i);
    assert |t| == if s == [] then 0 else |s| - 1 by {
      if s == [] {
      } else if i == -1 {
        assert t == s[..|s| - 1];
      } else {
        assert t == s[..i] + s[i + 1..];
      }
    }
    t + [x]
  }

  /** The stacking index shown for a window: `order.indexOf(id) + 1`. */
  function ZIndex(order: seq<string>, id: string): (z: int)
    ensures 0 <= z <= |order|
    ensures z == 0 <==> id !in order
    ensures z > 0 ==> order[z - 1] == id
  {
    IndexOf(order, id) + 1
  }

  lemma {:induction false} WithoutAbsent(s: seq<string>, x: string)
    requires x !in s
    ensures Without(s, x) == s
  {
    if s != [] {
      WithoutAbsent(s[1..], x);
    }
  }

  lemma {:induction false} WithoutConcat(a: seq<string>, b: seq<string>, x: string)
    ensures Without(a + b, x) == Without(a, x) + Without(b, x)
  {
    if a == [] {
      assert a + b == b;
    } else {
      assert (a + b)[1..] == a[1..] + b;
      WithoutConcat(a[1..], b, x);
    }
  }

  lemma {:induction false} WithoutNoDup(s: seq<string>, x: string)
    requires NoDup(s)
    ensures NoDup(Without(s, x))
  {
    if s != [] {
      WithoutNoDup(s[1..], x);
      if s[0] != x {
        assert s[0] !in s[1..];
      }
    }
  }

  /** In a duplicate-free order, the position of an element is the index it stands at. */
  lemma IndexOfNoDup(s: seq<string>, k: int)
    requires NoDup(s) && 0 <= k < |s|
    ensures IndexOf(s, s[k]) == k
  {
    var i := IndexOf(s, s[k]);
    assert s[i] == s[k];
  }

  /** Appending an absent id to a duplicate-free order keeps it duplicate-free. */
  lemma AppendFreshNoDup(s: seq<string>, x: string)
    requires NoDup(s) && x !in s
    ensures NoDup(s + [x])
  {
    var r := s + [x];
    forall i, j | 0 <= i < j < |r| ensures r[i] != r[j] {
      if j < |s| {
        assert r[i] == s[i] && r[j] == s[j];
      } else {
        assert r[i] in s;
      }
    }
  }

  /** Dropping the one occurrence of `x` between two runs that lack it joins the runs. */
  lemma {:induction false} WithoutOne(a: seq<string>, x: string, b: seq<string>)
    requires x !in a && x !in b
    ensures Without(a + [x] + b, x) == a + b
  {
    WithoutConcat(a + [x], b, x);
    WithoutConcat(a, [x], x);
    assert [x][1..] == [];
    assert Without([x], x) == [];
    WithoutAbsent(a, x);
    WithoutAbsent(b, x);
    assert Without(a + [x] + b, x) == (a + []) + b;
  }

  /** In a duplicate-free order, dropping an id that is present removes exactly its one slot. */
  lemma {:induction false} WithoutPresent(s: seq<string>, x: string)
    requires NoDup(s) && x in s
    ensures var i := IndexOf(s, x); Without(s, x) == s[..i] + s[i + 1..]
  {
    var i := IndexOf(s, x);
    var a, b := s[..i], s[i + 1..];
    assert s == a + [x] + b;
    forall j | 0 <= j < |b|
      ensures b[j] != x
    {
      assert b[j] == s[i + 1 + j] && s[i] == x;
    }
    WithoutOne(a, x, b);
  }

  /** A focused id that is already in a duplicate-free order is raised exactly as the
      reference operation does it. */
  lemma FocusPresentIsRaise(s: seq<string>, x: string)
    requires NoDup(s) && x in s
    ensures FocusOrder(s, x) == Raise(s, x)
  {
    WithoutPresent(s, x);
  }

  /** A focused id missing from the order displaces the last id: `indexOf` gives -1 and
      `splice(-1, 1)` removes the final element before the push. */
  lemma FocusAbsentDropsLast(s: seq<string>, x: string)
    requires x !in s
    ensures FocusOrder(s, x) == if s == [] then [x] else s[..|s| - 1] + [x]
  {
  }

  /** The concrete instance: focusing "c" in ["a", "b"] loses "b" from the order. */
  lemma FocusUnknownExample()
    ensures FocusOrder(["a", "b"], "c") == ["a", "c"]
  {
    assert IndexOf(["a", "b"], "c") == -1;
  }

  /** Focusing an id already in a duplicate-free order leaves it exactly once, on top;
      the length is unchanged and the other ids keep their relative order. */
  lemma FocusPresent(s: seq<string>, x: string)
    requires NoDup(s) && x in s
    ensures var r := FocusOrder(s, x);
      && |r| == |s|
      && r[|r| - 1] == x
      && NoDup(r)
      && Without(r, x) == Without(s, x)
  {
    var w := Without(s, x);
    WithoutPresent(s, x);
    assert FocusOrder(s, x) == w + [x];
    var i := IndexOf(s, x);
    assert |s| == |s[..i]| + 1 + |s[i + 1..]|;
    WithoutNoDup(s, x);
    AppendFreshNoDup(w, x);
    WithoutAbsent(w, x);
    WithoutConcat(w, [x], x);
    assert Without([x], x) == [];
  }

  /** The order stays duplicate-free whatever id is focused. */
  lemma FocusKeepsNoDup(s: seq<string>, x: string)
    requires NoDup(s)
    ensures NoDup(FocusOrder(s, x))
  {
    if x in s {
      FocusPresent(s, x);
    } else {
      FocusAbsentDropsLast(s, x);
      if s != [] {
        var p := s[..|s| - 1];
        assert NoDup(p) by {
          forall i, j | 0 <= i < j < |p| ensures p[i] != p[j] {
            assert p[i] == s[i] && p[j] == s[j];
          }
        }
        assert x !in p by {
          forall k | 0 <= k < |p| ensures p[k] != x {
            assert p[k] == s[k];
          }
        }
        AppendFreshNoDup(p, x);
      }
    }
  }

  /** Focusing the same id twice in a row is the same as focusing it once. */
  lemma FocusTwice(s: seq<string>, x: string)
    requires NoDup(s)
    ensures FocusOrder(FocusOrder(s, x), x) == FocusOrder(s, x)
  {
    var r := FocusOrder(s, x);
    FocusKeepsNoDup(s, x);
    IndexOfNoDup(r, |r| - 1);
    assert SpliceOne(r, |r| - 1) == r[..|r| - 1];
    assert r[..|r| - 1] + [x] == r;
  }

  /** Distinct ids in a duplicate-free order get distinct stacking indices. */
  lemma ZIndexInjective(order: seq<string>, a: string, b: string)
    requires NoDup(order) && a in order && b in order && a != b
    ensures ZIndex(order, a) != ZIndex(order, b)
  {
  }

  /** After a focus the focused window has the highest stacking index, above every other
      window still in the order. */
  lemma FocusedOnTop(s: seq<string>, x: string, y: string)
    requires NoDup(s) && y != x && y in FocusOrder(s, x)
    ensures ZIndex(FocusOrder(s, x), x) == |FocusOrder(s, x)|
    ensures 0 < ZIndex(FocusOrder(s, x), y) < ZIndex(FocusOrder(s, x), x)
  {
    var r := FocusOrder(s, x);
    FocusKeepsNoDup(s, x);
    IndexOfNoDup(r, |r| - 1);
  }
}
