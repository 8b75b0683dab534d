/** The orders in which `app/views.py` lists catalog entities: by name
    ascending, by hunger value descending, by like count descending and by
    creation descending, with the stable sort that Python's `list.sort`
    performs. */
module Ordering {
  import opened Catalog

  // ---------------------------------------------------------------------
  // String order

  /** Python's `<` on `str`, which is also SQLite's BINARY collation on
      UTF-8 text: compare code point by code point; a proper prefix comes first. */
  predicate LexLess(a: string, b: string)
    decreases |a|
  {
    if |b| == 0 then false
    else if |a| == 0 then true
    else if a[0] != b[0] then a[0] < b[0]
    else LexLess(a[1..], b[1..])
  }

  lemma {:induction false} LexIrreflexive(a: string)
    ensures !LexLess(a, a)
    decreases |a|
  {
    if |a| > 0 {
      LexIrreflexive(a[1..]);
    }
  }

  lemma {:induction false} LexTransitive(a: string, b: string, c: string)
    requires LexLess(a, b) && LexLess(b, c)
    ensures LexLess(a, c)
    decreases |a|
  {
    if |a| > 0 && a[0] == b[0] && b[0] == c[0] {
      LexTransitive(a[1..], b[1..], c[1..]);
    }
  }

  lemma {:induction false} LexTotal(a: string, b: string)
    requires a != b
    ensures LexLess(a, b) || LexLess(b, a)
    decreases |a|
  {
    if |a| > 0 && |b| > 0 && a[0] == b[0] {
      assert a == [a[0]] + a[1..] && b == [b[0]] + b[1..];
      LexTotal(a[1..], b[1..]);
    }
  }

  // ---------------------------------------------------------------------
  // Sort policies

  /** The orders used by the views. `ByName`, `ByHunger` and `ByLikes` are
      the search form's sort keys; `ByNewest` is `created_at` descending. */
  datatype Order = ByName | ByHunger | ByLikes | ByNewest

  /** The value a sort key function returns. */
  datatype SortKey = TextKey(text: string) | NumberKey(number: nat)

  function KeyOf(order: Order, likes: Likes, e: Entity): SortKey {
    match order
    case ByName => TextKey(e.Name())
    case ByHunger => NumberKey(e.Hunger())
    case ByLikes => NumberKey(EntityLikes(likes, e))
    case ByNewest => NumberKey(e.Created())
  }

  /** `x` sorts strictly before `y`: ascending for names, descending
      (`reverse=True`) for the numeric keys. */
  predicate Precedes(order: Order, likes: Likes, x: Entity, y: Entity) {
    match order
    case ByName => LexLess(x.Name(), y.Name())
    case ByHunger => x.Hunger() > y.Hunger()
    case ByLikes => EntityLikes(likes, x) > EntityLikes(likes, y)
    case ByNewest => x.Created() > y.Created()
  }

  /** Entities that sort strictly apart have different keys. */
  lemma PrecedesKeysDiffer(order: Order, likes: Likes, x: Entity, y: Entity)
    requires Precedes(order, likes, x, y)
    ensures KeyOf(order, likes, x) != KeyOf(order, likes, y)
    ensures !Precedes(order, likes, y, x)
  {
    if order == ByName {
      LexIrreflexive(x.Name());
      if LexLess(y.Name(), x.Name()) {
        LexTransitive(x.Name(), y.Name(), x.Name());
      }
    }
  }

  /** "Not before" is transitive: each policy is a strict weak order. */
  lemma NotPrecedesTransitive(order: Order, likes: Likes, x: Entity, y: Entity, z: Entity)
    requires !Precedes(order, likes, x, y) && !Precedes(order, likes, y, z)
    ensures !Precedes(order, likes, x, z)
  {
    if order == ByName && LexLess(x.Name(), z.Name()) {
      if x.Name() == y.Name() {
      } else {
        LexTotal(x.Name(), y.Name());
        LexTransitive(y.Name(), x.Name(), z.Name());
      }
    }
  }

  /** No entity is placed after one that it precedes. */
  predicate Sorted(order: Order, likes: Likes, s: seq<Entity>) {
    forall i, j :: 0 <= i < j < |s| ==> !Precedes(order, likes, s[j], s[i])
  }

  /** The subsequence of `s` whose key is `k`: a stable sort keeps it as it is. */
  function Run(order: Order, likes: Likes, s: seq<Entity>, k: SortKey): seq<Entity> {
    if s == [] then []
    else Run(order, likes, s[..|s| - 1], k) + (if KeyOf(order, likes, s[|s| - 1]) == k then [s[|s| - 1]] else [])
  }

  lemma {:induction false} RunAppend(order: Order, likes: Likes, s: seq<Entity>, x: Entity, k: SortKey)
    ensures Run(order, likes, s + [x], k) == Run(order, likes, s, k) + (if KeyOf(order, likes, x) == k then [x] else [])
  {
    assert (s + [x])[..|s + [x]| - 1] == s;
  }

  // ---------------------------------------------------------------------
  // The stable sort

  /** Inserts `x` into `s` after every element it does not precede. */
  function Insert(order: Order, likes: Likes, x: Entity, s: seq<Entity>): seq<Entity> {
    if s == [] then [x]
    else if Precedes(order, likes, x, s[|s| - 1]) then Insert(order, likes, x, s[..|s| - 1]) + [s[|s| - 1]]
    else s + [x]
  }

  /** The stable sort of `s`: insertion sort from the left, as an in-place
      insertion sort computes it. */
  function SortBy(order: Order, likes: Likes, s: seq<Entity>): seq<Entity> {
    if s == [] then [] else Insert(order, likes, s[|s| - 1], SortBy(order, likes, s[..|s| - 1]))
  }

  lemma {:induction false} InsertPermutes(order: Order, likes: Likes, x: Entity, s: seq<Entity>)
    ensures multiset(Insert(order, likes, x, s)) == multiset(s) + multiset{x}
    decreases |s|
  {
    if s != [] && Precedes(order, likes, x, s[|s| - 1]) {
      InsertPermutes(order, likes, x, s[..|s| - 1]);
      assert s == s[..|s| - 1] + [s[|s| - 1]];
    }
  }

  lemma {:induction false} InsertRuns(order: Order, likes: Likes, x: Entity, s: seq<Entity>, k: SortKey)
    ensures Run(order, likes, Insert(order, likes, x, s), k) == Run(order, likes, s + [x], k)
    decreases |s|
  {
    if s == [] {
      assert [x] == [] + [x];
      RunAppend(order, likes, [], x, k);
    } else {
      var t, y := s[..|s| - 1], s[|s| - 1];
      assert s == t + [y];
      if Precedes(order, likes, x, y) {
        PrecedesKeysDiffer(order, likes, x, y);
        var xs := if KeyOf(order, likes, x) == k then [x] else [];
        var ys := if KeyOf(order, likes, y) == k then [y] else [];
        assert xs + ys == ys + xs;
        calc {
          Run(order, likes, Insert(order, likes, x, s), k);
          Run(order, likes, Insert(order, likes, x, t) + [y], k);
          { RunAppend(order, likes, Insert(order, likes, x, t), y, k); }
          Run(order, likes, Insert(order, likes, x, t), k) + ys;
          { InsertRuns(order, likes, x, t, k); }
          Run(order, likes, t + [x], k) + ys;
          { RunAppend(order, likes, t, x, k); }
          Run(order, likes, t, k) + xs + ys;
          Run(order, likes, t, k) + ys + xs;
          { RunAppend(order, likes, t, y, k); }
          Run(order, likes, s, k) + xs;
          { RunAppend(order, likes, s, x, k); }
          Run(order, likes, s + [x], k);
        }
      }
    }
  }

  /** Appending an element that precedes nothing before it keeps a sequence sorted. */
  lemma SortedSnoc(order: Order, likes: Likes, u: seq<Entity>, y: Entity)
    requires Sorted(order, likes, u)
    requires forall i :: 0 <= i < |u| ==> !Precedes(order, likes, y, u[i])
    ensures Sorted(order, likes, u + [y])
  {
    var w := u + [y];
    forall i, j | 0 <= i < j < |w| ensures !Precedes(order, likes, w[j], w[i]) {
      if j < |u| {
        assert w[i] == u[i] && w[j] == u[j];
      } else {
        assert w[i] == u[i] && w[j] == y;
      }
    }
  }

  lemma {:induction false} InsertSorted(order: Order, likes: Likes, x: Entity, s: seq<Entity>)
    requires Sorted(order, likes, s)
    ensures Sorted(order, likes, Insert(order, likes, x, s))
    decreases |s|
  {
    if s != [] {
      var t, y := s[..|s| - 1], s[|s| - 1];
      assert Sorted(order, likes, t) by {
        forall i, j | 0 <= i < j < |t| ensures !Precedes(order, likes, t[j], t[i]) {
          assert t[i] == s[i] && t[j] == s[j];
        }
      }
      if Precedes(order, likes, x, y) {
        InsertSorted(order, likes, x, t);
        InsertPermutes(order, likes, x, t);
        var u := Insert(order, likes, x, t);
        forall i | 0 <= i < |u| ensures !Precedes(order, likes, y, u[i]) {
          assert u[i] in multiset(u);
          if u[i] == x {
            PrecedesKeysDiffer(order, likes, x, y);
          } else {
            assert u[i] in multiset(t);
            var k :| 0 <= k < |t| && t[k] == u[i];
            assert s[k] == u[i] && k < |s| - 1;
          }
        }
        SortedSnoc(order, likes, u, y);
      } else {
        forall i | 0 <= i < |s| ensures !Precedes(order, likes, x, s[i]) {
          if i < |s| - 1 {
            NotPrecedesTransitive(order, likes, x, y, s[i]);
          }
        }
        SortedSnoc(order, likes, s, x);
      }
    }
  }

  /** The sort returns a permutation of its input. */
  lemma {:induction false} SortByPermutes(order: Order, likes: Likes, s: seq<Entity>)
    ensures multiset(SortBy(order, likes, s)) == multiset(s)
    decreases |s|
  {
    if s != [] {
      SortByPermutes(order, likes, s[..|s| - 1]);
      InsertPermutes(order, likes, s[|s| - 1], SortBy(order, likes, s[..|s| - 1]));
      assert s == s[..|s| - 1] + [s[|s| - 1]];
    }
  }

  /** The sort returns its input in order. */
  lemma {:induction false} SortBySorted(order: Order, likes: Likes, s: seq<Entity>)
    ensures Sorted(order, likes, SortBy(order, likes, s))
    decreases |s|
  {
    if s != [] {
      SortBySorted(order, likes, s[..|s| - 1]);
      InsertSorted(order, likes, s[|s| - 1], SortBy(order, likes, s[..|s| - 1]));
    }
  }

  /** The sort is stable: the entities that share a key keep their
      relative order. */
  lemma {:induction false} SortByStable(order: Order, likes: Likes, s: seq<Entity>, k: SortKey)
    ensures Run(order, likes, SortBy(order, likes, s), k) == Run(order, likes, s, k)
    decreases |s|
  {
    if s != [] {
      var t, x := s[..|s| - 1], s[|s| - 1];
      SortByStable(order, likes, t, k);
      InsertRuns(order, likes, x, SortBy(order, likes, t), k);
      RunAppend(order, likes, SortBy(order, likes, t), x, k);
      RunAppend(order, likes, t, x, k);
      assert s == t + [x];
    }
  }

  /** What "in order" means for each policy. */
  lemma SortedMeaning(order: Order, likes: Likes, s: seq<Entity>, i: nat, j: nat)
    requires Sorted(order, likes, s) && i < j < |s|
    ensures order == ByName ==> s[i].Name() == s[j].Name() || LexLess(s[i].Name(), s[j].Name())
    ensures order == ByHunger ==> s[i].Hunger() >= s[j].Hunger()
    ensures order == ByLikes ==> EntityLikes(likes, s[i]) >= EntityLikes(likes, s[j])
    ensures order == ByNewest ==> s[i].Created() >= s[j].Created()
  {
    assert !Precedes(order, likes, s[j], s[i]);
    if order == ByName && s[i].Name() != s[j].Name() {
      LexTotal(s[i].Name(), s[j].Name());
    }
  }

  /** Where `Insert` puts `x`: after `p[..j]` when `x` precedes every element
      of `p[j..]` and does not precede `p[j - 1]`. */
  lemma {:induction false} InsertPosition(order: Order, likes: Likes, x: Entity, p: seq<Entity>, j: nat)
    requires j <= |p|
    requires forall k :: j <= k < |p| ==> Precedes(order, likes, x, p[k])
    requires j == 0 || !Precedes(order, likes, x, p[j - 1])
    ensures Insert(order, likes, x, p) == p[..j] + [x] + p[j..]
    decreases |p|
  {
    if j < |p| {
      var q, y := p[..|p| - 1], p[|p| - 1];
      assert Precedes(order, likes, x, y);
      assert Insert(order, likes, x, p) == Insert(order, likes, x, q) + [y];
      forall k | j <= k < |q| ensures Precedes(order, likes, x, q[k]) {
        assert q[k] == p[k];
      }
      assert j > 0 ==> q[j - 1] == p[j - 1];
      InsertPosition(order, likes, x, q, j);
      assert p[..j] == q[..j];
      assert p[j..] == q[j..] + [y] by {
        forall k | 0 <= k < |p| - j ensures p[j..][k] == (q[j..] + [y])[k] {
          if k < |q| - j {
            assert (q[j..] + [y])[k] == q[j + k];
          }
        }
      }
    } else if p != [] {
      assert p[..j] == p;
    }
  }

  /** The array contents at the end of one insertion pass, described
      element by element, are `Insert(x, p)` followed by the untouched rest. */
  lemma InsertPassResult(order: Order, likes: Likes, s: seq<Entity>, p: seq<Entity>, x: Entity,
                         rest: seq<Entity>, j: nat)
    requires j <= |p| && |s| == |p| + 1 + |rest|
    requires forall k :: 0 <= k < j ==> s[k] == p[k]
    requires s[j] == x
    requires forall k :: j < k <= |p| ==> s[k] == p[k - 1]
    requires forall k :: |p| < k < |s| ==> s[k] == rest[k - |p| - 1]
    requires forall k :: j <= k < |p| ==> Precedes(order, likes, x, p[k])
    requires j == 0 || !Precedes(order, likes, x, p[j - 1])
    ensures s == Insert(order, likes, x, p) + rest
  {
    InsertPosition(order, likes, x, p, j);
    var r := p[..j] + [x] + p[j..] + rest;
    forall k | 0 <= k < |s| ensures s[k] == r[k] {
      if k < j {
        assert r[k] == p[k];
      } else if j < k <= |p| {
        assert r[k] == p[k - 1];
      } else if |p| < k {
        assert r[k] == rest[k - |p| - 1];
      }
    }
  }

  /** One pass of the in-place insertion sort: moves `a[i]` left past the
      elements of `a[..i]` that it strictly precedes. */
  method InsertInPlace(a: array<Entity>, i: nat, order: Order, likes: Likes)
    requires i < a.Length
    modifies a
    ensures a[..] == Insert(order, likes, old(a[i]), old(a[..i])) + old(a[i + 1..])
  {
    ghost var p, rest := a[..i], a[i + 1..];
    var x := a[i];
    var j := i;
    while 0 < j && Precedes(order, likes, x, a[j - 1])
      invariant 0 <= j <= i
      invariant forall k :: 0 <= k < j ==> a[k] == p[k]
      invariant a[j] == x
      invariant forall k :: j < k <= i ==> a[k] == p[k - 1]
      invariant forall k :: i < k < a.Length ==> a[k] == rest[k - i - 1]
      invariant forall k :: j <= k < i ==> Precedes(order, likes, x, p[k])
    {
      a[j - 1], a[j] := x, a[j - 1];
      j := j - 1;
    }
    InsertPassResult(order, likes, a[..], p, x, rest, j);
  }

  /** The state of the in-place sort after `i` passes: the sorted prefix,
      then the elements not yet visited. */
  lemma SortPassState(order: Order, likes: Likes, s: seq<Entity>, i: nat, cur: seq<Entity>)
    requires i < |s| && cur == SortBy(order, likes, s[..i]) + s[i..]
    ensures |SortBy(order, likes, s[..i])| == i
    ensures cur[..i] == SortBy(order, likes, s[..i]) && cur[i] == s[i] && cur[i + 1..] == s[i + 1..]
    ensures SortBy(order, likes, s[..i + 1]) == Insert(order, likes, s[i], SortBy(order, likes, s[..i]))
  {
    SortByPermutes(order, likes, s[..i]);
    assert |multiset(SortBy(order, likes, s[..i]))| == |multiset(s[..i])|;
    assert s[..i + 1][..i] == s[..i];
  }

  /** `results.sort(key=...)` on the array `a`: an insertion sort in place,
      which shifts an element left only past elements it strictly precedes. */
  method SortInPlace(a: array<Entity>, order: Order, likes: Likes)
    modifies a
    ensures a[..] == SortBy(order, likes, old(a[..]))
  {
    ghost var s := a[..];
    var i := 0;
    while i < a.Length
      invariant 0 <= i <= a.Length
      invariant a[..] == SortBy(order, likes, s[..i]) + s[i..]
    {
      SortPassState(order, likes, s, i, a[..]);
      InsertInPlace(a, i, order, likes);
      i := i + 1;
    }
    assert s[..a.Length] == s;
  }
}
