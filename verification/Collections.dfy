/** Option and Result, and the sequence operations the models share: filtering and stable sorting. */
module Collections {

  datatype Option<+T> = None | Some(value: T)

  datatype Result<+T, +E> = Ok(value: T) | Err(error: E)

  /** The elements of s that satisfy p, in order. */
  function Filter<T(!new)>(s: seq<T>, p: T -> bool): (r: seq<T>)
    ensures |r| <= |s|
    ensures forall x :: x in r <==> x in s && p(x)
  {
    if s == [] then [] else
      var rest := Filter(s[1..], p);
      if p(s[0]) then [s[0]] + rest else rest
  }

  lemma {:induction false} FilterConcat<T(!new)>(a: seq<T>, b: seq<T>, p: T -> bool)
    ensures Filter(a + b, p) == Filter(a, p) + Filter(b, p)
  {
    if a == [] {
      assert a + b == b;
    } else {
      assert (a + b)[0] == a[0] && (a + b)[1..] == a[1..] + b;
      FilterConcat(a[1..], b, p);
      var x, xs, ys := [a[0]], Filter(a[1..], p), Filter(b, p);
      assert x + (xs + ys) == (x + xs) + ys;
    }
  }

  /** Two tests that agree on the elements of s select the same elements. */
  lemma {:induction false} FilterCongruent<T(!new)>(s: seq<T>, p: T -> bool, q: T -> bool)
    requires forall x :: x in s ==> p(x) == q(x)
    ensures Filter(s, p) == Filter(s, q)
  {
    if s != [] {
      FilterCongruent(s[1..], p, q);
    }
  }

  lemma {:induction false} FilterTwice<T(!new)>(s: seq<T>, p: T -> bool, q: T -> bool, both: T -> bool)
    requires forall x :: x in s ==> both(x) == (p(x) && q(x))
    ensures Filter(Filter(s, p), q) == Filter(s, both)
  {
    if s != [] {
      FilterTwice(s[1..], p, q, both);
      if p(s[0]) {
        assert ([s[0]] + Filter(s[1..], p))[1..] == Filter(s[1..], p);
      }
    }
  }

  lemma {:induction false} FilterMultiplicity<T(!new)>(s: seq<T>, p: T -> bool, x: T)
    ensures multiset(Filter(s, p))[x] == if p(x) then multiset(s)[x] else 0
  {
    if s != [] {
      FilterMultiplicity(s[1..], p, x);
      assert s == [s[0]] + s[1..];
    }
  }

  lemma {:induction false} FilterNone<T(!new)>(s: seq<T>, p: T -> bool)
    requires forall x :: x in s ==> !p(x)
    ensures Filter(s, p) == []
  {
    if s != [] {
      FilterNone(s[1..], p);
    }
  }

  /** f applied to every element. */
  function Map<T, U>(s: seq<T>, f: T -> U): (r: seq<U>)
    ensures |r| == |s|
    ensures forall i :: 0 <= i < |s| ==> r[i] == f(s[i])
  {
    seq(|s|, i requires 0 <= i < |s| => f(s[i]))
  }

  lemma MapCons<T, U>(x: T, s: seq<T>, f: T -> U)
    ensures Map([x] + s, f) == [f(x)] + Map(s, f)
  {
  }

  /** Filtering and then mapping commutes with mapping when the test only looks at what survives the map. */
  lemma {:induction false} FilterMap<T(!new), U(!new)>(s: seq<T>, f: T -> U, p: T -> bool, q: U -> bool)
    requires forall x :: x in s ==> p(x) == q(f(x))
    ensures Filter(Map(s, f), q) == Map(Filter(s, p), f)
  {
    if s != [] {
      assert Map(s, f)[1..] == Map(s[1..], f);
      FilterMap(s[1..], f, p, q);
      MapCons(s[0], Filter(s[1..], p), f);
    }
  }

  /** The first n parts, joined. */
  function Concat<T>(parts: seq<seq<T>>, n: nat): seq<T>
    requires n <= |parts|
  {
    if n == 0 then [] else Concat(parts, n - 1) + parts[n - 1]
  }

  /** Joining parts of at most one element, each carrying its position, lists them by position. */
  lemma {:induction false} ConcatByPosition<T>(parts: seq<seq<T>>, at: T -> int, n: nat)
    requires n <= |parts|
    requires forall i :: 0 <= i < n ==> |parts[i]| <= 1 && (parts[i] != [] ==> at(parts[i][0]) == i)
    ensures forall k, l :: 0 <= k < l < |Concat(parts, n)| ==> at(Concat(parts, n)[k]) < at(Concat(parts, n)[l])
    ensures forall k :: 0 <= k < |Concat(parts, n)| ==>
              0 <= at(Concat(parts, n)[k]) < n && parts[at(Concat(parts, n)[k])] == [Concat(parts, n)[k]]
    ensures forall i :: 0 <= i < n && parts[i] != [] ==> parts[i][0] in Concat(parts, n)
  {
    if n != 0 {
      ConcatByPosition(parts, at, n - 1);
    }
  }

  // ---------------------------------------------------------------- leaving elements out

  /** The first k elements of `sub` are the first n of `whole` without some that equal `drop`; pos[j] is where sub[j]
      was. Defined by walking both lists, so that proofs walk them too. */
  ghost predicate Compacts<T(!new)>(whole: seq<T>, sub: seq<T>, pos: seq<nat>, drop: T, n: nat, k: nat)
    requires n <= |whole| && k <= |sub| == |pos|
  {
    if n == 0 then k == 0
    else if k > 0 && pos[k - 1] == n - 1 then
      sub[k - 1] == whole[n - 1] && Compacts(whole, sub, pos, drop, n - 1, k - 1)
    else
      whole[n - 1] == drop && Compacts(whole, sub, pos, drop, n - 1, k)
  }

  /** What lies beyond k does not matter. */
  lemma {:induction false} CompactsExtend<T(!new)>(
    whole: seq<T>, sub: seq<T>, pos: seq<nat>, x: T, p: nat, drop: T, n: nat, k: nat)
    requires n <= |whole| && k <= |sub| == |pos|
    requires Compacts(whole, sub, pos, drop, n, k)
    ensures Compacts(whole, sub + [x], pos + [p], drop, n, k)
  {
    if n != 0 {
      if k > 0 && pos[k - 1] == n - 1 {
        CompactsExtend(whole, sub, pos, x, p, drop, n - 1, k - 1);
      } else {
        CompactsExtend(whole, sub, pos, x, p, drop, n - 1, k);
      }
    }
  }

  /** Skipping an element that equals `drop`. */
  lemma CompactsSkip<T(!new)>(whole: seq<T>, sub: seq<T>, pos: seq<nat>, drop: T, n: nat)
    requires n < |whole| && |sub| == |pos|
    requires Compacts(whole, sub, pos, drop, n, |sub|) && whole[n] == drop
    ensures Compacts(whole, sub, pos, drop, n + 1, |sub|)
  {
    if |sub| > 0 {
      CompactsBelow(whole, sub, pos, drop, n, |sub|);
    }
  }

  /** Keeping an element. */
  lemma CompactsKeep<T(!new)>(whole: seq<T>, sub: seq<T>, pos: seq<nat>, drop: T, n: nat)
    requires n < |whole| && |sub| == |pos|
    requires Compacts(whole, sub, pos, drop, n, |sub|)
    ensures Compacts(whole, sub + [whole[n]], pos + [n], drop, n + 1, |sub| + 1)
  {
    CompactsExtend(whole, sub, pos, whole[n], n, drop, n, |sub|);
  }

  lemma {:induction false} CompactsBelow<T(!new)>(
    whole: seq<T>, sub: seq<T>, pos: seq<nat>, drop: T, n: nat, k: nat)
    requires n <= |whole| && 0 < k <= |sub| == |pos|
    requires Compacts(whole, sub, pos, drop, n, k)
    ensures pos[k - 1] < n && sub[k - 1] == whole[pos[k - 1]]
  {
    if pos[k - 1] != n - 1 {
      CompactsBelow(whole, sub, pos, drop, n - 1, k);
    }
  }

  /** Element by element. */
  lemma {:induction false} CompactsAt<T(!new)>(
    whole: seq<T>, sub: seq<T>, pos: seq<nat>, drop: T, n: nat, k: nat)
    requires n <= |whole| && k <= |sub| == |pos|
    requires Compacts(whole, sub, pos, drop, n, k)
    ensures forall j :: 0 <= j < k ==> pos[j] < n && sub[j] == whole[pos[j]]
    ensures forall j, l :: 0 <= j < l < k ==> pos[j] < pos[l]
    ensures forall i :: 0 <= i < n && whole[i] != drop ==> exists j :: 0 <= j < k && pos[j] == i
  {
    if n != 0 {
      if k > 0 && pos[k - 1] == n - 1 {
        CompactsAt(whole, sub, pos, drop, n - 1, k - 1);
        forall i | 0 <= i < n && whole[i] != drop ensures exists j :: 0 <= j < k && pos[j] == i {
          if i == n - 1 {
            assert pos[k - 1] == i;
          } else {
            var j :| 0 <= j < k - 1 && pos[j] == i;
          }
        }
      } else {
        CompactsAt(whole, sub, pos, drop, n - 1, k);
      }
    }
  }

  /** A function applied to both lists keeps them in step. */
  lemma {:induction false} CompactsMap<T(!new), U(!new)>(
    whole: seq<T>, sub: seq<T>, pos: seq<nat>, drop: T, f: T -> U, n: nat, k: nat)
    requires n <= |whole| && k <= |sub| == |pos|
    requires Compacts(whole, sub, pos, drop, n, k)
    ensures Compacts(Map(whole, f), Map(sub, f), pos, f(drop), n, k)
  {
    if n != 0 {
      if k > 0 && pos[k - 1] == n - 1 {
        CompactsMap(whole, sub, pos, drop, f, n - 1, k - 1);
      } else {
        CompactsMap(whole, sub, pos, drop, f, n - 1, k);
      }
    }
  }

  /** Joining two lists part by part, or one after the other, gives the same elements. */
  lemma {:induction false} ConcatSplit<T>(whole: seq<seq<T>>, a: seq<seq<T>>, b: seq<seq<T>>, n: nat)
    requires |a| == |b| == |whole| && n <= |whole|
    requires forall i :: 0 <= i < n ==> whole[i] == a[i] + b[i]
    ensures multiset(Concat(whole, n)) == multiset(Concat(a, n)) + multiset(Concat(b, n))
  {
    if n != 0 {
      ConcatSplit(whole, a, b, n - 1);
    }
  }

  /** Empty parts can be left out. */
  lemma {:induction false} ConcatCompact<T(!new)>(parts: seq<seq<T>>, sub: seq<seq<T>>, pos: seq<nat>, n: nat, k: nat)
    requires n <= |parts| && k <= |sub| == |pos|
    requires Compacts(parts, sub, pos, [], n, k)
    ensures Concat(parts, n) == Concat(sub, k)
    decreases n
  {
    if n != 0 {
      if k > 0 && pos[k - 1] == n - 1 {
        ConcatCompact(parts, sub, pos, n - 1, k - 1);
      } else {
        ConcatCompact(parts, sub, pos, n - 1, k);
      }
    }
  }

  // ---------------------------------------------------------------- sorting

  ghost predicate TotalPreorder<T(!new)>(le: (T, T) -> bool)
  {
    && (forall x, y :: le(x, y) || le(y, x))
    && (forall x, y, z :: le(x, y) && le(y, z) ==> le(x, z))
  }

  ghost predicate Sorted<T>(s: seq<T>, le: (T, T) -> bool)
  {
    forall i, j :: 0 <= i < j < |s| ==> le(s[i], s[j])
  }

  /** x placed after every element of s that is not above it. */
  function Insert<T(!new)>(x: T, s: seq<T>, le: (T, T) -> bool): (r: seq<T>)
    ensures |r| == |s| + 1
    ensures multiset(r) == multiset(s) + multiset{x}
    ensures forall y :: y in r <==> y == x || y in s
  {
    if s == [] || !le(s[0], x) then [x] + s else
      var r := [s[0]] + Insert(x, s[1..], le);
      assert s == [s[0]] + s[1..];
      r
  }

  /** s in ascending order; equal elements keep their order. */
  function Sort<T(!new)>(s: seq<T>, le: (T, T) -> bool): (r: seq<T>)
    ensures |r| == |s|
    ensures multiset(r) == multiset(s)
    ensures forall y :: y in r <==> y in s
  {
    if s == [] then [] else
      var n := |s| - 1;
      assert s == s[..n] + [s[n]];
      Insert(s[n], Sort(s[..n], le), le)
  }

  lemma {:induction false} InsertSorts<T(!new)>(x: T, s: seq<T>, le: (T, T) -> bool)
    requires TotalPreorder(le) && Sorted(s, le)
    ensures Sorted(Insert(x, s, le), le)
  {
    if s == [] {
    } else if !le(s[0], x) {
      assert le(x, s[0]);
    } else {
      InsertSorts(x, s[1..], le);
      var rest := Insert(x, s[1..], le);
      forall j | 0 <= j < |rest| ensures le(s[0], rest[j]) {
        assert rest[j] in rest;
        assert rest[j] == x || rest[j] in s[1..];
      }
    }
  }

  lemma {:induction false} SortSorts<T(!new)>(s: seq<T>, le: (T, T) -> bool)
    requires TotalPreorder(le)
    ensures Sorted(Sort(s, le), le)
  {
    if s != [] {
      var n := |s| - 1;
      SortSorts(s[..n], le);
      InsertSorts(s[n], Sort(s[..n], le), le);
    }
  }

  /** Sorting distinct elements keeps them distinct. */
  lemma SortKeepsDistinct<T(!new)>(s: seq<T>, le: (T, T) -> bool)
    requires forall i, j :: 0 <= i < j < |s| ==> s[i] != s[j]
    ensures forall i, j :: 0 <= i < j < |Sort(s, le)| ==> Sort(s, le)[i] != Sort(s, le)[j]
  {
    var r := Sort(s, le);
    forall i, j | 0 <= i < j < |r| ensures r[i] != r[j] {
      if r[i] == r[j] {
        TwiceMultiplicity(r, i, j);
        OnceMultiplicity(s, r[i]);
      }
    }
  }

  lemma TwiceMultiplicity<T>(s: seq<T>, i: nat, j: nat)
    requires i < j < |s| && s[i] == s[j]
    ensures multiset(s)[s[i]] >= 2
  {
    assert s == s[..i] + [s[i]] + s[i + 1..j] + [s[j]] + s[j + 1..];
  }

  lemma {:induction false} OnceMultiplicity<T>(s: seq<T>, x: T)
    requires forall i, j :: 0 <= i < j < |s| ==> s[i] != s[j]
    ensures multiset(s)[x] <= 1
  {
    if s != [] {
      OnceMultiplicity(s[1..], x);
      assert s == [s[0]] + s[1..];
      if x == s[0] {
        assert x !in s[1..];
      }
    }
  }

  /** Sorted with no two elements on a level. */
  ghost predicate StrictlySorted<T>(s: seq<T>, le: (T, T) -> bool)
  {
    forall i, j :: 0 <= i < j < |s| ==> le(s[i], s[j]) && !le(s[j], s[i])
  }

  /** A strictly sorted sequence is the only sorted arrangement of its elements. */
  lemma {:induction false} SortedUnique<T>(a: seq<T>, b: seq<T>, le: (T, T) -> bool)
    requires StrictlySorted(a, le) && Sorted(b, le)
    requires multiset(a) == multiset(b)
    ensures a == b
  {
    assert |multiset(a)| == |a| && |multiset(b)| == |b|;
    if a != [] {
      SameHead(a, b, le);
      TailsMatch(a, b);
      SortedUnique(a[1..], b[1..], le);
    }
  }

  lemma TailsMatch<T>(a: seq<T>, b: seq<T>)
    requires a != [] && b != [] && a[0] == b[0] && multiset(a) == multiset(b)
    ensures multiset(a[1..]) == multiset(b[1..])
  {
    assert a == [a[0]] + a[1..] && b == [b[0]] + b[1..];
    assert multiset(a[1..]) == multiset(a) - multiset{a[0]};
    assert multiset(b[1..]) == multiset(b) - multiset{b[0]};
  }

  lemma SameHead<T>(a: seq<T>, b: seq<T>, le: (T, T) -> bool)
    requires a != [] && b != []
    requires StrictlySorted(a, le) && Sorted(b, le)
    requires multiset(a) == multiset(b)
    ensures a[0] == b[0]
  {
    assert a[0] in multiset(b) && b[0] in multiset(a);
    var i :| 0 <= i < |b| && b[i] == a[0];
    var j :| 0 <= j < |a| && a[j] == b[0];
  }

  /** Sorting finds the strictly sorted arrangement of s, if there is one. */
  lemma SortFinds<T(!new)>(s: seq<T>, target: seq<T>, le: (T, T) -> bool)
    requires TotalPreorder(le) && StrictlySorted(target, le)
    requires multiset(s) == multiset(target)
    ensures Sort(s, le) == target
  {
    SortSorts(s, le);
    SortedUnique(target, Sort(s, le), le);
  }

  lemma {:induction false} FilterKeepsDistinct<T(!new)>(s: seq<T>, p: T -> bool)
    requires forall i, j :: 0 <= i < j < |s| ==> s[i] != s[j]
    ensures forall i, j :: 0 <= i < j < |Filter(s, p)| ==> Filter(s, p)[i] != Filter(s, p)[j]
  {
    if s != [] {
      FilterKeepsDistinct(s[1..], p);
      assert s[0] !in s[1..];
    }
  }

  /** Sorting distinct elements finds their strictly sorted list. */
  lemma SortIs<T(!new)>(s: seq<T>, target: seq<T>, le: (T, T) -> bool)
    requires TotalPreorder(le) && StrictlySorted(target, le)
    requires forall i, j :: 0 <= i < j < |s| ==> s[i] != s[j]
    requires forall x :: x in s <==> x in target
    ensures Sort(s, le) == target
  {
    forall x ensures multiset(s)[x] == multiset(target)[x] {
      OnceMultiplicity(s, x);
      OnceMultiplicity(target, x);
      assert multiset(s)[x] > 0 <==> x in s;
      assert multiset(target)[x] > 0 <==> x in target;
    }
    SortFinds(s, target, le);
  }
}
