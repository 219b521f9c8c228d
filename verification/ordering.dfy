/** The ascending identifier order the allocator iterates staff and projects in
    (Allocator.cpp:80-93): numeric order on project ids, and the lexicographic
    order of std::string on staff ids. */
module Ordering {

  /** std::string operator<: lexicographic, a proper prefix sorts first. */
  predicate StrLess(a: string, b: string)
    decreases |a|
  {
    if |a| == 0 then |b| > 0
    else if |b| == 0 then false
    else if a[0] != b[0] then a[0] < b[0]
    else StrLess(a[1..], b[1..])
  }

  lemma {:induction false} StrLessIrreflexive(a: string)
    ensures !StrLess(a, a)
    decreases |a|
  {
    if |a| > 0 {
      StrLessIrreflexive(a[1..]);
    }
  }

  lemma {:induction false} StrLessAsymmetric(a: string, b: string)
    ensures StrLess(a, b) ==> !StrLess(b, a)
    decreases |a|
  {
    if |a| > 0 && |b| > 0 && a[0] == b[0] {
      StrLessAsymmetric(a[1..], b[1..]);
    }
  }

  lemma {:induction false} StrLessTransitive(a: string, b: string, c: string)
    requires StrLess(a, b) && StrLess(b, c)
    ensures StrLess(a, c)
    decreases |a|
  {
    if |a| > 0 && |b| > 0 && |c| > 0 && a[0] == b[0] && b[0] == c[0] {
      StrLessTransitive(a[1..], b[1..], c[1..]);
    }
  }

  lemma {:induction false} StrLessTotal(a: string, b: string)
    ensures a == b || StrLess(a, b) || StrLess(b, a)
    decreases |a|
  {
    if |a| > 0 && |b| > 0 && a[0] == b[0] {
      StrLessTotal(a[1..], b[1..]);
      if a[1..] == b[1..] {
        assert a == [a[0]] + a[1..] && b == [b[0]] + b[1..];
      }
    }
  }

  predicate IncreasingInts(ids: seq<int>) {
    forall i, j :: 0 <= i < j < |ids| ==> ids[i] < ids[j]
  }

  predicate IncreasingStrings(ids: seq<string>) {
    forall i, j :: 0 <= i < j < |ids| ==> StrLess(ids[i], ids[j])
  }

  /** Some element of a non-empty set. */
  lemma Pick<T>(s: set<T>) returns (x: T)
    requires s != {}
    ensures x in s
  {
    x :| x in s;
  }

  lemma {:induction false} MinIntExists(keys: set<int>)
    requires keys != {}
    ensures exists m :: m in keys && forall x :: x in keys ==> m <= x
    decreases keys
  {
    var y := Pick(keys);
    if keys != {y} {
      MinIntExists(keys - {y});
      var m :| m in keys - {y} && forall x :: x in keys - {y} ==> m <= x;
      var least := if y < m then y else m;
      forall x | x in keys
        ensures least <= x
      {
        if x != y {
          assert x in keys - {y};
        }
      }
      assert least in keys;
    } else {
      assert forall x :: x in keys ==> y <= x;
    }
  }

  lemma {:induction false} MinStringExists(keys: set<string>)
    requires keys != {}
    ensures exists m :: m in keys && forall x :: x in keys && x != m ==> StrLess(m, x)
    decreases keys
  {
    var y := Pick(keys);
    var rest := keys - {y};
    if rest != {} {
      MinStringExists(rest);
      var m :| m in rest && forall x :: x in rest && x != m ==> StrLess(m, x);
      StrLessTotal(y, m);
      if StrLess(y, m) {
        forall x | x in keys && x != y
          ensures StrLess(y, x)
        {
          if x != m {
            assert x in rest;
            StrLessTransitive(y, m, x);
          }
        }
        assert y in keys;
      } else {
        forall x | x in keys && x != m
          ensures StrLess(m, x)
        {
          if x != y {
            assert x in rest;
          }
        }
        assert m in keys;
      }
    } else {
      assert keys == {y};
    }
  }

  /** The least element of a non-empty set of ints. */
  function MinInt(keys: set<int>): (m: int)
    requires keys != {}
    ensures m in keys && forall x :: x in keys ==> m <= x
  {
    MinIntExists(keys);
    var m :| m in keys && forall x :: x in keys ==> m <= x;
    m
  }

  /** The lexicographically least element of a non-empty set of strings. */
  function MinString(keys: set<string>): (m: string)
    requires keys != {}
    ensures m in keys && forall x :: x in keys && x != m ==> StrLess(m, x)
  {
    MinStringExists(keys);
    var m :| m in keys && forall x :: x in keys && x != m ==> StrLess(m, x);
    assert forall m' :: m' in keys && (forall x :: x in keys && x != m' ==> StrLess(m', x)) ==> m' == m by {
      forall m' | m' in keys && (forall x :: x in keys && x != m' ==> StrLess(m', x))
        ensures m' == m
      {
        if m' != m {
          StrLessAsymmetric(m, m');
        }
      }
    }
    m
  }

  /** The project ids in ascending order (Allocator.cpp:88-93). */
  function SortedInts(keys: set<int>): (ids: seq<int>)
    ensures |ids| == |keys|
    ensures forall x :: x in ids <==> x in keys
    ensures IncreasingInts(ids)
    decreases keys
  {
    if keys == {} then []
    else
      var m := MinInt(keys);
      var rest := SortedInts(keys - {m});
      assert forall j :: 0 <= j < |rest| ==> m < rest[j] by {
        forall j | 0 <= j < |rest|
          ensures m < rest[j]
        {
          assert rest[j] in keys - {m};
        }
      }
      [m] + rest
  }

  /** The staff ids in ascending order (Allocator.cpp:81-86). */
  function SortedStrings(keys: set<string>): (ids: seq<string>)
    ensures |ids| == |keys|
    ensures forall x :: x in ids <==> x in keys
    ensures IncreasingStrings(ids)
    decreases keys
  {
    if keys == {} then []
    else
      var m := MinString(keys);
      var rest := SortedStrings(keys - {m});
      assert forall j :: 0 <= j < |rest| ==> StrLess(m, rest[j]) by {
        forall j | 0 <= j < |rest|
          ensures StrLess(m, rest[j])
        {
          assert rest[j] in keys - {m};
        }
      }
      [m] + rest
  }

  /** An increasing sequence lists every element once. */
  lemma IncreasingIntsDistinct(ids: seq<int>)
    requires IncreasingInts(ids)
    ensures forall i, j :: 0 <= i < |ids| && 0 <= j < |ids| && i != j ==> ids[i] != ids[j]
  {
  }

  lemma IncreasingStringsDistinct(ids: seq<string>)
    requires IncreasingStrings(ids)
    ensures forall i, j :: 0 <= i < |ids| && 0 <= j < |ids| && i != j ==> ids[i] != ids[j]
  {
    forall i, j | 0 <= i < |ids| && 0 <= j < |ids| && i != j
      ensures ids[i] != ids[j]
    {
      if i < j {
        if ids[i] == ids[j] { StrLessIrreflexive(ids[i]); }
      } else {
        if ids[i] == ids[j] { StrLessIrreflexive(ids[j]); }
      }
    }
  }
}
