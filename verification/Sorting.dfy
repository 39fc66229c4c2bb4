/** The order of Go strings, and sorting by a string key. */
module Sorting {

  /** Byte by byte; a proper prefix comes first. */
  predicate Less(a: string, b: string) {
    if b == "" then false
    else if a == "" then true
    else a[0] < b[0] || (a[0] == b[0] && Less(a[1..], b[1..]))
  }

  lemma {:induction false} LessTotal(a: string, b: string)
    ensures Less(a, b) || a == b || Less(b, a)
    ensures !(Less(a, b) && Less(b, a)) && !Less(a, a)
    decreases |a|
  {
    if a != "" {
      LessTotal(a[1..], a[1..]);
    }
    if a != "" && b != "" {
      LessTotal(a[1..], b[1..]);
      assert a == a[..1] + a[1..] && b == b[..1] + b[1..];
    }
  }

  lemma {:induction false} LessTransitive(a: string, b: string, c: string)
    requires Less(a, b) && Less(b, c)
    ensures Less(a, c)
    decreases |a|
  {
    if a != "" && a[0] == b[0] == c[0] {
      LessTransitive(a[1..], b[1..], c[1..]);
    }
  }

  lemma {:induction false} PrefixLess(a: string, b: string)
    requires b != ""
    ensures Less(a, a + b)
  {
    if a == "" {
      assert a + b == b;
    } else {
      assert (a + b)[1..] == a[1..] + b;
      PrefixLess(a[1..], b);
    }
  }

  ghost predicate SortedBy<T>(key: T -> string, xs: seq<T>) {
    forall i, j | 0 <= i < j < |xs| :: Less(key(xs[i]), key(xs[j]))
  }

  ghost predicate DistinctBy<T>(key: T -> string, xs: seq<T>) {
    forall i, j | 0 <= i < j < |xs| :: key(xs[i]) != key(xs[j])
  }

  function Insert<T>(key: T -> string, x: T, xs: seq<T>): (r: seq<T>)
    ensures |r| == |xs| + 1
  {
    if xs == [] then [x]
    else if Less(key(x), key(xs[0])) then [x] + xs
    else [xs[0]] + Insert(key, x, xs[1..])
  }

  /** The elements in the order of their keys. */
  function Sort<T>(key: T -> string, xs: seq<T>): (r: seq<T>)
    ensures |r| == |xs|
  {
    if xs == [] then [] else Insert(key, xs[0], Sort(key, xs[1..]))
  }

  lemma {:induction false} InsertHas<T>(key: T -> string, x: T, xs: seq<T>, y: T)
    ensures y in Insert(key, x, xs) <==> y == x || y in xs
  {
    if xs != [] {
      InsertHas(key, x, xs[1..], y);
      assert xs == [xs[0]] + xs[1..];
    }
  }

  lemma {:induction false} SortHas<T>(key: T -> string, xs: seq<T>, y: T)
    ensures y in Sort(key, xs) <==> y in xs
  {
    if xs != [] {
      SortHas(key, xs[1..], y);
      InsertHas(key, xs[0], Sort(key, xs[1..]), y);
      assert xs == [xs[0]] + xs[1..];
    }
  }

  ghost predicate Before<T>(key: T -> string, x: T, xs: seq<T>) {
    forall i | 0 <= i < |xs| :: Less(key(x), key(xs[i]))
  }

  lemma SortedCons<T>(key: T -> string, x: T, xs: seq<T>)
    ensures SortedBy(key, [x] + xs) <==> Before(key, x, xs) && SortedBy(key, xs)
  {
    hide Less;
    var all := [x] + xs;
    if SortedBy(key, all) {
      forall i | 0 <= i < |xs| ensures Less(key(x), key(xs[i])) {
        assert x == all[0] && xs[i] == all[i + 1];
      }
      forall i, j | 0 <= i < j < |xs| ensures Less(key(xs[i]), key(xs[j])) {
        assert xs[i] == all[i + 1] && xs[j] == all[j + 1];
      }
    }
  }

  lemma {:induction false} InsertSorted<T>(key: T -> string, x: T, xs: seq<T>)
    requires SortedBy(key, xs) && forall y | y in xs :: key(y) != key(x)
    ensures SortedBy(key, Insert(key, x, xs))
  {
    hide SortedBy;
    if xs == [] {
      SortedCons(key, x, []);
      assert [x] + [] == [x];
    } else {
      var head, tail := xs[0], xs[1..];
      assert xs == [head] + tail;
      SortedCons(key, head, tail);
      if Less(key(x), key(head)) {
        forall i | 0 <= i < |xs| ensures Less(key(x), key(xs[i])) {
          if i > 0 {
            assert xs[i] == tail[i - 1];
            LessTransitive(key(x), key(head), key(xs[i]));
          }
        }
        SortedCons(key, x, xs);
      } else {
        InsertSorted(key, x, tail);
        LessTotal(key(x), key(head));
        forall i | 0 <= i < |Insert(key, x, tail)| ensures Less(key(head), key(Insert(key, x, tail)[i])) {
          InsertHas(key, x, tail, Insert(key, x, tail)[i]);
        }
        SortedCons(key, head, Insert(key, x, tail));
      }
    }
  }

  lemma {:induction false} SortSorted<T>(key: T -> string, xs: seq<T>)
    requires DistinctBy(key, xs)
    ensures SortedBy(key, Sort(key, xs))
  {
    if xs != [] {
      var tail := xs[1..];
      assert DistinctBy(key, tail);
      SortSorted(key, tail);
      forall y | y in Sort(key, tail) ensures key(y) != key(xs[0]) {
        SortHas(key, tail, y);
      }
      InsertSorted(key, xs[0], Sort(key, tail));
    }
  }

  lemma SomeElement<T>(xs: seq<T>)
    ensures xs == [] || exists x :: x in xs
  {
    if xs != [] {
      assert xs[0] in xs;
    }
  }

  /** There is one sorted way to enumerate a set of elements. */
  lemma {:induction false} SortedUnique<T>(key: T -> string, a: seq<T>, b: seq<T>)
    requires SortedBy(key, a) && SortedBy(key, b) && forall x :: x in a <==> x in b
    ensures a == b
  {
    SomeElement(a);
    SomeElement(b);
    if a != [] {
      assert a[0] in b;
      assert b[0] in a;
      LessTotal(key(a[0]), key(b[0]));
      assert a[0] == b[0];
      var a', b' := a[1..], b[1..];
      assert a == [a[0]] + a' && b == [b[0]] + b';
      LessTotal(key(a[0]), key(a[0]));
      assert a[0] !in a' && b[0] !in b';
      assert forall x :: x in a' <==> x in a && x != a[0];
      assert forall x :: x in b' <==> x in b && x != b[0];
      SortedUnique(key, a', b');
    }
  }

  /** A sum over all elements. */
  function Total<T>(weight: T -> int, xs: seq<T>): int {
    if xs == [] then 0 else weight(xs[0]) + Total(weight, xs[1..])
  }

  lemma {:induction false} TotalAppend<T>(weight: T -> int, xs: seq<T>, x: T)
    ensures Total(weight, xs + [x]) == Total(weight, xs) + weight(x)
  {
    if xs == [] {
      assert xs + [x] == [x];
    } else {
      assert (xs + [x])[1..] == xs[1..] + [x];
      TotalAppend(weight, xs[1..], x);
    }
  }

  lemma {:induction false} InsertTotal<T>(key: T -> string, weight: T -> int, x: T, xs: seq<T>)
    ensures Total(weight, Insert(key, x, xs)) == weight(x) + Total(weight, xs)
  {
    if xs != [] {
      InsertTotal(key, weight, x, xs[1..]);
      assert ([x] + xs)[1..] == xs;
    }
  }

  /** Sorting keeps every sum. */
  lemma {:induction false} SortTotal<T>(key: T -> string, weight: T -> int, xs: seq<T>)
    ensures Total(weight, Sort(key, xs)) == Total(weight, xs)
  {
    if xs != [] {
      SortTotal(key, weight, xs[1..]);
      InsertTotal(key, weight, xs[0], Sort(key, xs[1..]));
    }
  }
}
