/** Values and list operations shared by the grid and turn logic: Unity's
    integer vectors, an optional value for C#'s null, and the few LINQ and
    List<T> operations the game relies on (Distinct, Reverse, Remove). */
module Common {

  datatype Option<T> = None | Some(value: T)

  /** Unity's Vector2Int and Vector3Int. */
  type Vector2Int = (int, int)
  type Vector3Int = (int, int, int)

  function Add(a: Vector2Int, b: Vector2Int): Vector2Int {
    (a.0 + b.0, a.1 + b.1)
  }

  function Sub(a: Vector2Int, b: Vector2Int): Vector2Int {
    (a.0 - b.0, a.1 - b.1)
  }

  /** Mathf.Abs on an int. */
  function Abs(x: int): nat {
    if x < 0 then -x else x
  }

  /** No element occurs twice. */
  predicate NoDup<T(==)>(s: seq<T>) {
    forall i, j :: 0 <= i < j < |s| ==> s[i] != s[j]
  }

  /** LINQ's Distinct: keeps the first occurrence of every element, in order. */
  function Distinct<T(==)>(s: seq<T>): (r: seq<T>)
    ensures NoDup(r)
    ensures forall i :: 0 <= i < |r| ==> r[i] in s
    ensures forall i :: 0 <= i < |s| ==> s[i] in r
    ensures |s| > 0 ==> |r| > 0 && r[0] == s[0]
    decreases |s|
  {
    if s == [] then []
    else
      var init, last := s[..|s| - 1], s[|s| - 1];
      assert s == init + [last];
      var d := Distinct(init);
      if last in d then d else d + [last]
  }

  /** Distinct keeps exactly the elements of the list. */
  lemma DistinctMembers<T>(s: seq<T>)
    ensures forall x :: x in Distinct(s) <==> x in s
  {
    var r := Distinct(s);
    forall x ensures x in r <==> x in s {
      if x in r {
        var i :| 0 <= i < |r| && r[i] == x;
      }
      if x in s {
        var i :| 0 <= i < |s| && s[i] == x;
      }
    }
  }

  /** List<T>.Reverse. */
  function Reversed<T>(s: seq<T>): (r: seq<T>)
    ensures |r| == |s|
    ensures forall i :: 0 <= i < |s| ==> r[i] == s[|s| - 1 - i]
  {
    if s == [] then [] else [s[|s| - 1]] + Reversed(s[..|s| - 1])
  }

  /** Index of the first occurrence of x in s. */
  function IndexOf<T(==)>(s: seq<T>, x: T): (i: nat)
    requires x in s
    ensures i < |s| && s[i] == x
    ensures forall j :: 0 <= j < i ==> s[j] != x
  {
    if s[0] == x then 0 else 1 + IndexOf(s[1..], x)
  }

  /** List<T>.Remove: drops the first occurrence of x, if there is one.
      The elements before it stay in place and those after it move down
      by one. */
  function RemoveFirst<T(==)>(s: seq<T>, x: T): (r: seq<T>)
    ensures x !in s ==> r == s
    ensures x in s ==> |r| == |s| - 1
    ensures x in s ==> forall j :: 0 <= j < IndexOf(s, x) ==> r[j] == s[j]
    ensures x in s ==> forall j :: IndexOf(s, x) <= j < |r| ==> r[j] == s[j + 1]
  {
    if x in s then s[..IndexOf(s, x)] + s[IndexOf(s, x) + 1..] else s
  }

  /** Removing the first occurrence takes exactly one copy of x out of the
      list and keeps everything else. */
  lemma {:induction false} RemoveFirstMultiset<T>(s: seq<T>, x: T)
    ensures multiset(RemoveFirst(s, x)) == multiset(s) - multiset{x}
    ensures |RemoveFirst(s, x)| == if x in s then |s| - 1 else |s|
  {
    if x in s {
      var i := IndexOf(s, x);
      assert RemoveFirst(s, x) == s[..i] + s[i + 1..];
      assert s == s[..i] + [x] + s[i + 1..];
      calc {
        multiset(s);
        multiset(s[..i]) + multiset{x} + multiset(s[i + 1..]);
      }
    } else {
      assert multiset(s)[x] == 0;
    }
  }

  /** A list without duplicates, all of whose elements lie in u, is no
      longer than u is large. */
  lemma {:induction false} NoDupBounded<T>(s: seq<T>, u: set<T>)
    requires NoDup(s)
    requires forall x :: x in s ==> x in u
    ensures |s| <= |u|
  {
    if s != [] {
      var rest := s[1..];
      assert forall x :: x in rest ==> x in u - {s[0]} by {
        forall x | x in rest ensures x in u - {s[0]} {
          var k :| 0 <= k < |rest| && rest[k] == x;
          assert s[k + 1] == x;
        }
      }
      NoDupBounded(rest, u - {s[0]});
    }
  }

  /** Taking the i-th element out of a list without duplicates leaves a
      list without duplicates that holds every other element. */
  lemma {:induction false} RemoveAtNoDup<T>(s: seq<T>, i: nat)
    requires i < |s| && NoDup(s)
    ensures var r := s[..i] + s[i + 1..];
            NoDup(r) && forall u :: u in r <==> u in s && u != s[i]
  {
    var r := s[..i] + s[i + 1..];
    forall a, b | 0 <= a < b < |r| ensures r[a] != r[b] {
      assert r[a] == s[if a < i then a else a + 1] && r[b] == s[if b < i then b else b + 1];
    }
    forall u | u in r ensures u in s && u != s[i] {
      var k :| 0 <= k < |r| && r[k] == u;
      assert u == s[if k < i then k else k + 1];
    }
    forall u | u in s && u != s[i] ensures u in r {
      var k :| 0 <= k < |s| && s[k] == u;
      assert r[if k < i then k else k - 1] == u;
    }
  }

  /** A prefix one longer is the prefix with the next element appended. */
  lemma TakeOneMore<T>(s: seq<T>, j: nat)
    requires j < |s|
    ensures s[..j + 1] == s[..j] + [s[j]]
  {
  }

  /** Appending a new element keeps a list free of duplicates. */
  lemma AppendNoDup<T>(s: seq<T>, x: T)
    requires NoDup(s) && x !in s
    ensures NoDup(s + [x])
  {
    var r := s + [x];
    forall a, b | 0 <= a < b < |r| ensures r[a] != r[b] {
      if b == |s| {
        assert r[a] in s;
      }
    }
  }
}
