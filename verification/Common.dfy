/** Result types and small facts about collections shared by the other modules. */
module Common {

  datatype Option<+T> = None | Some(value: T)

  datatype Result<+T, +E> = Ok(value: T) | Err(error: E)

  /** No two elements of `s` are equal; DistinctPair gives an instance. */
  ghost predicate Distinct<T>(s: seq<T>) {
    forall j :: 0 <= j < |s| ==> NewAt(s, j)
  }

  ghost predicate NewAt<T>(s: seq<T>, j: nat)
    requires j < |s|
  {
    forall i :: 0 <= i < j ==> s[i] != s[j]
  }

  lemma DistinctPair<T>(s: seq<T>, i: nat, j: nat)
    requires Distinct(s) && i < |s| && j < |s| && i != j
    ensures s[i] != s[j]
  {
    assert NewAt(s, i) && NewAt(s, j);
  }

  lemma DistinctConcat<T>(a: seq<T>, b: seq<T>)
    requires Distinct(a) && Distinct(b)
    requires forall x, y :: 0 <= x < |a| && 0 <= y < |b| ==> a[x] != b[y]
    ensures Distinct(a + b)
  {
    forall j: nat, i: nat | i < j < |a + b| ensures (a + b)[i] != (a + b)[j] {
      if j < |a| {
        DistinctPair(a, i, j);
      } else if i >= |a| {
        DistinctPair(b, i - |a|, j - |a|);
      }
    }
  }

  ghost function PickOne<T>(s: set<T>): (t: T)
    requires s != {}
    ensures t in s
  {
    var t :| t in s;
    t
  }

  lemma Assoc<T>(a: seq<T>, b: seq<T>, c: seq<T>)
    ensures a + b + c == a + (b + c)
  {
  }

  lemma ConsConcat<T>(a: seq<T>, b: seq<T>)
    requires a != []
    ensures a + b == [a[0]] + (a[1..] + b)
  {
  }

  lemma CutAt<T>(s: seq<T>, d: nat)
    requires d < |s|
    ensures s == s[..d] + s[d..] && s[d..][0] == s[d] && s[d..][1..] == s[d + 1..]
  {
  }

  lemma EmptyRight<T>(s: seq<T>)
    ensures s + [] == s
  {
  }

  lemma HeadTail<T>(a: seq<T>, b: seq<T>, c: seq<T>)
    requires a != [] && b == a + c
    ensures b[0] == a[0] && b[1..] == a[1..] + c
  {
  }

  lemma AppendAssoc<T>(a: seq<T>, b: seq<T>, c: seq<T>, d: seq<T>)
    ensures a + b + c + d == a + (b + c + d)
  {
  }

  lemma {:induction false} DistinctCard<T>(s: seq<T>)
    requires Distinct(s)
    ensures |set x | x in s| == |s|
  {
    if s == [] {
      assert (set x | x in s) == {};
    } else {
      var rest := s[..|s| - 1];
      forall j | 0 <= j < |rest| ensures NewAt(rest, j) {
        assert NewAt(s, j);
      }
      DistinctCard(rest);
      assert NewAt(s, |s| - 1);
      assert (set x | x in s) == (set x | x in rest) + {s[|s| - 1]};
    }
  }

  lemma {:induction false} SetCard<T>(s: seq<T>)
    ensures |set x | x in s| <= |s|
  {
    if s == [] {
      assert (set x | x in s) == {};
    } else {
      var rest := s[..|s| - 1];
      SetCard(rest);
      assert (set x | x in s) == (set x | x in rest) + {s[|s| - 1]};
    }
  }

  /** The numbers below `n`. */
  ghost function Range(n: nat): (r: set<nat>)
    ensures |r| == n && forall x: nat :: x in r <==> x < n
  {
    if n == 0 then {} else Range(n - 1) + {n - 1}
  }

  lemma SubsetFull<T>(a: set<T>, b: set<T>)
    requires a <= b
    ensures |a| <= |b| && (|a| == |b| <==> a == b)
  {
    assert b == a + (b - a);
  }

  /** Distinct numbers below `n` are `n` many exactly when none is left out. */
  lemma CoverCount(s: seq<nat>, n: nat)
    requires Distinct(s) && forall x :: x in s ==> x < n
    ensures |s| <= n
    ensures |s| == n <==> forall i: nat | i < n :: i in s
  {
    var listed := set x | x in s;
    DistinctCard(s);
    SubsetFull(listed, Range(n));
    if forall i: nat | i < n :: i in s {
      assert listed == Range(n);
    }
    if listed == Range(n) {
      forall i: nat | i < n ensures i in s {
        assert i in Range(n);
      }
    }
  }
}
