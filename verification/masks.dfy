/**
 Boolean-mask primitives of a data frame, stated over sequences.

 A column is a sequence of values (one per row); a mask is a predicate evaluated
 row by row. `Keep` is boolean-mask indexing (`df[mask]`): the rows whose mask entry
 is true, in their original order. `Positions` is the index the masked frame keeps:
 the original positions of those rows. `Count` is `mask.sum()`. `Unique` is
 `Series.unique()`: the distinct values in order of first appearance.
 */
module Masks {

  /** True when no value occurs twice in `s`. */
  predicate NoDup<T(==)>(s: seq<T>) {
    forall i, j :: 0 <= i < j < |s| ==> s[i] != s[j]
  }

  /** True when `idx` is strictly increasing. */
  predicate Increasing(idx: seq<nat>) {
    forall k, l :: 0 <= k < l < |idx| ==> idx[k] < idx[l]
  }

  /** The column obtained by applying `f` to every row. */
  function Project<T, U>(s: seq<T>, f: T -> U): (col: seq<U>)
    ensures |col| == |s|
    ensures forall i :: 0 <= i < |s| ==> col[i] == f(s[i])
  {
    seq(|s|, i requires 0 <= i < |s| => f(s[i]))
  }

  /** The conjunction of two row predicates (the `&` of two boolean Series). */
  function And<T>(p: T -> bool, q: T -> bool): T -> bool {
    x => p(x) && q(x)
  }

  /** Boolean-mask indexing: the elements of `s` that satisfy `p`, in order. */
  function Keep<T>(s: seq<T>, p: T -> bool): (r: seq<T>)
    ensures |r| <= |s|
    ensures forall i :: 0 <= i < |r| ==> p(r[i])
  {
    if |s| == 0 then []
    else if p(s[0]) then [s[0]] + Keep(s[1..], p)
    else Keep(s[1..], p)
  }

  /** The positions whose row passes the mask. */
  function MaskSet<T>(s: seq<T>, p: T -> bool): set<int> {
    set i | 0 <= i < |s| && p(s[i])
  }

  /** Appending a row adds one to the mask sum exactly when the row passes. */
  lemma {:induction false} CountSnoc<T>(s: seq<T>, x: T, p: T -> bool)
    ensures Count(s + [x], p) == Count(s, p) + (if p(x) then 1 else 0)
  {
    if |s| > 0 {
      CountSnoc(s[1..], x, p);
      assert (s + [x])[1..] == s[1..] + [x];
    }
  }

  /** The mask sum is the number of positions whose row passes. */
  lemma {:induction false} CountIsMaskSet<T>(s: seq<T>, p: T -> bool)
    ensures Count(s, p) == |MaskSet(s, p)|
  {
    if |s| > 0 {
      var init := s[..|s| - 1];
      var x := s[|s| - 1];
      assert s == init + [x];
      CountIsMaskSet(init, p);
      CountSnoc(init, x, p);
      var before := MaskSet(init, p);
      var after := MaskSet(s, p);
      if p(x) {
        assert after == before + {|s| - 1};
      } else {
        assert after == before;
      }
    }
  }

  /** The masked frame holds only rows of the frame, and every row that passes. */
  lemma {:induction false} KeepMembers<T>(s: seq<T>, p: T -> bool)
    ensures forall k :: 0 <= k < |Keep(s, p)| ==> Keep(s, p)[k] in s
    ensures forall i :: 0 <= i < |s| && p(s[i]) ==> s[i] in Keep(s, p)
  {
    if |s| > 0 {
      KeepMembers(s[1..], p);
      var kept := Keep(s, p);
      var rest := Keep(s[1..], p);
      if p(s[0]) {
        assert kept == [s[0]] + rest;
      } else {
        assert kept == rest;
      }
      forall k | 0 <= k < |kept| ensures kept[k] in s {
        if kept[k] in s[1..] {
          var j :| 0 <= j < |s[1..]| && s[1..][j] == kept[k];
          assert s[j + 1] == kept[k];
        }
      }
      forall i | 0 < i < |s| && p(s[i]) ensures s[i] in kept {
        assert s[i] == s[1..][i - 1];
      }
    }
  }

  /** Number of entries of the mask that are true. */
  function Count<T>(s: seq<T>, p: T -> bool): (n: nat)
    ensures n <= |s|
  {
    if |s| == 0 then 0
    else (if p(s[0]) then 1 else 0) + Count(s[1..], p)
  }

  /** The original positions of the kept rows of `s`, when `s` starts at position `base`. */
  function IndexFrom<T>(s: seq<T>, p: T -> bool, base: nat): (idx: seq<nat>)
    ensures |idx| == |Keep(s, p)|
    ensures forall k :: 0 <= k < |idx| ==> base <= idx[k] < base + |s|
  {
    if |s| == 0 then []
    else if p(s[0]) then [base] + IndexFrom(s[1..], p, base + 1)
    else IndexFrom(s[1..], p, base + 1)
  }

  /** The index labels of the masked frame: the original positions of the kept rows. */
  function Positions<T>(s: seq<T>, p: T -> bool): seq<nat> {
    IndexFrom(s, p, 0)
  }

  /** The `k`-th kept row is the row found at the `k`-th kept position. */
  lemma {:induction false} IndexFromRows<T>(s: seq<T>, p: T -> bool, base: nat)
    ensures forall k :: 0 <= k < |IndexFrom(s, p, base)| ==>
      s[IndexFrom(s, p, base)[k] - base] == Keep(s, p)[k]
  {
    if |s| > 0 {
      IndexFromRows(s[1..], p, base + 1);
      var idx := IndexFrom(s, p, base);
      var tail := IndexFrom(s[1..], p, base + 1);
      var kept := Keep(s, p);
      var rest := Keep(s[1..], p);
      if p(s[0]) {
        assert idx == [base] + tail && kept == [s[0]] + rest;
        forall k | 0 < k < |idx| ensures s[idx[k] - base] == kept[k] {
          assert idx[k] == tail[k - 1] && kept[k] == rest[k - 1];
          assert s[idx[k] - base] == s[1..][tail[k - 1] - (base + 1)];
        }
      } else {
        assert idx == tail && kept == rest;
        forall k | 0 <= k < |idx| ensures s[idx[k] - base] == kept[k] {
          assert s[idx[k] - base] == s[1..][tail[k] - (base + 1)];
        }
      }
    }
  }

  /** The kept positions are listed in increasing order. */
  lemma {:induction false} IndexFromIncreasing<T>(s: seq<T>, p: T -> bool, base: nat)
    ensures Increasing(IndexFrom(s, p, base))
  {
    if |s| > 0 {
      IndexFromIncreasing(s[1..], p, base + 1);
      var idx := IndexFrom(s, p, base);
      var tail := IndexFrom(s[1..], p, base + 1);
      if p(s[0]) {
        assert idx == [base] + tail;
        forall k, l | 0 <= k < l < |idx| ensures idx[k] < idx[l] {
          assert idx[l] == tail[l - 1];
          if k > 0 { assert idx[k] == tail[k - 1]; }
        }
      } else {
        assert idx == tail;
      }
    }
  }

  /** A position is kept exactly when its row passes the mask. */
  lemma {:induction false} IndexFromMembership<T>(s: seq<T>, p: T -> bool, base: nat)
    ensures forall i :: base <= i < base + |s| ==> (i in IndexFrom(s, p, base) <==> p(s[i - base]))
  {
    if |s| > 0 {
      IndexFromMembership(s[1..], p, base + 1);
      var idx := IndexFrom(s, p, base);
      var tail := IndexFrom(s[1..], p, base + 1);
      assert base !in tail;
      if p(s[0]) {
        assert idx == [base] + tail;
      } else {
        assert idx == tail;
      }
      forall i | base < i < base + |s| ensures i in idx <==> p(s[i - base]) {
        assert i in idx <==> i in tail;
        assert s[i - base] == s[1..][i - (base + 1)];
      }
    }
  }

  /**
   The index the masked frame keeps holds exactly the positions `i` where `p(s[i])`
   holds, in increasing order, and the `k`-th kept row is the row at the `k`-th of them.
   */
  lemma PositionsExact<T>(s: seq<T>, p: T -> bool)
    ensures |Positions(s, p)| == |Keep(s, p)|
    ensures forall k :: 0 <= k < |Positions(s, p)| ==>
      Positions(s, p)[k] < |s| && s[Positions(s, p)[k]] == Keep(s, p)[k]
    ensures Increasing(Positions(s, p))
    ensures forall i :: 0 <= i < |s| ==> (i in Positions(s, p) <==> p(s[i]))
  {
    var idx := IndexFrom(s, p, 0);
    assert Positions(s, p) == idx;
    IndexFromRows(s, p, 0);
    IndexFromIncreasing(s, p, 0);
    IndexFromMembership(s, p, 0);
    forall k | 0 <= k < |idx| ensures idx[k] < |s| && s[idx[k]] == Keep(s, p)[k] {
      assert idx[k] - 0 == idx[k];
    }
    forall i | 0 <= i < |s| ensures i in idx <==> p(s[i]) {
      assert i - 0 == i;
    }
  }

  /** The length of the masked frame is the number of true mask entries. */
  lemma {:induction false} KeepLength<T>(s: seq<T>, p: T -> bool)
    ensures |Keep(s, p)| == Count(s, p)
  {
    if |s| > 0 {
      KeepLength(s[1..], p);
    }
  }

  /** Masking keeps every element with its full multiplicity when it passes, and drops it otherwise. */
  lemma {:induction false} KeepMultiset<T>(s: seq<T>, p: T -> bool, x: T)
    ensures multiset(Keep(s, p))[x] == if p(x) then multiset(s)[x] else 0
  {
    if |s| > 0 {
      KeepMultiset(s[1..], p, x);
      assert s == [s[0]] + s[1..];
    }
  }

  /** Masking keeps everything exactly when every element passes. */
  lemma {:induction false} KeepAll<T>(s: seq<T>, p: T -> bool)
    ensures Keep(s, p) == s <==> forall i :: 0 <= i < |s| ==> p(s[i])
  {
    if forall i :: 0 <= i < |s| ==> p(s[i]) {
      if |s| > 0 {
        assert p(s[0]);
        assert forall i :: 0 <= i < |s[1..]| ==> p(s[1..][i]) by {
          forall i | 0 <= i < |s[1..]| ensures p(s[1..][i]) {
            assert s[1..][i] == s[i + 1];
          }
        }
        KeepAll(s[1..], p);
        assert [s[0]] + s[1..] == s;
      }
    }
  }

  /** Masking keeps nothing exactly when no element passes. */
  lemma {:induction false} KeepNone<T>(s: seq<T>, p: T -> bool)
    ensures Keep(s, p) == [] <==> forall i :: 0 <= i < |s| ==> !p(s[i])
  {
    if forall i :: 0 <= i < |s| ==> !p(s[i]) {
      if |s| > 0 {
        assert !p(s[0]);
        assert forall i :: 0 <= i < |s[1..]| ==> !p(s[1..][i]) by {
          forall i | 0 <= i < |s[1..]| ensures !p(s[1..][i]) {
            assert s[1..][i] == s[i + 1];
          }
        }
        KeepNone(s[1..], p);
      }
    } else {
      var i :| 0 <= i < |s| && p(s[i]);
      KeepMembers(s, p);
      assert s[i] in Keep(s, p);
    }
  }

  /** Applying the same mask to the masked frame changes nothing. */
  lemma KeepIdempotent<T>(s: seq<T>, p: T -> bool)
    ensures Keep(Keep(s, p), p) == Keep(s, p)
  {
    KeepAll(Keep(s, p), p);
  }

  /** Masking the masked frame again is masking once with the conjunction of both masks. */
  lemma {:induction false} KeepKeep<T>(s: seq<T>, p: T -> bool, q: T -> bool)
    ensures Keep(Keep(s, p), q) == Keep(s, And(p, q))
  {
    if |s| > 0 {
      KeepKeep(s[1..], p, q);
      if p(s[0]) {
        var k := Keep(s, p);
        assert k[0] == s[0] && k[1..] == Keep(s[1..], p);
      }
    }
  }

  /** Two masks that agree on every element select the same rows. */
  lemma {:induction false} KeepAgree<T>(s: seq<T>, p: T -> bool, q: T -> bool)
    requires forall i :: 0 <= i < |s| ==> p(s[i]) == q(s[i])
    ensures Keep(s, p) == Keep(s, q)
  {
    if |s| > 0 {
      assert p(s[0]) == q(s[0]);
      assert forall i :: 0 <= i < |s[1..]| ==> p(s[1..][i]) == q(s[1..][i]) by {
        forall i | 0 <= i < |s[1..]| ensures p(s[1..][i]) == q(s[1..][i]) {
          assert s[1..][i] == s[i + 1];
        }
      }
      KeepAgree(s[1..], p, q);
    }
  }

  /** Counting `q` over the rows kept by `p` counts the rows that pass both. */
  lemma {:induction false} CountOfKeep<T>(s: seq<T>, p: T -> bool, q: T -> bool)
    ensures Count(Keep(s, p), q) == Count(s, And(p, q))
  {
    if |s| > 0 {
      CountOfKeep(s[1..], p, q);
      if p(s[0]) {
        var k := Keep(s, p);
        assert k[0] == s[0] && k[1..] == Keep(s[1..], p);
      }
    }
  }

  /** No true entry in the mask exactly when no element passes. */
  lemma {:induction false} CountZero<T>(s: seq<T>, p: T -> bool)
    ensures Count(s, p) == 0 <==> forall i :: 0 <= i < |s| ==> !p(s[i])
  {
    KeepLength(s, p);
    KeepNone(s, p);
  }

  /** Every entry of the mask is true exactly when every element passes. */
  lemma {:induction false} CountFull<T>(s: seq<T>, p: T -> bool)
    ensures Count(s, p) == |s| <==> forall i :: 0 <= i < |s| ==> p(s[i])
  {
    if |s| > 0 {
      CountFull(s[1..], p);
      if forall i :: 0 <= i < |s[1..]| ==> p(s[1..][i]) {
        if p(s[0]) {
          forall i | 0 <= i < |s| ensures p(s[i]) {
            if i > 0 { assert s[i] == s[1..][i - 1]; }
          }
        }
      } else {
        var j :| 0 <= j < |s[1..]| && !p(s[1..][j]);
        assert !p(s[j + 1]);
      }
    }
  }

  /** The distinct values of `s`, in order of first appearance. */
  function Unique<T(==)>(s: seq<T>): (u: seq<T>)
    ensures forall k :: 0 <= k < |u| ==> u[k] in s
    ensures forall i :: 0 <= i < |s| ==> s[i] in u
    ensures NoDup(u)
  {
    if |s| == 0 then []
    else
      var init := Unique(s[..|s| - 1]);
      assert s == s[..|s| - 1] + [s[|s| - 1]];
      if s[|s| - 1] in init then init else init + [s[|s| - 1]]
  }
}
