/** The array operations the components and reducers are built from:
    `filter`, membership, `[...new Set(xs)]` and "push each missing item". */
module Seqs {

  /** `a` is obtained from `b` by dropping some elements, keeping the order. */
  predicate IsSubseq<T(==,!new)>(a: seq<T>, b: seq<T>)
    decreases |b|
  {
    a == [] || (b != [] && ((a[0] == b[0] && IsSubseq(a[1..], b[1..])) || IsSubseq(a, b[1..])))
  }

  /** Every sequence is a subsequence of itself. */
  lemma {:induction false} IsSubseqRefl<T(!new)>(s: seq<T>)
    ensures IsSubseq(s, s)
    decreases |s|
  {
    if s != [] {
      IsSubseqRefl(s[1..]);
    }
  }

  /** No element occurs twice. */
  predicate NoDup<T(==,!new)>(s: seq<T>) {
    forall i, j :: 0 <= i < j < |s| ==> s[i] != s[j]
  }

  /** `s.filter(keep)`: the elements that pass, in their order, each as often
      as it occurs in `s`. */
  function Filter<T(==,!new)>(s: seq<T>, keep: T -> bool): (r: seq<T>)
    ensures forall x :: multiset(r)[x] == if keep(x) then multiset(s)[x] else 0
    ensures forall x :: x in r <==> x in s && keep(x)
    ensures IsSubseq(r, s)
    decreases |s|
  {
    if s == [] then []
    else
      var rest := Filter(s[1..], keep);
      assert s == [s[0]] + s[1..];
      if keep(s[0]) then [s[0]] + rest else rest
  }

  /** Filtering a sequence that starts with `x`. */
  lemma FilterCons<T(!new)>(x: T, s: seq<T>, keep: T -> bool)
    ensures Filter([x] + s, keep) == (if keep(x) then [x] else []) + Filter(s, keep)
  {
    assert ([x] + s)[1..] == s;
  }

  /** Filtering keeps a sequence whose every element passes. */
  lemma {:induction false} FilterKeepsAll<T(!new)>(s: seq<T>, keep: T -> bool)
    requires forall i :: 0 <= i < |s| ==> keep(s[i])
    ensures Filter(s, keep) == s
    decreases |s|
  {
    if s != [] {
      FilterKeepsAll(s[1..], keep);
    }
  }

  /** Filtering a sequence without duplicates gives one without duplicates. */
  lemma {:induction false} FilterNoDup<T(!new)>(s: seq<T>, keep: T -> bool)
    requires NoDup(s)
    ensures NoDup(Filter(s, keep))
    decreases |s|
  {
    if s != [] {
      assert NoDup(s[1..]) by {
        forall i, j | 0 <= i < j < |s[1..]| ensures s[1..][i] != s[1..][j] {
          assert s[1..][i] == s[i + 1] && s[1..][j] == s[j + 1];
        }
      }
      FilterNoDup(s[1..], keep);
      assert s[0] !in s[1..] by {
        forall k | 0 <= k < |s[1..]| ensures s[1..][k] != s[0] {
          assert s[1..][k] == s[k + 1];
        }
      }
    }
  }

  /** Starting from `acc`, walk `s` and push each element not yet present:
      both `[...new Set(s)]` (from an empty `acc`) and the select-all loop. */
  function AppendMissing<T(==,!new)>(acc: seq<T>, s: seq<T>): (r: seq<T>)
    ensures |acc| <= |r| && r[..|acc|] == acc
    ensures forall x :: x in r <==> x in acc || x in s
    ensures forall i :: |acc| <= i < |r| ==> r[i] !in acc
    ensures NoDup(r[|acc|..])
    ensures NoDup(acc) ==> NoDup(r)
    decreases |s|
  {
    if s == [] then acc
    else
      var next := if s[0] in acc then acc else acc + [s[0]];
      var r := AppendMissing(next, s[1..]);
      assert r[..|next|] == next;
      assert r[..|acc|] == next[..|acc|];
      assert s == [s[0]] + s[1..];
      assert NoDup(r[|acc|..]) by {
        if s[0] !in acc {
          PushedStaysDistinct(acc, s[0], r);
        } else {
          assert r[|acc|..] == r[|next|..];
        }
      }
      r
  }

  /** Pushing `x` onto `acc` and then only elements not in `acc + [x]` keeps
      the pushed part free of duplicates. */
  lemma PushedStaysDistinct<T(!new)>(acc: seq<T>, x: T, r: seq<T>)
    requires |acc| + 1 <= |r| && r[..|acc| + 1] == acc + [x]
    requires forall i :: |acc| + 1 <= i < |r| ==> r[i] !in acc + [x]
    requires NoDup(r[|acc| + 1..])
    ensures NoDup(r[|acc|..])
  {
    var next := acc + [x];
    forall i, j | |acc| <= i < j < |r| ensures r[i] != r[j] {
      if i == |acc| {
        assert r[i] == next[|acc|] == x && x in next;
        assert r[j] !in next;
      } else {
        assert r[|next|..][i - |next|] == r[i] && r[|next|..][j - |next|] == r[j];
      }
    }
  }

  /** One step of the walk: the first element is pushed if missing. */
  lemma AppendMissingStep<T(!new)>(acc: seq<T>, s: seq<T>)
    requires s != []
    ensures AppendMissing(acc, s) == AppendMissing(if s[0] in acc then acc else acc + [s[0]], s[1..])
  {
  }

  /** `[...new Set(s)]`: each distinct element once, first occurrence first. */
  function Dedupe<T(==,!new)>(s: seq<T>): (r: seq<T>)
    ensures NoDup(r)
    ensures forall x :: x in r <==> x in s
  {
    var r := AppendMissing([], s);
    assert r[0..] == r;
    r
  }

  /** Position of the first occurrence of `x` in `s`. */
  function FirstIndex<T(==,!new)>(s: seq<T>, x: T): (i: nat)
    requires x in s
    ensures i < |s| && s[i] == x && x !in s[..i]
  {
    if s[0] == x then 0 else 1 + FirstIndex(s[1..], x)
  }

  /** What `AppendMissing` adds appears in the order of first occurrence in `s`. */
  lemma {:induction false} AppendMissingOrder<T(!new)>(acc: seq<T>, s: seq<T>, i: int, j: int)
    requires |acc| <= i < j < |AppendMissing(acc, s)|
    ensures AppendMissing(acc, s)[i] in s && AppendMissing(acc, s)[j] in s
    ensures FirstIndex(s, AppendMissing(acc, s)[i]) < FirstIndex(s, AppendMissing(acc, s)[j])
    decreases |s|
  {
    var r := AppendMissing(acc, s);
    assert s != [];
    var next := if s[0] in acc then acc else acc + [s[0]];
    assert r == AppendMissing(next, s[1..]);
    assert r[i] !in acc && r[j] !in acc;
    assert r[j] != s[0] by {
      if s[0] !in acc {
        assert r[|acc|] == next[|acc|] == s[0];
        assert r[|acc|..][j - |acc|] == r[j] && r[|acc|..][0] == r[|acc|];
      }
    }
    assert r[j] in s[1..];
    if i >= |next| {
      AppendMissingOrder(next, s[1..], i, j);
      assert r[i] != s[0] by {
        if s[0] !in acc {
          assert r[|acc|..][i - |acc|] == r[i] && r[|acc|..][0] == s[0];
        }
      }
    } else {
      assert i == |acc| && s[0] !in acc;
      assert r[i] == s[0];
    }
  }

  /** `[...new Set(s)]` keeps first occurrences, in order. */
  lemma DedupeOrder<T(!new)>(s: seq<T>, i: int, j: int)
    requires 0 <= i < j < |Dedupe(s)|
    ensures Dedupe(s)[i] in s && Dedupe(s)[j] in s
    ensures FirstIndex(s, Dedupe(s)[i]) < FirstIndex(s, Dedupe(s)[j])
  {
    AppendMissingOrder([], s, i, j);
  }

  /** Deduplicating a sequence that has no duplicates changes nothing. */
  lemma {:induction false} AppendMissingNoDup<T(!new)>(acc: seq<T>, s: seq<T>)
    requires NoDup(acc + s)
    ensures AppendMissing(acc, s) == acc + s
    decreases |s|
  {
    if s != [] {
      assert s[0] !in acc by {
        forall k | 0 <= k < |acc| ensures acc[k] != s[0] {
          assert (acc + s)[k] == acc[k] && (acc + s)[|acc|] == s[0];
        }
      }
      assert acc + [s[0]] + s[1..] == acc + s;
      AppendMissingNoDup(acc + [s[0]], s[1..]);
    }
  }

  /** `s.map(x => key(x) === key(y) ? y : x)`: every element with `y`'s key
      becomes `y`. */
  function ReplaceKeyed<T, K(==)>(s: seq<T>, key: T -> K, y: T): (r: seq<T>)
    ensures |r| == |s|
    ensures forall i :: 0 <= i < |s| ==> r[i] == if key(s[i]) == key(y) then y else s[i]
  {
    seq(|s|, i requires 0 <= i < |s| => if key(s[i]) == key(y) then y else s[i])
  }

  /** Replacing by key keeps every position's key, and a second replacement
      with the same record changes nothing. */
  lemma ReplaceKeyedIdempotent<T, K>(s: seq<T>, key: T -> K, y: T)
    ensures forall i :: 0 <= i < |s| ==> key(ReplaceKeyed(s, key, y)[i]) == key(s[i])
    ensures ReplaceKeyed(ReplaceKeyed(s, key, y), key, y) == ReplaceKeyed(s, key, y)
  {
  }

  /** `s.filter(x => key(x) !== k)`: drops every element with key `k` and
      keeps the others, in order and as often as they occur. */
  function RemoveKeyed<T, K(==)>(s: seq<T>, key: T -> K, k: K): (r: seq<T>)
    ensures forall i :: 0 <= i < |r| ==> key(r[i]) != k
    decreases |s|
  {
    if s == [] then []
    else
      var rest := RemoveKeyed(s[1..], key, k);
      if key(s[0]) != k then [s[0]] + rest else rest
  }

  /** Removing by key drops every element with key `k` and keeps each other
      element as often as it occurs. */
  lemma {:induction false} RemoveKeyedCounts<T(!new), K>(s: seq<T>, key: T -> K, k: K)
    ensures forall x :: multiset(RemoveKeyed(s, key, k))[x] == if key(x) == k then 0 else multiset(s)[x]
    decreases |s|
  {
    if s != [] {
      RemoveKeyedCounts(s[1..], key, k);
      assert s == [s[0]] + s[1..];
    }
  }

  /** Removing by key keeps the order of what remains. */
  lemma {:induction false} RemoveKeyedSubseq<T(!new), K>(s: seq<T>, key: T -> K, k: K)
    ensures IsSubseq(RemoveKeyed(s, key, k), s)
    decreases |s|
  {
    if s != [] {
      RemoveKeyedSubseq(s[1..], key, k);
      var rest := RemoveKeyed(s[1..], key, k);
      if key(s[0]) != k {
        assert ([s[0]] + rest)[1..] == rest;
      }
    }
  }

  /** Removing a key no element has changes nothing. */
  lemma {:induction false} RemoveKeyedAbsent<T(!new), K>(s: seq<T>, key: T -> K, k: K)
    requires forall i :: 0 <= i < |s| ==> key(s[i]) != k
    ensures RemoveKeyed(s, key, k) == s
    decreases |s|
  {
    if s != [] {
      RemoveKeyedAbsent(s[1..], key, k);
    }
  }

  /** Removing from a sequence extended at the end. */
  lemma {:induction false} RemoveKeyedSnoc<T(!new), K>(s: seq<T>, x: T, key: T -> K, k: K)
    ensures RemoveKeyed(s + [x], key, k) == RemoveKeyed(s, key, k) + (if key(x) != k then [x] else [])
    decreases |s|
  {
    var tail := if key(x) != k then [x] else [];
    if s == [] {
      assert [x][1..] == [];
      assert RemoveKeyed([x], key, k) == tail + RemoveKeyed([], key, k);
    } else {
      var t := s + [x];
      var h := if key(s[0]) != k then [s[0]] else [];
      assert t[0] == s[0];
      assert t[1..] == s[1..] + [x] by {
        assert |t[1..]| == |s[1..] + [x]|;
        forall i | 0 <= i < |t[1..]| ensures t[1..][i] == (s[1..] + [x])[i] {
          if i < |s| - 1 {
            assert t[1..][i] == s[i + 1];
          }
        }
      }
      RemoveKeyedSnoc(s[1..], x, key, k);
      var a := RemoveKeyed(s[1..], key, k);
      assert RemoveKeyed(t, key, k) == h + (a + tail);
      assert RemoveKeyed(s, key, k) == h + a;
      ConcatAssoc(h, a, tail);
    }
  }

  lemma ConcatAssoc<T>(a: seq<T>, b: seq<T>, c: seq<T>)
    ensures a + (b + c) == (a + b) + c
  {
  }

  /** A non-empty sequence holds its first element. */
  lemma HeadIsMember<T>(s: seq<T>)
    ensures s != [] ==> s[0] in s
  {
  }

  /** Removing the key of a record just appended to a sequence that did not
      hold that key gives the sequence back: deletion undoes creation. */
  lemma RemoveUndoesAppend<T(!new), K>(s: seq<T>, x: T, key: T -> K)
    requires forall i :: 0 <= i < |s| ==> key(s[i]) != key(x)
    ensures RemoveKeyed(s + [x], key, key(x)) == s
  {
    RemoveKeyedSnoc(s, x, key, key(x));
    RemoveKeyedAbsent(s, key, key(x));
  }
}
