/** Order-preserving filtering and reversal of sequences: the list
    comprehensions and `list.reverse()` calls of the source. */
module Seqs {

  /** `[x for x in s if keep(x)]` */
  function Filter<T(!new)>(s: seq<T>, keep: T -> bool): (r: seq<T>)
    ensures |r| <= |s|
    ensures forall x :: x in r <==> x in s && keep(x)
  {
    if |s| == 0 then []
    else if keep(s[0]) then [s[0]] + Filter(s[1..], keep)
    else Filter(s[1..], keep)
  }

  /** Each kept element occurs in the result as often as in `s`; the others
      not at all. */
  lemma {:induction false} FilterCounts<T(!new)>(s: seq<T>, keep: T -> bool)
    ensures forall x :: multiset(Filter(s, keep))[x] == (if keep(x) then multiset(s)[x] else 0)
  {
    if |s| > 0 {
      FilterCounts(s[1..], keep);
      assert s == [s[0]] + s[1..];
      FilterCons(s, keep);
    }
  }

  /** One step of the comprehension: the head, when kept, before the rest. */
  lemma FilterCons<T(!new)>(s: seq<T>, keep: T -> bool)
    requires |s| > 0
    ensures Filter(s, keep) == (if keep(s[0]) then [s[0]] else []) + Filter(s[1..], keep)
  {
  }

  function Reverse<T>(s: seq<T>): (r: seq<T>)
    ensures |r| == |s|
    ensures forall k :: 0 <= k < |s| ==> r[k] == s[|s| - 1 - k]
  {
    if |s| == 0 then [] else Reverse(s[1..]) + [s[0]]
  }

  /** Reversal only reorders. */
  lemma {:induction false} ReverseCounts<T>(s: seq<T>)
    ensures multiset(Reverse(s)) == multiset(s)
  {
    if |s| > 0 {
      ReverseCounts(s[1..]);
      assert s == [s[0]] + s[1..];
    }
  }

  /** Filtering keeps the relative order of the kept elements: two kept
      positions a < b of `s` appear at positions ia < ib of the result. */
  lemma {:induction false} FilterKeepsOrder<T(!new)>(s: seq<T>, keep: T -> bool, a: nat, b: nat)
    requires a < b < |s| && keep(s[a]) && keep(s[b])
    ensures exists ia, ib :: 0 <= ia < ib < |Filter(s, keep)|
                             && Filter(s, keep)[ia] == s[a] && Filter(s, keep)[ib] == s[b]
  {
    var rest := Filter(s[1..], keep);
    if a == 0 {
      assert s[1..][b - 1] == s[b];
      assert s[b] in rest;
      var ib :| 0 <= ib < |rest| && rest[ib] == s[b];
      assert Filter(s, keep) == [s[0]] + rest;
      assert Filter(s, keep)[0] == s[a] && Filter(s, keep)[ib + 1] == s[b];
      assert 0 <= 0 < ib + 1 < |Filter(s, keep)|;
    } else {
      assert s[1..][a - 1] == s[a] && s[1..][b - 1] == s[b];
      FilterKeepsOrder(s[1..], keep, a - 1, b - 1);
      var ia, ib :| 0 <= ia < ib < |rest| && rest[ia] == s[a] && rest[ib] == s[b];
      if keep(s[0]) {
        assert Filter(s, keep) == [s[0]] + rest;
        assert Filter(s, keep)[ia + 1] == s[a] && Filter(s, keep)[ib + 1] == s[b];
      } else {
        assert Filter(s, keep) == rest;
      }
    }
  }
}
