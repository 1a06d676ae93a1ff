/** Order-preserving selection of the elements of a sequence that satisfy a
    predicate.  Both the kill loop (one kill per non-empty PID piece) and the
    focus-session loop (one block request per unauthorised sample) emit such a
    selection of their input, so the notion is defined once here.
 */
module Selection {

  /** The elements of `s` that satisfy `keep`, in their original order.
      Defined from the back so that a loop appending to its output matches
      the definition step by step. */
  function Filter<T>(s: seq<T>, keep: T -> bool): (r: seq<T>)
    ensures |r| <= |s|
  {
    if s == [] then []
    else
      var init := Filter(s[..|s| - 1], keep);
      if keep(s[|s| - 1]) then init + [s[|s| - 1]] else init
  }

  /** `r` picks, through the strictly increasing indices `idx`, exactly the
      positions of `s` whose element satisfies `keep`: every kept position
      appears once, no other position appears, and the order is that of `s`. */
  ghost predicate IsSelection<T>(r: seq<T>, s: seq<T>, keep: T -> bool, idx: seq<nat>)
  {
    && |idx| == |r|
    && (forall j :: 0 <= j < |idx| ==> idx[j] < |s| && r[j] == s[idx[j]])
    && (forall j, k :: 0 <= j < k < |idx| ==> idx[j] < idx[k])
    && (forall i :: 0 <= i < |s| ==> (keep(s[i]) <==> i in idx))
  }

  /** Extending the input by one element extends the selection by that
      element exactly when it is kept. */
  lemma FilterSnoc<T>(s: seq<T>, x: T, keep: T -> bool)
    ensures Filter(s + [x], keep) == if keep(x) then Filter(s, keep) + [x] else Filter(s, keep)
  {
    assert (s + [x])[..|s|] == s;
  }

  /** Filter over one more element of a prefix of `s`. */
  lemma FilterPrefix<T>(s: seq<T>, j: nat, keep: T -> bool)
    requires j < |s|
    ensures Filter(s[..j + 1], keep) == if keep(s[j]) then Filter(s[..j], keep) + [s[j]] else Filter(s[..j], keep)
  {
    assert s[..j + 1][..j] == s[..j];
  }

  /** Filter is a selection in the sense of IsSelection. */
  lemma {:induction false} FilterSelects<T>(s: seq<T>, keep: T -> bool) returns (idx: seq<nat>)
    ensures IsSelection(Filter(s, keep), s, keep, idx)
  {
    if s == [] {
      idx := [];
    } else {
      var n := |s| - 1;
      var init := s[..n];
      var idx0 := FilterSelects(init, keep);
      FilterSnoc(init, s[n], keep);
      assert init + [s[n]] == s;
      idx := SelectionSnoc(Filter(init, keep), init, s[n], keep, idx0, Filter(s, keep), s);
    }
  }

  /** A selection `r` of `s` extends to a selection `r'` of `s' == s + [x]`. */
  lemma SelectionSnoc<T>(r: seq<T>, s: seq<T>, x: T, keep: T -> bool, idx: seq<nat>, r': seq<T>, s': seq<T>)
    returns (idx': seq<nat>)
    requires IsSelection(r, s, keep, idx)
    requires s' == s + [x]
    requires r' == if keep(x) then r + [x] else r
    ensures IsSelection(r', s', keep, idx')
  {
    var n := |s|;
    if keep(x) {
      idx' := idx + [n];
      forall j | 0 <= j < |idx'|
        ensures idx'[j] < |s'| && r'[j] == s'[idx'[j]]
      {
        if j < |idx| {
          assert idx'[j] == idx[j] && r'[j] == r[j];
        }
      }
      forall j, k | 0 <= j < k < |idx'|
        ensures idx'[j] < idx'[k]
      {
        if k < |idx| {
          assert idx'[j] == idx[j] && idx'[k] == idx[k];
        } else {
          assert idx'[j] == idx[j] < n;
        }
      }
      forall i | 0 <= i < |s'|
        ensures keep(s'[i]) <==> i in idx'
      {
        if i < n {
          assert s'[i] == s[i];
          assert i in idx' <==> i in idx;
        } else {
          assert idx'[|idx|] == i;
        }
      }
    } else {
      idx' := idx;
      forall i | 0 <= i < |s'|
        ensures keep(s'[i]) <==> i in idx'
      {
        if i < n {
          assert s'[i] == s[i];
        } else {
          assert i !in idx;
        }
      }
    }
  }

  /** Conversely, any selection of the kept positions is Filter's result:
      IsSelection determines the output uniquely. */
  lemma {:induction false} SelectionIsFilter<T>(r: seq<T>, s: seq<T>, keep: T -> bool, idx: seq<nat>)
    requires IsSelection(r, s, keep, idx)
    ensures r == Filter(s, keep)
  {
    if s != [] {
      var n := |s| - 1;
      if keep(s[n]) {
        var m := SelectionEndsAtLast(r, s, keep, idx);
        SelectionDropLast(r, s, keep, idx);
        SelectionIsFilter(r[..m], s[..n], keep, idx[..m]);
        assert r == r[..m] + [s[n]];
      } else {
        SelectionSkipsLast(r, s, keep, idx);
        SelectionIsFilter(r, s[..n], keep, idx);
      }
    }
  }

  /** When the last element of `s` is kept, it is the last one selected. */
  lemma SelectionEndsAtLast<T>(r: seq<T>, s: seq<T>, keep: T -> bool, idx: seq<nat>) returns (m: nat)
    requires IsSelection(r, s, keep, idx) && s != [] && keep(s[|s| - 1])
    ensures |idx| > 0 && m == |idx| - 1 && idx[m] == |s| - 1 && r[m] == s[|s| - 1]
  {
    var n := |s| - 1;
    assert n in idx;
    m := |idx| - 1;
    var j :| 0 <= j < |idx| && idx[j] == n;
    assert idx[m] >= idx[j];
  }

  /** Removing a kept last element leaves a selection of the shorter input. */
  lemma SelectionDropLast<T>(r: seq<T>, s: seq<T>, keep: T -> bool, idx: seq<nat>)
    requires IsSelection(r, s, keep, idx) && s != [] && |idx| > 0 && idx[|idx| - 1] == |s| - 1
    ensures IsSelection(r[..|idx| - 1], s[..|s| - 1], keep, idx[..|idx| - 1])
  {
    var n, m := |s| - 1, |idx| - 1;
    var idx0, r0, s0 := idx[..m], r[..m], s[..n];
    forall j | 0 <= j < m
      ensures idx0[j] < n && r0[j] == s0[idx0[j]]
    {
      assert idx[j] < idx[m];
    }
    forall i | 0 <= i < n
      ensures keep(s0[i]) <==> i in idx0
    {
      if i in idx {
        var j :| 0 <= j < |idx| && idx[j] == i;
        assert j != m;
        assert idx0[j] == i;
      }
    }
  }

  /** A selection that does not keep the last element never points at it. */
  lemma SelectionSkipsLast<T>(r: seq<T>, s: seq<T>, keep: T -> bool, idx: seq<nat>)
    requires IsSelection(r, s, keep, idx) && s != [] && !keep(s[|s| - 1])
    ensures IsSelection(r, s[..|s| - 1], keep, idx)
  {
    var n := |s| - 1;
    forall j | 0 <= j < |idx|
      ensures idx[j] < n && r[j] == s[..n][idx[j]]
    {
      assert idx[j] != n;
    }
  }
}
