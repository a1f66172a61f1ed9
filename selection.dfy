// The numpy semantics the conversion relies on: Python integer indexing
// (negative indices count from the end), `np.unique` (sorted distinct
// values) and boolean-mask selection `values[mask == id]` (the
// order-preserving subsequence whose mask entry equals `id`).

module Selection {

  /** The two ways the index logic of the conversion can fail; both are
      Python `IndexError`s that abort the whole conversion. */
  datatype Error =
    | MaskLengthMismatch(maskLength: nat, dataLength: nat)
    | IndexOutOfRange(index: int, length: nat)

  datatype Result<T> = Ok(value: T) | Err(error: Error)

  /** Python's `s[i]` on a one-dimensional array. */
  function PyIndex<T>(s: seq<T>, i: int): (r: Result<T>)
    ensures r.Ok? <==> -|s| <= i < |s|
    ensures r.Ok? ==> r.value in s
    ensures 0 <= i < |s| ==> r == Ok(s[i])
    ensures -|s| <= i < 0 ==> r == Ok(s[|s| + i])
    ensures r.Err? ==> r.error == IndexOutOfRange(i, |s|)
  {
    if 0 <= i < |s| then Ok(s[i])
    else if -|s| <= i < 0 then Ok(s[|s| + i])
    else Err(IndexOutOfRange(i, |s|))
  }

  ghost predicate StrictlyIncreasing(s: seq<int>) {
    forall i, j :: 0 <= i < j < |s| ==> s[i] < s[j]
  }

  /** Inserts `x` in front of the first element not below it, unless it is
      already there. */
  function InsertSorted(s: seq<int>, x: int): (r: seq<int>)
    ensures forall y :: y in r <==> y in s || y == x
    decreases |s|
  {
    if s == [] then [x]
    else if x < s[0] then [x] + s
    else if x == s[0] then s
    else [s[0]] + InsertSorted(s[1..], x)
  }

  lemma {:induction false} InsertSortedIncreasing(s: seq<int>, x: int)
    requires StrictlyIncreasing(s)
    ensures StrictlyIncreasing(InsertSorted(s, x))
    decreases |s|
  {
    if s != [] && x < s[0] {
      PrependIncreasing(x, s);
    } else if s != [] && x > s[0] {
      var rest := s[1..];
      assert StrictlyIncreasing(rest) by {
        forall i, j | 0 <= i < j < |rest| ensures rest[i] < rest[j] {
          assert rest[i] == s[i + 1] && rest[j] == s[j + 1];
        }
      }
      InsertSortedIncreasing(rest, x);
      var t := InsertSorted(rest, x);
      if t != [] {
        assert t[0] in t;
        if t[0] in rest {
          var m :| 0 <= m < |rest| && rest[m] == t[0];
          assert s[m + 1] == t[0];
        }
      }
      PrependIncreasing(s[0], t);
    }
  }

  /** A value below the head of an increasing sequence can go in front. */
  lemma PrependIncreasing(x: int, s: seq<int>)
    requires StrictlyIncreasing(s) && (s != [] ==> x < s[0])
    ensures StrictlyIncreasing([x] + s)
  {
    var r := [x] + s;
    forall i, j | 0 <= i < j < |r| ensures r[i] < r[j] {
      if i == 0 {
        assert r[j] == s[j - 1] && s[0] <= s[j - 1];
      } else {
        assert r[i] == s[i - 1] && r[j] == s[j - 1];
      }
    }
  }

  /** `np.unique` on a one-dimensional integer array: the distinct values
      (see `UniqueIncreasing` for their order). */
  function Unique(s: seq<int>): (r: seq<int>)
    ensures forall y :: y in r <==> y in s
    decreases |s|
  {
    if s == [] then [] else InsertSorted(Unique(s[..|s| - 1]), s[|s| - 1])
  }

  /** `np.unique` lists each distinct value once, in ascending order. */
  lemma {:induction false} UniqueIncreasing(s: seq<int>)
    ensures StrictlyIncreasing(Unique(s))
    decreases |s|
  {
    if s != [] {
      UniqueIncreasing(s[..|s| - 1]);
      InsertSortedIncreasing(Unique(s[..|s| - 1]), s[|s| - 1]);
    }
  }

  /** Walking `Unique(s)` in order, the ids visited before position `j` are
      exactly the values of `s` below `Unique(s)[j]`. */
  lemma UniquePrefix(s: seq<int>, j: nat)
    requires j < |Unique(s)|
    ensures forall m :: m in Unique(s)[..j] <==> m in s && m < Unique(s)[j]
  {
    var u := Unique(s);
    UniqueIncreasing(s);
    forall m ensures m in u[..j] <==> m in s && m < u[j] {
      if m in u[..j] {
        var i :| 0 <= i < j && u[..j][i] == m;
        assert u[i] == m;
      }
      if m in s && m < u[j] {
        assert m in u;
        var i :| 0 <= i < |u| && u[i] == m;
        assert forall l :: j <= l < |u| ==> u[j] <= u[l];
        assert u[..j][i] == m;
      }
    }
  }

  /** A property holds of every value of `s` iff it holds of every entry of
      `Unique(s)`. */
  lemma UniqueForall(s: seq<int>, P: int -> bool)
    ensures (forall x :: x in s ==> P(x)) ==> (forall l :: 0 <= l < |Unique(s)| ==> P(Unique(s)[l]))
    ensures (forall l :: 0 <= l < |Unique(s)| ==> P(Unique(s)[l])) ==> (forall x :: x in s ==> P(x))
  {
    var u := Unique(s);
    forall l | 0 <= l < |u| ensures u[l] in s {
      assert u[l] in u;
    }
    forall x | x in s ensures exists l :: 0 <= l < |u| && u[l] == x {
      assert x in u;
    }
  }

  /** `values[mask == id]`: the entries of `values` whose mask entry equals
      `id`, in their original order. */
  function Select<T>(values: seq<T>, mask: seq<int>, id: int): seq<T>
    requires |values| == |mask|
    decreases |values|
  {
    if values == [] then []
    else
      var n := |values| - 1;
      Select(values[..n], mask[..n], id) + (if mask[n] == id then [values[n]] else [])
  }

  /** The indices `k` with `mask[k] == id`, ascending: `np.nonzero(mask == id)`. */
  function Positions(mask: seq<int>, id: int): seq<nat>
    decreases |mask|
  {
    if mask == [] then []
    else
      var n := |mask| - 1;
      Positions(mask[..n], id) + (if mask[n] == id then [n] else [])
  }

  /** The positions of `id` are exactly the matching indices, strictly ascending. */
  lemma {:induction false} PositionsExact(mask: seq<int>, id: int)
    ensures forall j, l :: 0 <= j < l < |Positions(mask, id)| ==>
              Positions(mask, id)[j] < Positions(mask, id)[l]
    ensures forall k :: k in Positions(mask, id) <==> 0 <= k < |mask| && mask[k] == id
    decreases |mask|
  {
    if mask != [] {
      var n := |mask| - 1;
      PositionsExact(mask[..n], id);
      var p := Positions(mask[..n], id);
      assert forall k :: k in p ==> k < n;
      assert forall j :: 0 <= j < |p| ==> p[j] in p;
      forall k ensures k in Positions(mask, id) <==> 0 <= k < |mask| && mask[k] == id {
        if 0 <= k < n {
          assert mask[..n][k] == mask[k];
        }
      }
    }
  }

  /** A mask selection is the subsequence of `values` at `Positions(mask, id)`. */
  lemma {:induction false} SelectAtPositions<T>(values: seq<T>, mask: seq<int>, id: int)
    requires |values| == |mask|
    ensures |Select(values, mask, id)| == |Positions(mask, id)|
    ensures forall j :: 0 <= j < |Positions(mask, id)| ==>
              Positions(mask, id)[j] < |values| &&
              Select(values, mask, id)[j] == values[Positions(mask, id)[j]]
    decreases |values|
  {
    if values != [] {
      var n := |values| - 1;
      SelectAtPositions(values[..n], mask[..n], id);
      PositionsExact(mask[..n], id);
      var p, sel := Positions(mask[..n], id), Select(values[..n], mask[..n], id);
      var tail := if mask[n] == id then [n] else [];
      var all, allSel := Positions(mask, id), Select(values, mask, id);
      assert all == p + tail;
      assert allSel == sel + (if mask[n] == id then [values[n]] else []);
      forall j | 0 <= j < |all|
        ensures all[j] < |values| && allSel[j] == values[all[j]]
      {
        if j < |p| {
          assert p[j] in p;
          assert all[j] == p[j] && allSel[j] == sel[j];
          assert values[..n][p[j]] == values[p[j]];
        } else {
          assert all[j] == n && allSel[j] == values[n];
        }
      }
    }
  }

  /** Every `values[k]` with `mask[k] == id` appears in the selection, and
      only those: the selection is exactly the matching samples. */
  lemma SelectExactly<T>(values: seq<T>, mask: seq<int>, id: int)
    requires |values| == |mask|
    ensures forall k :: 0 <= k < |mask| && mask[k] == id ==> values[k] in Select(values, mask, id)
    ensures forall x :: x in Select(values, mask, id) ==>
              exists k :: 0 <= k < |mask| && mask[k] == id && values[k] == x
  {
    SelectAtPositions(values, mask, id);
    PositionsExact(mask, id);
    var p := Positions(mask, id);
    var sel := Select(values, mask, id);
    forall k | 0 <= k < |mask| && mask[k] == id
      ensures values[k] in sel
    {
      assert k in p;
      var j :| 0 <= j < |p| && p[j] == k;
      assert sel[j] == values[k];
    }
    forall x | x in sel
      ensures exists k :: 0 <= k < |mask| && mask[k] == id && values[k] == x
    {
      var j :| 0 <= j < |sel| && sel[j] == x;
      assert p[j] in p;
    }
  }

  /** When `id` occurs in the mask, the first selected value is that of the
      earliest matching index. */
  lemma {:induction false} SelectFirst<T>(values: seq<T>, mask: seq<int>, id: int)
    requires |values| == |mask|
    requires id in mask
    ensures Select(values, mask, id) != []
    ensures exists k :: 0 <= k < |mask| && mask[k] == id &&
              (forall i :: 0 <= i < k ==> mask[i] != id) &&
              Select(values, mask, id)[0] == values[k]
    decreases |values|
  {
    var n := |values| - 1;
    var pre, preMask := values[..n], mask[..n];
    var sel, preSel := Select(values, mask, id), Select(pre, preMask, id);
    assert sel == preSel + (if mask[n] == id then [values[n]] else []);
    if id in preMask {
      SelectFirst(pre, preMask, id);
      var k :| 0 <= k < n && preMask[k] == id &&
               (forall i :: 0 <= i < k ==> preMask[i] != id) && preSel[0] == pre[k];
      assert sel[0] == preSel[0];
      assert mask[k] == id && values[k] == pre[k];
      assert forall i :: 0 <= i < k ==> mask[i] == preMask[i];
    } else {
      SelectAbsent(pre, preMask, id);
      assert forall i :: 0 <= i < n ==> preMask[i] in preMask && mask[i] == preMask[i];
      assert mask == preMask + [mask[n]];
      assert mask[n] == id;
      assert sel == [values[n]];
    }
  }

  /** An id that does not occur selects nothing. */
  lemma {:induction false} SelectAbsent<T>(values: seq<T>, mask: seq<int>, id: int)
    requires |values| == |mask|
    requires id !in mask
    ensures Select(values, mask, id) == []
    decreases |values|
  {
    if values != [] {
      var n := |values| - 1;
      assert mask[n] in mask;
      assert forall x :: x in mask[..n] ==> x in mask;
      SelectAbsent(values[..n], mask[..n], id);
    }
  }

  /** When `id` occurs in the mask, the last selected value is that of the
      latest matching index. */
  lemma {:induction false} SelectLast<T>(values: seq<T>, mask: seq<int>, id: int)
    requires |values| == |mask|
    requires id in mask
    ensures Select(values, mask, id) != []
    ensures exists k :: 0 <= k < |mask| && mask[k] == id &&
              (forall i :: k < i < |mask| ==> mask[i] != id) &&
              Select(values, mask, id)[|Select(values, mask, id)| - 1] == values[k]
    decreases |values|
  {
    var n := |values| - 1;
    var pre, preMask := values[..n], mask[..n];
    var sel, preSel := Select(values, mask, id), Select(pre, preMask, id);
    assert sel == preSel + (if mask[n] == id then [values[n]] else []);
    if mask[n] != id {
      assert mask == preMask + [mask[n]];
      assert id in preMask;
      SelectLast(pre, preMask, id);
      var k :| 0 <= k < n && preMask[k] == id &&
               (forall i :: k < i < n ==> preMask[i] != id) && preSel[|preSel| - 1] == pre[k];
      assert sel == preSel;
      assert mask[k] == id && values[k] == pre[k];
      assert forall i :: k < i < n ==> mask[i] == preMask[i];
    } else {
      assert sel[|sel| - 1] == values[n];
    }
  }

  /** When the values are in non-decreasing (chronological) order, the first
      selected value is the smallest of the selection and the last the
      largest. */
  lemma SelectBoundsSorted(values: seq<real>, mask: seq<int>, id: int)
    requires |values| == |mask|
    requires forall i, j :: 0 <= i <= j < |values| ==> values[i] <= values[j]
    requires id in mask
    ensures Select(values, mask, id) != []
    ensures forall x :: x in Select(values, mask, id) ==>
              Select(values, mask, id)[0] <= x <= Select(values, mask, id)[|Select(values, mask, id)| - 1]
  {
    SelectAtPositions(values, mask, id);
    PositionsExact(mask, id);
    SelectFirst(values, mask, id);
    var p := Positions(mask, id);
    var sel := Select(values, mask, id);
    forall x | x in sel ensures sel[0] <= x <= sel[|sel| - 1] {
      var j :| 0 <= j < |sel| && sel[j] == x;
      assert p[0] <= p[j] <= p[|p| - 1];
    }
  }

  // ---------------------------------------------------------------------
  // Partition: the selections for a set of distinct ids covering every
  // mask value together hold every value exactly once.

  /** The concatenation of the selections for `ids`, in the order of `ids`. */
  function Gather<T>(values: seq<T>, mask: seq<int>, ids: seq<int>): seq<T>
    requires |values| == |mask|
    decreases |ids|
  {
    if ids == [] then [] else Select(values, mask, ids[0]) + Gather(values, mask, ids[1..])
  }

  /** The values whose mask entry lies in `s`, in their original order. */
  function SelectIn<T>(values: seq<T>, mask: seq<int>, s: set<int>): seq<T>
    requires |values| == |mask|
    decreases |values|
  {
    if values == [] then []
    else
      var n := |values| - 1;
      SelectIn(values[..n], mask[..n], s) + (if mask[n] in s then [values[n]] else [])
  }

  ghost predicate Distinct(ids: seq<int>) {
    forall i, j :: 0 <= i < j < |ids| ==> ids[i] != ids[j]
  }

  lemma {:induction false} SelectInSplit<T>(values: seq<T>, mask: seq<int>, s: set<int>, x: int)
    requires |values| == |mask|
    requires x in s
    ensures multiset(SelectIn(values, mask, s)) ==
            multiset(Select(values, mask, x)) + multiset(SelectIn(values, mask, s - {x}))
    decreases |values|
  {
    if values != [] {
      var n := |values| - 1;
      var pre, preMask := values[..n], mask[..n];
      SelectInSplit(pre, preMask, s, x);
      var last := [values[n]];
      assert SelectIn(values, mask, s) == SelectIn(pre, preMask, s) + (if mask[n] in s then last else []);
      assert Select(values, mask, x) == Select(pre, preMask, x) + (if mask[n] == x then last else []);
      assert SelectIn(values, mask, s - {x}) ==
             SelectIn(pre, preMask, s - {x}) + (if mask[n] in s - {x} then last else []);
    }
  }

  lemma {:induction false} SelectInAll<T>(values: seq<T>, mask: seq<int>, s: set<int>)
    requires |values| == |mask|
    requires forall k :: 0 <= k < |mask| ==> mask[k] in s
    ensures SelectIn(values, mask, s) == values
    decreases |values|
  {
    if values != [] {
      var n := |values| - 1;
      SelectInAll(values[..n], mask[..n], s);
      assert values[..n] + [values[n]] == values;
    }
  }

  lemma {:induction false} GatherSelectIn<T>(values: seq<T>, mask: seq<int>, ids: seq<int>)
    requires |values| == |mask|
    requires Distinct(ids)
    ensures multiset(Gather(values, mask, ids)) == multiset(SelectIn(values, mask, set x | x in ids))
    decreases |ids|
  {
    var s := set x | x in ids;
    if ids == [] {
      assert s == {};
      SelectInEmpty(values, mask);
    } else {
      var rest := ids[1..];
      GatherSelectIn(values, mask, rest);
      assert (set x | x in rest) == s - {ids[0]} by {
        forall y ensures y in (set x | x in rest) <==> y in s - {ids[0]} {
          if y in rest {
            var j :| 0 <= j < |rest| && rest[j] == y;
            assert ids[j + 1] == y;
          }
          if y in s && y != ids[0] {
            var j :| 0 <= j < |ids| && ids[j] == y;
            assert rest[j - 1] == y;
          }
        }
      }
      SelectInSplit(values, mask, s, ids[0]);
    }
  }

  lemma {:induction false} SelectInEmpty<T>(values: seq<T>, mask: seq<int>)
    requires |values| == |mask|
    ensures SelectIn(values, mask, {}) == []
    decreases |values|
  {
    if values != [] {
      SelectInEmpty(values[..|values| - 1], mask[..|values| - 1]);
    }
  }

  /** The concatenation of `groups`, in order. */
  function Flatten<T>(groups: seq<seq<T>>): seq<T>
    decreases |groups|
  {
    if groups == [] then [] else groups[0] + Flatten(groups[1..])
  }

  /** Groups holding the selections for `ids`, one by one, concatenate to
      `Gather(values, mask, ids)`. */
  lemma {:induction false} FlattenSelections<T>(values: seq<T>, mask: seq<int>, ids: seq<int>, groups: seq<seq<T>>)
    requires |values| == |mask|
    requires |groups| == |ids|
    requires forall j :: 0 <= j < |ids| ==> groups[j] == Select(values, mask, ids[j])
    ensures Flatten(groups) == Gather(values, mask, ids)
    decreases |ids|
  {
    if ids != [] {
      FlattenSelections(values, mask, ids[1..], groups[1..]);
    }
  }

  /** Grouping by distinct ids that cover every mask value loses and
      duplicates nothing: the groups together are a permutation of the
      values, so their lengths add up to `|values|`. */
  lemma GatherPartition<T>(values: seq<T>, mask: seq<int>, ids: seq<int>)
    requires |values| == |mask|
    requires Distinct(ids)
    requires forall k :: 0 <= k < |mask| ==> mask[k] in ids
    ensures multiset(Gather(values, mask, ids)) == multiset(values)
    ensures |Gather(values, mask, ids)| == |values|
  {
    GatherSelectIn(values, mask, ids);
    SelectInAll(values, mask, set x | x in ids);
    assert |multiset(Gather(values, mask, ids))| == |multiset(values)|;
  }
}
