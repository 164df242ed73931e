/** Clearing of full rows. The program collects the indices of the full rows
    in one scan and then, for each index from the largest down, deletes the
    row at that index and inserts an empty row at the top. Each insertion
    moves every row above the deleted one down by one, so with two or more
    full rows the later deletions hit the wrong rows; the definitions below
    follow that sequence exactly, and ClearRowsIntended is the clear the
    deletion order was evidently meant to give. */
module RowClear {
  import opened Catalog
  import opened Grid

  /** A row with no empty box: every box differs from the empty tag. */
  predicate FullRow(row: seq<Box>) {
    Empty !in row
  }

  /** The indices of the full rows, collected top to bottom. */
  function FullRowIndices(g: Rows): (r: seq<nat>)
    ensures |r| <= |g|
    ensures forall k :: 0 <= k < |r| ==> r[k] < |g|
    decreases |g|
  {
    if |g| == 0 then []
    else
      var init := FullRowIndices(g[..|g| - 1]);
      if FullRow(g[|g| - 1]) then init + [|g| - 1] else init
  }

  /** The scan lists exactly the full rows, each once, in ascending order. */
  lemma {:induction false} FullRowIndicesProperties(g: Rows)
    ensures forall k :: 0 <= k < |FullRowIndices(g)| ==>
      FullRowIndices(g)[k] < |g| && FullRow(g[FullRowIndices(g)[k]])
    ensures forall i :: 0 <= i < |g| && FullRow(g[i]) ==> i in FullRowIndices(g)
    ensures forall k, l :: 0 <= k < l < |FullRowIndices(g)| ==>
      FullRowIndices(g)[k] < FullRowIndices(g)[l]
    decreases |g|
  {
    if |g| > 0 {
      var init := g[..|g| - 1];
      FullRowIndicesProperties(init);
      assert forall i :: 0 <= i < |init| ==> init[i] == g[i];
    }
  }

  /** Scanning one more row appends its index when it is full. */
  lemma FullRowIndicesStep(g: Rows, i: nat)
    requires i < |g|
    ensures FullRowIndices(g[..i + 1]) == FullRowIndices(g[..i]) + if FullRow(g[i]) then [i] else []
  {
    assert g[..i + 1][..i] == g[..i];
  }

  /** The same list, last element first. */
  function Reversed(s: seq<nat>): (r: seq<nat>)
    ensures |r| == |s|
    ensures forall k :: 0 <= k < |s| ==> r[k] == s[|s| - 1 - k]
    decreases |s|
  {
    if |s| == 0 then [] else [s[|s| - 1]] + Reversed(s[..|s| - 1])
  }

  /** The full-row indices sorted from the largest down: the scan read
      backwards, one entry per scanned index, each a row of the grid. */
  function DeletionOrder(g: Rows): (order: seq<nat>)
    ensures |order| == |FullRowIndices(g)|
    ensures forall k :: 0 <= k < |order| ==> order[k] < |g|
  {
    Reversed(FullRowIndices(g))
  }

  /** The deletion order lists each full row once, in strictly descending
      order. */
  lemma DeletionOrderProperties(g: Rows)
    ensures forall k :: 0 <= k < |DeletionOrder(g)| ==>
      DeletionOrder(g)[k] < |g| && FullRow(g[DeletionOrder(g)[k]])
    ensures forall i :: 0 <= i < |g| && FullRow(g[i]) ==> i in DeletionOrder(g)
    ensures forall k, l :: 0 <= k < l < |DeletionOrder(g)| ==>
      DeletionOrder(g)[k] > DeletionOrder(g)[l]
  {
    var s, r := FullRowIndices(g), DeletionOrder(g);
    assert forall k :: 0 <= k < |r| ==> r[k] == s[|s| - 1 - k];
    FullRowIndicesProperties(g);
    assert forall k :: 0 <= k < |r| ==> r[k] < |g| && FullRow(g[r[k]]) by {
      forall k | 0 <= k < |r|
        ensures r[k] < |g| && FullRow(g[r[k]])
      {
        assert r[k] == s[|s| - 1 - k];
      }
    }
    assert forall i :: 0 <= i < |g| && FullRow(g[i]) ==> i in r by {
      forall i | 0 <= i < |g| && FullRow(g[i])
        ensures i in r
      {
        var j :| 0 <= j < |s| && s[j] == i;
        assert r[|s| - 1 - j] == i;
      }
    }
    assert forall k, l :: 0 <= k < l < |r| ==> r[k] > r[l] by {
      forall k, l | 0 <= k < l < |r|
        ensures r[k] > r[l]
      {
        assert r[k] == s[|s| - 1 - k] && r[l] == s[|s| - 1 - l];
      }
    }
  }

  /** One step of the clear: delete row i, then insert an empty row at the top. */
  function DeleteAndInsertTop(g: Rows, i: nat): (r: Rows)
    requires i < |g|
    ensures |r| == |g|
    ensures WellFormed(g) ==> WellFormed(r)
  {
    [EmptyRow()] + (g[..i] + g[i + 1..])
  }

  /** The steps for the given indices, in order, each on the grid the previous
      step left. */
  function ApplyDeletions(g: Rows, order: seq<nat>): (r: Rows)
    requires forall k :: 0 <= k < |order| ==> order[k] < |g|
    ensures |r| == |g|
    ensures WellFormed(g) ==> WellFormed(r)
    decreases |order|
  {
    if |order| == 0 then g
    else DeleteAndInsertTop(ApplyDeletions(g, order[..|order| - 1]), order[|order| - 1])
  }

  /** One more step extends the deletions by the next index. */
  lemma ApplyDeletionsStep(g: Rows, order: seq<nat>, k: nat)
    requires k < |order| && forall j :: 0 <= j < |order| ==> order[j] < |g|
    ensures ApplyDeletions(g, order[..k + 1])
         == DeleteAndInsertTop(ApplyDeletions(g, order[..k]), order[k])
  {
    assert order[..k + 1][..k] == order[..k];
  }

  /** The grid after the clear, as the program computes it. */
  function ClearRows(g: Rows): (r: Rows)
    ensures |r| == |g|
    ensures WellFormed(g) ==> WellFormed(r)
  {
    ApplyDeletions(g, DeletionOrder(g))
  }

  /** The scan of the first n rows of a grid whose only full rows are a and b
      (and a == b when there is one, neither in range when there is none). */
  lemma {:induction false} ScanPrefix(g: Rows, a: nat, b: nat, n: nat)
    requires n <= |g| && a <= b
    requires forall i :: 0 <= i < |g| ==> (FullRow(g[i]) <==> i == a || i == b)
    ensures FullRowIndices(g[..n]) == (if a < n then [a] else []) + (if a < b < n then [b] else [])
    decreases n
  {
    if n > 0 {
      ScanPrefix(g, a, b, n - 1);
      assert g[..n][..n - 1] == g[..n - 1];
    }
  }

  /** The deletion order of a grid whose only full rows are a and b. */
  lemma DeletionOrderOf(g: Rows, a: nat, b: nat)
    requires a <= b
    requires forall i :: 0 <= i < |g| ==> (FullRow(g[i]) <==> i == a || i == b)
    ensures DeletionOrder(g) == (if a < b < |g| then [b] else []) + (if a < |g| then [a] else [])
  {
    ScanPrefix(g, a, b, |g|);
    assert g[..|g|] == g;
    if a >= |g| {
      assert FullRowIndices(g) == [];
    } else if a < b < |g| {
      assert FullRowIndices(g) == [a, b];
      assert [a, b][..1] == [a] && [a][..0] == [];
    } else {
      assert FullRowIndices(g) == [a];
      assert [a][..0] == [];
    }
  }

  /** With no full row the clear changes nothing. */
  lemma NoFullRowUnchanged(g: Rows)
    requires forall i :: 0 <= i < |g| ==> !FullRow(g[i])
    ensures ClearRows(g) == g
  {
    DeletionOrderOf(g, |g|, |g|);
  }

  /** With exactly one full row the clear removes it, puts an empty row on
      top and keeps the other rows in their order. */
  lemma OneFullRowCleared(g: Rows, k: nat)
    requires k < |g| && FullRow(g[k])
    requires forall i :: 0 <= i < |g| && i != k ==> !FullRow(g[i])
    ensures ClearRows(g) == [EmptyRow()] + g[..k] + g[k + 1..]
  {
    DeletionOrderOf(g, k, k);
    assert DeletionOrder(g) == [k];
    assert [k][..0] == [];
    assert ApplyDeletions(g, [k]) == DeleteAndInsertTop(g, k);
  }

  /** With exactly two full rows a < b the clear is two steps: delete row b,
      then delete row a of the grid that step left. */
  lemma TwoFullRowsSteps(g: Rows, a: nat, b: nat)
    requires a < b < |g| && FullRow(g[a]) && FullRow(g[b])
    requires forall i :: 0 <= i < |g| && i != a && i != b ==> !FullRow(g[i])
    ensures ClearRows(g) == DeleteAndInsertTop(DeleteAndInsertTop(g, b), a)
  {
    DeletionOrderOf(g, a, b);
    assert [b, a][..1] == [b] && [b][..0] == [];
    assert ApplyDeletions(g, [b]) == DeleteAndInsertTop(g, b);
  }

  /** Deleting row b and then row a < b of the result, each time inserting
      an empty row on top, removes the old row a - 1 (the new empty row when
      a is 0) in the second step and leaves old row a at index a + 1. */
  lemma DeleteTwice(g: Rows, a: nat, b: nat)
    requires a < b < |g|
    ensures DeleteAndInsertTop(DeleteAndInsertTop(g, b), a)
         == if a == 0 then [EmptyRow()] + g[..b] + g[b + 1..]
            else [EmptyRow(), EmptyRow()] + g[..a - 1] + g[a..b] + g[b + 1..]
    ensures DeleteAndInsertTop(DeleteAndInsertTop(g, b), a)[a + 1] == g[a]
  {
    var x := DeleteAndInsertTop(g, b);
    assert x == [EmptyRow()] + (g[..b] + g[b + 1..]);
    if a == 0 {
      assert x[1..] == g[..b] + g[b + 1..];
    } else {
      assert x[..a] == [EmptyRow()] + g[..a - 1];
      assert x[a + 1..] == g[a..b] + g[b + 1..];
    }
  }

  /** As written, with exactly two full rows a < b the clear deletes row b and
      then the row the insertion has moved to index a, which is the old row
      a - 1 (or the new empty row when a is 0): full row a stays. */
  lemma TwoFullRowsAsWritten(g: Rows, a: nat, b: nat)
    requires a < b < |g| && FullRow(g[a]) && FullRow(g[b])
    requires forall i :: 0 <= i < |g| && i != a && i != b ==> !FullRow(g[i])
    ensures ClearRows(g) == if a == 0 then [EmptyRow()] + g[..b] + g[b + 1..]
                            else [EmptyRow(), EmptyRow()] + g[..a - 1] + g[a..b] + g[b + 1..]
    ensures ClearRows(g)[a + 1] == g[a] && FullRow(ClearRows(g)[a + 1])
  {
    TwoFullRowsSteps(g, a, b);
    DeleteTwice(g, a, b);
  }

  /** The rows that are not full, in their order. */
  function Kept(g: Rows): (r: Rows)
    ensures |r| <= |g|
    decreases |g|
  {
    if |g| == 0 then []
    else
      var init := Kept(g[..|g| - 1]);
      if FullRow(g[|g| - 1]) then init else init + [g[|g| - 1]]
  }

  /** Every row is either full and counted among the full-row indices, or
      kept; the kept rows are rows of the grid and none of them is full. */
  lemma {:induction false} KeptProperties(g: Rows)
    ensures |Kept(g)| + |FullRowIndices(g)| == |g|
    ensures forall k :: 0 <= k < |Kept(g)| ==> !FullRow(Kept(g)[k]) && Kept(g)[k] in g
    decreases |g|
  {
    if |g| > 0 {
      var init := g[..|g| - 1];
      KeptProperties(init);
      assert forall k :: 0 <= k < |Kept(init)| ==> Kept(init)[k] in g by {
        forall k | 0 <= k < |Kept(init)|
          ensures Kept(init)[k] in g
        {
          var row := Kept(init)[k];
          assert row in init;
          var j :| 0 <= j < |init| && init[j] == row;
          assert g[j] == row;
        }
      }
    }
  }

  /** n empty rows. */
  function Blank(n: nat): (r: Rows)
    ensures |r| == n
  {
    seq(n, _ => EmptyRow())
  }

  /** The intended clear: every full row removed, as many empty rows on top,
      the other rows kept in their order. */
  function ClearRowsIntended(g: Rows): (r: Rows)
    ensures |r| == |g| == |FullRowIndices(g)| + |Kept(g)|
    ensures WellFormed(g) ==> WellFormed(r)
    ensures forall k :: 0 <= k < |r| ==> !FullRow(r[k])
    ensures forall k :: 0 <= k < |FullRowIndices(g)| ==> r[k] == EmptyRow()
    ensures r[|FullRowIndices(g)|..] == Kept(g)
  {
    KeptProperties(g);
    var kept := Kept(g);
    var r := Blank(|g| - |kept|) + kept;
    assert !FullRow(EmptyRow()) by {
      assert EmptyRow()[0] == Empty;
    }
    assert forall k :: 0 <= k < |kept| ==> r[|g| - |kept| + k] == kept[k];
    r
  }

  /** The kept rows of a prefix of a grid whose only full row is k. */
  lemma {:induction false} KeptPrefix(g: Rows, k: nat, n: nat)
    requires k < |g| && n <= |g| && FullRow(g[k])
    requires forall i :: 0 <= i < |g| && i != k ==> !FullRow(g[i])
    ensures Kept(g[..n]) == if n <= k then g[..n] else g[..k] + g[k + 1..n]
    decreases n
  {
    if n > 0 {
      KeptPrefix(g, k, n - 1);
      assert g[..n][..n - 1] == g[..n - 1];
      if n - 1 < k {
        assert g[..n] == g[..n - 1] + [g[n - 1]];
      } else if n - 1 > k {
        assert g[k + 1..n] == g[k + 1..n - 1] + [g[n - 1]];
      }
    }
  }

  /** With exactly one full row k, the kept rows are all the others. */
  lemma KeptSkipsOne(g: Rows, k: nat)
    requires k < |g| && FullRow(g[k])
    requires forall i :: 0 <= i < |g| && i != k ==> !FullRow(g[i])
    ensures Kept(g) == g[..k] + g[k + 1..]
  {
    KeptPrefix(g, k, |g|);
    assert g[..|g|] == g;
  }

  /** With no full row, every row is kept. */
  lemma {:induction false} KeptAll(g: Rows)
    requires forall i :: 0 <= i < |g| ==> !FullRow(g[i])
    ensures Kept(g) == g
    decreases |g|
  {
    if |g| > 0 {
      var init := g[..|g| - 1];
      KeptAll(init);
      assert g == init + [g[|g| - 1]];
    }
  }

  /** With no full row, the program's clear is the intended one. */
  lemma NoFullRowAsIntended(g: Rows)
    requires forall i :: 0 <= i < |g| ==> !FullRow(g[i])
    ensures ClearRows(g) == ClearRowsIntended(g)
  {
    NoFullRowUnchanged(g);
    KeptAll(g);
    KeptProperties(g);
    assert ClearRowsIntended(g) == ClearRowsIntended(g)[0..];
  }

  /** With exactly one full row, the program's clear is the intended one;
      with none as well (NoFullRowAsIntended), so the two differ only when
      several rows are full at once. */
  lemma OneFullRowAsIntended(g: Rows, k: nat)
    requires k < |g| && FullRow(g[k])
    requires forall i :: 0 <= i < |g| && i != k ==> !FullRow(g[i])
    ensures ClearRows(g) == ClearRowsIntended(g)
  {
    OneFullRowCleared(g, k);
    KeptSkipsOne(g, k);
    KeptProperties(g);
    var r := ClearRowsIntended(g);
    assert |FullRowIndices(g)| == 1;
    assert r == [r[0]] + r[1..];
  }

  /** Rows 5 and 9 full, all others not: the program leaves a full row at
      index 6, which the intended clear never does. */
  lemma RowsFiveAndNine(g: Rows)
    requires WellFormed(g) && FullRow(g[5]) && FullRow(g[9])
    requires forall i :: 0 <= i < |g| && i != 5 && i != 9 ==> !FullRow(g[i])
    ensures FullRow(ClearRows(g)[6])
    ensures ClearRows(g) != ClearRowsIntended(g)
  {
    TwoFullRowsAsWritten(g, 5, 9);
  }
}
