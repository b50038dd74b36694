/** The memo table (src/table.rs): a triangular three-dimensional table of
    optional robustness values indexed by (formula or node index, lower, upper),
    stored at [index][lower][upper - lower], with hit and write counters. */
module MemoTable {
  import opened Wrappers
  import opened ExtReal
  import opened TbtTree

  type Cells = seq<seq<seq<Option<Ext>>>>

  /** The cell for (i, l, u), None when any index is out of range (as every
      `get` of the lookup chain then fails) or l > u. */
  function CellOf(cells: Cells, i: nat, l: nat, u: nat): Option<Ext>
  {
    if i < |cells| && l < |cells[i]| && l <= u && u - l < |cells[i][l]| then cells[i][l][u - l] else None
  }

  /** n rows per index, row l of length L - l. */
  predicate Shaped(cells: Cells, n: nat, L: nat)
  {
    |cells| == n &&
    (forall i :: 0 <= i < n ==> |cells[i]| == L) &&
    (forall i, l :: 0 <= i < n && 0 <= l < L ==> |cells[i][l]| == L - l)
  }

  /** The cells after writing v at (i, l, u). */
  function SetCell(cells: Cells, i: nat, l: nat, u: nat, v: Ext): (r: Cells)
    requires i < |cells| && l < |cells[i]| && l <= u && u - l < |cells[i][l]|
    ensures CellOf(r, i, l, u) == Some(v)
    ensures forall i': nat, l': nat, u': nat :: (i', l', u') != (i, l, u) ==> CellOf(r, i', l', u') == CellOf(cells, i', l', u')
    ensures |r| == |cells| && forall i' :: 0 <= i' < |r| ==> |r[i']| == |cells[i']|
    ensures forall i', l' :: 0 <= i' < |r| && 0 <= l' < |r[i']| ==> |r[i'][l']| == |cells[i'][l']|
  {
    cells[i := cells[i][l := cells[i][l][u - l := Some(v)]]]
  }

  /** Rows l = 0 .. k - 1 of one index hold this many cells. */
  function RowCells(L: nat, k: nat): nat
    requires k <= L
  {
    if k == 0 then 0 else RowCells(L, k - 1) + (L - (k - 1))
  }

  lemma {:induction false} RowCellsClosed(L: nat, k: nat)
    requires k <= L
    ensures 2 * RowCells(L, k) == 2 * k * L - k * (k - 1)
  {
    if k > 0 {
      RowCellsClosed(L, k - 1);
      assert 2 * k * L - k * (k - 1) == 2 * (k - 1) * L - (k - 1) * (k - 2) + 2 * (L - (k - 1));
    }
  }

  /** All rows of one index hold L * (L + 1) / 2 cells. */
  lemma RowCellsAll(L: nat)
    ensures RowCells(L, L) == (L * (L + 1)) / 2
  {
    RowCellsClosed(L, L);
    assert 2 * RowCells(L, L) == L * (L + 1);
  }

  class Table {
    var cells: Cells
    const amountFirstIdx: nat
    const traceLength: nat
    var totalLookups: nat
    var totalSetCalls: nat
    const totalEntries: nat

    predicate Valid()
      reads this
    {
      Shaped(cells, amountFirstIdx, traceLength)
    }

    function Cell(i: nat, l: nat, u: nat): Option<Ext>
      reads this
    {
      CellOf(cells, i, l, u)
    }

    /** Table::new: n * L * (L + 1) / 2 empty cells, row l holding L - l of them. */
    constructor (n: nat, L: nat)
      ensures Valid() && amountFirstIdx == n && traceLength == L
      ensures forall i, l, u :: Cell(i, l, u) == None
      ensures totalEntries == n * ((L * (L + 1)) / 2)
      ensures totalLookups == 0 && totalSetCalls == 0
    {
      var numberEntries := n * ((L * (L + 1)) / 2);
      var table: Cells := [];
      var created := 0;
      RowCellsAll(L);
      for i := 0 to n
        invariant |table| == i
        invariant forall i' :: 0 <= i' < i ==> |table[i']| == L
        invariant forall i', l' :: 0 <= i' < i && 0 <= l' < L ==> |table[i'][l']| == L - l'
        invariant forall i', l', k :: 0 <= i' < i && 0 <= l' < L && 0 <= k < L - l' ==> table[i'][l'][k] == None
        invariant created == i * RowCells(L, L)
      {
        var lower: seq<seq<Option<Ext>>> := [];
        for l := 0 to L
          invariant |lower| == l
          invariant forall l' :: 0 <= l' < l ==> |lower[l']| == L - l'
          invariant forall l', k :: 0 <= l' < l && 0 <= k < L - l' ==> lower[l'][k] == None
          invariant created == i * RowCells(L, L) + RowCells(L, l)
        {
          var upper: seq<Option<Ext>> := [];
          for k := 0 to L - l
            invariant |upper| == k
            invariant forall k' :: 0 <= k' < k ==> upper[k'] == None
            invariant created == i * RowCells(L, L) + RowCells(L, l) + k
          {
            created := created + 1;
            upper := upper + [None];
          }
          lower := lower + [upper];
        }
        table := table + [lower];
      }
      assert created == numberEntries;
      cells := table;
      amountFirstIdx := n;
      traceLength := L;
      totalLookups := 0;
      totalSetCalls := 0;
      totalEntries := numberEntries;
    }

    /** Table::lookup: the stored value, counting a hit; a miss changes nothing. */
    method Lookup(i: nat, l: nat, u: nat) returns (r: Option<Ext>)
      modifies this`totalLookups
      ensures r == Cell(i, l, u)
      ensures totalLookups == old(totalLookups) + (if r.Some? then 1 else 0)
    {
      if i < |cells| && l < |cells[i]| && l <= u && u - l < |cells[i][l]| {
        r := cells[i][l][u - l];
        if r.Some? {
          totalLookups := totalLookups + 1;
        }
      } else {
        r := None;
      }
    }

    /** Table::lookup_segmentation_tree: lookup under the node's own index. */
    method LookupSegmentationTree(tree: TbtNode, l: nat, u: nat) returns (r: Option<Ext>)
      modifies this`totalLookups
      ensures r == Cell(tree.idx, l, u)
      ensures totalLookups == old(totalLookups) + (if r.Some? then 1 else 0)
    {
      r := Lookup(tree.idx, l, u);
    }

    /** Table::set: the source panics unless l <= u < L and i < n; the write
        touches exactly cell [i][l][u - l] and counts one set call. */
    method Set(i: nat, l: nat, u: nat, v: Ext)
      requires Valid()
      requires l <= u && l < traceLength && u < traceLength && i < amountFirstIdx
      modifies this`cells, this`totalSetCalls
      ensures Valid()
      ensures cells == SetCell(old(cells), i, l, u, v)
      ensures totalSetCalls == old(totalSetCalls) + 1
    {
      totalSetCalls := totalSetCalls + 1;
      cells := SetCell(cells, i, l, u, v);
    }

    /** Table::progress */
    function Progress(): (r: (nat, nat))
      reads this
    {
      (totalSetCalls, totalEntries)
    }
  }
}
