/**
 The --chunk-tree section of tools/nmo-inspect.c: a preorder walk of chunk trees
 whose row budget is tested only after each child, so that it overshoots along a
 chain of first children.
 */
module ChunkTree {
  import opened Report
  import opened Paths

  /** A chunk pointer: null, or a chunk with its sub-chunk pointers. */
  datatype ChunkRef = Null | Chunk(classId: nat, children: seq<ChunkRef>)

  datatype Row = Row(depth: nat, classId: nat, subChunks: nat)

  /** The rows of a tree within the depth limit (0 for none), a node before its children. */
  function Preorder(c: ChunkRef, depth: nat, limit: nat): seq<Row>
    decreases c, 1
  {
    if c.Null? || Beyond(depth, limit) then []
    else [RowOf(c, depth)] + PreorderAll(c.children, depth + 1, limit)
  }

  function PreorderAll(cs: seq<ChunkRef>, depth: nat, limit: nat): seq<Row>
    decreases cs, 0
  {
    if cs == [] then []
    else PreorderAll(cs[..|cs| - 1], depth, limit) + Preorder(cs[|cs| - 1], depth, limit)
  }

  predicate Beyond(depth: nat, limit: nat) {
    limit != 0 && depth > limit
  }

  function RowOf(c: ChunkRef, depth: nat): Row
    requires c.Chunk?
  {
    Row(depth, c.classId, |c.children|)
  }

  /** The first index from k on that ends the rows or whose row is no deeper than the one before it. */
  function StopFrom(rows: seq<Row>, k: nat): (stop: nat)
    requires 0 < k <= |rows|
    ensures k <= stop <= |rows|
    ensures stop == |rows| || rows[stop].depth <= rows[stop - 1].depth
    ensures forall i :: k <= i < stop ==> rows[i].depth > rows[i - 1].depth
    decreases |rows| - k
  {
    if k == |rows| || rows[k].depth <= rows[k - 1].depth then k else StopFrom(rows, k + 1)
  }

  /** How many rows are printed when room is what is left of the budget: at least one, then on down first children. */
  function Cut(rows: seq<Row>, room: int): (k: nat)
    ensures k <= |rows|
  {
    if rows == [] then 0
    else StopFrom(rows, if room <= 1 then 1 else if room <= |rows| then room else |rows|)
  }

  /** The rows printed out of a preorder under a budget (0 for none) of which written rows are spent. */
  function Printed(rows: seq<Row>, maxRows: nat, written: nat): seq<Row> {
    if maxRows == 0 then rows else rows[..Cut(rows, maxRows - written)]
  }

  lemma {:induction false} PreorderDepths(c: ChunkRef, depth: nat, limit: nat)
    ensures var p := Preorder(c, depth, limit);
      && (p == [] <==> c.Null? || Beyond(depth, limit))
      && (p != [] ==> p[0].depth == depth)
      && forall k :: 0 <= k < |p| ==> p[k].depth >= depth
    decreases c, 1
  {
    if c.Chunk? && !Beyond(depth, limit) {
      PreorderAllDepths(c.children, depth + 1, limit);
    }
  }

  lemma {:induction false} PreorderAllDepths(cs: seq<ChunkRef>, depth: nat, limit: nat)
    ensures var p := PreorderAll(cs, depth, limit);
      && (Beyond(depth, limit) ==> p == [])
      && (p != [] ==> p[0].depth == depth)
      && forall k :: 0 <= k < |p| ==> p[k].depth >= depth
    decreases cs, 0
  {
    if cs != [] {
      PreorderAllDepths(cs[..|cs| - 1], depth, limit);
      PreorderDepths(cs[|cs| - 1], depth, limit);
    }
  }

  lemma {:induction false} PreorderAllConcat(cs: seq<ChunkRef>, ds: seq<ChunkRef>, depth: nat, limit: nat)
    ensures PreorderAll(cs + ds, depth, limit) == PreorderAll(cs, depth, limit) + PreorderAll(ds, depth, limit)
    decreases |ds|
  {
    if ds == [] {
      assert cs + ds == cs;
    } else {
      assert (cs + ds)[..|cs + ds| - 1] == cs + ds[..|ds| - 1];
      PreorderAllConcat(cs, ds[..|ds| - 1], depth, limit);
    }
  }

  /** Between rows before it and a continuation that goes no deeper, a walk stops where it would on its own. */
  lemma {:induction false} StopInside(before: seq<Row>, rows: seq<Row>, after: seq<Row>, k: nat)
    requires 0 < k <= |rows|
    requires after != [] ==> after[0].depth <= rows[|rows| - 1].depth
    ensures StopFrom(before + rows + after, |before| + k) == |before| + StopFrom(rows, k)
    decreases |rows| - k
  {
    var whole := before + rows + after;
    if k < |rows| {
      assert whole[|before| + k] == rows[k] && whole[|before| + k - 1] == rows[k - 1];
      if rows[k].depth > rows[k - 1].depth {
        StopInside(before, rows, after, k + 1);
      }
    } else if after != [] {
      assert whole[|before| + k] == after[0] && whole[|before| + k - 1] == rows[k - 1];
    }
  }

  /** If the budget is not used up, everything was printed. */
  lemma NotCut(rows: seq<Row>, maxRows: nat, written: nat)
    requires maxRows == 0 || written + |Printed(rows, maxRows, written)| < maxRows
    ensures Printed(rows, maxRows, written) == rows
  {
  }

  lemma NotCutIfFits(rows: seq<Row>, maxRows: nat, written: nat)
    requires maxRows == 0 || written + |rows| <= maxRows || |rows| <= 1
    ensures Printed(rows, maxRows, written) == rows
  {
  }

  lemma PrefixReachingInside(before: seq<Row>, rows: seq<Row>, after: seq<Row>, k: nat)
    requires k <= |rows|
    ensures (before + rows + after)[..|before| + k] == before + rows[..k]
  {
  }

  lemma CutOfPart(before: seq<Row>, rows: seq<Row>, after: seq<Row>, room: int)
    requires 0 < room <= |rows|
    requires after != [] ==> after[0].depth <= rows[|rows| - 1].depth
    ensures Cut(before + rows + after, |before| + room) == |before| + Cut(rows, room)
  {
    hide StopFrom;
    StopInside(before, rows, after, room);
  }

  /** A part printed with budget left before it, and none after it, is where the whole stops. */
  lemma CutInside(before: seq<Row>, rows: seq<Row>, after: seq<Row>, maxRows: nat, written: nat)
    requires maxRows > 0 && rows != []
    requires written + |before| < maxRows <= written + |before| + |Printed(rows, maxRows, written + |before|)|
    requires after != [] ==> forall k :: 0 <= k < |rows| ==> after[0].depth <= rows[k].depth
    ensures before + Printed(rows, maxRows, written + |before|) == Printed(before + rows + after, maxRows, written)
  {
    hide Cut;
    var room := maxRows - written - |before|;
    CutOfPart(before, rows, after, room);
    PrefixReachingInside(before, rows, after, Cut(rows, room));
  }

  lemma StopDeeper(rows: seq<Row>)
    requires |rows| > 1 && rows[1].depth > rows[0].depth
    ensures StopFrom(rows, 1) == StopFrom(rows, 2)
  {
  }

  lemma CutPastFirst(row: Row, rows: seq<Row>, after: seq<Row>, room: int)
    requires rows != [] && rows[0].depth > row.depth && room <= 1
    requires after != [] ==> after[0].depth <= rows[|rows| - 1].depth
    ensures Cut([row] + rows + after, room) == 1 + Cut(rows, room - 1)
  {
    hide StopFrom;
    var whole := [row] + rows + after;
    assert whole[1] == rows[0] && whole[0] == row;
    StopDeeper(whole);
    StopInside([row], rows, after, 1);
  }

  /** A first child is printed even when its parent used up the budget. */
  lemma CutFirstChild(row: Row, rows: seq<Row>, after: seq<Row>, maxRows: nat, written: nat)
    requires maxRows > 0 && rows != [] && rows[0].depth > row.depth
    requires maxRows <= written + 1
    requires after != [] ==> forall k :: 0 <= k < |rows| ==> after[0].depth <= rows[k].depth
    ensures [row] + Printed(rows, maxRows, written + 1) == Printed([row] + rows + after, maxRows, written)
  {
    hide Cut;
    CutPastFirst(row, rows, after, maxRows - written);
    PrefixReachingInside([row], rows, after, Cut(rows, maxRows - written - 1));
  }

  /** A node's walk that stops after child i printed what its whole preorder allows. */
  lemma StopsAfterChild(c: ChunkRef, i: nat, depth: nat, limit: nat, maxRows: nat, written: nat)
    requires c.Chunk? && !Beyond(depth, limit) && i < |c.children| && c.children[i].Chunk? && maxRows > 0
    requires var before := PreorderAll(c.children[..i], depth + 1, limit);
      var rows := Preorder(c.children[i], depth + 1, limit);
      && (before == [] || written + 1 + |before| < maxRows)
      && maxRows <= written + 1 + |before| + |Printed(rows, maxRows, written + 1 + |before|)|
    ensures var before := [RowOf(c, depth)] + PreorderAll(c.children[..i], depth + 1, limit);
      before + Printed(Preorder(c.children[i], depth + 1, limit), maxRows, written + |before|)
      == Printed(Preorder(c, depth, limit), maxRows, written)
  {
    hide Cut, StopFrom, Preorder, PreorderAll;
    var row := RowOf(c, depth);
    var earlier := PreorderAll(c.children[..i], depth + 1, limit);
    var rows := Preorder(c.children[i], depth + 1, limit);
    var after := PreorderAll(c.children[i + 1..], depth + 1, limit);
    ChildrenSplit(c, i, depth, limit);
    PreorderDepths(c.children[i], depth + 1, limit);
    PreorderAllDepths(c.children[i + 1..], depth + 1, limit);
    PreorderAllDepths(c.children[..i], depth + 1, limit);
    if rows == [] {
      assert Preorder(c, depth, limit) == [row];
      NotCutIfFits([row], maxRows, written);
    } else if written + 1 + |earlier| < maxRows {
      CutInside([row] + earlier, rows, after, maxRows, written);
    } else {
      assert [row] + earlier == [row];
      CutFirstChild(row, rows, after, maxRows, written);
    }
  }

  lemma ChildrenSplit(c: ChunkRef, i: nat, depth: nat, limit: nat)
    requires c.Chunk? && !Beyond(depth, limit) && i < |c.children|
    ensures Preorder(c, depth, limit)
      == [RowOf(c, depth)] + PreorderAll(c.children[..i], depth + 1, limit)
         + Preorder(c.children[i], depth + 1, limit) + PreorderAll(c.children[i + 1..], depth + 1, limit)
  {
    assert c.children == c.children[..i + 1] + c.children[i + 1..];
    PreorderAllConcat(c.children[..i + 1], c.children[i + 1..], depth + 1, limit);
    assert c.children[..i + 1][..i] == c.children[..i];
  }

  lemma OneMoreChild(c: ChunkRef, i: nat, depth: nat, limit: nat)
    requires c.Chunk? && i < |c.children|
    ensures PreorderAll(c.children[..i + 1], depth, limit)
      == PreorderAll(c.children[..i], depth, limit) + Preorder(c.children[i], depth, limit)
    ensures c.children[i].Null? ==> Preorder(c.children[i], depth, limit) == []
  {
    assert c.children[..i + 1][..i] == c.children[..i];
  }

  lemma NoChildYet(c: ChunkRef, depth: nat, limit: nat)
    requires c.Chunk?
    ensures PreorderAll(c.children[..0], depth, limit) == []
  {
  }

  lemma AllChildrenPrinted(c: ChunkRef, depth: nat, limit: nat, maxRows: nat, written: nat)
    requires c.Chunk? && !Beyond(depth, limit)
    requires var below := PreorderAll(c.children[..|c.children|], depth + 1, limit);
      maxRows == 0 || below == [] || written + 1 + |below| < maxRows
    ensures [RowOf(c, depth)] + PreorderAll(c.children[..|c.children|], depth + 1, limit)
      == Printed(Preorder(c, depth, limit), maxRows, written)
  {
    assert c.children[..|c.children|] == c.children;
    NotCutIfFits(Preorder(c, depth, limit), maxRows, written);
  }

  lemma BeyondPrintsNothing(c: ChunkRef, depth: nat, limit: nat, maxRows: nat, written: nat)
    requires Beyond(depth, limit)
    ensures Printed(Preorder(c, depth, limit), maxRows, written) == []
  {
  }

  method PrintChunkTreeNode(sheet: Sheet<Row>, maxRows: nat, limit: nat, chunk: ChunkRef, depth: nat)
    requires sheet.Valid() && chunk.Chunk?
    modifies sheet
    ensures sheet.Valid()
    ensures sheet.rows == old(sheet.rows) + Printed(Preorder(chunk, depth, limit), maxRows, |old(sheet.rows)|)
    decreases chunk
  {
    hide Printed, Preorder, PreorderAll;
    ghost var start := sheet.rows;
    if limit != 0 && depth > limit {
      BeyondPrintsNothing(chunk, depth, limit, maxRows, |start|);
      return;
    }
    sheet.Print(Row(depth, chunk.classId, |chunk.children|));
    ghost var below: seq<Row> := [];
    NoChildYet(chunk, depth + 1, limit);
    var i := 0;
    while i < |chunk.children|
      invariant 0 <= i <= |chunk.children|
      invariant sheet.Valid()
      invariant below == PreorderAll(chunk.children[..i], depth + 1, limit)
      invariant sheet.rows == start + ([RowOf(chunk, depth)] + below)
      invariant maxRows == 0 || below == [] || |sheet.rows| < maxRows
    {
      var child := chunk.children[i];
      OneMoreChild(chunk, i, depth + 1, limit);
      if child.Chunk? {
        PrintChunkTreeNode(sheet, maxRows, limit, child, depth + 1);
        ghost var rows := Printed(Preorder(child, depth + 1, limit), maxRows, |start| + 1 + |below|);
        assert sheet.rows == start + ([RowOf(chunk, depth)] + (below + rows));
        if maxRows != 0 && sheet.rowsWritten >= maxRows {
          StopsAfterChild(chunk, i, depth, limit, maxRows, |start|);
          assert [RowOf(chunk, depth)] + below + rows == [RowOf(chunk, depth)] + (below + rows);
          return;
        }
        NotCut(Preorder(child, depth + 1, limit), maxRows, |start| + 1 + |below|);
        below := below + rows;
      }
      i := i + 1;
    }
    AllChildrenPrinted(chunk, depth, limit, maxRows, |start|);
  }

  // The whole section: the trees of the objects that pass the filters.

  /** An object's chunk, and whether the object passes the object filters. */
  datatype Entry = Entry(chunk: ChunkRef, objectMatches: bool)

  /** An empty list selects everything. */
  datatype ChunkFilter = ChunkFilter(chunkIds: seq<nat>, chunkIndexes: seq<nat>)

  predicate ChunkMatches(f: ChunkFilter, classId: nat, index: nat) {
    && (f.chunkIds == [] || classId in f.chunkIds)
    && (f.chunkIndexes == [] || index in f.chunkIndexes)
  }

  /** Chunks are numbered over all objects that have one, whether selected or not. */
  function SelectedFrom(entries: seq<Entry>, index: nat, f: ChunkFilter): seq<ChunkRef> {
    if entries == [] then []
    else
      var e := entries[0];
      if e.chunk.Null? then SelectedFrom(entries[1..], index, f)
      else (if e.objectMatches && ChunkMatches(f, e.chunk.classId, index) then [e.chunk] else [])
           + SelectedFrom(entries[1..], index + 1, f)
  }

  lemma SelectedStep(entries: seq<Entry>, i: nat, index: nat, f: ChunkFilter)
    requires i < |entries|
    ensures SelectedFrom(entries[i..], index, f) ==
      var e := entries[i];
      if e.chunk.Null? then SelectedFrom(entries[i + 1..], index, f)
      else (if e.objectMatches && ChunkMatches(f, e.chunk.classId, index) then [e.chunk] else [])
           + SelectedFrom(entries[i + 1..], index + 1, f)
  {
    assert entries[i..][1..] == entries[i + 1..];
  }

  lemma TreePrinted(c: ChunkRef, limit: nat)
    requires c.Chunk?
    ensures Preorder(c, 1, limit) != []
  {
  }

  /** The walk of the section stops after a tree where the preorder of the whole forest is cut. */
  lemma StopsAfterTree(before: seq<ChunkRef>, c: ChunkRef, after: seq<ChunkRef>, limit: nat, maxRows: nat)
    requires c.Chunk? && maxRows > 0
    requires var written := |PreorderAll(before, 1, limit)|;
      written < maxRows <= written + |Printed(Preorder(c, 1, limit), maxRows, written)|
    ensures var printed := PreorderAll(before, 1, limit);
      printed + Printed(Preorder(c, 1, limit), maxRows, |printed|)
      == Printed(PreorderAll(before + [c] + after, 1, limit), maxRows, 0)
  {
    hide Printed, Preorder;
    PreorderAllConcat(before + [c], after, 1, limit);
    assert (before + [c])[..|before|] == before;
    PreorderDepths(c, 1, limit);
    PreorderAllDepths(after, 1, limit);
    TreePrinted(c, limit);
    CutInside(PreorderAll(before, 1, limit), Preorder(c, 1, limit), PreorderAll(after, 1, limit), maxRows, 0);
  }

  lemma TreeAdded(before: seq<ChunkRef>, c: ChunkRef, limit: nat)
    ensures PreorderAll(before + [c], 1, limit) == PreorderAll(before, 1, limit) + Preorder(c, 1, limit)
  {
    assert (before + [c])[..|before|] == before;
  }

  lemma ForestPrinted(cs: seq<ChunkRef>, limit: nat, maxRows: nat)
    requires maxRows == 0 || |PreorderAll(cs, 1, limit)| <= maxRows
    ensures Printed(PreorderAll(cs, 1, limit), maxRows, 0) == PreorderAll(cs, 1, limit)
  {
    NotCutIfFits(PreorderAll(cs, 1, limit), maxRows, 0);
  }

  /** The rows are the preorder of the selected trees, cut where the budget says; object headings are no rows. */
  method PrintChunkTree(sheet: Sheet<Row>, maxRows: nat, limit: nat, entries: seq<Entry>, f: ChunkFilter)
    requires sheet.Valid() && sheet.rows == []
    modifies sheet
    ensures sheet.Valid()
    ensures sheet.rows == Printed(PreorderAll(SelectedFrom(entries, 0, f), 1, limit), maxRows, 0)
  {
    hide Printed, PreorderAll, Preorder, SelectedFrom;
    var chunkIndex, i := 0, 0;
    ghost var all, picked: seq<ChunkRef> := SelectedFrom(entries, 0, f), [];
    assert entries[0..] == entries;
    NoTrees(limit);
    while i < |entries|
      invariant 0 <= i <= |entries|
      invariant sheet.Valid() && sheet.rows == PreorderAll(picked, 1, limit)
      invariant all == picked + SelectedFrom(entries[i..], chunkIndex, f)
      invariant maxRows == 0 || |sheet.rows| < maxRows
    {
      SelectedStep(entries, i, chunkIndex, f);
      var e := entries[i];
      i := i + 1;
      if e.chunk.Chunk? {
        if e.objectMatches && ChunkMatches(f, e.chunk.classId, chunkIndex) {
          PrintChunkTreeNode(sheet, maxRows, limit, e.chunk, 1);
          if maxRows != 0 && sheet.rowsWritten >= maxRows {
            ghost var rest := SelectedFrom(entries[i..], chunkIndex + 1, f);
            assert picked + ([e.chunk] + rest) == picked + [e.chunk] + rest;
            StopsAfterTree(picked, e.chunk, rest, limit, maxRows);
            return;
          }
          NotCut(Preorder(e.chunk, 1, limit), maxRows, |PreorderAll(picked, 1, limit)|);
          TreeAdded(picked, e.chunk, limit);
          picked := picked + [e.chunk];
        }
        chunkIndex := chunkIndex + 1;
      }
    }
    NothingSelected(entries[i..], chunkIndex, f);
    assert picked == all;
    ForestPrinted(picked, limit, maxRows);
  }

  lemma NoTrees(limit: nat)
    ensures PreorderAll([], 1, limit) == []
  {
  }

  lemma NothingSelected(entries: seq<Entry>, index: nat, f: ChunkFilter)
    requires entries == []
    ensures SelectedFrom(entries, index, f) == []
  {
  }

  /**
   Where a forest's walk stops: at the budget, and from there on down for as long as
   each row is deeper than the one before it.
   */
  lemma PrintedIs(rows: seq<Row>, maxRows: nat)
    ensures var printed := Printed(rows, maxRows, 0);
      && printed <= rows
      && (maxRows == 0 || |rows| <= maxRows ==> printed == rows)
      && (0 < maxRows < |rows| ==>
            && |printed| >= maxRows
            && (forall i :: maxRows <= i < |printed| ==> rows[i].depth > rows[i - 1].depth)
            && (|printed| < |rows| ==> rows[|printed|].depth <= rows[|printed| - 1].depth))
  {
  }

  // How far past the budget the walk can go.

  /** The levels of a tree within the depth limit. */
  function Height(c: ChunkRef, depth: nat, limit: nat): nat
    decreases c, 1
  {
    if c.Null? || Beyond(depth, limit) then 0 else 1 + HeightAll(c.children, depth + 1, limit)
  }

  function HeightAll(cs: seq<ChunkRef>, depth: nat, limit: nat): nat
    decreases cs, 0
  {
    if cs == [] then 0
    else
      var h, l := HeightAll(cs[..|cs| - 1], depth, limit), Height(cs[|cs| - 1], depth, limit);
      if h < l then l else h
  }

  predicate Within(rows: seq<Row>, low: nat, high: nat) {
    forall k :: 0 <= k < |rows| ==> low <= rows[k].depth < high
  }

  lemma {:induction false} DepthBelowHeight(c: ChunkRef, depth: nat, limit: nat)
    ensures Within(Preorder(c, depth, limit), depth, depth + Height(c, depth, limit))
    decreases c, 1
  {
    if c.Chunk? && !Beyond(depth, limit) {
      DepthsBelowHeights(c.children, depth + 1, limit);
      assert Within([RowOf(c, depth)], depth, depth + Height(c, depth, limit));
    }
  }

  lemma {:induction false} DepthsBelowHeights(cs: seq<ChunkRef>, depth: nat, limit: nat)
    ensures Within(PreorderAll(cs, depth, limit), depth, depth + HeightAll(cs, depth, limit))
    decreases cs, 0
  {
    if cs != [] {
      DepthsBelowHeights(cs[..|cs| - 1], depth, limit);
      DepthBelowHeight(cs[|cs| - 1], depth, limit);
    }
  }

  /** A run of ever deeper rows is as long as it is deep. */
  lemma {:induction false} RunDescends(rows: seq<Row>, k: nat, stop: nat)
    requires 0 < k <= stop <= |rows|
    requires forall i :: k <= i < stop ==> rows[i].depth > rows[i - 1].depth
    ensures rows[stop - 1].depth >= rows[k - 1].depth + (stop - k)
    decreases stop - k
  {
    if k < stop {
      RunDescends(rows, k, stop - 1);
    }
  }

  lemma TreeOvershoot(c: ChunkRef, limit: nat, maxRows: nat, written: nat)
    requires c.Chunk? && written < maxRows
    ensures written + |Printed(Preorder(c, 1, limit), maxRows, written)| <= maxRows - 1 + Height(c, 1, limit)
  {
    var p, room := Preorder(c, 1, limit), maxRows - written;
    TreePrinted(c, limit);
    DepthBelowHeight(c, 1, limit);
    var k := if room <= |p| then room else |p|;
    var stop := StopFrom(p, k);
    RunDescends(p, k, stop);
    assert p[stop - 1].depth < 1 + Height(c, 1, limit) && p[k - 1].depth >= 1;
  }

  /**
   A forest that does not fit the budget is printed up to and into one tree, the
   last visited, with at most that tree's height less one of rows beyond the budget.
   */
  lemma {:induction false} ForestOvershoot(cs: seq<ChunkRef>, limit: nat, maxRows: nat) returns (last: nat)
    requires forall i :: 0 <= i < |cs| ==> cs[i].Chunk?
    requires 0 < maxRows <= |PreorderAll(cs, 1, limit)|
    ensures last < |cs| && |PreorderAll(cs[..last], 1, limit)| < maxRows
    ensures var printed := Printed(PreorderAll(cs, 1, limit), maxRows, 0);
      && printed <= PreorderAll(cs[..last + 1], 1, limit)
      && maxRows <= |printed| <= maxRows - 1 + Height(cs[last], 1, limit)
    decreases |cs|
  {
    last := LastVisited(cs, limit, maxRows);
    var before, c, after := cs[..last], cs[last], cs[last + 1..];
    var written := |PreorderAll(before, 1, limit)|;
    assert cs == before + [c] + after && cs[..last + 1] == before + [c];
    TreeAdded(before, c, limit);
    TreeReached(Preorder(c, 1, limit), maxRows, written);
    StopsAfterTree(before, c, after, limit, maxRows);
    TreeOvershoot(c, limit, maxRows, written);
  }

  lemma TreeReached(rows: seq<Row>, maxRows: nat, written: nat)
    requires written < maxRows <= written + |rows|
    ensures Printed(rows, maxRows, written) <= rows
    ensures maxRows <= written + |Printed(rows, maxRows, written)|
  {
  }

  lemma {:induction false} LastVisited(cs: seq<ChunkRef>, limit: nat, maxRows: nat) returns (last: nat)
    requires 0 < maxRows <= |PreorderAll(cs, 1, limit)|
    ensures last < |cs|
    ensures |PreorderAll(cs[..last], 1, limit)| < maxRows <= |PreorderAll(cs[..last + 1], 1, limit)|
    decreases |cs|
  {
    var n := |cs| - 1;
    if |PreorderAll(cs[..n], 1, limit)| < maxRows {
      last := n;
      assert cs[..n + 1] == cs;
    } else {
      last := LastVisited(cs[..n], limit, maxRows);
      assert cs[..n][..last] == cs[..last] && cs[..n][..last + 1] == cs[..last + 1];
    }
  }

  /** A chain of single children. */
  function Chain(levels: nat): ChunkRef {
    if levels == 0 then Null else Chunk(0, if levels == 1 then [] else [Chain(levels - 1)])
  }

  lemma {:induction false} ChainRows(levels: nat, depth: nat)
    ensures var p := Preorder(Chain(levels), depth, 0);
      |p| == levels && forall k :: 0 <= k < levels ==> p[k].depth == depth + k
    ensures Height(Chain(levels), depth, 0) == levels
    decreases levels
  {
    var c := Chain(levels);
    if levels == 1 {
      assert PreorderAll(c.children, depth + 1, 0) == [];
    } else if levels > 1 {
      ChainRows(levels - 1, depth + 1);
      OnlyChild(Chain(levels - 1), depth + 1);
      assert Preorder(c, depth, 0) == [RowOf(c, depth)] + Preorder(Chain(levels - 1), depth + 1, 0);
    }
  }

  lemma OnlyChild(c: ChunkRef, depth: nat)
    ensures PreorderAll([c], depth, 0) == Preorder(c, depth, 0)
    ensures HeightAll([c], depth, 0) == Height(c, depth, 0)
  {
    assert [c][..0] == [];
  }

  /** maxRows - 1 single chunks, and a chain. */
  function SinglesAndChain(maxRows: nat, levels: nat): seq<ChunkRef>
    requires maxRows > 0
  {
    seq(maxRows - 1, _ => Chain(1)) + [Chain(levels)]
  }

  lemma {:induction false} SinglesRows(n: nat)
    ensures var p := PreorderAll(seq(n, _ => Chain(1)), 1, 0);
      |p| == n && forall k :: 0 <= k < n ==> p[k].depth == 1
    decreases n
  {
    hide Preorder, Chain;
    var singles := seq(n, _ => Chain(1));
    if n > 0 {
      SinglesRows(n - 1);
      assert singles == seq(n - 1, _ => Chain(1)) + [Chain(1)];
      TreeAdded(seq(n - 1, _ => Chain(1)), Chain(1), 0);
      ChainRows(1, 1);
    }
  }

  /** The bound is met for every budget: the chain that begins with its last row is printed to its end. */
  lemma ChainOvershoots(maxRows: nat, levels: nat)
    requires maxRows > 0 && levels > 0
    ensures Height(Chain(levels), 1, 0) == levels
    ensures |Printed(PreorderAll(SinglesAndChain(maxRows, levels), 1, 0), maxRows, 0)| == maxRows - 1 + levels
  {
    hide Preorder, PreorderAll, Chain, Printed, Height;
    var singles := seq(maxRows - 1, _ => Chain(1));
    var p := PreorderAll(singles + [Chain(levels)], 1, 0);
    SinglesRows(maxRows - 1);
    ChainRows(levels, 1);
    TreeAdded(singles, Chain(levels), 0);
    var chain := Preorder(Chain(levels), 1, 0);
    forall i | maxRows <= i < |p|
      ensures p[i].depth > p[i - 1].depth
    {
      assert p[i] == chain[i - maxRows + 1] && p[i - 1] == chain[i - maxRows];
    }
    DescentPrinted(p, maxRows);
  }

  lemma DescentPrinted(rows: seq<Row>, maxRows: nat)
    requires 0 < maxRows <= |rows|
    requires forall i :: maxRows <= i < |rows| ==> rows[i].depth > rows[i - 1].depth
    ensures Printed(rows, maxRows, 0) == rows
  {
    var stop := StopFrom(rows, maxRows);
  }

  // The walk by places: which chunks the rows are about, and in what order.

  /** The chunk at a place below c, null if there is no such place. */
  function NodeAt(c: ChunkRef, p: Path): ChunkRef
    decreases |p|
  {
    if c.Null? || p == [] then c
    else if p[0] < |c.children| then NodeAt(c.children[p[0]], p[1..])
    else Null
  }

  function NodeIn(cs: seq<ChunkRef>, p: Path): ChunkRef {
    if p != [] && p[0] < |cs| then NodeAt(cs[p[0]], p[1..]) else Null
  }

  /** The row says the depth, the class and the number of sub-chunks of the chunk. */
  predicate Tells(row: Row, c: ChunkRef, depth: nat) {
    c.Chunk? && row.depth == depth && row.classId == c.classId && row.subChunks == |c.children|
  }

  predicate Allowed(depth: int, limit: nat) {
    limit == 0 || depth <= limit
  }

  /** Each row is about the chunk at its place. */
  ghost predicate Told(c: ChunkRef, depth: nat, limit: nat, rows: seq<Row>, ps: seq<Path>) {
    |ps| == |rows| && forall k :: 0 <= k < |ps| ==>
      Tells(rows[k], NodeAt(c, ps[k]), depth + |ps[k]|) && Allowed(depth + |ps[k]|, limit)
  }

  /** Each place within the limit is there. */
  ghost predicate Covered(c: ChunkRef, depth: nat, limit: nat, ps: seq<Path>) {
    forall p: Path :: NodeAt(c, p).Chunk? && Allowed(depth + |p|, limit) ==> p in ps
  }

  ghost predicate Walk(c: ChunkRef, depth: nat, limit: nat, rows: seq<Row>, ps: seq<Path>) {
    Sorted(ps) && Told(c, depth, limit, rows, ps) && Covered(c, depth, limit, ps)
  }

  ghost predicate ToldAll(cs: seq<ChunkRef>, depth: nat, limit: nat, rows: seq<Row>, ps: seq<Path>) {
    |ps| == |rows| && forall k :: 0 <= k < |ps| ==>
      ps[k] != [] && ps[k][0] < |cs|
      && Tells(rows[k], NodeIn(cs, ps[k]), depth + |ps[k]| - 1) && Allowed(depth + |ps[k]| - 1, limit)
  }

  ghost predicate CoveredAll(cs: seq<ChunkRef>, depth: nat, limit: nat, ps: seq<Path>) {
    forall p: Path :: NodeIn(cs, p).Chunk? && Allowed(depth + |p| - 1, limit) ==> p in ps
  }

  ghost predicate WalkAll(cs: seq<ChunkRef>, depth: nat, limit: nat, rows: seq<Row>, ps: seq<Path>) {
    Sorted(ps) && ToldAll(cs, depth, limit, rows, ps) && CoveredAll(cs, depth, limit, ps)
  }

  /** The preorder of a tree has one row for each chunk within the limit, in the order of their places. */
  lemma {:induction false} PreorderIs(c: ChunkRef, depth: nat, limit: nat) returns (ps: seq<Path>)
    ensures Walk(c, depth, limit, Preorder(c, depth, limit), ps)
    decreases c, 1
  {
    ps := [];
    if c.Chunk? && !Beyond(depth, limit) {
      var below := PreorderAllIs(c.children, depth + 1, limit);
      ps := [[]] + below;
      RootAbove(c, depth, limit, below);
    } else {
      NothingBelow(c, depth, limit);
    }
  }

  lemma NothingBelow(c: ChunkRef, depth: nat, limit: nat)
    requires c.Null? || Beyond(depth, limit)
    ensures Walk(c, depth, limit, [], [])
  {
  }

  lemma RootAbove(c: ChunkRef, depth: nat, limit: nat, below: seq<Path>)
    requires c.Chunk? && !Beyond(depth, limit)
    requires WalkAll(c.children, depth + 1, limit, PreorderAll(c.children, depth + 1, limit), below)
    ensures Walk(c, depth, limit, Preorder(c, depth, limit), [[]] + below)
  {
    hide PreorderAll, Sorted, Tells, NodeIn, NodeAt;
    RootSorted(below);
    RootTold(c, depth, limit, PreorderAll(c.children, depth + 1, limit), below);
    RootCovered(c, depth, limit, below);
  }

  lemma RootTold(c: ChunkRef, depth: nat, limit: nat, rows: seq<Row>, below: seq<Path>)
    requires c.Chunk? && !Beyond(depth, limit) && ToldAll(c.children, depth + 1, limit, rows, below)
    ensures Told(c, depth, limit, [RowOf(c, depth)] + rows, [[]] + below)
  {
    var ps: seq<Path>, all := [[]] + below, [RowOf(c, depth)] + rows;
    forall k | 0 <= k < |ps|
      ensures Tells(all[k], NodeAt(c, ps[k]), depth + |ps[k]|) && Allowed(depth + |ps[k]|, limit)
    {
      if k > 0 {
        assert ps[k] == below[k - 1] && all[k] == rows[k - 1];
        assert NodeAt(c, ps[k]) == NodeIn(c.children, below[k - 1]);
      }
    }
  }

  lemma RootCovered(c: ChunkRef, depth: nat, limit: nat, below: seq<Path>)
    requires c.Chunk? && CoveredAll(c.children, depth + 1, limit, below)
    ensures Covered(c, depth, limit, [[]] + below)
  {
    var ps: seq<Path> := [[]] + below;
    forall p: Path | NodeAt(c, p).Chunk? && Allowed(depth + |p|, limit)
      ensures p in ps
    {
      if p == [] {
        assert ps[0] == [];
      } else {
        assert NodeAt(c, p) == NodeIn(c.children, p);
        assert p in below;
      }
    }
  }

  /** The same of a forest: the first number of a place is the tree. */
  lemma {:induction false} PreorderAllIs(cs: seq<ChunkRef>, depth: nat, limit: nat) returns (ps: seq<Path>)
    ensures WalkAll(cs, depth, limit, PreorderAll(cs, depth, limit), ps)
    decreases cs, 0
  {
    ps := [];
    if cs != [] {
      var n := |cs| - 1;
      var before := PreorderAllIs(cs[..n], depth, limit);
      var last := PreorderIs(cs[n], depth, limit);
      ps := before + Under(n, last);
      LastBehind(cs, depth, limit, before, last);
    }
  }

  lemma LastBehind(cs: seq<ChunkRef>, depth: nat, limit: nat, before: seq<Path>, last: seq<Path>)
    requires cs != []
    requires WalkAll(cs[..|cs| - 1], depth, limit, PreorderAll(cs[..|cs| - 1], depth, limit), before)
    requires Walk(cs[|cs| - 1], depth, limit, Preorder(cs[|cs| - 1], depth, limit), last)
    ensures WalkAll(cs, depth, limit, PreorderAll(cs, depth, limit), before + Under(|cs| - 1, last))
  {
    var n := |cs| - 1;
    var rows, more := PreorderAll(cs[..n], depth, limit), Preorder(cs[n], depth, limit);
    assert PreorderAll(cs, depth, limit) == rows + more;
    hide Preorder, PreorderAll, NodeAt, NodeIn, Tells, Sorted;
    LevelSorted(before, n, last);
    LastTold(cs, depth, limit, rows, before, more, last);
    LastCovered(cs, depth, limit, before, last);
  }

  lemma LastTold(cs: seq<ChunkRef>, depth: nat, limit: nat, rows: seq<Row>, before: seq<Path>, more: seq<Row>, last: seq<Path>)
    requires cs != [] && ToldAll(cs[..|cs| - 1], depth, limit, rows, before) && Told(cs[|cs| - 1], depth, limit, more, last)
    ensures ToldAll(cs, depth, limit, rows + more, before + Under(|cs| - 1, last))
  {
    hide NodeAt, Tells;
    var n := |cs| - 1;
    var ps := before + Under(n, last);
    forall k | 0 <= k < |ps|
      ensures ps[k] != [] && ps[k][0] < |cs|
      ensures Tells((rows + more)[k], NodeIn(cs, ps[k]), depth + |ps[k]| - 1) && Allowed(depth + |ps[k]| - 1, limit)
    {
      if k < |before| {
        assert ps[k] == before[k] && (rows + more)[k] == rows[k];
        assert NodeIn(cs, before[k]) == NodeIn(cs[..n], before[k]);
      } else {
        var j := k - |before|;
        assert ps[k] == [n] + last[j] && ps[k][1..] == last[j] && (rows + more)[k] == more[j];
        assert NodeIn(cs, ps[k]) == NodeAt(cs[n], last[j]);
      }
    }
  }

  lemma LastCovered(cs: seq<ChunkRef>, depth: nat, limit: nat, before: seq<Path>, last: seq<Path>)
    requires cs != [] && CoveredAll(cs[..|cs| - 1], depth, limit, before) && Covered(cs[|cs| - 1], depth, limit, last)
    ensures CoveredAll(cs, depth, limit, before + Under(|cs| - 1, last))
  {
    hide NodeAt, NodeIn;
    forall p: Path | NodeIn(cs, p).Chunk? && Allowed(depth + |p| - 1, limit)
      ensures p in before + Under(|cs| - 1, last)
    {
      NodeInParts(cs, p);
      if p[0] < |cs| - 1 {
        assert p in before;
      } else {
        assert p[1..] in last;
        UnderHas(|cs| - 1, last, p[1..]);
      }
    }
  }

  lemma NodeInParts(cs: seq<ChunkRef>, p: Path)
    requires cs != [] && NodeIn(cs, p).Chunk?
    ensures p != [] && p == [p[0]] + p[1..] && p[0] < |cs|
    ensures p[0] < |cs| - 1 ==> NodeIn(cs[..|cs| - 1], p) == NodeIn(cs, p)
    ensures p[0] == |cs| - 1 ==> NodeAt(cs[|cs| - 1], p[1..]) == NodeIn(cs, p)
  {
    hide NodeAt;
  }

  // The selection by position.

  /** How many of the entries before i have a chunk. */
  function ChunksBefore(entries: seq<Entry>, i: nat): nat
    requires i <= |entries|
  {
    if i == 0 then 0 else ChunksBefore(entries, i - 1) + if entries[i - 1].chunk.Chunk? then 1 else 0
  }

  /** A chunk is there, its object passes, and its class and number are among those asked for, if any are. */
  predicate Selected(entries: seq<Entry>, i: nat, f: ChunkFilter)
    requires i < |entries|
  {
    && entries[i].chunk.Chunk? && entries[i].objectMatches
    && (|f.chunkIds| > 0 ==> entries[i].chunk.classId in f.chunkIds)
    && (|f.chunkIndexes| > 0 ==> ChunksBefore(entries, i) in f.chunkIndexes)
  }

  lemma {:induction false} SelectedIs(entries: seq<Entry>, i: nat, f: ChunkFilter) returns (from: seq<nat>)
    requires i <= |entries|
    ensures var cs := SelectedFrom(entries[i..], ChunksBefore(entries, i), f);
      |from| == |cs| && forall j :: 0 <= j < |from| ==> i <= from[j] < |entries| && cs[j] == entries[from[j]].chunk
    ensures forall j, k :: 0 <= j < k < |from| ==> from[j] < from[k]
    ensures forall k :: i <= k < |entries| ==> (k in from <==> Selected(entries, k, f))
    decreases |entries| - i
  {
    hide SelectedFrom;
    from := [];
    if i == |entries| {
      NothingSelected(entries[i..], ChunksBefore(entries, i), f);
    } else {
      SelectedStep(entries, i, ChunksBefore(entries, i), f);
      var later := SelectedIs(entries, i + 1, f);
      from := (if Selected(entries, i, f) then [i] else []) + later;
    }
  }
}
