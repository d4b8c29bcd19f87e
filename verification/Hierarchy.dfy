/**
 The --hierarchy section of tools/nmo-inspect.c: a filtered preorder walk of the
 object forest whose row budget is tested before each row, and the filters it uses.
 Object pointers are modelled by indices into the repository.
 */
module Hierarchy {
  import opened CStrings
  import opened Report
  import opened Paths
  import Glob

  datatype Object = Object(id: nat, name: Option<CString>, classId: nat, parent: Option<nat>, children: seq<nat>)

  /**
   The objects of a session. The ranks are no part of the source: each witnesses that
   one kind of link has no cycle, without which the loop or the recursion along it
   does not end. The two kinds need not agree.
   */
  datatype Scene = Scene(objects: seq<Object>, childRank: seq<nat>, parentRank: seq<nat>)

  predicate ChildrenEnd(s: Scene) {
    && |s.childRank| == |s.objects|
    && forall o, i :: 0 <= o < |s.objects| && 0 <= i < |s.objects[o].children| ==>
         s.objects[o].children[i] < |s.objects| && s.childRank[s.objects[o].children[i]] < s.childRank[o]
  }

  predicate ParentsEnd(s: Scene) {
    && |s.parentRank| == |s.objects|
    && forall o :: 0 <= o < |s.objects| && s.objects[o].parent.Some? ==>
         s.objects[o].parent.value < |s.objects| && s.parentRank[s.objects[o].parent.value] < s.parentRank[o]
  }

  /** Only the root filter follows parents. */
  predicate Walkable(s: Scene, f: Filters) {
    ChildrenEnd(s) && (f.root.Some? ==> ParentsEnd(s))
  }

  /** Each child names its parent, and each parent lists each of its children once. */
  predicate Linked(s: Scene)
    requires ChildrenEnd(s)
  {
    && (forall o, i :: 0 <= o < |s.objects| && 0 <= i < |s.objects[o].children| ==>
          s.objects[s.objects[o].children[i]].parent == Some(o))
    && (forall o :: 0 <= o < |s.objects| && s.objects[o].parent.Some? ==>
          s.objects[o].parent.value < |s.objects| && o in s.objects[s.objects[o].parent.value].children)
    && (forall o, i, j :: 0 <= o < |s.objects| && 0 <= i < j < |s.objects[o].children| ==>
          s.objects[o].children[i] != s.objects[o].children[j])
  }

  // Filters.

  /** derived answers nmo_class_is_derived_from; None when no schema registry is at hand. */
  datatype Filters = Filters(objectIds: seq<nat>, classId: Option<nat>, derived: Option<(nat, nat) -> bool>,
                             namePattern: Option<CString>, root: Option<nat>)

  /** "(unnamed)" */
  const UNNAMED: CString := [40, 117, 110, 110, 97, 109, 101, 100, 41]

  function SafeName(node: Object): CString {
    if node.name == None then UNNAMED else node.name.value
  }

  /** o or one of its ancestors has the id. */
  predicate UnderRoot(s: Scene, o: nat, rootId: nat)
    requires ParentsEnd(s) && o < |s.objects|
    decreases s.parentRank[o]
  {
    || s.objects[o].id == rootId
    || (s.objects[o].parent.Some? && UnderRoot(s, s.objects[o].parent.value, rootId))
  }

  method ObjectIsUnderRoot(s: Scene, node: nat, rootId: nat) returns (under: bool)
    requires ParentsEnd(s) && node < |s.objects|
    ensures under <==> UnderRoot(s, node, rootId)
  {
    if s.objects[node].id == rootId {
      return true;
    }
    var parent: Option<nat> := Some(node);
    while parent.Some?
      invariant parent.Some? ==> parent.value < |s.objects|
      invariant UnderRoot(s, node, rootId) <==> parent.Some? && UnderRoot(s, parent.value, rootId)
      decreases parent.Some?, if parent.Some? then s.parentRank[parent.value] else 0
    {
      if s.objects[parent.value].id == rootId {
        return true;
      }
      parent := s.objects[parent.value].parent;
    }
    return false;
  }

  /** A chain of parents that leads from o to an object with the id. */
  ghost predicate LeadsTo(s: Scene, o: nat, rootId: nat, chain: seq<nat>) {
    && chain != [] && chain[0] == o
    && (forall k :: 0 <= k < |chain| ==> chain[k] < |s.objects|)
    && (forall k :: 0 <= k < |chain| - 1 ==> s.objects[chain[k]].parent == Some(chain[k + 1]))
    && s.objects[chain[|chain| - 1]].id == rootId
  }

  lemma UnderRootIff(s: Scene, o: nat, rootId: nat)
    requires ParentsEnd(s) && o < |s.objects|
    ensures UnderRoot(s, o, rootId) <==> exists chain :: LeadsTo(s, o, rootId, chain)
  {
    if UnderRoot(s, o, rootId) {
      var chain := ChainUp(s, o, rootId);
    }
    if chain :| LeadsTo(s, o, rootId, chain) {
      ChainLeads(s, o, rootId, chain);
    }
  }

  lemma {:induction false} ChainUp(s: Scene, o: nat, rootId: nat) returns (chain: seq<nat>)
    requires ParentsEnd(s) && o < |s.objects| && UnderRoot(s, o, rootId)
    ensures LeadsTo(s, o, rootId, chain)
    decreases s.parentRank[o]
  {
    if s.objects[o].id == rootId {
      chain := [o];
    } else {
      var above := ChainUp(s, s.objects[o].parent.value, rootId);
      chain := [o] + above;
    }
  }

  lemma {:induction false} ChainLeads(s: Scene, o: nat, rootId: nat, chain: seq<nat>)
    requires ParentsEnd(s) && o < |s.objects| && LeadsTo(s, o, rootId, chain)
    ensures UnderRoot(s, o, rootId)
    decreases |chain|
  {
    if |chain| > 1 {
      assert s.objects[chain[0]].parent == Some(chain[1]);
      forall k | 0 <= k < |chain[1..]| - 1
        ensures s.objects[chain[1..][k]].parent == Some(chain[1..][k + 1])
      {
        assert s.objects[chain[k + 1]].parent == Some(chain[k + 2]);
      }
      ChainLeads(s, chain[1], rootId, chain[1..]);
    }
  }

  ghost predicate Visible(s: Scene, f: Filters, o: nat)
    requires Walkable(s, f) && o < |s.objects|
  {
    var node := s.objects[o];
    && (f.objectIds != [] ==> node.id in f.objectIds)
    && (f.classId.Some? ==> f.derived.Some? && f.derived.value(node.classId, f.classId.value))
    && (f.namePattern.Some? ==> Glob.MatchesPrefix(f.namePattern.value, SafeName(node)))
    && (f.root.Some? ==> UnderRoot(s, o, f.root.value))
  }

  method ObjectMatchesFilters(s: Scene, f: Filters, node: nat) returns (visible: bool)
    requires Walkable(s, f) && node < |s.objects|
    ensures visible <==> Visible(s, f, node)
    ensures visible <==>
      && (f.objectIds == [] || s.objects[node].id in f.objectIds)
      && (f.classId == None || (f.derived != None && f.derived.value(s.objects[node].classId, f.classId.value)))
      && (f.namePattern == None || Glob.MatchesPrefix(f.namePattern.value, SafeName(s.objects[node])))
      && (f.root == None || UnderRoot(s, node, f.root.value))
  {
    if f.objectIds != [] && s.objects[node].id !in f.objectIds {
      return false;
    }
    if f.classId.Some? {
      if f.derived.None? || !f.derived.value(s.objects[node].classId, f.classId.value) {
        return false;
      }
    }
    if f.namePattern.Some? {
      var matched := Glob.MatchPatternCi(f.namePattern, Some(SafeName(s.objects[node])));
      if !matched {
        return false;
      }
    }
    if f.root.Some? {
      var under := ObjectIsUnderRoot(s, node, f.root.value);
      return under;
    }
    return true;
  }

  // The walk.

  /** A printed row: the object, its depth and its id. */
  datatype Row = Row(node: nat, depth: nat, id: nat)

  ghost function OwnRow(s: Scene, f: Filters, o: nat, depth: nat): seq<Row>
    requires Walkable(s, f) && o < |s.objects|
  {
    if Visible(s, f, o) then [Row(o, depth, s.objects[o].id)] else []
  }

  /** The rows of an unlimited walk from o: itself if visible, then its children's. */
  ghost function Preorder(s: Scene, f: Filters, o: nat, depth: nat): seq<Row>
    requires Walkable(s, f) && o < |s.objects|
    decreases s.childRank[o], |s.objects[o].children| + 1
  {
    OwnRow(s, f, o, depth) + ChildRows(s, f, o, |s.objects[o].children|, depth + 1)
  }

  /** The rows of the first k children of o. */
  ghost function ChildRows(s: Scene, f: Filters, o: nat, k: nat, depth: nat): seq<Row>
    requires Walkable(s, f) && o < |s.objects| && k <= |s.objects[o].children|
    decreases s.childRank[o], k
  {
    if k == 0 then []
    else ChildRows(s, f, o, k - 1, depth) + Preorder(s, f, s.objects[o].children[k - 1], depth)
  }

  /** The rows of the parentless among the first k objects. */
  ghost function ForestRows(s: Scene, f: Filters, k: nat): seq<Row>
    requires Walkable(s, f) && k <= |s.objects|
  {
    if k == 0 then []
    else ForestRows(s, f, k - 1) + if s.objects[k - 1].parent.None? then Preorder(s, f, k - 1, 0) else []
  }

  /** What a budget of maxRows (0 for none) leaves of rows when written are spent. */
  ghost function Budgeted(rows: seq<Row>, maxRows: nat, written: nat): seq<Row> {
    if maxRows == 0 || written + |rows| <= maxRows then rows
    else if written >= maxRows then []
    else rows[..maxRows - written]
  }

  lemma BudgetSplits(first: seq<Row>, second: seq<Row>, maxRows: nat, written: nat)
    ensures Budgeted(first + second, maxRows, written)
      == Budgeted(first, maxRows, written) + Budgeted(second, maxRows, written + |Budgeted(first, maxRows, written)|)
  {
  }

  /** Once the budget is spent, nothing that follows adds a row. */
  lemma BudgetSpent(first: seq<Row>, second: seq<Row>, maxRows: nat, written: nat)
    requires 0 < maxRows <= written + |Budgeted(first, maxRows, written)|
    ensures Budgeted(first + second, maxRows, written) == Budgeted(first, maxRows, written)
  {
  }

  /** The children not yet visited. */
  ghost function LaterRows(s: Scene, f: Filters, o: nat, i: nat, depth: nat): seq<Row>
    requires Walkable(s, f) && o < |s.objects| && i <= |s.objects[o].children|
    decreases |s.objects[o].children| - i
  {
    if i == |s.objects[o].children| then []
    else Preorder(s, f, s.objects[o].children[i], depth) + LaterRows(s, f, o, i + 1, depth)
  }

  lemma {:induction false} ChildRowsSplit(s: Scene, f: Filters, o: nat, i: nat, depth: nat)
    requires Walkable(s, f) && o < |s.objects| && i <= |s.objects[o].children|
    ensures ChildRows(s, f, o, |s.objects[o].children|, depth) == ChildRows(s, f, o, i, depth) + LaterRows(s, f, o, i, depth)
    decreases |s.objects[o].children| - i
  {
    if i < |s.objects[o].children| {
      ChildRowsSplit(s, f, o, i + 1, depth);
    }
  }

  lemma StopsAfterChild(s: Scene, f: Filters, o: nat, i: nat, depth: nat, maxRows: nat, written: nat)
    requires Walkable(s, f) && o < |s.objects| && i <= |s.objects[o].children|
    requires var rows := OwnRow(s, f, o, depth) + ChildRows(s, f, o, i, depth + 1);
      0 < maxRows <= written + |Budgeted(rows, maxRows, written)|
    ensures Budgeted(Preorder(s, f, o, depth), maxRows, written)
      == Budgeted(OwnRow(s, f, o, depth) + ChildRows(s, f, o, i, depth + 1), maxRows, written)
  {
    hide OwnRow, ChildRows, LaterRows, Budgeted;
    var own, done, later := OwnRow(s, f, o, depth), ChildRows(s, f, o, i, depth + 1), LaterRows(s, f, o, i, depth + 1);
    ChildRowsSplit(s, f, o, i, depth + 1);
    assert own + (done + later) == (own + done) + later;
    BudgetSpent(own + done, later, maxRows, written);
  }

  lemma OneMoreChild(s: Scene, f: Filters, o: nat, i: nat, depth: nat, maxRows: nat, written: nat)
    requires Walkable(s, f) && o < |s.objects| && i < |s.objects[o].children|
    ensures var rows := OwnRow(s, f, o, depth) + ChildRows(s, f, o, i, depth + 1);
      Budgeted(OwnRow(s, f, o, depth) + ChildRows(s, f, o, i + 1, depth + 1), maxRows, written)
      == Budgeted(rows, maxRows, written)
         + Budgeted(Preorder(s, f, s.objects[o].children[i], depth + 1), maxRows, written + |Budgeted(rows, maxRows, written)|)
  {
    hide OwnRow, Preorder, Budgeted;
    var own, done, next := OwnRow(s, f, o, depth), ChildRows(s, f, o, i, depth + 1), Preorder(s, f, s.objects[o].children[i], depth + 1);
    assert own + (done + next) == (own + done) + next;
    BudgetSplits(own + done, next, maxRows, written);
  }

  lemma BudgetedOwnRow(s: Scene, f: Filters, o: nat, depth: nat, maxRows: nat, written: nat)
    requires Walkable(s, f) && o < |s.objects|
    ensures OwnRow(s, f, o, depth) + ChildRows(s, f, o, 0, depth + 1) == OwnRow(s, f, o, depth)
    ensures !Visible(s, f, o) || maxRows == 0 || written < maxRows ==>
      Budgeted(OwnRow(s, f, o, depth), maxRows, written) == OwnRow(s, f, o, depth)
    ensures Visible(s, f, o) && maxRows != 0 && written >= maxRows ==>
      Budgeted(Preorder(s, f, o, depth), maxRows, written) == []
  {
  }

  method PrintHierarchyNode(sheet: Sheet<Row>, s: Scene, f: Filters, maxRows: nat, node: nat, depth: nat)
    requires sheet.Valid() && Walkable(s, f) && node < |s.objects|
    modifies sheet
    ensures sheet.Valid()
    ensures sheet.rows == old(sheet.rows) + Budgeted(Preorder(s, f, node, depth), maxRows, |old(sheet.rows)|)
    decreases s.childRank[node]
  {
    hide Budgeted, Preorder, ChildRows, Visible;
    ghost var start, written := sheet.rows, |sheet.rows|;
    BudgetedOwnRow(s, f, node, depth, maxRows, written);
    var visible := ObjectMatchesFilters(s, f, node);
    if visible {
      if maxRows != 0 && sheet.rowsWritten >= maxRows {
        return;
      }
      sheet.Print(Row(node, depth, s.objects[node].id));
    }
    var i := 0;
    while i < |s.objects[node].children|
      invariant 0 <= i <= |s.objects[node].children|
      invariant sheet.Valid()
      invariant sheet.rows == start + Budgeted(OwnRow(s, f, node, depth) + ChildRows(s, f, node, i, depth + 1), maxRows, written)
    {
      OneMoreChild(s, f, node, i, depth, maxRows, written);
      PrintHierarchyNode(sheet, s, f, maxRows, s.objects[node].children[i], depth + 1);
      i := i + 1;
      if maxRows != 0 && sheet.rowsWritten >= maxRows {
        StopsAfterChild(s, f, node, i, depth, maxRows, written);
        return;
      }
    }
    WholePreorder(s, f, node, depth);
  }

  lemma WholePreorder(s: Scene, f: Filters, o: nat, depth: nat)
    requires Walkable(s, f) && o < |s.objects|
    ensures Preorder(s, f, o, depth)
      == OwnRow(s, f, o, depth) + ChildRows(s, f, o, |s.objects[o].children|, depth + 1)
  {
  }

  // The whole section.

  /** find_object_by_id: the first object with the id. */
  method FindObjectById(s: Scene, id: nat) returns (found: Option<nat>)
    ensures found.Some? ==>
      && found.value < |s.objects| && s.objects[found.value].id == id
      && forall o :: 0 <= o < found.value ==> s.objects[o].id != id
    ensures found.None? ==> forall o :: 0 <= o < |s.objects| ==> s.objects[o].id != id
  {
    for o := 0 to |s.objects|
      invariant forall j :: 0 <= j < o ==> s.objects[j].id != id
    {
      if s.objects[o].id == id {
        return Some(o);
      }
    }
    return None;
  }

  ghost predicate FirstWithId(s: Scene, o: nat, id: nat) {
    o < |s.objects| && s.objects[o].id == id && forall j :: 0 <= j < o ==> s.objects[j].id != id
  }

  /** The rows of an unlimited section: from the chosen root if it exists, or from every parentless object in order. */
  ghost predicate SectionRows(s: Scene, f: Filters, rows: seq<Row>)
    requires Walkable(s, f)
  {
    match f.root
    case None => rows == ForestRows(s, f, |s.objects|)
    case Some(id) =>
      if exists o :: FirstWithId(s, o, id) then exists o: nat :: FirstWithId(s, o, id) && rows == Preorder(s, f, o, 0)
      else rows == []
  }

  lemma ForestSplits(s: Scene, f: Filters, k: nat, maxRows: nat)
    requires Walkable(s, f) && k < |s.objects| && s.objects[k].parent.None?
    ensures Budgeted(ForestRows(s, f, k + 1), maxRows, 0)
      == Budgeted(ForestRows(s, f, k), maxRows, 0)
         + Budgeted(Preorder(s, f, k, 0), maxRows, |Budgeted(ForestRows(s, f, k), maxRows, 0)|)
  {
    hide Budgeted, Preorder;
    BudgetSplits(ForestRows(s, f, k), Preorder(s, f, k, 0), maxRows, 0);
  }

  lemma {:induction false} ForestSpent(s: Scene, f: Filters, k: nat, n: nat, maxRows: nat)
    requires Walkable(s, f) && k <= n <= |s.objects|
    requires 0 < maxRows <= |Budgeted(ForestRows(s, f, k), maxRows, 0)|
    ensures Budgeted(ForestRows(s, f, n), maxRows, 0) == Budgeted(ForestRows(s, f, k), maxRows, 0)
    decreases n
  {
    if k < n {
      hide Budgeted, Preorder;
      ForestSpent(s, f, k, n - 1, maxRows);
      var more := if s.objects[n - 1].parent.None? then Preorder(s, f, n - 1, 0) else [];
      BudgetSpent(ForestRows(s, f, n - 1), more, maxRows, 0);
    }
  }

  /** The rows printed are exactly the first maxRows of the unlimited section, and all of them if maxRows is 0. */
  method PrintHierarchySection(sheet: Sheet<Row>, s: Scene, f: Filters, maxRows: nat) returns (ghost rows: seq<Row>)
    requires sheet.Valid() && sheet.rows == [] && Walkable(s, f)
    modifies sheet
    ensures sheet.Valid()
    ensures SectionRows(s, f, rows)
    ensures sheet.rows == rows[..if maxRows == 0 || |rows| <= maxRows then |rows| else maxRows]
  {
    hide Budgeted, Preorder;
    if f.root.Some? {
      var root := FindObjectById(s, f.root.value);
      rows := [];
      BudgetedNothing(maxRows);
      if root.Some? {
        assert FirstWithId(s, root.value, f.root.value);
        PrintHierarchyNode(sheet, s, f, maxRows, root.value, 0);
        rows := Preorder(s, f, root.value, 0);
      }
    } else {
      rows := ForestRows(s, f, |s.objects|);
      BudgetedNothing(maxRows);
      var i := 0;
      while i < |s.objects|
        invariant 0 <= i <= |s.objects|
        invariant sheet.Valid() && sheet.rows == Budgeted(ForestRows(s, f, i), maxRows, 0)
      {
        if s.objects[i].parent.None? {
          ForestSplits(s, f, i, maxRows);
          PrintHierarchyNode(sheet, s, f, maxRows, i, 0);
          if maxRows != 0 && sheet.rowsWritten >= maxRows {
            ForestSpent(s, f, i + 1, |s.objects|, maxRows);
            BudgetedIsPrefix(rows, maxRows);
            return;
          }
        } else {
          ForestSkips(s, f, i);
        }
        i := i + 1;
      }
    }
  BudgetedIsPrefix(rows, maxRows);
  }

  lemma ForestSkips(s: Scene, f: Filters, k: nat)
    requires Walkable(s, f) && k < |s.objects| && s.objects[k].parent.Some?
    ensures ForestRows(s, f, k + 1) == ForestRows(s, f, k)
  {
  }

  lemma BudgetedNothing(maxRows: nat)
    ensures Budgeted([], maxRows, 0) == []
  {
  }

  /** A budget keeps a prefix, of as many rows as it allows. */
  lemma BudgetedIsPrefix(rows: seq<Row>, maxRows: nat)
    ensures Budgeted(rows, maxRows, 0) ==
      rows[..if maxRows == 0 || |rows| <= maxRows then |rows| else maxRows]
  {
  }

  // The walk by places: which objects the rows are about, and in what order.

  /** The object at a place below o. */
  function NodeAt(s: Scene, o: nat, p: Path): Option<nat>
    requires ChildrenEnd(s) && o < |s.objects|
    decreases |p|
  {
    if p == [] then Some(o)
    else if p[0] < |s.objects[o].children| then NodeAt(s, s.objects[o].children[p[0]], p[1..])
    else None
  }

  /** The row shows the object there, at its depth and with its id, and the object is visible. */
  ghost predicate Shows(s: Scene, f: Filters, row: Row, node: Option<nat>, depth: int)
    requires Walkable(s, f)
  {
    && node == Some(row.node) && row.node < |s.objects| && row.depth == depth && row.id == s.objects[row.node].id
    && Visible(s, f, row.node)
  }

  ghost predicate Seen(s: Scene, f: Filters, node: Option<nat>)
    requires Walkable(s, f)
  {
    node.Some? && node.value < |s.objects| && Visible(s, f, node.value)
  }

  /** ps are the places of the rows: in the order of the walk, and all those of visible objects. */
  ghost predicate Walk(s: Scene, f: Filters, o: nat, depth: nat, rows: seq<Row>, ps: seq<Path>)
    requires Walkable(s, f) && o < |s.objects|
  {
    && Sorted(ps) && |ps| == |rows|
    && (forall k :: 0 <= k < |ps| ==> Shows(s, f, rows[k], NodeAt(s, o, ps[k]), depth + |ps[k]|))
    && forall p: Path :: Seen(s, f, NodeAt(s, o, p)) ==> p in ps
  }

  /** The same below the first n of several objects; the first number of a place is the object. */
  ghost predicate WalkFrom(s: Scene, f: Filters, roots: seq<nat>, n: nat, depth: nat, rows: seq<Row>, ps: seq<Path>)
    requires Walkable(s, f) && n <= |roots| && forall i :: 0 <= i < |roots| ==> roots[i] < |s.objects|
  {
    && Sorted(ps) && |ps| == |rows|
    && (forall k :: 0 <= k < |ps| ==> ps[k] != [] && ps[k][0] < n)
    && (forall k :: 0 <= k < |ps| ==> Shows(s, f, rows[k], NodeAt(s, roots[ps[k][0]], ps[k][1..]), depth + |ps[k]| - 1))
    && forall p: Path :: p != [] && p[0] < n && Seen(s, f, NodeAt(s, roots[p[0]], p[1..])) ==> p in ps
  }

  lemma {:induction false} PreorderIs(s: Scene, f: Filters, o: nat, depth: nat) returns (ps: seq<Path>)
    requires Walkable(s, f) && o < |s.objects|
    ensures Walk(s, f, o, depth, Preorder(s, f, o, depth), ps)
    decreases s.childRank[o], |s.objects[o].children| + 1
  {
    hide Visible;
    var below := ChildRowsAre(s, f, o, |s.objects[o].children|, depth + 1);
    ps := OwnPlace(s, f, o) + below;
    RootFirst(s, f, o, depth, ChildRows(s, f, o, |s.objects[o].children|, depth + 1), below);
  }

  /** The place of o itself, if it is visible. */
  ghost function OwnPlace(s: Scene, f: Filters, o: nat): seq<Path>
    requires Walkable(s, f) && o < |s.objects|
  {
    if Visible(s, f, o) then [[]] else []
  }

  lemma OwnPlaceFirst(s: Scene, f: Filters, o: nat, below: seq<Path>)
    requires Walkable(s, f) && o < |s.objects|
    requires Sorted(below) && forall i :: 0 <= i < |below| ==> below[i] != []
    ensures Sorted(OwnPlace(s, f, o) + below)
  {
    RootSorted(below);
    assert [] + below == below;
  }

  lemma RootFirst(s: Scene, f: Filters, o: nat, depth: nat, rows: seq<Row>, below: seq<Path>)
    requires Walkable(s, f) && o < |s.objects|
    requires WalkFrom(s, f, s.objects[o].children, |s.objects[o].children|, depth + 1, rows, below)
    ensures Walk(s, f, o, depth, OwnRow(s, f, o, depth) + rows, OwnPlace(s, f, o) + below)
  {
    hide Visible, Sorted, NodeAt, Shows, Seen, OwnRow, OwnPlace;
    OwnPlaceFirst(s, f, o, below);
    OwnShows(s, f, o, depth);
    var own, ps, all := OwnPlace(s, f, o), OwnPlace(s, f, o) + below, OwnRow(s, f, o, depth) + rows;
    forall k | 0 <= k < |ps|
      ensures Shows(s, f, all[k], NodeAt(s, o, ps[k]), depth + |ps[k]|)
    {
      NodeAtStep(s, f, o, ps[k]);
      if k >= |own| {
        assert ps[k] == below[k - |own|] && all[k] == rows[k - |own|];
      }
    }
    forall p: Path | Seen(s, f, NodeAt(s, o, p))
      ensures p in ps
    {
      NodeAtStep(s, f, o, p);
      if p == [] {
        assert ps[0] == p;
      } else {
        assert p in below;
      }
    }
  }

  lemma NodeAtStep(s: Scene, f: Filters, o: nat, p: Path)
    requires Walkable(s, f) && o < |s.objects|
    ensures p == [] ==> NodeAt(s, o, p) == Some(o)
    ensures p != [] && p[0] < |s.objects[o].children| ==> NodeAt(s, o, p) == NodeAt(s, s.objects[o].children[p[0]], p[1..])
    ensures Seen(s, f, NodeAt(s, o, p)) ==> if p == [] then Visible(s, f, o) else p[0] < |s.objects[o].children|
  {
    hide Visible;
  }

  lemma OwnShows(s: Scene, f: Filters, o: nat, depth: nat)
    requires Walkable(s, f) && o < |s.objects|
    ensures |OwnPlace(s, f, o)| == |OwnRow(s, f, o, depth)| <= 1
    ensures OwnPlace(s, f, o) != [] <==> Visible(s, f, o)
    ensures OwnPlace(s, f, o) != [] ==> OwnPlace(s, f, o)[0] == [] && Shows(s, f, OwnRow(s, f, o, depth)[0], Some(o), depth)
  {
    hide Visible;
  }

  lemma {:induction false} ChildRowsAre(s: Scene, f: Filters, o: nat, n: nat, depth: nat) returns (ps: seq<Path>)
    requires Walkable(s, f) && o < |s.objects| && n <= |s.objects[o].children|
    ensures WalkFrom(s, f, s.objects[o].children, n, depth, ChildRows(s, f, o, n, depth), ps)
    decreases s.childRank[o], n
  {
    hide Visible;
    ps := [];
    if n > 0 {
      var children := s.objects[o].children;
      var before := ChildRowsAre(s, f, o, n - 1, depth);
      var last := PreorderIs(s, f, children[n - 1], depth);
      ps := before + Under(n - 1, last);
      OneMoreRoot(s, f, children, n, depth, ChildRows(s, f, o, n - 1, depth), before, Preorder(s, f, children[n - 1], depth), last);
    }
  }

  lemma OneMoreRoot(s: Scene, f: Filters, roots: seq<nat>, n: nat, depth: nat,
                    rows: seq<Row>, before: seq<Path>, more: seq<Row>, last: seq<Path>)
    requires Walkable(s, f) && 0 < n <= |roots| && forall i :: 0 <= i < |roots| ==> roots[i] < |s.objects|
    requires WalkFrom(s, f, roots, n - 1, depth, rows, before) && Walk(s, f, roots[n - 1], depth, more, last)
    ensures WalkFrom(s, f, roots, n, depth, rows + more, before + Under(n - 1, last))
  {
    hide Visible, Sorted, NodeAt, Shows, Seen;
    LevelSorted(before, n - 1, last);
    var ps, all := before + Under(n - 1, last), rows + more;
    forall k | 0 <= k < |ps|
      ensures Shows(s, f, all[k], NodeAt(s, roots[ps[k][0]], ps[k][1..]), depth + |ps[k]| - 1)
    {
      if k < |before| {
        assert ps[k] == before[k] && all[k] == rows[k];
      } else {
        var j := k - |before|;
        assert ps[k] == [n - 1] + last[j] && ps[k][1..] == last[j] && all[k] == more[j];
      }
    }
    forall p: Path | p != [] && p[0] < n && Seen(s, f, NodeAt(s, roots[p[0]], p[1..]))
      ensures p in ps
    {
      if p[0] < n - 1 {
        assert p in before;
      } else {
        assert p == [n - 1] + p[1..];
        UnderHas(n - 1, last, p[1..]);
      }
    }
  }

  /** Where the section begins: the chosen root if there is one, or the parentless objects in order. */
  ghost predicate Roots(s: Scene, f: Filters, roots: seq<nat>) {
    && (forall i :: 0 <= i < |roots| ==> roots[i] < |s.objects|)
    && (forall i, j :: 0 <= i < j < |roots| ==> roots[i] < roots[j])
    && match f.root
       case None => forall o :: o in roots <==> 0 <= o < |s.objects| && s.objects[o].parent == None
       case Some(id) =>
         && (forall o: nat :: o in roots ==> FirstWithId(s, o, id))
         && (|roots| <= 1) && (roots == [] ==> forall o :: 0 <= o < |s.objects| ==> s.objects[o].id != id)
  }

  /** An unlimited section walks from these roots: one row for each visible object below them, in the order of the places. */
  lemma SectionIs(s: Scene, f: Filters, rows: seq<Row>) returns (roots: seq<nat>, ps: seq<Path>)
    requires Walkable(s, f) && SectionRows(s, f, rows)
    ensures Roots(s, f, roots) && WalkFrom(s, f, roots, |roots|, 0, rows, ps)
  {
    hide Visible, Preorder, Walk, WalkFrom, ForestRows;
    match f.root {
      case None =>
        roots, ps := ForestIs(s, f, |s.objects|);
      case Some(id) =>
        roots, ps := [], [];
        NoRoots(s, f);
        if exists o :: FirstWithId(s, o, id) {
          var o: nat :| FirstWithId(s, o, id) && rows == Preorder(s, f, o, 0);
          roots := [o];
          var last := PreorderIs(s, f, o, 0);
          ps := [] + Under(0, last);
          MoreRoots(s, f, [], o, [], []);
          assert [] + [o] == roots;
          OneMoreRoot(s, f, roots, 1, 0, [], [], rows, last);
          assert [] + rows == rows;
        } else {
          NoneWithId(s, id);
        }
    }
  }

  lemma {:induction false} NoneWithId(s: Scene, id: nat)
    requires !exists o :: FirstWithId(s, o, id)
    ensures forall o :: 0 <= o < |s.objects| ==> s.objects[o].id != id
  {
    var n := 0;
    while n < |s.objects|
      invariant n <= |s.objects| && forall j :: 0 <= j < n ==> s.objects[j].id != id
    {
      assert !FirstWithId(s, n, id);
      n := n + 1;
    }
  }

  lemma {:induction false} ForestIs(s: Scene, f: Filters, k: nat) returns (roots: seq<nat>, ps: seq<Path>)
    requires Walkable(s, f) && k <= |s.objects|
    ensures forall i :: 0 <= i < |roots| ==> roots[i] < k
    ensures forall i, j :: 0 <= i < j < |roots| ==> roots[i] < roots[j]
    ensures forall o :: o in roots <==> 0 <= o < k && s.objects[o].parent == None
    ensures WalkFrom(s, f, roots, |roots|, 0, ForestRows(s, f, k), ps)
    decreases k
  {
    hide Visible, Preorder, Walk, WalkFrom;
    roots, ps := [], [];
    NoRoots(s, f);
    if k > 0 {
      var before, places := ForestIs(s, f, k - 1);
      if s.objects[k - 1].parent == None {
        roots := before + [k - 1];
        var last := PreorderIs(s, f, k - 1, 0);
        ps := places + Under(|before|, last);
        MoreRoots(s, f, before, k - 1, ForestRows(s, f, k - 1), places);
        OneMoreRoot(s, f, roots, |roots|, 0, ForestRows(s, f, k - 1), places, Preorder(s, f, k - 1, 0), last);
      } else {
        roots, ps := before, places;
        ForestSkips(s, f, k - 1);
      }
    }
  }

  lemma NoRoots(s: Scene, f: Filters)
    requires Walkable(s, f)
    ensures WalkFrom(s, f, [], 0, 0, [], [])
  {
  }

  lemma MoreRoots(s: Scene, f: Filters, roots: seq<nat>, o: nat, rows: seq<Row>, ps: seq<Path>)
    requires Walkable(s, f) && o < |s.objects| && forall i :: 0 <= i < |roots| ==> roots[i] < |s.objects|
    requires WalkFrom(s, f, roots, |roots|, 0, rows, ps)
    ensures WalkFrom(s, f, roots + [o], |roots|, 0, rows, ps)
  {
    hide Visible, Sorted, NodeAt, Shows, Seen;
  }

  // The root filter.

  function WithoutRoot(f: Filters): Filters {
    f.(root := None)
  }

  /** With consistent links the root filter hides nothing below an object it lets through. */
  lemma {:induction false} RootHidesNothingBelow(s: Scene, f: Filters, o: nat, depth: nat)
    requires Walkable(s, f) && Linked(s) && o < |s.objects|
    requires f.root.Some? ==> UnderRoot(s, o, f.root.value)
    ensures Preorder(s, f, o, depth) == Preorder(s, WithoutRoot(f), o, depth)
    decreases s.childRank[o], |s.objects[o].children| + 1
  {
    RootHidesNoChild(s, f, o, |s.objects[o].children|, depth + 1);
  }

  lemma {:induction false} RootHidesNoChild(s: Scene, f: Filters, o: nat, k: nat, depth: nat)
    requires Walkable(s, f) && Linked(s) && o < |s.objects| && k <= |s.objects[o].children|
    requires f.root.Some? ==> UnderRoot(s, o, f.root.value)
    ensures ChildRows(s, f, o, k, depth) == ChildRows(s, WithoutRoot(f), o, k, depth)
    decreases s.childRank[o], k
  {
    if k > 0 {
      RootHidesNoChild(s, f, o, k - 1, depth);
      RootHidesNothingBelow(s, f, s.objects[o].children[k - 1], depth);
    }
  }

  // Every object is visited once.

  function Count(rows: seq<Row>, x: nat): nat {
    if rows == [] then 0 else Count(rows[..|rows| - 1], x) + if rows[|rows| - 1].node == x then 1 else 0
  }

  lemma {:induction false} CountConcat(rows: seq<Row>, more: seq<Row>, x: nat)
    ensures Count(rows + more, x) == Count(rows, x) + Count(more, x)
    decreases |more|
  {
    if more == [] {
      assert rows + more == rows;
    } else {
      assert (rows + more)[..|rows + more| - 1] == rows + more[..|more| - 1];
      CountConcat(rows, more[..|more| - 1], x);
    }
  }

  /** How often a walk from o visits x, shown or not. */
  function Visits(s: Scene, o: nat, x: nat): nat
    requires ChildrenEnd(s) && o < |s.objects|
    decreases s.childRank[o], |s.objects[o].children| + 1
  {
    (if o == x then 1 else 0) + ChildVisits(s, o, |s.objects[o].children|, x)
  }

  function ChildVisits(s: Scene, o: nat, k: nat, x: nat): nat
    requires ChildrenEnd(s) && o < |s.objects| && k <= |s.objects[o].children|
    decreases s.childRank[o], k
  {
    if k == 0 then 0 else ChildVisits(s, o, k - 1, x) + Visits(s, s.objects[o].children[k - 1], x)
  }

  function ForestVisits(s: Scene, k: nat, x: nat): nat
    requires ChildrenEnd(s) && k <= |s.objects|
  {
    if k == 0 then 0
    else ForestVisits(s, k - 1, x) + if s.objects[k - 1].parent.None? then Visits(s, k - 1, x) else 0
  }

  /** A visible object has a row for each visit, a hidden one has none. */
  lemma {:induction false} RowsAreVisits(s: Scene, f: Filters, o: nat, depth: nat, x: nat)
    requires Walkable(s, f) && o < |s.objects| && x < |s.objects|
    ensures Count(Preorder(s, f, o, depth), x) == if Visible(s, f, x) then Visits(s, o, x) else 0
    decreases s.childRank[o], |s.objects[o].children| + 1
  {
    hide Visible, Count, OwnRow, ChildRows, ChildVisits;
    var own, below := OwnRow(s, f, o, depth), ChildRows(s, f, o, |s.objects[o].children|, depth + 1);
    ChildRowsAreVisits(s, f, o, |s.objects[o].children|, depth + 1, x);
    CountConcat(own, below, x);
    CountOwnRow(s, f, o, depth, x);
  }

  lemma CountOwnRow(s: Scene, f: Filters, o: nat, depth: nat, x: nat)
    requires Walkable(s, f) && o < |s.objects| && x < |s.objects|
    ensures Count(OwnRow(s, f, o, depth), x) == if Visible(s, f, x) && o == x then 1 else 0
  {
    hide Visible;
    var row := Row(o, depth, s.objects[o].id);
    assert [row][..0] == [];
    assert Count([row], x) == Count([row][..0], x) + if row.node == x then 1 else 0;
  }

  lemma {:induction false} ChildRowsAreVisits(s: Scene, f: Filters, o: nat, k: nat, depth: nat, x: nat)
    requires Walkable(s, f) && o < |s.objects| && k <= |s.objects[o].children| && x < |s.objects|
    ensures Count(ChildRows(s, f, o, k, depth), x) == if Visible(s, f, x) then ChildVisits(s, o, k, x) else 0
    decreases s.childRank[o], k
  {
    hide Visible, Preorder, Visits;
    if k > 0 {
      hide Count;
      var child := s.objects[o].children[k - 1];
      ChildRowsAreVisits(s, f, o, k - 1, depth, x);
      RowsAreVisits(s, f, child, depth, x);
      CountConcat(ChildRows(s, f, o, k - 1, depth), Preorder(s, f, child, depth), x);
    }
  }

  lemma {:induction false} ForestRowsAreVisits(s: Scene, f: Filters, k: nat, x: nat)
    requires Walkable(s, f) && k <= |s.objects| && x < |s.objects|
    ensures Count(ForestRows(s, f, k), x) == if Visible(s, f, x) then ForestVisits(s, k, x) else 0
    decreases k
  {
    hide Visible, Preorder, Visits;
    if k > 0 {
      ForestRowsAreVisits(s, f, k - 1, x);
      if s.objects[k - 1].parent.None? {
        hide Count;
        RowsAreVisits(s, f, k - 1, 0, x);
        CountConcat(ForestRows(s, f, k - 1), Preorder(s, f, k - 1, 0), x);
      } else {
        ForestSkips(s, f, k - 1);
      }
    }
  }

  lemma {:induction false} NoVisitUpward(s: Scene, o: nat, x: nat)
    requires ChildrenEnd(s) && o < |s.objects| && x < |s.objects| && s.childRank[o] <= s.childRank[x] && o != x
    ensures Visits(s, o, x) == 0
    decreases s.childRank[o], |s.objects[o].children| + 1
  {
    NoChildVisitUpward(s, o, |s.objects[o].children|, x);
  }

  lemma {:induction false} NoChildVisitUpward(s: Scene, o: nat, k: nat, x: nat)
    requires ChildrenEnd(s) && o < |s.objects| && x < |s.objects| && s.childRank[o] <= s.childRank[x]
    requires k <= |s.objects[o].children|
    ensures ChildVisits(s, o, k, x) == 0
    decreases s.childRank[o], k
  {
    if k > 0 {
      NoChildVisitUpward(s, o, k - 1, x);
      NoVisitUpward(s, s.objects[o].children[k - 1], x);
    }
  }

  lemma SelfVisitedOnce(s: Scene, x: nat)
    requires ChildrenEnd(s) && x < |s.objects|
    ensures Visits(s, x, x) == 1
  {
    NoChildVisitUpward(s, x, |s.objects[x].children|, x);
  }

  /** A walk that does not start at x visits it as often as it visits its parent. */
  lemma {:induction false} VisitedThroughParent(s: Scene, o: nat, x: nat)
    requires ChildrenEnd(s) && Linked(s) && o < |s.objects| && x < |s.objects| && o != x
    ensures Visits(s, o, x) == if s.objects[x].parent.None? then 0 else Visits(s, o, s.objects[x].parent.value)
    decreases s.childRank[o], |s.objects[o].children| + 1
  {
    var n := |s.objects[o].children|;
    ChildVisitsThroughParent(s, o, n, x);
    if s.objects[x].parent == Some(o) {
      NoChildVisitUpward(s, o, n, o);
      var i :| 0 <= i < n && s.objects[o].children[i] == x;
    }
  }

  /** Among the first k children of o, x counts once if it is one of them, and else as its parent does. */
  lemma {:induction false} ChildVisitsThroughParent(s: Scene, o: nat, k: nat, x: nat)
    requires ChildrenEnd(s) && Linked(s) && o < |s.objects| && x < |s.objects| && o != x
    requires k <= |s.objects[o].children|
    ensures ChildVisits(s, o, k, x) ==
      if s.objects[x].parent.None? then 0
      else if s.objects[x].parent.value != o then ChildVisits(s, o, k, s.objects[x].parent.value)
      else if exists i :: 0 <= i < k && s.objects[o].children[i] == x then 1 else 0
    decreases s.childRank[o], k
  {
    hide Visits;
    if k > 0 {
      var child := s.objects[o].children[k - 1];
      ChildVisitsThroughParent(s, o, k - 1, x);
      if child == x {
        SelfVisitedOnce(s, x);
        assert forall i :: 0 <= i < k - 1 ==> s.objects[o].children[i] != x;
      } else {
        VisitedThroughParent(s, child, x);
        if s.objects[x].parent == Some(o) {
          NoVisitUpward(s, child, o);
        }
      }
    }
  }

  lemma {:induction false} ForestVisitsRoot(s: Scene, k: nat, x: nat)
    requires ChildrenEnd(s) && Linked(s) && k <= |s.objects| && x < |s.objects| && s.objects[x].parent.None?
    ensures ForestVisits(s, k, x) == if x < k then 1 else 0
    decreases k
  {
    if k > 0 {
      ForestVisitsRoot(s, k - 1, x);
      if k - 1 == x {
        SelfVisitedOnce(s, x);
      } else {
        VisitedThroughParent(s, k - 1, x);
      }
    }
  }

  lemma {:induction false} ForestVisitsChild(s: Scene, k: nat, x: nat)
    requires ChildrenEnd(s) && Linked(s) && k <= |s.objects| && x < |s.objects| && s.objects[x].parent.Some?
    ensures ForestVisits(s, k, x) == ForestVisits(s, k, s.objects[x].parent.value)
    decreases k
  {
    if k > 0 {
      ForestVisitsChild(s, k - 1, x);
      if s.objects[k - 1].parent.None? {
        VisitedThroughParent(s, k - 1, x);
      }
    }
  }

  lemma {:induction false} VisitedOnce(s: Scene, x: nat)
    requires ChildrenEnd(s) && ParentsEnd(s) && Linked(s) && x < |s.objects|
    ensures ForestVisits(s, |s.objects|, x) == 1
    decreases s.parentRank[x]
  {
    if s.objects[x].parent.None? {
      ForestVisitsRoot(s, |s.objects|, x);
    } else {
      ForestVisitsChild(s, |s.objects|, x);
      VisitedOnce(s, s.objects[x].parent.value);
    }
  }

  /** With consistent links an unlimited forest shows every visible object exactly once and no hidden one. */
  lemma ForestShowsEachVisibleOnce(s: Scene, f: Filters, x: nat)
    requires Walkable(s, f) && ParentsEnd(s) && Linked(s) && x < |s.objects|
    ensures Count(ForestRows(s, f, |s.objects|), x) == if Visible(s, f, x) then 1 else 0
  {
    VisitedOnce(s, x);
    ForestRowsAreVisits(s, f, |s.objects|, x);
  }
}
