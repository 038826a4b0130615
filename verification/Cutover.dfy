/** Comparison of the source lock with the workspace lock, and the cutover
    gate over it (src/cognition/shadow_compare.cpp). */
module Cutover {
  import opened Values
  import opened Ordering

  datatype Entry = Entry(repository: Bytes, commit: Bytes, tree: Bytes)

  datatype Node = Node(commit: Bytes, tree: Bytes, shadowOnly: bool, present: bool)

  datatype FilterSets = FilterSets(filters: map<Bytes, seq<Bytes>>, carrierPresent: bool)

  datatype Divergence = NoDivergence | StaleNode | NodeMissing | FilterSetMismatch | ContentConflict

  datatype Row = Row(
    repository: Bytes,
    lockCommit: Bytes,
    lockTree: Bytes,
    nodeCommit: Bytes,
    nodeTree: Bytes,
    divergence: Divergence,
    shadowOnly: bool)

  /** The workspace nodes and, for the four-argument comparison, the filter
      tables of the lock and of the node revision. */
  datatype Workspace = Workspace(nodes: map<Bytes, Node>, filters: Option<(FilterSets, FilterSets)>)

  // ---- What the rows say ----

  /** The last entry of a repository; the slot the comparison works with. */
  ghost function Slot(lock: seq<Entry>, repository: Bytes): (r: Option<Entry>)
    ensures r.Some? ==> r.value.repository == repository
  {
    if lock == [] then None
    else if lock[|lock| - 1].repository == repository then Some(lock[|lock| - 1])
    else Slot(lock[..|lock| - 1], repository)
  }

  ghost predicate ConflictAt(lock: seq<Entry>, i: nat)
    requires i < |lock|
  {
    var slot := Slot(lock[..i], lock[i].repository);
    slot.Some? && slot.value.commit != [] && slot.value != lock[i]
  }

  function ConflictRow(slot: Entry, w: Workspace): Row
  {
    Row(slot.repository, slot.commit, slot.tree,
        if slot.repository in w.nodes then w.nodes[slot.repository].commit else [], [], ContentConflict, false)
  }

  ghost function ConflictRows(lock: seq<Entry>, w: Workspace, n: nat): seq<Row>
    requires n <= |lock|
  {
    if n == 0 then []
    else if ConflictAt(lock, n - 1) then
      ConflictRows(lock, w, n - 1) + [ConflictRow(Slot(lock[..n - 1], lock[n - 1].repository).value, w)]
    else ConflictRows(lock, w, n - 1)
  }

  predicate FiltersAgree(filters: Option<(FilterSets, FilterSets)>, repository: Bytes)
  {
    filters.Some? ==>
      && filters.value.1.carrierPresent
      && repository in filters.value.1.filters && repository in filters.value.0.filters
      && filters.value.0.filters[repository] == filters.value.1.filters[repository]
  }

  function RepositoryRow(slot: Entry, w: Workspace): (row: Row)
    ensures row.repository == slot.repository
  {
    if slot.repository !in w.nodes || !w.nodes[slot.repository].present then
      Row(slot.repository, slot.commit, slot.tree, [], [], NodeMissing, false)
    else
      var node := w.nodes[slot.repository];
      Row(slot.repository, slot.commit, slot.tree, node.commit, node.tree,
          if slot.commit != node.commit || slot.tree != node.tree then StaleNode
          else if FiltersAgree(w.filters, slot.repository) then NoDivergence
          else FilterSetMismatch,
          node.shadowOnly)
  }

  predicate CleanRow(row: Row)
  {
    row.divergence.NoDivergence? && !row.shadowOnly
  }

  /** The lock entry is matched exactly by an authoritative workspace node. */
  predicate Agrees(entry: Entry, w: Workspace)
  {
    && entry.repository in w.nodes
    && var node := w.nodes[entry.repository];
       && node.present && !node.shadowOnly
       && node.commit == entry.commit && node.tree == entry.tree
       && FiltersAgree(w.filters, entry.repository)
  }

  /** The filter tables do not keep the repository apart: none are compared, or
      the node's carrier is there and both list the repository alike. */
  ghost predicate FiltersMatch(w: Workspace, repository: Bytes)
  {
    w.filters == None
    || (w.filters.value.1.carrierPresent
        && exists filter :: (repository, filter) in w.filters.value.0.filters.Items
                            && (repository, filter) in w.filters.value.1.filters.Items)
  }

  lemma FiltersExactly(w: Workspace, repository: Bytes)
    ensures FiltersAgree(w.filters, repository) <==> FiltersMatch(w, repository)
  {
    if w.filters.Some? && FiltersAgree(w.filters, repository) {
      var filter := w.filters.value.0.filters[repository];
      assert (repository, filter) in w.filters.value.0.filters.Items;
      assert (repository, filter) in w.filters.value.1.filters.Items;
    }
  }

  /** The row of a repository: what the lock and the node say, and the divergence,
      each kind by its own condition. */
  lemma DivergenceExactly(slot: Entry, w: Workspace)
    ensures var row, r := RepositoryRow(slot, w), slot.repository;
            var present := r in w.nodes && w.nodes[r].present;
            var same := present && w.nodes[r].commit == slot.commit && w.nodes[r].tree == slot.tree;
            && row.repository == r && row.lockCommit == slot.commit && row.lockTree == slot.tree
            && (row.divergence == NodeMissing <==> !present)
            && (row.divergence == StaleNode <==> present && !same)
            && (row.divergence == FilterSetMismatch <==> same && !FiltersMatch(w, r))
            && (row.divergence == NoDivergence <==> same && FiltersMatch(w, r))
            && row.nodeCommit == (if present then w.nodes[r].commit else [])
            && row.nodeTree == (if present then w.nodes[r].tree else [])
            && (row.shadowOnly <==> present && w.nodes[r].shadowOnly)
  {
    FiltersExactly(w, slot.repository);
    hide FiltersMatch, FiltersAgree;
  }

  /** An entry conflicts when the entry of its repository before it records a
      commit and differs. */
  lemma ConflictExactly(lock: seq<Entry>, i: nat)
    requires i < |lock|
    ensures ConflictAt(lock, i) <==>
            exists p :: 0 <= p < i && lock[p].repository == lock[i].repository
              && (forall q :: p < q < i ==> lock[q].repository != lock[i].repository)
              && lock[p].commit != [] && lock[p] != lock[i]
  {
    hide Slot;
    var before, r := lock[..i], lock[i].repository;
    if Slot(before, r).Some? {
      var last := SlotIsLast(before, r);
      assert before[last] == lock[last];
      assert forall q :: last < q < i ==> lock[q] == before[q];
    }
    forall p | 0 <= p < i && lock[p].repository == r ensures Slot(before, r).Some? {
      assert before[p] == lock[p];
      SlotPresent(before, p);
    }
  }

  /** Every conflict has its row, in lock order and nothing else: what the earlier
      entry said, beside the node's commit. */
  lemma {:induction false} ConflictRowsExactly(lock: seq<Entry>, w: Workspace, n: nat)
    requires n <= |lock|
    ensures var rows := ConflictRows(lock, w, n);
            && |rows| == |set i: nat | i < n && ConflictAt(lock, i)|
            && forall k :: 0 <= k < |rows| ==> ReportsSome(lock, w, n, rows[k])
  {
    hide ConflictAt, Slot, ReportsConflict, ReportsSome;
    if n > 0 {
      var m := n - 1;
      ConflictRowsExactly(lock, w, m);
      forall row | ReportsSome(lock, w, m, row) ensures ReportsSome(lock, w, n, row) {
        StillReports(lock, w, m, n, row);
      }
      var before, now := set i: nat | i < m && ConflictAt(lock, i), set i: nat | i < n && ConflictAt(lock, i);
      if ConflictAt(lock, m) {
        assert now == before + {m};
        ConflictSlot(lock, m);
        var p := SlotIsLast(lock[..m], lock[m].repository);
        assert lock[..m][p] == lock[p];
        ConflictReported(lock, w, p, m);
      } else {
        assert now == before;
      }
    }
  }

  /** The row reports that the entry at i conflicts with the one at p: what that
      one said, beside the node's commit. */
  ghost predicate ReportsConflict(lock: seq<Entry>, w: Workspace, p: nat, i: nat, row: Row)
  {
    && p < i < |lock| && ConflictAt(lock, i) && lock[i].repository == row.repository
    && lock[p] == Entry(row.repository, row.lockCommit, row.lockTree)
    && row.divergence == ContentConflict && !row.shadowOnly && row.nodeTree == []
    && row.nodeCommit == (if row.repository in w.nodes then w.nodes[row.repository].commit else [])
  }

  ghost predicate ReportsSome(lock: seq<Entry>, w: Workspace, n: nat, row: Row)
  {
    exists p: nat, i: nat :: i < n && ReportsConflict(lock, w, p, i, row)
  }

  lemma StillReports(lock: seq<Entry>, w: Workspace, m: nat, n: nat, row: Row)
    requires m <= n && ReportsSome(lock, w, m, row)
    ensures ReportsSome(lock, w, n, row)
  {
    hide ReportsConflict;
  }

  lemma ConflictReported(lock: seq<Entry>, w: Workspace, p: nat, i: nat)
    requires p < i < |lock| && ConflictAt(lock, i) && lock[p].repository == lock[i].repository
    ensures ReportsSome(lock, w, i + 1, ConflictRow(lock[p], w))
  {
    hide ConflictAt;
    assert ReportsConflict(lock, w, p, i, ConflictRow(lock[p], w));
  }

  lemma ConflictSlot(lock: seq<Entry>, i: nat)
    requires i < |lock| && ConflictAt(lock, i)
    ensures Slot(lock[..i], lock[i].repository).Some?
  {
  }

  // ---- The comparison ----

  method CompareEntries(lock: seq<Entry>, w: Workspace)
    returns (locked: map<Bytes, Entry>, conflicted: set<Bytes>, rows: seq<Row>)
    ensures forall r :: r in locked <==> Slot(lock, r).Some?
    ensures forall r :: r in locked ==> locked[r] == Slot(lock, r).value
    ensures forall r :: r in conflicted <==> exists k :: 0 <= k < |lock| && lock[k].repository == r && ConflictAt(lock, k)
    ensures rows == ConflictRows(lock, w, |lock|)
  {
    hide ConflictRow;
    locked, conflicted, rows := map[], {}, [];
    for i := 0 to |lock|
      invariant forall r :: r in locked <==> Slot(lock[..i], r).Some?
      invariant forall r :: r in locked ==> locked[r] == Slot(lock[..i], r).value
      invariant forall r :: r in conflicted <==> exists k :: 0 <= k < i && lock[k].repository == r && ConflictAt(lock, k)
      invariant rows == ConflictRows(lock, w, i)
    {
      var entry := lock[i];
      assert lock[..i + 1][..i] == lock[..i];
      if entry.repository in locked && locked[entry.repository].commit != [] && locked[entry.repository] != entry {
        conflicted := conflicted + {entry.repository};
        rows := rows + [ConflictRow(locked[entry.repository], w)];
      }
      locked := locked[entry.repository := entry];
    }
    assert lock[..|lock|] == lock;
  }

  ghost predicate Unconflicted(lock: seq<Entry>, repository: Bytes)
  {
    forall k :: 0 <= k < |lock| && lock[k].repository == repository ==> !ConflictAt(lock, k)
  }

  ghost predicate RowFor(lock: seq<Entry>, w: Workspace, repository: Bytes, row: Row)
  {
    var slot := Slot(lock, repository);
    slot.Some? && Unconflicted(lock, repository) && row == RepositoryRow(slot.value, w)
  }

  /** Conflicts in lock order, then one row per remaining repository in
      repository order. */
  ghost predicate RowsOf(rows: seq<Row>, lock: seq<Entry>, w: Workspace)
  {
    var conflicts := ConflictRows(lock, w, |lock|);
    && conflicts <= rows
    && (forall k :: |conflicts| <= k < |rows| ==> RowFor(lock, w, rows[k].repository, rows[k]))
    && (forall k, l :: |conflicts| <= k < l < |rows| ==> LexBefore(rows[k].repository, rows[l].repository))
    && (forall r :: Slot(lock, r).Some? && Unconflicted(lock, r) ==> RepositoryRow(Slot(lock, r).value, w) in rows)
  }

  lemma RowsAfterConflicts(rows: seq<Row>, lock: seq<Entry>, w: Workspace, row: Row)
    requires RowsOf(rows, lock, w)
    ensures row in rows[|ConflictRows(lock, w, |lock|)|..] <==> RowFor(lock, w, row.repository, row)
  {
    hide ConflictAt, Slot, RepositoryRow, ConflictRows, LexBefore;
    var conflicts := ConflictRows(lock, w, |lock|);
    var rest := rows[|conflicts|..];
    assert rows == conflicts + rest;
    if RowFor(lock, w, row.repository, row) {
      ConflictRowsFrom(lock, w, |lock|);
      NeverConflict(Slot(lock, row.repository).value, w);
      assert row in conflicts + rest && row !in conflicts;
    }
  }

  lemma NeverConflict(slot: Entry, w: Workspace)
    ensures !RepositoryRow(slot, w).divergence.ContentConflict?
  {
  }

  /** The rows of a comparison are determined by the lock and the workspace. */
  lemma RowsDetermined(a: seq<Row>, b: seq<Row>, lock: seq<Entry>, w: Workspace)
    requires RowsOf(a, lock, w) && RowsOf(b, lock, w)
    ensures a == b
  {
    hide ConflictAt, Slot, RepositoryRow, ConflictRows, LexBefore, RowFor;
    var n := |ConflictRows(lock, w, |lock|)|;
    var before := (x: Row, y: Row) => LexBefore(x.repository, y.repository);
    forall row ensures row in a[n..] <==> row in b[n..] {
      RowsAfterConflicts(a, lock, w, row);
      RowsAfterConflicts(b, lock, w, row);
    }
    ByRepository(before);
    AscendingUnique(before, a[n..], b[n..]);
    assert a == a[..n] + a[n..] && b == b[..n] + b[n..];
  }

  lemma ByRepository(before: (Row, Row) -> bool)
    requires forall x, y :: before(x, y) == LexBefore(x.repository, y.repository)
    ensures StrictOrder(before)
  {
    forall x: Row ensures !before(x, x) {
      LexIrreflexive(x.repository);
    }
    forall x: Row, y: Row, z: Row | before(x, y) && before(y, z) ensures before(x, z) {
      LexTransitive(x.repository, y.repository, z.repository);
    }
  }

  method CompareOne(lock: seq<Entry>, w: Workspace) returns (rows: seq<Row>)
    ensures RowsOf(rows, lock, w)
  {
    hide RepositoryRow, ConflictRows, LexBefore, ConflictAt, Slot, RowsUpTo, RowsOf;
    var locked, conflicted, conflicts := CompareEntries(lock, w);
    LexOrder();
    var repositories := SortSet(LexBefore, locked.Keys);
    rows := conflicts;
    NoRowsYet(rows, lock, w, repositories);
    for i := 0 to |repositories|
      invariant RowsUpTo(rows, conflicts, lock, w, repositories, i)
    {
      var repository := repositories[i];
      assert repository in locked.Keys;
      if repository !in conflicted {
        var row := CompareRepository(locked[repository], w);
        OneMoreRow(rows, conflicts, lock, w, repositories, i, row);
        rows := rows + [row];
      } else {
        NoMoreRow(rows, conflicts, lock, w, repositories, i);
      }
    }
    AllRows(rows, conflicts, lock, w, repositories);
  }

  /** The rows once the first i repositories have been compared. */
  ghost predicate RowsUpTo(rows: seq<Row>, conflicts: seq<Row>, lock: seq<Entry>, w: Workspace,
                           repositories: seq<Bytes>, i: nat)
    requires i <= |repositories|
  {
    && conflicts <= rows
    && (forall k :: |conflicts| <= k < |rows| ==> RowFor(lock, w, rows[k].repository, rows[k]))
    && (forall k :: |conflicts| <= k < |rows| ==> rows[k].repository in repositories[..i])
    && (forall k, l :: |conflicts| <= k < l < |rows| ==> LexBefore(rows[k].repository, rows[l].repository))
    && (forall j :: 0 <= j < i && Slot(lock, repositories[j]).Some? && Unconflicted(lock, repositories[j]) ==>
          RepositoryRow(Slot(lock, repositories[j]).value, w) in rows)
  }

  lemma NoRowsYet(rows: seq<Row>, lock: seq<Entry>, w: Workspace, repositories: seq<Bytes>)
    ensures RowsUpTo(rows, rows, lock, w, repositories, 0)
  {
  }

  lemma OneMoreRow(rows: seq<Row>, conflicts: seq<Row>, lock: seq<Entry>, w: Workspace, repositories: seq<Bytes>,
                   i: nat, row: Row)
    requires i < |repositories| && RowsUpTo(rows, conflicts, lock, w, repositories, i)
    requires Ascending(LexBefore, repositories)
    requires Slot(lock, repositories[i]).Some? && Unconflicted(lock, repositories[i])
    requires row == RepositoryRow(Slot(lock, repositories[i]).value, w)
    ensures RowsUpTo(rows + [row], conflicts, lock, w, repositories, i + 1)
  {
    hide RepositoryRow, LexBefore, ConflictAt, Slot;
    assert RowFor(lock, w, repositories[i], row);
    assert repositories[..i + 1] == repositories[..i] + [repositories[i]];
    forall k | |conflicts| <= k < |rows| ensures LexBefore(rows[k].repository, row.repository) {
      var j :| 0 <= j < i && repositories[..i][j] == rows[k].repository;
      assert repositories[j] == rows[k].repository;
    }
  }

  lemma NoMoreRow(rows: seq<Row>, conflicts: seq<Row>, lock: seq<Entry>, w: Workspace, repositories: seq<Bytes>, i: nat)
    requires i < |repositories| && RowsUpTo(rows, conflicts, lock, w, repositories, i)
    requires !Unconflicted(lock, repositories[i])
    ensures RowsUpTo(rows, conflicts, lock, w, repositories, i + 1)
  {
    hide RepositoryRow, LexBefore, ConflictAt, Slot, RowFor;
    assert repositories[..i + 1] == repositories[..i] + [repositories[i]];
  }

  lemma AllRows(rows: seq<Row>, conflicts: seq<Row>, lock: seq<Entry>, w: Workspace, repositories: seq<Bytes>)
    requires RowsUpTo(rows, conflicts, lock, w, repositories, |repositories|)
    requires conflicts == ConflictRows(lock, w, |lock|)
    requires forall r :: Slot(lock, r).Some? ==> r in repositories
    ensures RowsOf(rows, lock, w)
  {
    hide RepositoryRow, LexBefore, ConflictAt, RowFor, ConflictRows;
  }

  method CompareRepository(slot: Entry, w: Workspace) returns (row: Row)
    ensures row == RepositoryRow(slot, w)
  {
    row := Row(slot.repository, slot.commit, slot.tree, [], [], NoDivergence, false);
    if slot.repository !in w.nodes || !w.nodes[slot.repository].present {
      return row.(divergence := NodeMissing);
    }
    var node := w.nodes[slot.repository];
    row := row.(nodeCommit := node.commit, nodeTree := node.tree, shadowOnly := node.shadowOnly);
    if slot.commit != node.commit || slot.tree != node.tree {
      row := row.(divergence := StaleNode);
    } else if w.filters.Some? {
      var (used, atNode) := w.filters.value;
      if !atNode.carrierPresent {
        row := row.(divergence := FilterSetMismatch);
      } else if slot.repository !in atNode.filters {
        row := row.(divergence := FilterSetMismatch);
      } else if slot.repository !in used.filters
                || used.filters[slot.repository] != atNode.filters[slot.repository] {
        row := row.(divergence := FilterSetMismatch);
      }
    }
  }

  method CutoverGrade(rows: seq<Row>) returns (grade: bool)
    ensures grade <==> rows != [] && forall row :: row in rows ==> CleanRow(row)
  {
    for i := 0 to |rows|
      invariant forall k :: 0 <= k < i ==> rows[k].divergence.NoDivergence?
    {
      if !rows[i].divergence.NoDivergence? {
        assert rows[i] in rows;
        return false;
      }
    }
    if rows == [] {
      return false;
    }
    for i := 0 to |rows|
      invariant forall k :: 0 <= k < i ==> CleanRow(rows[k])
    {
      if rows[i].shadowOnly {
        assert rows[i] in rows;
        return false;
      }
    }
    return true;
  }

  // ---- The gate ----

  /** The entries the comparison holds the workspace to: those that record a
      commit, those after one that does, and the last of a repository. */
  ghost predicate Governing(lock: seq<Entry>, i: nat)
    requires i < |lock|
  {
    || lock[i].commit != []
    || (exists j :: 0 <= j < i && lock[j].repository == lock[i].repository && lock[j].commit != [])
    || (forall j :: i < j < |lock| ==> lock[j].repository != lock[i].repository)
  }

  lemma {:induction false} SlotIsLast(lock: seq<Entry>, repository: Bytes) returns (i: nat)
    requires Slot(lock, repository).Some?
    ensures i < |lock| && lock[i].repository == repository && Slot(lock, repository).value == lock[i]
    ensures forall j :: i < j < |lock| ==> lock[j].repository != repository
  {
    i := |lock| - 1;
    if lock[i].repository != repository {
      i := SlotIsLast(lock[..|lock| - 1], repository);
    }
  }

  lemma {:induction false} SlotPresent(lock: seq<Entry>, i: nat)
    requires i < |lock|
    ensures Slot(lock, lock[i].repository).Some?
  {
    if i < |lock| - 1 {
      SlotPresent(lock[..|lock| - 1], i);
    }
  }

  lemma {:induction false} ConflictRowsFrom(lock: seq<Entry>, w: Workspace, n: nat)
    requires n <= |lock|
    ensures ConflictRows(lock, w, n) == [] <==> forall k :: 0 <= k < n ==> !ConflictAt(lock, k)
    ensures forall row :: row in ConflictRows(lock, w, n) ==> row.divergence.ContentConflict?
  {
    hide ConflictAt, Slot;
    if n > 0 {
      ConflictRowsFrom(lock, w, n - 1);
    }
  }

  lemma CleanExactly(slot: Entry, w: Workspace)
    ensures CleanRow(RepositoryRow(slot, w)) <==> Agrees(slot, w)
  {
  }

  /** Without conflicts, an entry that records a commit is repeated by every
      later entry of its repository. */
  lemma {:induction false} CommitPersists(lock: seq<Entry>, j: nat, i: nat)
    requires j <= i < |lock| && lock[j].repository == lock[i].repository && lock[j].commit != []
    requires forall k :: 0 <= k < |lock| ==> !ConflictAt(lock, k)
    ensures lock[i] == lock[j]
    decreases i
  {
    hide ConflictAt;
    if j < i {
      assert lock[..i][j] == lock[j];
      SlotPresent(lock[..i], j);
      var p := SlotIsLast(lock[..i], lock[i].repository);
      assert lock[..i][p] == lock[p];
      CommitPersists(lock, j, p);
      NoConflictRepeats(lock, i, p);
    }
  }

  lemma NoConflictRepeats(lock: seq<Entry>, i: nat, p: nat)
    requires p < i < |lock| && !ConflictAt(lock, i)
    requires Slot(lock[..i], lock[i].repository) == Some(lock[p]) && lock[p].commit != []
    ensures lock[i] == lock[p]
  {
  }

  ghost predicate AllAgree(lock: seq<Entry>, w: Workspace)
  {
    forall i :: 0 <= i < |lock| && Governing(lock, i) ==> Agrees(lock[i], w)
  }

  lemma AgreeingEntriesDoNotConflict(lock: seq<Entry>, w: Workspace, i: nat)
    requires i < |lock| && AllAgree(lock, w)
    ensures !ConflictAt(lock, i)
  {
    hide Agrees;
    var before := lock[..i];
    if Slot(before, lock[i].repository).Some? {
      var p := SlotIsLast(before, lock[i].repository);
      assert before[p] == lock[p];
      if lock[p].commit != [] {
        assert Governing(lock, p) && Governing(lock, i);
        AgreeingEntriesAreEqual(lock[p], lock[i], w);
      }
    }
  }

  lemma AgreeingEntriesAreEqual(a: Entry, b: Entry, w: Workspace)
    requires a.repository == b.repository && Agrees(a, w) && Agrees(b, w)
    ensures a == b
  {
  }

  lemma HeadIsMember<T>(a: seq<T>, b: seq<T>)
    requires a <= b
    ensures a == [] || (a[0] in a && a[0] in b)
  {
    if a != [] {
      assert b[0] == a[0];
    }
  }

  lemma CleanRowsAgree(lock: seq<Entry>, w: Workspace, rows: seq<Row>, i: nat)
    requires RowsOf(rows, lock, w) && (forall row :: row in rows ==> CleanRow(row))
    requires i < |lock| && Governing(lock, i)
    ensures Agrees(lock[i], w)
  {
    hide ConflictAt, Agrees, RepositoryRow, ConflictRows;
    ConflictRowsFrom(lock, w, |lock|);
    HeadIsMember(ConflictRows(lock, w, |lock|), rows);
    assert forall k :: 0 <= k < |lock| ==> !ConflictAt(lock, k);
    var r := lock[i].repository;
    SlotPresent(lock, i);
    assert Unconflicted(lock, r);
    var last := SlotIsLast(lock, r);
    CleanExactly(lock[last], w);
    if lock[i].commit != [] {
      CommitPersists(lock, i, last);
    } else if j :| 0 <= j < i && lock[j].repository == r && lock[j].commit != [] {
      CommitPersists(lock, j, last);
      CommitPersists(lock, j, i);
    } else {
      assert last == i;
    }
  }

  lemma AgreeingRowsAreClean(lock: seq<Entry>, w: Workspace, rows: seq<Row>, row: Row)
    requires RowsOf(rows, lock, w) && AllAgree(lock, w) && row in rows
    ensures CleanRow(row)
  {
    hide ConflictAt, Agrees, RepositoryRow, ConflictRows;
    forall k | 0 <= k < |lock| ensures !ConflictAt(lock, k) {
      AgreeingEntriesDoNotConflict(lock, w, k);
    }
    ConflictRowsFrom(lock, w, |lock|);
    assert RowFor(lock, w, row.repository, row);
    var last := SlotIsLast(lock, row.repository);
    assert Governing(lock, last);
    CleanExactly(lock[last], w);
  }

  /** The gate opens exactly when the lock is non-empty and every governing
      entry is matched by a present, non-shadow node with that commit and tree
      and equal filters. */
  lemma CutoverExactly(lock: seq<Entry>, w: Workspace, rows: seq<Row>)
    requires RowsOf(rows, lock, w)
    ensures rows != [] && (forall row :: row in rows ==> CleanRow(row)) <==> lock != [] && AllAgree(lock, w)
  {
    hide RowsOf, Governing, Agrees, CleanRow;
    if rows != [] && forall row :: row in rows ==> CleanRow(row) {
      EmptyLockNoRows(lock, w, rows);
      forall i | 0 <= i < |lock| && Governing(lock, i) ensures Agrees(lock[i], w) {
        CleanRowsAgree(lock, w, rows, i);
      }
    }
    if lock != [] && AllAgree(lock, w) {
      EmptyLockNoRows(lock, w, rows);
      forall row | row in rows ensures CleanRow(row) {
        AgreeingRowsAreClean(lock, w, rows, row);
      }
    }
  }

  lemma EmptyLockNoRows(lock: seq<Entry>, w: Workspace, rows: seq<Row>)
    requires RowsOf(rows, lock, w)
    ensures rows == [] <==> lock == []
  {
    hide ConflictAt, RepositoryRow;
    assert rows != [] && ConflictRows(lock, w, |lock|) == [] ==> RowFor(lock, w, rows[0].repository, rows[0]);
    if lock != [] {
      SlotPresent(lock, 0);
      ConflictRowsFrom(lock, w, |lock|);
      if Unconflicted(lock, lock[0].repository) {
        assert RepositoryRow(Slot(lock, lock[0].repository).value, w) in rows;
      }
    }
  }

  /** Where every entry records a commit, every entry governs. */
  lemma CutoverWithCommits(lock: seq<Entry>, w: Workspace, rows: seq<Row>)
    requires RowsOf(rows, lock, w) && forall i :: 0 <= i < |lock| ==> lock[i].commit != []
    ensures rows != [] && (forall row :: row in rows ==> row.divergence == NoDivergence && !row.shadowOnly) <==>
            lock != [] && forall i :: 0 <= i < |lock| ==>
              var r := lock[i].repository;
              && r in w.nodes && w.nodes[r] == Node(lock[i].commit, lock[i].tree, false, true)
              && FiltersMatch(w, r)
  {
    hide Agrees, CleanRow, RowsOf, FiltersMatch;
    CutoverExactly(lock, w, rows);
    forall i | 0 <= i < |lock|
      ensures Agrees(lock[i], w) <==>
              var r := lock[i].repository;
              r in w.nodes && w.nodes[r] == Node(lock[i].commit, lock[i].tree, false, true) && FiltersMatch(w, r)
    {
      AgreesExactly(lock[i], w);
    }
    forall row ensures CleanRow(row) <==> row.divergence == NoDivergence && !row.shadowOnly {
      CleanMeans(row);
    }
  }

  lemma AgreesExactly(entry: Entry, w: Workspace)
    ensures Agrees(entry, w) <==>
            var r := entry.repository;
            r in w.nodes && w.nodes[r] == Node(entry.commit, entry.tree, false, true) && FiltersMatch(w, r)
  {
    FiltersExactly(w, entry.repository);
    hide FiltersMatch, FiltersAgree;
  }

  lemma CleanMeans(row: Row)
    ensures CleanRow(row) <==> row.divergence == NoDivergence && !row.shadowOnly
  {
  }

  /** An entry without a commit can disagree with the workspace while the gate
      opens, because the next entry of its repository overwrites it. */
  lemma OverwrittenEntryIgnored(repository: Bytes, commit: Bytes, tree: Bytes, stale: Bytes, rows: seq<Row>)
    requires stale != tree
    ensures RowsOf(rows, [Entry(repository, [], stale), Entry(repository, commit, tree)],
                   Workspace(map[repository := Node(commit, tree, false, true)], None)) ==>
              rows != [] && forall row :: row in rows ==> CleanRow(row)
    ensures !Agrees(Entry(repository, [], stale), Workspace(map[repository := Node(commit, tree, false, true)], None))
  {
    var lock := [Entry(repository, [], stale), Entry(repository, commit, tree)];
    var w := Workspace(map[repository := Node(commit, tree, false, true)], None);
    assert lock[1].repository == lock[0].repository;
    hide RowsOf, CleanRow;
    if RowsOf(rows, lock, w) {
      CutoverExactly(lock, w, rows);
    }
  }
}
