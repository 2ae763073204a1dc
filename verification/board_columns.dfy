/** The column operations of the board hook (src/hooks/use-board.ts):
    adding, renaming, collapsing, removing and reordering columns. The
    in-memory change is made first and is never rolled back; a remote
    call follows when the board is persisted. */
module BoardColumns {
  import opened Wrappers
  import opened Types
  import opened Db
  import opened JsArray
  import opened BoardState

  const DefaultColumnTitle: string := "Untitled"

  // ---------------------------------------------------------------------------
  // addColumn
  // ---------------------------------------------------------------------------

  /** addColumn. Unpersisted: a local column is appended with no remote
      call. Persisted: the column is created remotely first and appended
      only when that succeeds. `uuid` and `stamp` stand for the fresh id
      and clock reading a local column gets. */
  function AddColumn(s: State, title: Option<string>, uuid: string, stamp: string, oracle: Oracle): (o: Outcome)
    ensures var t := title.GetOr(DefaultColumnTitle);
            s.lifecycle == Unpersisted ==>
              && o.trace == []
              && |o.state.columns| == |s.columns| + 1
              && o.state.columns[..|s.columns|] == s.columns
              && var c := o.state.columns[|s.columns|];
                 IsLocalId(c.id) && c.title == t && c.position == |s.columns|
                 && !c.is_collapsed && c.tasks == [] && c.board_id == ""
    ensures var t := title.GetOr(DefaultColumnTitle);
            s.lifecycle == Persisted && s.board.Some? ==>
              && |o.trace| > 0
              && o.trace[0] == Sent(CreateColumnCall(CreateColumnPayload(s.board.value.id, t, |s.columns|)))
              && (oracle(0).Rejected? ==> o.state == s && |o.trace| == 1)
              && (oracle(0).Accepted? ==>
                    && o.trace == [o.trace[0], MutationDone]
                    && |o.state.columns| == |s.columns| + 1
                    && o.state.columns[..|s.columns|] == s.columns
                    && var c := o.state.columns[|s.columns|];
                       c.id == oracle(0).newId && c.title == t && c.position == |s.columns|
                       && c.board_id == s.board.value.id && c.tasks == [])
    ensures s.lifecycle == Persisted && s.board.None? ==> o == Outcome(s, [])
    ensures o.state.slug == s.slug && o.state.board == s.board && o.state.lifecycle == s.lifecycle
  {
    var t := title.GetOr(DefaultColumnTitle);
    if s.lifecycle == Unpersisted then
      var c := MakeLocalColumn(t, |s.columns|, None, uuid, stamp);
      assert s.columns + [c] == s.columns + [c];
      Outcome(s.(columns := s.columns + [c]), [])
    else if s.board.None? then Outcome(s, [])
    else
      var payload := CreateColumnPayload(s.board.value.id, t, |s.columns|);
      var call := Sent(CreateColumnCall(payload));
      var reply := oracle(0);
      if reply.Rejected? then Outcome(s, [call])
      else
        var c := WithTasks(CreatedColumn(payload, reply), []);
        Outcome(s.(columns := s.columns + [c]), [call, MutationDone])
  }

  // ---------------------------------------------------------------------------
  // renameColumn and toggleColumnCollapse
  // ---------------------------------------------------------------------------

  /** Whether a column edit is sent to the remote store: only for a
      persisted board and a column that is not local. */
  predicate SendsColumnUpdate(s: State, columnId: string)
  {
    s.lifecycle == Persisted && !IsLocalId(columnId)
  }

  /** The trace of a column edit: the update call, then the callback when
      it succeeds. A rejected update throws after the state was changed. */
  function ColumnUpdateTrace(s: State, update: UpdateColumnPayload, oracle: Oracle): (t: seq<Event>)
    ensures !SendsColumnUpdate(s, update.id) ==> t == []
    ensures SendsColumnUpdate(s, update.id) ==>
              |t| > 0 && t[0] == Sent(UpdateColumnCall(update))
              && (oracle(0).Accepted? <==> t == [t[0], MutationDone])
              && (oracle(0).Rejected? <==> |t| == 1)
  {
    if SendsColumnUpdate(s, update.id) then
      var call := Sent(UpdateColumnCall(update));
      if oracle(0).Accepted? then [call, MutationDone] else [call]
    else []
  }

  function Retitle(cols: seq<ColumnWithTasks>, columnId: string, title: string): (r: seq<ColumnWithTasks>)
    ensures |r| == |cols|
    ensures forall i :: 0 <= i < |r| ==> r[i].(title := cols[i].title) == cols[i]
    ensures forall i :: 0 <= i < |r| ==> r[i].title == if cols[i].id == columnId then title else cols[i].title
  {
    seq(|cols|, i requires 0 <= i < |cols| => if cols[i].id == columnId then cols[i].(title := title) else cols[i])
  }

  function SetCollapsed(cols: seq<ColumnWithTasks>, columnId: string, collapsed: bool): (r: seq<ColumnWithTasks>)
    ensures |r| == |cols|
    ensures forall i :: 0 <= i < |r| ==> r[i].(is_collapsed := cols[i].is_collapsed) == cols[i]
    ensures forall i :: 0 <= i < |r| ==>
              r[i].is_collapsed == if cols[i].id == columnId then collapsed else cols[i].is_collapsed
  {
    seq(|cols|, i requires 0 <= i < |cols| =>
      if cols[i].id == columnId then cols[i].(is_collapsed := collapsed) else cols[i])
  }

  /** renameColumn: every column with the id gets the title, nothing else
      changes; the update carries only the title. */
  function RenameColumn(s: State, columnId: string, title: string, oracle: Oracle): (o: Outcome)
    ensures o.state == s.(columns := Retitle(s.columns, columnId, title))
    ensures o.trace == ColumnUpdateTrace(s, UpdateColumnPayload(columnId, Some(title), None, None), oracle)
  {
    Outcome(s.(columns := Retitle(s.columns, columnId, title)),
            ColumnUpdateTrace(s, UpdateColumnPayload(columnId, Some(title), None, None), oracle))
  }

  /** toggleColumnCollapse: every column with the id gets the flag, nothing
      else changes; the update carries only the flag. */
  function ToggleColumnCollapse(s: State, columnId: string, collapsed: bool, oracle: Oracle): (o: Outcome)
    ensures o.state == s.(columns := SetCollapsed(s.columns, columnId, collapsed))
    ensures o.trace == ColumnUpdateTrace(s, UpdateColumnPayload(columnId, None, None, Some(collapsed)), oracle)
  {
    Outcome(s.(columns := SetCollapsed(s.columns, columnId, collapsed)),
            ColumnUpdateTrace(s, UpdateColumnPayload(columnId, None, None, Some(collapsed)), oracle))
  }

  /** A column edit on a local column, or on an unpersisted board, stays
      in memory; otherwise the update is sent and, when accepted,
      announced. */
  lemma ColumnEditRemoteRule(s: State, columnId: string, title: string, collapsed: bool, oracle: Oracle)
    ensures var o := RenameColumn(s, columnId, title, oracle);
            (o.trace == []) <==> (s.lifecycle == Unpersisted || IsLocalId(columnId))
    ensures var o := ToggleColumnCollapse(s, columnId, collapsed, oracle);
            (o.trace == []) <==> (s.lifecycle == Unpersisted || IsLocalId(columnId))
    ensures var o := RenameColumn(s, columnId, title, oracle);
            MutationDone in o.trace <==> SendsColumnUpdate(s, columnId) && oracle(0).Accepted?
  {
  }

  // ---------------------------------------------------------------------------
  // removeColumn
  // ---------------------------------------------------------------------------

  /** The columns without the ones carrying the id, in their order. The
      same filter over tasks is `BoardTasks.DropTask`; the two stay separate
      because they filter different record types. */
  function Without(cols: seq<ColumnWithTasks>, columnId: string): (r: seq<ColumnWithTasks>)
    ensures |r| <= |cols|
    ensures forall i :: 0 <= i < |r| ==> r[i].id != columnId && r[i] in cols
  {
    if |cols| == 0 then []
    else if cols[0].id == columnId then Without(cols[1..], columnId)
    else [cols[0]] + Without(cols[1..], columnId)
  }

  /** Filtering an id no column has changes nothing. */
  lemma {:induction false} WithoutAbsent(cols: seq<ColumnWithTasks>, columnId: string)
    requires forall i :: 0 <= i < |cols| ==> cols[i].id != columnId
    ensures Without(cols, columnId) == cols
    decreases |cols|
  {
    if |cols| > 0 {
      WithoutAbsent(cols[1..], columnId);
      assert [cols[0]] + cols[1..] == cols;
    }
  }

  /** With distinct ids, filtering a column's id removes exactly that
      column and keeps the others in their order. */
  lemma {:induction false} WithoutPresent(cols: seq<ColumnWithTasks>, k: nat)
    requires k < |cols| && DistinctIds(cols)
    ensures Without(cols, cols[k].id) == RemoveAt(cols, k)
    decreases |cols|
  {
    var tail := cols[1..];
    if k == 0 {
      assert forall i :: 0 <= i < |tail| ==> tail[i].id != cols[0].id by {
        assert forall i :: 0 <= i < |tail| ==> tail[i] == cols[i + 1];
      }
      WithoutAbsent(tail, cols[0].id);
    } else {
      assert tail[k - 1] == cols[k];
      assert DistinctIds(tail) by {
        assert forall i :: 0 <= i < |tail| ==> tail[i] == cols[i + 1];
      }
      WithoutPresent(tail, k - 1);
      assert Without(cols, cols[k].id) == [cols[0]] + Without(tail, cols[k].id) by {
        assert cols[0].id != cols[k].id;
      }
      RemoveAtCons(cols, k);
    }
  }

  /** removeColumn. With one column or fewer nothing happens. Otherwise the
      columns with the id are dropped and the rest renumbered; when
      persisted the delete is sent, and only after it succeeds the
      position batch (whose failure is swallowed) and the callback. A
      failed delete is only logged. */
  function RemoveColumn(s: State, columnId: string, oracle: Oracle): (o: Outcome)
    ensures |s.columns| <= 1 ==> o == Outcome(s, [])
    ensures |s.columns| > 1 ==>
              && o.state == s.(columns := RenumberColumns(Without(s.columns, columnId)))
              && (s.lifecycle == Unpersisted ==> o.trace == [])
              && (s.lifecycle == Persisted ==> |o.trace| > 0 && o.trace[0] == Sent(DeleteColumnCall(columnId)))
              && (s.lifecycle == Persisted && oracle(0).Rejected? ==> |o.trace| == 1)
              && (s.lifecycle == Persisted && oracle(0).Accepted? ==> o.trace[|o.trace| - 1] == MutationDone)
    ensures |s.columns| > 1 && s.lifecycle == Persisted && oracle(0).Accepted? && |Without(s.columns, columnId)| > 0 ==>
              var entries := ColumnPositionsBatch(AsColumns(o.state.columns));
              entries.Some? &&
              o.trace == [Sent(DeleteColumnCall(columnId)), Sent(UpdateColumnPositionsCall(entries.value)), MutationDone]
  {
    if |s.columns| <= 1 then Outcome(s, [])
    else
      var st := s.(columns := RenumberColumns(Without(s.columns, columnId)));
      if s.lifecycle == Unpersisted then Outcome(st, [])
      else
        var del := Sent(DeleteColumnCall(columnId));
        if oracle(0).Rejected? then Outcome(st, [del])
        else
          var batch := ColumnPositionsBatch(AsColumns(st.columns));
          if batch.Some? then Outcome(st, [del, Sent(UpdateColumnPositionsCall(batch.value)), MutationDone])
          else Outcome(st, [del, MutationDone])
  }

  /** With distinct ids and more than one column, removing the column at
      `k` leaves the other columns in order, renumbered, and at least one
      column is left. */
  lemma RemoveColumnRemovesExactly(s: State, k: nat, oracle: Oracle)
    requires DistinctIds(s.columns) && |s.columns| > 1 && k < |s.columns|
    ensures var r := RemoveColumn(s, s.columns[k].id, oracle).state.columns;
            && |r| == |s.columns| - 1 > 0
            && (forall i :: 0 <= i < |r| ==> r[i].position == i)
            && (forall i :: 0 <= i < k ==> r[i] == s.columns[i].(position := i))
            && (forall i :: k <= i < |r| ==> r[i] == s.columns[i + 1].(position := i))
  {
    WithoutPresent(s.columns, k);
  }

  /** Removing an id no column has only renumbers. */
  lemma RemoveColumnAbsent(s: State, columnId: string, oracle: Oracle)
    requires |s.columns| > 1
    requires forall i :: 0 <= i < |s.columns| ==> s.columns[i].id != columnId
    ensures RemoveColumn(s, columnId, oracle).state.columns == RenumberColumns(s.columns)
  {
    WithoutAbsent(s.columns, columnId);
  }

  /** removeColumn keeps a valid state valid when the column ids are
      distinct. */
  lemma RemoveColumnKeepsValid(s: State, columnId: string, oracle: Oracle)
    requires Valid(s) && DistinctIds(s.columns)
    ensures Valid(RemoveColumn(s, columnId, oracle).state)
  {
    if |s.columns| > 1 {
      if k :| 0 <= k < |s.columns| && s.columns[k].id == columnId {
        RemoveColumnRemovesExactly(s, k, oracle);
      } else {
        RemoveColumnAbsent(s, columnId, oracle);
      }
    }
  }

  // ---------------------------------------------------------------------------
  // moveColumn
  // ---------------------------------------------------------------------------

  /** The columns moveColumn shows: unchanged when the source index names
      no column, otherwise the moved list renumbered. */
  function MovedColumns(cols: seq<ColumnWithTasks>, sourceIndex: int, destIndex: int): seq<ColumnWithTasks>
  {
    if SpliceStart(|cols|, sourceIndex) >= |cols| then cols
    else RenumberColumns(Move(cols, sourceIndex, destIndex))
  }

  /** moveColumn: the column is taken out at the source index and put back
      at the destination index, with JavaScript's `splice` index rules, and
      the columns are renumbered; a source index that names no column
      changes nothing. When persisted the position batch is sent, its
      failure is swallowed and the callback fires. */
  function MoveColumn(s: State, sourceIndex: int, destIndex: int, oracle: Oracle): (o: Outcome)
    ensures o.state == s.(columns := MovedColumns(s.columns, sourceIndex, destIndex))
    ensures SpliceStart(|s.columns|, sourceIndex) >= |s.columns| ==> o == Outcome(s, [])
    ensures SpliceStart(|s.columns|, sourceIndex) < |s.columns| ==>
              && o.state == s.(columns := RenumberColumns(Move(s.columns, sourceIndex, destIndex)))
              && (s.lifecycle == Unpersisted ==> o.trace == [])
              && (s.lifecycle == Persisted ==>
                    var entries := ColumnPositionsBatch(AsColumns(o.state.columns));
                    entries.Some? && o.trace == [Sent(UpdateColumnPositionsCall(entries.value)), MutationDone])
  {
    var n := |s.columns|;
    if SpliceStart(n, sourceIndex) >= n then Outcome(s, [])
    else
      var st := s.(columns := RenumberColumns(Move(s.columns, sourceIndex, destIndex)));
      if s.lifecycle == Unpersisted then Outcome(st, [])
      else
        var entries := ColumnPositionsBatch(AsColumns(st.columns));
        Outcome(st, [Sent(UpdateColumnPositionsCall(entries.value)), MutationDone])
  }

  /** A column list with every position cleared, so that lists can be
      compared regardless of numbering. */
  function Unnumbered(cols: seq<ColumnWithTasks>): (r: seq<ColumnWithTasks>)
    ensures |r| == |cols|
    ensures forall i :: 0 <= i < |r| ==> r[i] == cols[i].(position := 0)
  {
    seq(|cols|, i requires 0 <= i < |cols| => cols[i].(position := 0))
  }

  lemma UnnumberedRemoveAt(cols: seq<ColumnWithTasks>, k: nat)
    requires k < |cols|
    ensures Unnumbered(RemoveAt(cols, k)) == RemoveAt(Unnumbered(cols), k)
  {
    var a, b := Unnumbered(RemoveAt(cols, k)), RemoveAt(Unnumbered(cols), k);
    forall i | 0 <= i < |a| ensures a[i] == b[i] {
      if i >= k { assert a[i] == cols[i + 1].(position := 0); }
    }
  }

  lemma UnnumberedInsertAt(cols: seq<ColumnWithTasks>, d: nat, x: ColumnWithTasks)
    requires d <= |cols|
    ensures Unnumbered(InsertAt(cols, d, x)) == InsertAt(Unnumbered(cols), d, x.(position := 0))
  {
    var a, b := Unnumbered(InsertAt(cols, d, x)), InsertAt(Unnumbered(cols), d, x.(position := 0));
    forall i | 0 <= i < |a| ensures a[i] == b[i] {
      if i > d { assert a[i] == cols[i - 1].(position := 0); }
    }
  }

  lemma UnnumberedMove(cols: seq<ColumnWithTasks>, from: int, to: int)
    requires 0 <= SpliceStart(|cols|, from) < |cols|
    ensures Unnumbered(Move(cols, from, to)) == Move(Unnumbered(cols), from, to)
  {
    var k := SpliceStart(|cols|, from);
    UnnumberedRemoveAt(cols, k);
    UnnumberedInsertAt(RemoveAt(cols, k), SpliceStart(|cols| - 1, to), cols[k]);
  }

  /** moveColumn yields a permutation of the same columns (up to their
      positions) with the moved column at the normalised destination and
      positions equal to indices. */
  lemma MoveColumnPermutes(cols: seq<ColumnWithTasks>, sourceIndex: int, destIndex: int)
    requires SpliceStart(|cols|, sourceIndex) < |cols|
    ensures var r := MovedColumns(cols, sourceIndex, destIndex);
            var k := SpliceStart(|cols|, sourceIndex);
            var d := SpliceStart(|cols| - 1, destIndex);
            && |r| == |cols|
            && multiset(Unnumbered(r)) == multiset(Unnumbered(cols))
            && r[d] == cols[k].(position := d)
            && (forall i :: 0 <= i < |r| ==> r[i].position == i)
  {
    var moved := Move(cols, sourceIndex, destIndex);
    var r := RenumberColumns(moved);
    assert Unnumbered(r) == Unnumbered(moved);
    UnnumberedMove(cols, sourceIndex, destIndex);
  }

  /** Moving a column to where it is renumbers and changes nothing else. */
  lemma MoveColumnInPlace(cols: seq<ColumnWithTasks>, i: nat)
    requires i < |cols|
    ensures MovedColumns(cols, i, i) == RenumberColumns(cols)
  {
    InsertAtRemoveAt(cols, i);
  }

  // ---------------------------------------------------------------------------
  // The invariant
  // ---------------------------------------------------------------------------

  /** Adding, editing and moving columns keep a valid state valid. */
  lemma ColumnOpsKeepValid(s: State, id: string, title: Option<string>, uuid: string, stamp: string,
                           collapsed: bool, from: int, to: int, oracle: Oracle)
    requires Valid(s)
    ensures Valid(AddColumn(s, title, uuid, stamp, oracle).state)
    ensures Valid(RenameColumn(s, id, title.GetOr(DefaultColumnTitle), oracle).state)
    ensures Valid(ToggleColumnCollapse(s, id, collapsed, oracle).state)
    ensures Valid(MoveColumn(s, from, to, oracle).state)
  {
  }
}
