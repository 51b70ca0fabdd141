/** The timestamp-ordering checker: which schedules it accepts, and when an accepted schedule
    is equivalent to running the transactions one after the other in timestamp order. */
module TimestampOrdering {
  import opened Counting

  // ---------- Schedules ----------

  datatype Kind = Read | Write
  datatype Op = Op(txn: int, kind: Kind, item: string)

  /** A cell of the input table: an operation, an operation whose name is not in lower case
      (recognized, but neither performed nor checked), or other text. */
  datatype Cell = Perform(kind: Kind, item: string) | Unknown(item: string) | Ignored

  /** Timestamp of the last operation of this kind on the item, 0 if there was none. */
  ghost function Stamp(ts: seq<int>, ops: seq<Op>, kind: Kind, item: string): int {
    if ops == [] then 0
    else
      var o := ops[|ops| - 1];
      if o.kind == kind && o.item == item && 0 <= o.txn < |ts| then ts[o.txn]
      else Stamp(ts, ops[..|ops| - 1], kind, item)
  }

  /** The acceptance test for one operation after `ops` were performed. */
  ghost predicate Admissible(ts: seq<int>, ops: seq<Op>, o: Op) {
    && 0 <= o.txn < |ts|
    && ts[o.txn] >= Stamp(ts, ops, Write, o.item)
    && (o.kind == Write ==> ts[o.txn] >= Stamp(ts, ops, Read, o.item))
  }

  ghost predicate Accepted(ts: seq<int>, ops: seq<Op>) {
    forall k {:trigger ops[..k]} :: 0 <= k < |ops| ==> Admissible(ts, ops[..k], ops[k])
  }

  // ---------- The program ----------

  /** The operations of the first c cells of a row, left to right. */
  ghost function RowOps(row: seq<Cell>, c: int): seq<Op>
    requires 0 <= c <= |row|
  {
    if c == 0 then [] else RowOps(row, c - 1) + CellOps(row[c-1], c - 1)
  }

  ghost function CellOps(cell: Cell, txn: int): seq<Op> {
    match cell
    case Perform(kind, item) => [Op(txn, kind, item)]
    case Unknown(_) => []
    case Ignored => []
  }

  /** The schedule written in the table: row by row, each row left to right. */
  ghost function Schedule(rows: seq<seq<Cell>>): seq<Op> {
    if rows == [] then []
    else Schedule(rows[..|rows| - 1]) + RowOps(rows[|rows| - 1], |rows[|rows| - 1]|)
  }

  // ---------- What is performed when operations are rejected ----------

  /** Cell c of the row is rejected after `done` and the operations of the cells before it. */
  ghost predicate Rejects(ts: seq<int>, done: seq<Op>, row: seq<Cell>, c: int)
    requires 0 <= c < |row|
  {
    row[c].Perform? && !Admissible(ts, done + RowOps(row, c), Op(c, row[c].kind, row[c].item))
  }

  /** The first rejected cell from c on, or the end of the row. */
  ghost function FirstRejected(ts: seq<int>, done: seq<Op>, row: seq<Cell>, c: int): (r: int)
    requires 0 <= c <= |row|
    ensures c <= r <= |row| && (r < |row| ==> Rejects(ts, done, row, r))
    ensures forall k :: c <= k < r ==> !Rejects(ts, done, row, k)
    decreases |row| - c
  {
    if c == |row| || Rejects(ts, done, row, c) then c else FirstRejected(ts, done, row, c + 1)
  }

  /** A row is performed up to its first rejected cell. */
  ghost function PerformedRow(ts: seq<int>, done: seq<Op>, row: seq<Cell>): seq<Op> {
    done + RowOps(row, FirstRejected(ts, done, row, 0))
  }

  /** Every row is handled, whatever was rejected before it. */
  ghost function Performed(ts: seq<int>, rows: seq<seq<Cell>>): seq<Op> {
    if rows == [] then []
    else PerformedRow(ts, Performed(ts, rows[..|rows| - 1]), rows[|rows| - 1])
  }

  // ---------- The same, cell by cell ----------

  ghost predicate Cuts(rows: seq<seq<Cell>>, cut: seq<int>) {
    |cut| == |rows| && forall r :: 0 <= r < |rows| ==> 0 <= cut[r] <= |rows[r]|
  }

  /** ops are the operations in the cells before the cut of each row, row by row and left to
      right; operation k stands in cell at[k]. */
  ghost predicate Cells(rows: seq<seq<Cell>>, cut: seq<int>, at: seq<(int, int)>, ops: seq<Op>) {
    && Cuts(rows, cut) && |at| == |ops|
    && Increasing(at)
    && (forall r, c :: (r, c) in at <==> 0 <= r < |rows| && 0 <= c < cut[r] && rows[r][c].Perform?)
    && (forall k :: 0 <= k < |at| ==>
          && 0 <= at[k].0 < |rows| && 0 <= at[k].1 < |rows[at[k].0]|
          && rows[at[k].0][at[k].1] == Perform(ops[k].kind, ops[k].item) && ops[k].txn == at[k].1)
  }

  /** The cut of row r is a rejected operation: inadmissible after the first m operations, which
      are those in earlier cells. */
  ghost predicate RejectedAt(ts: seq<int>, rows: seq<seq<Cell>>, cut: seq<int>, at: seq<(int, int)>, ops: seq<Op>,
                             r: int, m: int)
    requires Cuts(rows, cut) && |at| == |ops| && 0 <= r < |rows| && cut[r] < |rows[r]|
  {
    var cell := rows[r][cut[r]];
    && 0 <= m <= |ops| && (forall k :: 0 <= k < |at| ==> (k < m <==> Earlier(at[k], (r, cut[r]))))
    && cell.Perform? && !Admissible(ts, ops[..m], Op(cut[r], cell.kind, cell.item))
  }

  /** Every row is performed up to its first rejected operation, and what is performed is accepted. */
  ghost predicate PerformedToCuts(ts: seq<int>, rows: seq<seq<Cell>>, cut: seq<int>, at: seq<(int, int)>,
                                  ops: seq<Op>) {
    && Cells(rows, cut, at, ops) && Accepted(ts, ops)
    && forall r :: 0 <= r < |rows| && cut[r] < |rows[r]| ==> exists m :: RejectedAt(ts, rows, cut, at, ops, r, m)
  }

  lemma EmptyRow(rows: seq<seq<Cell>>, cut: seq<int>, at: seq<(int, int)>, ops: seq<Op>, row: seq<Cell>)
    requires Cells(rows, cut, at, ops)
    ensures Cells(rows + [row], cut + [0], at, ops)
  {
    assert forall k :: 0 <= k < |at| ==> (rows + [row])[at[k].0] == rows[at[k].0];
  }

  /** The cut of the last row moves behind one more cell. */
  lemma OneMoreCell(rows: seq<seq<Cell>>, cut: seq<int>, at: seq<(int, int)>, ops: seq<Op>, n: int)
      returns (at': seq<(int, int)>)
    requires Cells(rows, cut, at, ops) && n == |rows| - 1 >= 0 && cut[n] < |rows[n]|
    ensures Cells(rows, cut[n := cut[n] + 1], at', ops + CellOps(rows[n][cut[n]], cut[n]))
    ensures at' == at || at' == at + [(n, cut[n])]
  {
    var c, cut' := cut[n], cut[n := cut[n] + 1];
    AllEarlier(rows, cut, at, ops, n);
    at' := if rows[n][c].Perform? then at + [(n, c)] else at;
    forall r, col ensures (r, col) in at' <==> 0 <= r < |rows| && 0 <= col < cut'[r] && rows[r][col].Perform? {
      assert (r, col) in at' <==> (r, col) in at || (rows[n][c].Perform? && r == n && col == c);
    }
  }

  lemma AllEarlier(rows: seq<seq<Cell>>, cut: seq<int>, at: seq<(int, int)>, ops: seq<Op>, r: int)
    requires Cells(rows, cut, at, ops) && r == |rows| - 1 >= 0
    ensures forall k :: 0 <= k < |at| ==> Earlier(at[k], (r, cut[r]))
  {
    forall k | 0 <= k < |at| ensures Earlier(at[k], (r, cut[r])) {
      assert (at[k].0, at[k].1) in at;
    }
  }

  lemma {:induction false} AppendRow(rows: seq<seq<Cell>>, cut: seq<int>, at: seq<(int, int)>, ops: seq<Op>,
                                     row: seq<Cell>, c: int) returns (at': seq<(int, int)>)
    requires Cells(rows, cut, at, ops) && 0 <= c <= |row|
    ensures Cells(rows + [row], cut + [c], at', ops + RowOps(row, c)) && at <= at'
    ensures forall k :: |at| <= k < |at'| ==> at'[k].0 == |rows|
    decreases c
  {
    hide Cells;
    if c == 0 {
      EmptyRow(rows, cut, at, ops, row);
      at' := at;
      assert ops + [] == ops;
    } else {
      var n := |rows|;
      CutsExist(rows, cut, at, ops);
      at' := AppendRow(rows, cut, at, ops, row, c - 1);
      at' := OneMoreCell(rows + [row], cut + [c - 1], at', ops + RowOps(row, c - 1), n);
      assert (cut + [c - 1])[n := c] == cut + [c];
      assert ops + RowOps(row, c - 1) + CellOps(row[c-1], c - 1) == ops + RowOps(row, c);
    }
  }

  lemma CutsExist(rows: seq<seq<Cell>>, cut: seq<int>, at: seq<(int, int)>, ops: seq<Op>)
    requires Cells(rows, cut, at, ops)
    ensures |cut| == |rows|
  {}

  lemma AppendPerformedRow(ts: seq<int>, rows: seq<seq<Cell>>, cut: seq<int>, at: seq<(int, int)>, ops: seq<Op>,
                           row: seq<Cell>, c: int) returns (at': seq<(int, int)>)
    requires PerformedToCuts(ts, rows, cut, at, ops) && 0 <= c <= |row| && Accepted(ts, ops + RowOps(row, c))
    requires c < |row| ==> Rejects(ts, ops, row, c)
    ensures PerformedToCuts(ts, rows + [row], cut + [c], at', ops + RowOps(row, c))
  {
    hide Accepted, Admissible;
    at' := AppendRow(rows, cut, at, ops, row, c);
    var rows', cut', ops' := rows + [row], cut + [c], ops + RowOps(row, c);
    hide Cells, RowOps;
    forall r | 0 <= r < |rows'| && cut'[r] < |rows'[r]|
      ensures exists m :: RejectedAt(ts, rows', cut', at', ops', r, m)
    {
      if r < |rows| {
        var m :| RejectedAt(ts, rows, cut, at, ops, r, m);
        assert ops'[..m] == ops[..m];
        assert RejectedAt(ts, rows', cut', at', ops', r, m);
      } else {
        assert ops'[..|ops'|] == ops';
        AllEarlier(rows', cut', at', ops', r);
        assert RejectedAt(ts, rows', cut', at', ops', r, |ops'|);
      }
    }
  }

  /** The schedule lists all operations of the table, row by row and left to right. */
  lemma {:induction false} ScheduleIsTable(rows: seq<seq<Cell>>) returns (at: seq<(int, int)>)
    ensures Cells(rows, Lengths(rows), at, Schedule(rows))
  {
    if rows == [] {
      at := [];
    } else {
      var n := |rows| - 1;
      at := ScheduleIsTable(rows[..n]);
      at := AppendRow(rows[..n], Lengths(rows[..n]), at, Schedule(rows[..n]), rows[n], |rows[n]|);
      assert rows[..n] + [rows[n]] == rows && Lengths(rows[..n]) + [|rows[n]|] == Lengths(rows);
    }
  }

  ghost function Lengths(rows: seq<seq<Cell>>): seq<int> {
    seq(|rows|, r requires 0 <= r < |rows| => |rows[r]|)
  }

  function Get(m: map<string, int>, x: string): int { if x in m then m[x] else 0 }

  /** The dictionaries hold the stamps of the operations performed. */
  ghost predicate Holds(ts: seq<int>, done: seq<Op>, rts: map<string, int>, wts: map<string, int>) {
    && rts.Keys == wts.Keys
    && (forall x :: Get(rts, x) == Stamp(ts, done, Read, x))
    && (forall x :: Get(wts, x) == Stamp(ts, done, Write, x))
  }

  lemma PerformHolds(ts: seq<int>, done: seq<Op>, rts: map<string, int>, wts: map<string, int>, o: Op)
    requires Holds(ts, done, rts, wts) && 0 <= o.txn < |ts| && o.item in rts
    ensures o.kind == Read ==> Holds(ts, done + [o], rts[o.item := ts[o.txn]], wts)
    ensures o.kind == Write ==> Holds(ts, done + [o], rts, wts[o.item := ts[o.txn]])
  {
    assert (done + [o])[..|done|] == done;
    forall x, k
      ensures Stamp(ts, done + [o], k, x) ==
              if o.kind == k && o.item == x then ts[o.txn] else Stamp(ts, done, k, x)
    {}
  }

  lemma AcceptedPlus(ts: seq<int>, ops: seq<Op>, o: Op)
    ensures Accepted(ts, ops + [o]) <==> Accepted(ts, ops) && Admissible(ts, ops, o)
  {
    var s := ops + [o];
    assert s[..|ops|] == ops && s[|ops|] == o;
    if Accepted(ts, s) {
      forall k {:trigger ops[..k]} | 0 <= k < |ops| ensures Admissible(ts, ops[..k], ops[k]) {
        assert s[..k] == ops[..k] && s[k] == ops[k];
      }
    }
    if Accepted(ts, ops) && Admissible(ts, ops, o) {
      forall k {:trigger s[..k]} | 0 <= k < |s| ensures Admissible(ts, s[..k], s[k]) {
        if k < |ops| { assert s[..k] == ops[..k] && s[k] == ops[k]; }
      }
    }
  }

  lemma {:induction false} AcceptedPrefix(ts: seq<int>, ops: seq<Op>, more: seq<Op>)
    requires Accepted(ts, ops + more)
    ensures Accepted(ts, ops)
  {
    if more == [] {
      assert ops + more == ops;
    } else {
      var init := more[..|more| - 1];
      assert ops + more == (ops + init) + [more[|more| - 1]];
      AcceptedPlus(ts, ops + init, more[|more| - 1]);
      AcceptedPrefix(ts, ops, init);
    }
  }

  /** One row: cells are handled until the first rejection, which leaves the rest of this row out. */
  method CheckRow(ts: seq<int>, row: seq<Cell>, rts0: map<string, int>, wts0: map<string, int>, ghost done0: seq<Op>)
    returns (rejected: bool, rts: map<string, int>, wts: map<string, int>, ghost done: seq<Op>)
    requires |row| == |ts| && Holds(ts, done0, rts0, wts0) && Accepted(ts, done0)
    ensures Holds(ts, done, rts, wts) && Accepted(ts, done)
    ensures done == PerformedRow(ts, done0, row)
    ensures rejected <==> FirstRejected(ts, done0, row, 0) < |row|
    ensures !rejected ==> done == done0 + RowOps(row, |row|)
    ensures rejected <==> !Accepted(ts, done0 + RowOps(row, |row|))
  {
    assert done0 + RowOps(row, 0) == done0;
    hide Holds, Accepted, Admissible, RowOps, FirstRejected, Rejects;
    rejected, rts, wts, done := false, rts0, wts0, done0;
    var t := 0;
    while t < |row|
      invariant 0 <= t <= |row| && Holds(ts, done, rts, wts) && Accepted(ts, done)
      invariant done == done0 + RowOps(row, t)
      invariant FirstRejected(ts, done0, row, 0) == FirstRejected(ts, done0, row, t)
    {
      NextCell(ts, done0, row, t);
      match row[t] {
        case Ignored =>
          assert done + [] == done;
        case Unknown(x) =>
          TouchHolds(ts, done, rts, wts, x);
          if x !in rts {
            rts, wts := rts[x := 0], wts[x := 0];
          }
          assert done + [] == done;
        case Perform(kind, x) =>
          ghost var o := Op(t, kind, x);
          TouchHolds(ts, done, rts, wts, x);
          if x !in rts {
            rts, wts := rts[x := 0], wts[x := 0];
          }
          StampsHeld(ts, done, rts, wts, x);
          var admitted := ts[t] >= wts[x] && (kind == Read || ts[t] >= rts[x]);
          assert admitted <==> Admissible(ts, done, o) by { AdmissibleUnfolds(ts, done, o); }
          AcceptedPlus(ts, done, o);
          if !admitted {
            RejectedRow(ts, row, done0, t + 1);
            rejected := true;
            return;
          }
          PerformHolds(ts, done, rts, wts, o);
          if kind == Read {
            rts := rts[x := ts[t]];
          } else {
            wts := wts[x := ts[t]];
          }
          done := done + [o];
      }
      t := t + 1;
    }
    EndOfRow(ts, done0, row);
  }

  lemma NextCell(ts: seq<int>, done: seq<Op>, row: seq<Cell>, t: int)
    requires 0 <= t < |row|
    ensures done + RowOps(row, t + 1) == (done + RowOps(row, t)) + CellOps(row[t], t)
    ensures FirstRejected(ts, done, row, t)
            == if Rejects(ts, done, row, t) then t else FirstRejected(ts, done, row, t + 1)
    ensures Rejects(ts, done, row, t) <==>
      row[t].Perform? && !Admissible(ts, done + RowOps(row, t), Op(t, row[t].kind, row[t].item))
  {
    hide Admissible;
  }

  lemma EndOfRow(ts: seq<int>, done: seq<Op>, row: seq<Cell>)
    ensures FirstRejected(ts, done, row, |row|) == |row|
  {}

  lemma AdmissibleUnfolds(ts: seq<int>, ops: seq<Op>, o: Op)
    requires 0 <= o.txn < |ts|
    ensures Admissible(ts, ops, o) <==>
      ts[o.txn] >= Stamp(ts, ops, Write, o.item) && (o.kind == Read || ts[o.txn] >= Stamp(ts, ops, Read, o.item))
  {}

  lemma TouchHolds(ts: seq<int>, done: seq<Op>, rts: map<string, int>, wts: map<string, int>, x: string)
    requires Holds(ts, done, rts, wts)
    ensures x !in rts ==> Holds(ts, done, rts[x := 0], wts[x := 0])
  {
    if x !in rts { assert Get(rts, x) == 0 && Get(wts, x) == 0; }
  }

  lemma StampsHeld(ts: seq<int>, done: seq<Op>, rts: map<string, int>, wts: map<string, int>, x: string)
    requires Holds(ts, done, rts, wts) && x in rts
    ensures x in wts && rts[x] == Stamp(ts, done, Read, x) && wts[x] == Stamp(ts, done, Write, x)
  {
    assert Get(rts, x) == rts[x] && Get(wts, x) == wts[x];
  }

  lemma {:induction false} RowOpsPrefix(row: seq<Cell>, c: int, d: int) returns (more: seq<Op>)
    requires 0 <= c <= d <= |row|
    ensures RowOps(row, d) == RowOps(row, c) + more
    decreases d
  {
    if c == d {
      more := [];
    } else {
      more := RowOpsPrefix(row, c, d - 1);
      more := more + CellOps(row[d-1], d - 1);
    }
  }

  lemma RejectedRow(ts: seq<int>, row: seq<Cell>, done0: seq<Op>, c: int)
    requires 0 <= c <= |row| && !Accepted(ts, done0 + RowOps(row, c))
    ensures !Accepted(ts, done0 + RowOps(row, |row|))
  {
    var more := RowOpsPrefix(row, c, |row|);
    assert done0 + RowOps(row, |row|) == (done0 + RowOps(row, c)) + more;
    if Accepted(ts, done0 + RowOps(row, |row|)) { AcceptedPrefix(ts, done0 + RowOps(row, c), more); }
  }

  /** The rows were handled: performed up to their cuts, with a rejection if one is cut short. */
  ghost predicate Handled(ts: seq<int>, rows: seq<seq<Cell>>, deadlock: bool, done: seq<Op>, cut: seq<int>,
                          at: seq<(int, int)>) {
    && PerformedToCuts(ts, rows, cut, at, done) && done == Performed(ts, rows)
    && (deadlock <==> !Accepted(ts, Schedule(rows)))
    && (deadlock <==> exists r :: 0 <= r < |rows| && cut[r] < |rows[r]|)
    && (!deadlock ==> done == Schedule(rows))
  }

  lemma NothingHeld(ts: seq<int>)
    ensures Accepted(ts, []) && Holds(ts, [], map[], map[])
  {}

  lemma NoCells()
    ensures Cells([], [], [], [])
  {}

  lemma NoRowHandled(ts: seq<int>)
    ensures Handled(ts, [], false, [], [], []) && Accepted(ts, []) && Holds(ts, [], map[], map[])
  {
    hide Accepted, Holds, Cells, RejectedAt, PerformedRow, RowOps;
    NothingHeld(ts);
    NoCells();
  }

  lemma RowHandled(ts: seq<int>, rows: seq<seq<Cell>>, deadlock: bool, done: seq<Op>, cut: seq<int>,
                   at: seq<(int, int)>, row: seq<Cell>, rejected: bool) returns (cut': seq<int>, at': seq<(int, int)>)
    requires Handled(ts, rows, deadlock, done, cut, at)
    requires rejected <==> FirstRejected(ts, done, row, 0) < |row|
    requires rejected <==> !Accepted(ts, done + RowOps(row, |row|))
    requires Accepted(ts, PerformedRow(ts, done, row))
    ensures Handled(ts, rows + [row], deadlock || rejected, PerformedRow(ts, done, row), cut', at')
  {
    hide Accepted, PerformedToCuts, RowOps;
    var c, rows' := FirstRejected(ts, done, row, 0), rows + [row];
    at' := AppendPerformedRow(ts, rows, cut, at, done, row, c);
    cut' := cut + [c];
    assert |cut| == |rows| by { CutsMatch(ts, rows, cut, at, done); }
    assert rows'[..|rows|] == rows;
    assert Schedule(rows') == Schedule(rows) + RowOps(row, |row|);
    assert Performed(ts, rows') == PerformedRow(ts, done, row);
    if deadlock {
      if Accepted(ts, Schedule(rows')) { AcceptedPrefix(ts, Schedule(rows), RowOps(row, |row|)); }
      var r :| 0 <= r < |rows| && cut[r] < |rows[r]|;
      assert cut'[r] < |rows'[r]|;
    } else {
      assert rejected ==> cut'[|rows|] < |rows'[|rows|]|;
    }
  }

  lemma CutsMatch(ts: seq<int>, rows: seq<seq<Cell>>, cut: seq<int>, at: seq<(int, int)>, ops: seq<Op>)
    requires PerformedToCuts(ts, rows, cut, at, ops)
    ensures |cut| == |rows|
  {}

  lemma OneMoreRow(rows: seq<seq<Cell>>, i: int)
    requires 0 <= i < |rows|
    ensures rows[..i] + [rows[i]] == rows[..i + 1]
  {}

  /** `deadlock` reports a rejection. Later rows are still handled after a rejected one; `done`
      is what was performed in all, row r up to cut[r], and at[k] is the cell of operation k. */
  method CheckTable(ts: seq<int>, rows: seq<seq<Cell>>)
    returns (deadlock: bool, rts: map<string, int>, wts: map<string, int>,
             ghost done: seq<Op>, ghost cut: seq<int>, ghost at: seq<(int, int)>)
    requires forall i :: 0 <= i < |rows| ==> |rows[i]| == |ts|
    ensures deadlock <==> !Accepted(ts, Schedule(rows))
    ensures Handled(ts, rows, deadlock, done, cut, at)
    ensures Holds(ts, done, rts, wts)
  {
    deadlock, rts, wts, done, cut, at := false, map[], map[], [], [], [];
    hide *;
    NoRowHandled(ts);
    for i := 0 to |rows|
      invariant Handled(ts, rows[..i], deadlock, done, cut, at)
      invariant Holds(ts, done, rts, wts) && Accepted(ts, done)
    {
      ghost var before := done;
      var rejected;
      rejected, rts, wts, done := CheckRow(ts, rows[i], rts, wts, done);
      cut, at := RowHandled(ts, rows[..i], deadlock, before, cut, at, rows[i], rejected);
      OneMoreRow(rows, i);
      if rejected {
        deadlock := true;
      }
    }
    assert rows[..|rows|] == rows;
    HandledReports(ts, rows, deadlock, done, cut, at);
  }

  lemma HandledReports(ts: seq<int>, rows: seq<seq<Cell>>, deadlock: bool, done: seq<Op>, cut: seq<int>,
                       at: seq<(int, int)>)
    requires Handled(ts, rows, deadlock, done, cut, at)
    ensures deadlock <==> !Accepted(ts, Schedule(rows))
  {}

  // ---------- What acceptance says about conflicting operations ----------

  ghost predicate Is(ops: seq<Op>, i: int, kind: Kind, x: string) {
    0 <= i < |ops| && ops[i].kind == kind && ops[i].item == x
  }

  ghost function Time(ts: seq<int>, ops: seq<Op>, i: int): int {
    if 0 <= i < |ops| && 0 <= ops[i].txn < |ts| then ts[ops[i].txn] else 0
  }

  /** Reads of one item arrive in nondecreasing timestamp order. */
  ghost predicate ReadsAscend(ts: seq<int>, ops: seq<Op>) {
    forall i, j, x :: i < j && Is(ops, i, Read, x) && Is(ops, j, Read, x) ==> Time(ts, ops, i) <= Time(ts, ops, j)
  }

  /** No write is older than an earlier read of its item: the test against the greatest read
      timestamp, where the program tests against the latest one. */
  ghost predicate WritesRespectReads(ts: seq<int>, ops: seq<Op>) {
    forall i, j, x :: i < j && Is(ops, i, Read, x) && Is(ops, j, Write, x) ==> Time(ts, ops, i) <= Time(ts, ops, j)
  }

  /** The stamp of a kind is the greatest timestamp of that kind, if these arrive in order. */
  lemma {:induction false} StampIsGreatest(ts: seq<int>, ops: seq<Op>, kind: Kind, x: string, i: int)
    requires forall k :: 0 <= k < |ops| ==> 0 <= ops[k].txn < |ts|
    requires forall a, b :: a < b && Is(ops, a, kind, x) && Is(ops, b, kind, x) ==> Time(ts, ops, a) <= Time(ts, ops, b)
    requires Is(ops, i, kind, x)
    ensures Time(ts, ops, i) <= Stamp(ts, ops, kind, x)
  {
    var n := |ops| - 1;
    var init := ops[..n];
    if Is(ops, n, kind, x) {
      assert Stamp(ts, ops, kind, x) == Time(ts, ops, n);
    } else {
      assert forall k :: 0 <= k < n ==> init[k] == ops[k];
      forall a, b | a < b && Is(init, a, kind, x) && Is(init, b, kind, x)
          ensures Time(ts, init, a) <= Time(ts, init, b) {
        assert Is(ops, a, kind, x) && Is(ops, b, kind, x);
      }
      assert Is(init, i, kind, x);
      StampIsGreatest(ts, init, kind, x, i);
    }
  }

  lemma AcceptedAt(ts: seq<int>, ops: seq<Op>, k: int)
    requires Accepted(ts, ops) && 0 <= k < |ops|
    ensures Admissible(ts, ops[..k], ops[k]) && 0 <= ops[k].txn < |ts|
  {
    assert ops[..k] == ops[..k];
  }

  lemma AcceptedTxns(ts: seq<int>, ops: seq<Op>)
    requires Accepted(ts, ops)
    ensures forall k :: 0 <= k < |ops| ==> 0 <= ops[k].txn < |ts|
  {
    forall k | 0 <= k < |ops| ensures 0 <= ops[k].txn < |ts| { AcceptedAt(ts, ops, k); }
  }

  /** Writes of one item are accepted in timestamp order. */
  lemma {:induction false} WritesAscend(ts: seq<int>, ops: seq<Op>, i: int, j: int, x: string)
    requires Accepted(ts, ops) && i < j && Is(ops, i, Write, x) && Is(ops, j, Write, x)
    ensures Time(ts, ops, i) <= Time(ts, ops, j)
    decreases j
  {
    WriteBelow(ts, ops, i, j, x);
  }

  /** An accepted operation is not older than any earlier write of its item. */
  lemma {:induction false} WriteBelow(ts: seq<int>, ops: seq<Op>, i: int, j: int, x: string)
    requires Accepted(ts, ops) && 0 <= i < j < |ops| && Is(ops, i, Write, x) && ops[j].item == x
    ensures Time(ts, ops, i) <= Time(ts, ops, j)
    decreases j
  {
    AcceptedTxns(ts, ops);
    var pre := ops[..j];
    forall a, b | a < b && Is(pre, a, Write, x) && Is(pre, b, Write, x) ensures Time(ts, pre, a) <= Time(ts, pre, b) {
      assert pre[a] == ops[a] && pre[b] == ops[b];
      WriteBelow(ts, ops, a, b, x);
    }
    assert Is(pre, i, Write, x) && Time(ts, pre, i) == Time(ts, ops, i);
    StampIsGreatest(ts, pre, Write, x, i);
    AcceptedAt(ts, ops, j);
  }

  /** If reads arrive in order, testing against the latest read is testing against all reads. */
  lemma OrderedReadsAreRespected(ts: seq<int>, ops: seq<Op>)
    requires Accepted(ts, ops) && ReadsAscend(ts, ops)
    ensures WritesRespectReads(ts, ops)
  {
    hide Accepted;
    AcceptedTxns(ts, ops);
    forall i, j, x | i < j && Is(ops, i, Read, x) && Is(ops, j, Write, x) ensures Time(ts, ops, i) <= Time(ts, ops, j) {
      var pre := ops[..j];
      forall a, b | a < b && Is(pre, a, Read, x) && Is(pre, b, Read, x) ensures Time(ts, pre, a) <= Time(ts, pre, b) {
        assert pre[a] == ops[a] && pre[b] == ops[b] && Is(ops, a, Read, x) && Is(ops, b, Read, x);
      }
      assert Is(pre, i, Read, x) && Time(ts, pre, i) == Time(ts, ops, i);
      StampIsGreatest(ts, pre, Read, x, i);
      AcceptedAt(ts, ops, j);
    }
  }

  // ---------- The serial execution in timestamp order ----------

  ghost predicate DistinctTimes(ts: seq<int>) {
    forall i, j :: 0 <= i < j < |ts| ==> ts[i] != ts[j]
  }

  /** Operation a runs before b when transactions run one after the other by timestamp, each in
      its own order. */
  ghost predicate Before(ts: seq<int>, ops: seq<Op>, a: int, b: int) {
    Time(ts, ops, a) < Time(ts, ops, b) || (Time(ts, ops, a) == Time(ts, ops, b) && a < b)
  }

  /** order lists all operations of the schedule as the serial execution runs them. */
  ghost predicate SerialOrder(ts: seq<int>, ops: seq<Op>, order: seq<int>) {
    && |order| == |ops|
    && (forall q :: 0 <= q < |order| ==> 0 <= order[q] < |ops|)
    && (forall a :: 0 <= a < |ops| ==> a in order)
    && (forall p, q :: 0 <= p < q < |order| ==> Before(ts, ops, order[p], order[q]))
  }

  ghost function Rearranged(ops: seq<Op>, order: seq<int>): seq<Op>
    requires forall q :: 0 <= q < |order| ==> 0 <= order[q] < |ops|
  {
    seq(|order|, q requires 0 <= q < |order| => ops[order[q]])
  }

  /** Where the value of x comes from that is current before position k: the last write, or -1. */
  ghost function LastWrite(ops: seq<Op>, k: int, x: string): int
    requires 0 <= k <= |ops|
  {
    if k == 0 then -1 else if Is(ops, k - 1, Write, x) then k - 1 else LastWrite(ops, k - 1, x)
  }

  lemma {:induction false} LastWriteMeans(ops: seq<Op>, k: int, x: string)
    requires 0 <= k <= |ops|
    ensures var r := LastWrite(ops, k, x);
      -1 <= r < k && (r >= 0 ==> Is(ops, r, Write, x)) && forall w :: r < w < k ==> !Is(ops, w, Write, x)
  {
    if k > 0 { LastWriteMeans(ops, k - 1, x); }
  }

  /** Position r of the serial execution, as an operation of the original schedule. */
  ghost function Origin(order: seq<int>, r: int): int {
    if 0 <= r < |order| then order[r] else -1
  }

  /** Every read takes its value from the same write in both executions. */
  ghost predicate SameReads(ts: seq<int>, ops: seq<Op>, order: seq<int>)
    requires SerialOrder(ts, ops, order)
  {
    forall q, x {:trigger LastWrite(Rearranged(ops, order), q, x)} :: 0 <= q < |order| && Is(ops, order[q], Read, x) ==>
      Origin(order, LastWrite(Rearranged(ops, order), q, x)) == LastWrite(ops, order[q], x)
  }

  /** Every item ends with the value of the same write in both executions. */
  ghost predicate SameFinals(ts: seq<int>, ops: seq<Op>, order: seq<int>)
    requires SerialOrder(ts, ops, order)
  {
    forall x :: Origin(order, LastWrite(Rearranged(ops, order), |order|, x)) == LastWrite(ops, |ops|, x)
  }

  lemma BeforeIsPosition(ts: seq<int>, ops: seq<Op>, order: seq<int>, a: int, b: int)
    requires SerialOrder(ts, ops, order) && 0 <= a < |ops| && 0 <= b < |ops| && a != b
    ensures a in order && b in order
    ensures Before(ts, ops, a, b) <==> Position(order, a) < Position(order, b)
  {
    var p, q := Position(order, a), Position(order, b);
    if p < q { assert Before(ts, ops, order[p], order[q]); }
    if q < p { assert Before(ts, ops, order[q], order[p]); }
  }

  /** If the writes placed before position q are those before k in the schedule, then the same
      write is the last one in both. */
  lemma SameLastWrite(ts: seq<int>, ops: seq<Op>, order: seq<int>, q: int, k: int, x: string)
    requires Accepted(ts, ops) && SerialOrder(ts, ops, order) && 0 <= q <= |order| && 0 <= k <= |ops|
    requires forall w :: Is(ops, w, Write, x) ==> w in order && (w < k <==> Position(order, w) < q)
    ensures Origin(order, LastWrite(Rearranged(ops, order), q, x)) == LastWrite(ops, k, x)
  {
    hide Accepted, LastWrite;
    var serial := Rearranged(ops, order);
    var r, p := LastWrite(ops, k, x), LastWrite(serial, q, x);
    LastWriteMeans(ops, k, x);
    LastWriteMeans(serial, q, x);
    assert forall w :: 0 <= w < |order| ==> order[w] in order && serial[w] == ops[order[w]];
    if p >= 0 {
      var w := order[p];
      assert Is(ops, w, Write, x);
      UniquePosition(ts, ops, order, p);
      assert w <= r;
    }
    if r >= 0 {
      var m := Position(order, r);
      assert Is(serial, m, Write, x) && m <= p;
      assert m < p ==> Before(ts, ops, order[m], order[p]);
      if order[p] < r { WritesAscend(ts, ops, order[p], r, x); }
    }
  }

  lemma UniquePosition(ts: seq<int>, ops: seq<Op>, order: seq<int>, p: int)
    requires SerialOrder(ts, ops, order) && 0 <= p < |order|
    ensures order[p] in order && Position(order, order[p]) == p
  {
    var q := Position(order, order[p]);
    assert p < q ==> Before(ts, ops, order[p], order[q]);
    assert q < p ==> Before(ts, ops, order[q], order[p]);
  }

  /** The serial execution never interleaves two transactions. */
  lemma OneTransactionAtATime(ts: seq<int>, ops: seq<Op>, order: seq<int>, p: int, q: int, r: int)
    requires DistinctTimes(ts) && SerialOrder(ts, ops, order) && 0 <= p < q < r < |order|
    requires forall k :: 0 <= k < |ops| ==> 0 <= ops[k].txn < |ts|
    requires ops[order[p]].txn == ops[order[r]].txn
    ensures ops[order[q]].txn == ops[order[p]].txn
  {
    assert Before(ts, ops, order[p], order[q]) && Before(ts, ops, order[q], order[r]);
  }

  // ---------- Equivalence ----------

  lemma ReadsKeepTheirWrites(ts: seq<int>, ops: seq<Op>, order: seq<int>)
    requires Accepted(ts, ops) && SerialOrder(ts, ops, order) && WritesRespectReads(ts, ops)
    ensures SameReads(ts, ops, order)
  {
    hide Accepted, LastWrite;
    forall q, x | 0 <= q < |order| && Is(ops, order[q], Read, x)
      ensures Origin(order, LastWrite(Rearranged(ops, order), q, x)) == LastWrite(ops, order[q], x)
    {
      var k := order[q];
      UniquePosition(ts, ops, order, q);
      forall w | Is(ops, w, Write, x) ensures w in order && (w < k <==> Position(order, w) < q) {
        BeforeIsPosition(ts, ops, order, w, k);
        if w < k { WriteBelow(ts, ops, w, k, x); }
      }
      SameLastWrite(ts, ops, order, q, k, x);
    }
  }

  lemma FinalsAgree(ts: seq<int>, ops: seq<Op>, order: seq<int>)
    requires Accepted(ts, ops) && SerialOrder(ts, ops, order)
    ensures SameFinals(ts, ops, order)
  {
    hide Accepted, LastWrite;
    forall x ensures Origin(order, LastWrite(Rearranged(ops, order), |order|, x)) == LastWrite(ops, |ops|, x) {
      SameLastWrite(ts, ops, order, |order|, |ops|, x);
    }
  }

  /** A write older than an earlier read changes what that read sees in the serial execution. */
  lemma LateWriteChangesRead(ts: seq<int>, ops: seq<Op>, order: seq<int>, i: int, j: int, x: string)
    requires Accepted(ts, ops) && SerialOrder(ts, ops, order) && SameReads(ts, ops, order)
    requires i < j && Is(ops, i, Read, x) && Is(ops, j, Write, x)
    ensures Time(ts, ops, i) <= Time(ts, ops, j)
  {
    hide Accepted, LastWrite;
    if Time(ts, ops, j) < Time(ts, ops, i) {
      var serial := Rearranged(ops, order);
      BeforeIsPosition(ts, ops, order, j, i);
      var q, m := Position(order, i), Position(order, j);
      assert Is(ops, order[q], Read, x);
      var p, r := LastWrite(serial, q, x), LastWrite(ops, i, x);
      LastWriteMeans(serial, q, x);
      LastWriteMeans(ops, i, x);
      assert Is(serial, m, Write, x) && m <= p;
      assert m < p ==> Before(ts, ops, order[m], order[p]);
      assert order[p] == r;
      WritesAscend(ts, ops, r, j, x);
    }
  }

  /** An accepted schedule is equivalent to the serial execution exactly when no write is older
      than an earlier read of its item; ordered reads are enough for that. */
  lemma EquivalentExactlyWhen(ts: seq<int>, ops: seq<Op>, order: seq<int>)
    requires Accepted(ts, ops) && DistinctTimes(ts) && SerialOrder(ts, ops, order)
    ensures SameReads(ts, ops, order) && SameFinals(ts, ops, order) <==> WritesRespectReads(ts, ops)
    ensures ReadsAscend(ts, ops) ==> SameReads(ts, ops, order) && SameFinals(ts, ops, order)
  {
    hide Accepted, LastWrite;
    FinalsAgree(ts, ops, order);
    if SameReads(ts, ops, order) {
      forall i, j, x | i < j && Is(ops, i, Read, x) && Is(ops, j, Write, x)
          ensures Time(ts, ops, i) <= Time(ts, ops, j) {
        LateWriteChangesRead(ts, ops, order, i, j, x);
      }
    }
    if ReadsAscend(ts, ops) { OrderedReadsAreRespected(ts, ops); }
    if WritesRespectReads(ts, ops) { ReadsKeepTheirWrites(ts, ops, order); }
  }

  const LateTimes := [10, 20, 15]
  const LateOps := [Op(1, Read, "Q"), Op(0, Read, "Q"), Op(2, Write, "Q")]

  lemma LateWriteIsAccepted()
    ensures DistinctTimes(LateTimes) && Accepted(LateTimes, LateOps)
  {
    var ts, a, b, c := LateTimes, LateOps[0], LateOps[1], LateOps[2];
    assert Accepted(ts, []);
    hide Accepted;
    assert [] + [a] == [a] && [a] + [b] == [a, b] && [a, b] + [c] == LateOps;
    assert [a, b][..1] == [a] && [a][..0] == [];
    AcceptedPlus(ts, [], a);
    AcceptedPlus(ts, [a], b);
    AcceptedPlus(ts, [a, b], c);
  }

  /** The test is not enough by itself: an older read lowers the stamp that the next write meets.
      The serial execution runs that write before the first read, which then sees its value. */
  lemma OutOfOrderReadsAdmitLateWrite()
    ensures DistinctTimes(LateTimes) && Accepted(LateTimes, LateOps) && !WritesRespectReads(LateTimes, LateOps)
    ensures SerialOrder(LateTimes, LateOps, [1, 2, 0]) && !SameReads(LateTimes, LateOps, [1, 2, 0])
  {
    hide Accepted;
    LateWriteIsAccepted();
    var order := [1, 2, 0];
    assert order[2] == 0 && order[0] == 1 && order[1] == 2;
    assert Is(LateOps, 0, Read, "Q") && Is(LateOps, 2, Write, "Q");
    if SameReads(LateTimes, LateOps, order) { LateWriteChangesRead(LateTimes, LateOps, order, 0, 2, "Q"); }
  }

  // ---------- A serial order always exists ----------

  ghost function InsertBefore(ts: seq<int>, ops: seq<Op>, order: seq<int>, a: int): seq<int> {
    if order == [] then [a]
    else if Before(ts, ops, a, order[0]) then [a] + order
    else [order[0]] + InsertBefore(ts, ops, order[1..], a)
  }

  ghost predicate Ascending(ts: seq<int>, ops: seq<Op>, order: seq<int>) {
    forall p, q :: 0 <= p < q < |order| ==> Before(ts, ops, order[p], order[q])
  }

  lemma {:induction false} InsertKeepsAscending(ts: seq<int>, ops: seq<Op>, order: seq<int>, a: int)
    requires Ascending(ts, ops, order) && a !in order
    ensures var r := InsertBefore(ts, ops, order, a);
      Ascending(ts, ops, r) && |r| == |order| + 1 && forall v :: v in r <==> v == a || v in order
  {
    if order != [] && !Before(ts, ops, a, order[0]) {
      InsertKeepsAscending(ts, ops, order[1..], a);
      var r := InsertBefore(ts, ops, order[1..], a);
      forall q | 0 <= q < |r| ensures Before(ts, ops, order[0], r[q]) {
        assert r[q] in r;
        if r[q] != a { var m :| 0 <= m < |order[1..]| && order[1..][m] == r[q]; assert order[m + 1] == r[q]; }
      }
      assert order == [order[0]] + order[1..];
    } else if order != [] {
      forall q | 0 <= q < |order| ensures Before(ts, ops, a, order[q]) {
        if q > 0 { assert Before(ts, ops, order[0], order[q]); }
      }
    }
  }

  lemma {:induction false} SerialOrderExists(ts: seq<int>, ops: seq<Op>, n: int) returns (order: seq<int>)
    requires 0 <= n <= |ops|
    ensures Ascending(ts, ops, order) && |order| == n && forall a :: a in order <==> 0 <= a < n
    ensures n == |ops| ==> SerialOrder(ts, ops, order)
    decreases n
  {
    if n == 0 {
      order := [];
    } else {
      var rest := SerialOrderExists(ts, ops, n - 1);
      InsertKeepsAscending(ts, ops, rest, n - 1);
      order := InsertBefore(ts, ops, rest, n - 1);
      assert forall q :: 0 <= q < |order| ==> order[q] in order;
    }
  }
}
