/** The extraction routine shared by every metric module: after the page is fetched
    and the `snapshot-table2` table is located, the rows' cells are read as
    key/value pairs and the value of the first key equal to the target label is
    returned. A page is modelled by its HTTP status and, when the table exists,
    the text of every `td` cell, row by row. */
module Snapshot {
  import opened Wrappers
  import Text

  type Row = seq<string>
  type Table = seq<Row>

  const StatusOk: int := 200

  /** The value paired with the key cell at `i`: the stripped next cell, or the
      empty string when the key is the last cell of an odd-length row. */
  function PairedValue(row: Row, i: nat): string
    requires i < |row|
  {
    if i + 1 < |row| then Text.Strip(row[i + 1]) else ""
  }

  // ---------------------------------------------------------------------------
  // Declarative meaning of the lookup

  /** The key cell of pair `p` in row `r`, the cell at even index `2 * p`, strips to `target`. */
  ghost predicate IsKeyAt(t: Table, r: int, p: int, target: string) {
    && 0 <= r < |t|
    && 0 <= p
    && 2 * p < |t[r]|
    && Text.Strip(t[r][2 * p]) == target
  }

  /** Pair `(r', p')` is scanned before pair `(r, p)`: rows in order, pairs in order within a row. */
  ghost predicate Before(r': int, p': int, r: int, p: int) {
    r' < r || (r' == r && p' < p)
  }

  /** Pair `(r, p)` holds the first matching key cell in scan order. */
  ghost predicate IsFirstKey(t: Table, r: int, p: int, target: string) {
    && IsKeyAt(t, r, p, target)
    && forall r', p' :: Before(r', p', r, p) ==> !IsKeyAt(t, r', p', target)
  }

  ghost predicate HasKey(t: Table, target: string) {
    exists r, p :: IsKeyAt(t, r, p, target)
  }

  /** What the lookup must return: nothing when no key cell matches, otherwise the
      value paired with the first matching key cell. */
  ghost predicate LookupSpec(t: Table, target: string, res: Option<string>) {
    match res
    case None => !HasKey(t, target)
    case Some(v) => exists r, p :: IsFirstKey(t, r, p, target) && v == PairedValue(t[r], 2 * p)
  }

  // ---------------------------------------------------------------------------
  // The scan

  /** The inner loop over one row, from pair `p` (key cell `2 * p`) onward. */
  function ScanRow(row: Row, p: nat, target: string): Option<string>
    decreases |row| - 2 * p
  {
    if 2 * p >= |row| then None
    else if Text.Strip(row[2 * p]) == target then Some(PairedValue(row, 2 * p))
    else ScanRow(row, p + 1, target)
  }

  /** The outer loop over the rows: the first row that yields a value decides. */
  function Lookup(t: Table, target: string): Option<string>
  {
    if |t| == 0 then None
    else
      match ScanRow(t[0], 0, target)
      case Some(v) => Some(v)
      case None => Lookup(t[1..], target)
  }

  /** No key cell of pairs `p .. q-1` of the row strips to the target. */
  ghost predicate NoKeyBetween(row: Row, p: int, q: int, target: string) {
    forall k :: p <= k < q && 0 <= k && 2 * k < |row| ==> Text.Strip(row[2 * k]) != target
  }

  /** Pair `q` holds the first key at or after pair `p` that strips to the target. */
  ghost predicate FirstKeyFrom(row: Row, p: int, q: int, target: string) {
    && 0 <= p <= q && 2 * q < |row| && Text.Strip(row[2 * q]) == target
    && NoKeyBetween(row, p, q, target)
  }

  /** The row scan from pair `p` finds the first matching key at or after `p`. */
  lemma {:induction false} ScanRowMeaning(row: Row, p: nat, target: string)
    ensures ScanRow(row, p, target).None? <==> NoKeyBetween(row, p, |row|, target)
    ensures ScanRow(row, p, target).Some? ==>
            exists q :: FirstKeyFrom(row, p, q, target) && ScanRow(row, p, target).value == PairedValue(row, 2 * q)
    decreases |row| - 2 * p
  {
    if 2 * p < |row| && Text.Strip(row[2 * p]) != target {
      ScanRowMeaning(row, p + 1, target);
      if ScanRow(row, p + 1, target).Some? {
        var q :| FirstKeyFrom(row, p + 1, q, target) && ScanRow(row, p + 1, target).value == PairedValue(row, 2 * q);
        assert FirstKeyFrom(row, p, q, target);
      }
    } else if 2 * p < |row| {
      assert FirstKeyFrom(row, p, p, target);
    }
  }

  /** The lookup computes exactly what `LookupSpec` describes. */
  lemma {:induction false} LookupMeetsSpec(t: Table, target: string)
    ensures LookupSpec(t, target, Lookup(t, target))
  {
    if |t| > 0 {
      ScanRowMeaning(t[0], 0, target);
      match ScanRow(t[0], 0, target)
      case Some(v) =>
        var q :| FirstKeyFrom(t[0], 0, q, target) && v == PairedValue(t[0], 2 * q);
        assert IsFirstKey(t, 0, q, target);
      case None =>
        LookupMeetsSpec(t[1..], target);
        SkipUnmatchedRow(t, target);
    }
  }

  /** A first row with no matching key cell can be skipped: the table answers as its tail does. */
  lemma SkipUnmatchedRow(t: Table, target: string)
    requires |t| > 0 && NoKeyBetween(t[0], 0, |t[0]|, target)
    requires LookupSpec(t[1..], target, Lookup(t[1..], target))
    ensures LookupSpec(t, target, Lookup(t[1..], target))
  {
    var rest := t[1..];
    assert forall p :: !IsKeyAt(t, 0, p, target);
    assert forall r, p :: 1 <= r ==> (IsKeyAt(t, r, p, target) <==> IsKeyAt(rest, r - 1, p, target));
    match Lookup(rest, target)
    case None =>
    case Some(v) =>
      var r, p :| IsFirstKey(rest, r, p, target) && v == PairedValue(rest[r], 2 * p);
      assert IsKeyAt(t, r + 1, p, target);
      assert IsFirstKey(t, r + 1, p, target) by {
        forall r', p' | Before(r', p', r + 1, p) ensures !IsKeyAt(t, r', p', target) {
          if r' >= 1 {
            assert Before(r' - 1, p', r, p);
          }
        }
      }
  }

  /** At most one pair holds the first matching key, so `LookupSpec` has one answer. */
  lemma FirstKeyUnique(t: Table, target: string, r1: int, p1: int, r2: int, p2: int)
    requires IsFirstKey(t, r1, p1, target) && IsFirstKey(t, r2, p2, target)
    ensures r1 == r2 && p1 == p2
  {
  }

  /** `LookupSpec` pins the result down completely: any result meeting it is the lookup's. */
  lemma LookupSpecDeterminesResult(t: Table, target: string, res: Option<string>)
    requires LookupSpec(t, target, res)
    ensures res == Lookup(t, target)
  {
    LookupMeetsSpec(t, target);
    match res
    case None =>
    case Some(v) =>
      var r1, p1 :| IsFirstKey(t, r1, p1, target) && v == PairedValue(t[r1], 2 * p1);
      match Lookup(t, target)
      case None =>
      case Some(w) =>
        var r2, p2 :| IsFirstKey(t, r2, p2, target) && w == PairedValue(t[r2], 2 * p2);
        FirstKeyUnique(t, target, r1, p1, r2, p2);
  }

  /** A matching key that is the last cell of an odd-length row yields the empty
      string: the lookup succeeds with `""` rather than failing. */
  lemma TrailingKeyYieldsEmpty(t: Table, target: string, r: nat, p: nat)
    requires r < |t| && |t[r]| == 2 * p + 1
    requires IsFirstKey(t, r, p, target)
    ensures Lookup(t, target) == Some("")
  {
    LookupSpecDeterminesResult(t, target, Some(""));
  }

  /** Only key cells are compared with the target: two tables of the same shape whose
      key cells agree have a match in the same pair, whatever their value cells hold. */
  lemma ValueCellsNeverMatch(t: Table, t': Table, target: string)
    requires |t| == |t'|
    requires forall r :: 0 <= r < |t| ==> |t[r]| == |t'[r]|
    requires forall r, p :: 0 <= r < |t| && 0 <= p && 2 * p < |t[r]| ==> t[r][2 * p] == t'[r][2 * p]
    ensures Lookup(t, target).None? <==> Lookup(t', target).None?
  {
    LookupMeetsSpec(t, target);
    LookupMeetsSpec(t', target);
    assert forall r, p :: IsKeyAt(t, r, p, target) <==> IsKeyAt(t', r, p, target);
  }

  /** First match wins across rows: rows after a row that already matched are never
      consulted, and rows before any match can be dropped without changing the answer. */
  lemma {:induction false} LookupAppend(t: Table, u: Table, target: string)
    ensures Lookup(t, target).Some? ==> Lookup(t + u, target) == Lookup(t, target)
    ensures Lookup(t, target).None? ==> Lookup(t + u, target) == Lookup(u, target)
  {
    if |t| > 0 {
      assert (t + u)[0] == t[0];
      assert (t + u)[1..] == t[1..] + u;
      LookupAppend(t[1..], u, target);
    } else {
      assert t + u == u;
    }
  }

  // ---------------------------------------------------------------------------
  // The guarded extraction

  /** The three ways an extraction ends without a value; each prints its own diagnostic. */
  datatype ExtractFailure =
    | FetchFailed(status: int)  // the page answered with a status other than 200
    | TableMissing              // the page has no `snapshot-table2` table
    | LabelMissing              // no key cell carries the target

  /** Which exit of the extraction is taken: the status guard is checked first,
      then the presence of the table, then the scan. */
  function Classify(status: int, table: Option<Table>, target: string): (r: Result<string, ExtractFailure>)
    ensures r == Failure(FetchFailed(status)) <==> status != StatusOk
    ensures r == Failure(TableMissing) <==> status == StatusOk && table.None?
    ensures r == Failure(LabelMissing) <==> status == StatusOk && table.Some? && !HasKey(table.value, target)
    ensures r.Success? ==> status == StatusOk && table.Some? && LookupSpec(table.value, target, Some(r.value))
  {
    if status != StatusOk then Failure(FetchFailed(status))
    else if table.None? then Failure(TableMissing)
    else
      LookupMeetsSpec(table.value, target);
      match Lookup(table.value, target)
      case Some(v) => Success(v)
      case None => Failure(LabelMissing)
  }

  /** What each metric module returns: the value, or `None` on every failure. */
  ghost predicate ExtractSpec(status: int, table: Option<Table>, target: string, r: Option<string>) {
    if status != StatusOk || table.None? then r.None?
    else LookupSpec(table.value, target, r)
  }

  /** The body every metric module shares, parameterised by its target. */
  function Extract(status: int, table: Option<Table>, target: string): (r: Option<string>)
    ensures ExtractSpec(status, table, target, r)
  {
    if status != StatusOk then None
    else if table.None? then None
    else
      LookupMeetsSpec(table.value, target);
      Lookup(table.value, target)
  }

  /** The metric modules collapse the three failures into one `None`; nothing else is lost. */
  lemma ExtractForgetsFailureKind(status: int, table: Option<Table>, target: string)
    ensures Extract(status, table, target) == Classify(status, table, target).ToOption()
  {
  }
}
