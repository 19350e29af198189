/**
 * The association matrix: a partial one-to-one map between rows and
 * columns stored as two inverse index arrays, with constant-time
 * insertion-with-eviction (AssocMatrix.h / AssocMatrix.cpp).
 *
 * The pure part of the module describes an association as a value
 * (`Pairing`) and gives every operation as a function on it; the class
 * `AssocMatrix` holds the two arrays and the pair count and proves each
 * of its methods against those functions.
 */
module Assoc {

  datatype Option<T> = None | Some(value: T)

  /** The number of entries of `s` that hold an index, i.e. differ from -1. */
  function Assigned(s: seq<int>): (k: nat)
    ensures k <= |s|
  {
    if |s| == 0 then 0 else Assigned(s[..|s| - 1]) + (if s[|s| - 1] != -1 then 1 else 0)
  }

  /** `s` with entry `i` replaced by `v`; unchanged when `i` is not an index of `s`. */
  function Put(s: seq<int>, i: int, v: int): (t: seq<int>)
    ensures |t| == |s|
  {
    if 0 <= i < |s| then s[i := v] else s
  }

  /**
   * An association as a value. `colOfRow[r]` is the column held by row r
   * (the source's `colassign`), `rowOfCol[c]` the row holding column c (the
   * source's `rowassign`); -1 marks an unassigned row or column. `nnz` is the
   * recorded number of pairs.
   */
  datatype Pairing = Pairing(colOfRow: seq<int>, rowOfCol: seq<int>, nnz: int)

  function NRows(p: Pairing): nat { |p.colOfRow| }
  function NCols(p: Pairing): nat { |p.rowOfCol| }

  /** Bounds-checked lookup of the row holding column c (-1 when unassigned or out of range). */
  function LookupRow(p: Pairing, c: int): int
  {
    if 0 <= c < |p.rowOfCol| then p.rowOfCol[c] else -1
  }

  /** Bounds-checked lookup of the column held by row r (-1 when unassigned or out of range). */
  function LookupCol(p: Pairing, r: int): int
  {
    if 0 <= r < |p.colOfRow| then p.colOfRow[r] else -1
  }

  /**
   * The association invariant: every entry is -1 or an index of the other
   * side, row r holds column c exactly when column c is held by row r, and
   * `nnz` equals the number of assigned rows and the number of assigned
   * columns.
   */
  ghost predicate Consistent(p: Pairing)
  {
    && (forall r :: 0 <= r < |p.colOfRow| ==> -1 <= p.colOfRow[r] < |p.rowOfCol|)
    && (forall c :: 0 <= c < |p.rowOfCol| ==> -1 <= p.rowOfCol[c] < |p.colOfRow|)
    && (forall r, c :: 0 <= r < |p.colOfRow| && 0 <= c < |p.rowOfCol| ==> (p.colOfRow[r] == c <==> p.rowOfCol[c] == r))
    && p.nnz == Assigned(p.colOfRow)
    && p.nnz == Assigned(p.rowOfCol)
  }

  /** An n-by-m association with nothing assigned. */
  function Empty(n: nat, m: nat): Pairing
  {
    Pairing(seq(n, _ => -1), seq(m, _ => -1), 0)
  }

  /**
   * Removal of every pair that involves row r or column c, following the
   * five cases of clear_pair: (1) neither is assigned; (2) r and c hold each
   * other; (3) only r holds a column; (4) only c is held by a row; (5) both
   * hold different partners, and both stale pairs are cleared.
   */
  function Clear(p: Pairing, r: int, c: int): Pairing
  {
    var tmpRow := LookupRow(p, c);
    var tmpCol := LookupCol(p, r);
    if tmpRow == -1 && tmpCol == -1 then
      p
    else if tmpRow == r && tmpCol == c then
      Pairing(Put(p.colOfRow, r, -1), Put(p.rowOfCol, c, -1), p.nnz - 1)
    else if tmpRow == -1 then
      var oRow := LookupRow(p, tmpCol);
      Pairing(Put(p.colOfRow, oRow, -1), Put(p.rowOfCol, tmpCol, -1), p.nnz - 1)
    else if tmpCol == -1 then
      var oCol := LookupCol(p, tmpRow);
      Pairing(Put(p.colOfRow, tmpRow, -1), Put(p.rowOfCol, oCol, -1), p.nnz - 1)
    else
      Pairing(Put(Put(p.colOfRow, r, -1), tmpRow, -1),
              Put(Put(p.rowOfCol, c, -1), tmpCol, -1),
              p.nnz - 2)
  }

  /** The state after add(r, c): conflicting pairs cleared, then (r, c) installed; unchanged when out of range. */
  function AddPair(p: Pairing, r: int, c: int): Pairing
  {
    if 0 <= r < |p.colOfRow| && 0 <= c < |p.rowOfCol| then
      var q := Clear(p, r, c);
      Pairing(Put(q.colOfRow, r, c), Put(q.rowOfCol, c, r), q.nnz + 1)
    else
      p
  }

  /** The number of existing pairs that add(r, c) evicts: the pair of row r and the pair of column c. */
  function Evicted(p: Pairing, r: int, c: int): nat
  {
    (if LookupCol(p, r) != -1 then 1 else 0) +
    (if LookupRow(p, c) != -1 && LookupRow(p, c) != r then 1 else 0)
  }

  /** The association with rows and columns exchanged. */
  function Transposed(p: Pairing): Pairing
  {
    Pairing(p.rowOfCol, p.colOfRow, p.nnz)
  }

  /** The number of rows in [lo, hi) whose looked-up column lies in [sc, ec). */
  function BlockCount(p: Pairing, lo: int, hi: int, sc: int, ec: int): nat
    decreases hi - lo
  {
    if hi <= lo then 0
    else BlockCount(p, lo, hi - 1, sc, ec) + (if sc <= LookupCol(p, hi - 1) < ec then 1 else 0)
  }

  /** blockval: 0 for an inverted range, otherwise the count of rows in the row range whose column is in the column range. */
  function BlockValue(p: Pairing, sr: int, er: int, sc: int, ec: int): nat
  {
    if er < sr || ec < sc then 0 else BlockCount(p, sr, er, sc, ec)
  }

  // ------------------------------------------------------------------
  // Lemmas about the value model
  // ------------------------------------------------------------------

  lemma {:induction false} AssignedUpdate(s: seq<int>, i: int, v: int)
    requires 0 <= i < |s|
    ensures Assigned(s[i := v]) == Assigned(s) - (if s[i] != -1 then 1 else 0) + (if v != -1 then 1 else 0)
  {
    var n := |s|;
    if i == n - 1 {
      assert s[i := v][..n - 1] == s[..n - 1];
    } else {
      assert s[i := v][..n - 1] == s[..n - 1][i := v];
      AssignedUpdate(s[..n - 1], i, v);
    }
  }

  lemma {:induction false} AssignedNone(n: nat)
    ensures Assigned(seq(n, _ => -1)) == 0
  {
    if n > 0 {
      assert seq(n, _ => -1)[..n - 1] == seq(n - 1, _ => -1);
      AssignedNone(n - 1);
    }
  }

  /** A fresh association is consistent and empty. */
  lemma EmptyConsistent(n: nat, m: nat)
    ensures Consistent(Empty(n, m))
    ensures forall r :: LookupCol(Empty(n, m), r) == -1
    ensures forall c :: LookupRow(Empty(n, m), c) == -1
  {
    AssignedNone(n);
    AssignedNone(m);
  }

  /** A consistent association holds at most as many pairs as it has rows, and as it has columns. */
  lemma PairCountBounds(p: Pairing)
    requires Consistent(p)
    ensures 0 <= p.nnz <= NRows(p) && p.nnz <= NCols(p)
  {
  }

  /** Pointwise effect of clear_pair: row r, column c and their former partners become unassigned. */
  lemma ClearShape(p: Pairing, r: int, c: int)
    requires Consistent(p)
    requires 0 <= r < NRows(p) && 0 <= c < NCols(p)
    ensures var q := Clear(p, r, c);
      && NRows(q) == NRows(p) && NCols(q) == NCols(p)
      && (forall r' :: 0 <= r' < NRows(p) ==>
            q.colOfRow[r'] == (if r' == r || p.colOfRow[r'] == c then -1 else p.colOfRow[r']))
      && (forall c' :: 0 <= c' < NCols(p) ==>
            q.rowOfCol[c'] == (if c' == c || p.rowOfCol[c'] == r then -1 else p.rowOfCol[c']))
  {
  }

  /** clear_pair lowers the count by the number of pairs it evicts, and the count stays exact. */
  lemma ClearCount(p: Pairing, r: int, c: int)
    requires Consistent(p)
    requires 0 <= r < NRows(p) && 0 <= c < NCols(p)
    ensures var q := Clear(p, r, c);
      && q.nnz == p.nnz - Evicted(p, r, c)
      && q.nnz == Assigned(q.colOfRow) && q.nnz == Assigned(q.rowOfCol)
  {
    var tmpRow := LookupRow(p, c);
    var tmpCol := LookupCol(p, r);
    if tmpRow == -1 && tmpCol == -1 {
    } else if tmpRow == r && tmpCol == c {
      AssignedUpdate(p.colOfRow, r, -1);
      AssignedUpdate(p.rowOfCol, c, -1);
    } else if tmpRow == -1 {
      assert LookupRow(p, tmpCol) == r;
      AssignedUpdate(p.colOfRow, r, -1);
      AssignedUpdate(p.rowOfCol, tmpCol, -1);
    } else if tmpCol == -1 {
      assert LookupCol(p, tmpRow) == c;
      AssignedUpdate(p.colOfRow, tmpRow, -1);
      AssignedUpdate(p.rowOfCol, c, -1);
    } else {
      var cs := Put(p.colOfRow, r, -1);
      var rs := Put(p.rowOfCol, c, -1);
      AssignedUpdate(p.colOfRow, r, -1);
      AssignedUpdate(cs, tmpRow, -1);
      AssignedUpdate(p.rowOfCol, c, -1);
      AssignedUpdate(rs, tmpCol, -1);
    }
  }

  /**
   * clear_pair: afterwards neither row r nor column c is assigned, the count
   * drops by the number of evicted pairs (0, 1 or 2), every other pair is kept
   * and the invariant still holds.
   */
  lemma ClearCorrect(p: Pairing, r: int, c: int)
    requires Consistent(p)
    requires 0 <= r < NRows(p) && 0 <= c < NCols(p)
    ensures var q := Clear(p, r, c);
      && Consistent(q)
      && NRows(q) == NRows(p) && NCols(q) == NCols(p)
      && LookupCol(q, r) == -1 && LookupRow(q, c) == -1
      && q.nnz == p.nnz - Evicted(p, r, c)
      && (forall r' :: r' != r ==> LookupCol(q, r') == (if LookupCol(p, r') == c then -1 else LookupCol(p, r')))
      && (forall c' :: c' != c ==> LookupRow(q, c') == (if LookupRow(p, c') == r then -1 else LookupRow(p, c')))
  {
    ClearShape(p, r, c);
    ClearCount(p, r, c);
    ClearConsistent(p, r, c);
  }

  /** clear_pair keeps the two arrays mirroring each other. */
  lemma ClearConsistent(p: Pairing, r: int, c: int)
    requires Consistent(p)
    requires 0 <= r < NRows(p) && 0 <= c < NCols(p)
    ensures Consistent(Clear(p, r, c))
  {
    ClearShape(p, r, c);
    ClearCount(p, r, c);
    var q := Clear(p, r, c);
    forall r' | 0 <= r' < |q.colOfRow| && q.colOfRow[r'] != -1
      ensures q.rowOfCol[q.colOfRow[r']] == r'
    {
      var c' := p.colOfRow[r'];
      assert q.colOfRow[r'] == c' && c' != c && p.rowOfCol[c'] == r';
    }
    forall c' | 0 <= c' < |q.rowOfCol| && q.rowOfCol[c'] != -1
      ensures q.colOfRow[q.rowOfCol[c']] == c'
    {
      var r' := p.rowOfCol[c'];
      assert q.rowOfCol[c'] == r' && r' != r && p.colOfRow[r'] == c';
    }
  }

  /** clear_pair on a pair that holds each other removes exactly that pair. */
  lemma ClearPaired(q: Pairing, r: int, c: int)
    requires LookupCol(q, r) == c && LookupRow(q, c) == r && r != -1
    ensures Clear(q, r, c) == Pairing(Put(q.colOfRow, r, -1), Put(q.rowOfCol, c, -1), q.nnz - 1)
  {
  }

  /** Unpairs column c from its row; clear_pair(row(c), c) on a held column does exactly this. */
  function Unpair(q: Pairing, c: int): Pairing
  {
    var r := LookupRow(q, c);
    if r < 0 then q else Pairing(Put(q.colOfRow, r, -1), Put(q.rowOfCol, c, -1), q.nnz - 1)
  }

  /** On a consistent association, clear_pair(row(c), c) of a held column c is Unpair. */
  lemma UnpairIsClear(q: Pairing, c: int)
    requires Consistent(q) && 0 <= c < NCols(q) && LookupRow(q, c) >= 0
    ensures Unpair(q, c) == Clear(q, LookupRow(q, c), c)
  {
    assert LookupCol(q, LookupRow(q, c)) == c;
  }

  /** Unpairing keeps an association consistent. */
  lemma UnpairConsistent(q: Pairing, c: int)
    requires Consistent(q) && 0 <= c < NCols(q)
    ensures Consistent(Unpair(q, c)) && NRows(Unpair(q, c)) == NRows(q) && NCols(Unpair(q, c)) == NCols(q)
  {
    if LookupRow(q, c) >= 0 {
      UnpairIsClear(q, c);
      ClearCorrect(q, LookupRow(q, c), c);
    }
  }

  /** Unpairing an assigned column frees it and its row, lowers the count by one and changes nothing else. */
  lemma UnpairEffect(q: Pairing, c: int)
    requires Consistent(q) && 0 <= c < NCols(q) && LookupRow(q, c) >= 0
    ensures var u := Unpair(q, c);
      && Consistent(u) && NRows(u) == NRows(q) && NCols(u) == NCols(q) && u.nnz == q.nnz - 1
      && (forall c' :: LookupRow(u, c') == if c' == c then -1 else LookupRow(q, c'))
      && (forall r :: LookupCol(u, r) == if LookupCol(q, r) == c then -1 else LookupCol(q, r))
  {
    var r := LookupRow(q, c);
    var u := Unpair(q, c);
    UnpairIsClear(q, c);
    ClearCorrect(q, r, c);
    forall c' | c' != c
      ensures LookupRow(u, c') == LookupRow(q, c')
    {
      if 0 <= c' < NCols(q) {
        assert LookupRow(q, c') != r;
      }
    }
  }

  /**
   * A second definition of clear_pair: first unpair the column row r holds,
   * then unpair column c from whatever row still holds it.
   */
  function ClearByUnpair(p: Pairing, r: int, c: int): Pairing
  {
    var tmpCol := LookupCol(p, r);
    var q := if tmpCol >= 0 then Unpair(p, tmpCol) else p;
    Unpair(q, c)
  }

  /** The five cases of clear_pair amount to unpairing row r's column and then column c. */
  lemma ClearByUnpairIsClear(p: Pairing, r: int, c: int)
    requires Consistent(p)
    requires 0 <= r < NRows(p) && 0 <= c < NCols(p)
    ensures ClearByUnpair(p, r, c) == Clear(p, r, c)
  {
    var tmpRow := LookupRow(p, c);
    var tmpCol := LookupCol(p, r);
    if tmpCol >= 0 {
      assert LookupRow(p, tmpCol) == r;
      if tmpCol != c && tmpRow >= 0 {
        var q := Unpair(p, tmpCol);
        assert LookupRow(q, c) == tmpRow;
        assert Put(Put(p.rowOfCol, tmpCol, -1), c, -1) == Put(Put(p.rowOfCol, c, -1), tmpCol, -1);
      }
    } else if tmpRow >= 0 {
      assert LookupCol(p, tmpRow) == c;
    }
  }

  /** Pointwise effect of add(r, c): r holds c, the former partners of r and c become unassigned. */
  lemma AddShape(p: Pairing, r: int, c: int)
    requires Consistent(p)
    requires 0 <= r < NRows(p) && 0 <= c < NCols(p)
    ensures var q := AddPair(p, r, c);
      && NRows(q) == NRows(p) && NCols(q) == NCols(p)
      && (forall r' :: 0 <= r' < NRows(p) ==>
            q.colOfRow[r'] == (if r' == r then c else if p.colOfRow[r'] == c then -1 else p.colOfRow[r']))
      && (forall c' :: 0 <= c' < NCols(p) ==>
            q.rowOfCol[c'] == (if c' == c then r else if p.rowOfCol[c'] == r then -1 else p.rowOfCol[c']))
  {
    ClearShape(p, r, c);
  }

  /** add(r, c) changes the count by one minus the number of evicted pairs, and the count stays exact. */
  lemma AddCount(p: Pairing, r: int, c: int)
    requires Consistent(p)
    requires 0 <= r < NRows(p) && 0 <= c < NCols(p)
    ensures var q := AddPair(p, r, c);
      && q.nnz == p.nnz + 1 - Evicted(p, r, c)
      && q.nnz == Assigned(q.colOfRow) && q.nnz == Assigned(q.rowOfCol)
  {
    ClearShape(p, r, c);
    ClearCount(p, r, c);
    var m := Clear(p, r, c);
    AssignedUpdate(m.colOfRow, r, c);
    AssignedUpdate(m.rowOfCol, c, r);
  }

  /**
   * add(r, c) with valid indices: afterwards r holds c and c is held by r,
   * the invariant holds, the count changes by one minus the number of
   * evicted pairs, and every pair not involving r or c is untouched (the
   * former partners of r and c become unassigned).
   */
  lemma AddCorrect(p: Pairing, r: int, c: int)
    requires Consistent(p)
    requires 0 <= r < NRows(p) && 0 <= c < NCols(p)
    ensures var q := AddPair(p, r, c);
      && Consistent(q)
      && NRows(q) == NRows(p) && NCols(q) == NCols(p)
      && LookupCol(q, r) == c && LookupRow(q, c) == r
      && q.nnz == p.nnz + 1 - Evicted(p, r, c)
      && (forall r' :: r' != r ==> LookupCol(q, r') == (if LookupCol(p, r') == c then -1 else LookupCol(p, r')))
      && (forall c' :: c' != c ==> LookupRow(q, c') == (if LookupRow(p, c') == r then -1 else LookupRow(p, c')))
  {
    AddShape(p, r, c);
    AddCount(p, r, c);
    AddConsistent(p, r, c);
  }

  /** add keeps the two arrays mirroring each other. */
  lemma AddConsistent(p: Pairing, r: int, c: int)
    requires Consistent(p)
    requires 0 <= r < NRows(p) && 0 <= c < NCols(p)
    ensures Consistent(AddPair(p, r, c))
  {
    AddShape(p, r, c);
    AddCount(p, r, c);
    var q := AddPair(p, r, c);
    forall r' | 0 <= r' < NRows(q) && q.colOfRow[r'] != -1
      ensures 0 <= q.colOfRow[r'] < NCols(q) && q.rowOfCol[q.colOfRow[r']] == r'
    {
      if r' != r {
        var c' := p.colOfRow[r'];
        assert q.colOfRow[r'] == c' && c' != c && p.rowOfCol[c'] == r';
      }
    }
    forall c' | 0 <= c' < NCols(q) && q.rowOfCol[c'] != -1
      ensures 0 <= q.rowOfCol[c'] < NRows(q) && q.colOfRow[q.rowOfCol[c']] == c'
    {
      if c' != c {
        var r' := p.rowOfCol[c'];
        assert q.rowOfCol[c'] == r' && r' != r && p.colOfRow[r'] == c';
      }
    }
  }

  /** add with an index out of range changes nothing. */
  lemma AddOutOfRange(p: Pairing, r: int, c: int)
    requires !(0 <= r < NRows(p) && 0 <= c < NCols(p))
    ensures AddPair(p, r, c) == p
  {
  }

  /** Adding the same pair twice is the same as adding it once. */
  lemma AddIdempotent(p: Pairing, r: int, c: int)
    requires Consistent(p)
    ensures AddPair(AddPair(p, r, c), r, c) == AddPair(p, r, c)
  {
    if 0 <= r < NRows(p) && 0 <= c < NCols(p) {
      AddShape(p, r, c);
      var q := AddPair(p, r, c);
      assert LookupCol(q, r) == c && LookupRow(q, c) == r;
      ClearPaired(q, r, c);
      assert Put(Put(q.colOfRow, r, -1), r, c) == q.colOfRow;
      assert Put(Put(q.rowOfCol, c, -1), c, r) == q.rowOfCol;
    }
  }

  /** Transposition keeps the invariant and is an involution. */
  lemma TransposedConsistent(p: Pairing)
    requires Consistent(p)
    ensures Consistent(Transposed(p))
    ensures Transposed(Transposed(p)) == p
    ensures forall r :: LookupRow(Transposed(p), r) == LookupCol(p, r)
  {
  }

  /** Under the invariant, val(r, c) is 1 exactly for the pairs present, plus the sentinel query val(-1, -1). */
  lemma ValMeaning(p: Pairing, r: int, c: int)
    requires Consistent(p)
    ensures (LookupRow(p, c) == r && LookupCol(p, r) == c) <==>
            ((0 <= r < NRows(p) && 0 <= c < NCols(p) && p.colOfRow[r] == c) || (r == -1 && c == -1))
  {
  }

  /** blockval never exceeds the length of its row range. */
  lemma {:induction false} BlockCountBound(p: Pairing, lo: int, hi: int, sc: int, ec: int)
    ensures BlockCount(p, lo, hi, sc, ec) <= if hi <= lo then 0 else hi - lo
    decreases hi - lo
  {
    if hi > lo {
      BlockCountBound(p, lo, hi - 1, sc, ec);
    }
  }

  /** The block covering all rows and all columns counts exactly the pairs of a consistent association. */
  lemma FullBlockCountsPairs(p: Pairing)
    requires Consistent(p)
    ensures BlockCount(p, 0, NRows(p), 0, NCols(p)) == p.nnz
  {
    FullBlockPrefix(p, NRows(p));
    assert p.colOfRow[..NRows(p)] == p.colOfRow;
  }

  lemma {:induction false} FullBlockPrefix(p: Pairing, k: nat)
    requires Consistent(p) && k <= NRows(p)
    ensures BlockCount(p, 0, k, 0, NCols(p)) == Assigned(p.colOfRow[..k])
  {
    if k > 0 {
      FullBlockPrefix(p, k - 1);
      assert p.colOfRow[..k][..k - 1] == p.colOfRow[..k - 1];
    }
  }

  // ------------------------------------------------------------------
  // clear_pair as written (case 5 uses the wrong indices)
  // ------------------------------------------------------------------

  /**
   * clear_pair exactly as AssocMatrix.cpp writes it. Cases 1 to 4 agree with
   * `Clear`; case 5 clears rowassign[in_row], colassign[in_col],
   * rowassign[tmp_row] and colassign[tmp_col], indexing each array with an
   * index of the other side. None stands for a write outside an array.
   */
  function ClearAsWritten(p: Pairing, r: int, c: int): Option<Pairing>
  {
    var tmpRow := LookupRow(p, c);
    var tmpCol := LookupCol(p, r);
    if (tmpRow == -1 && tmpCol == -1) || (tmpRow == r && tmpCol == c) || tmpRow == -1 || tmpCol == -1 then
      Some(Clear(p, r, c))
    else if 0 <= r < NCols(p) && 0 <= c < NRows(p) && 0 <= tmpRow < NCols(p) && 0 <= tmpCol < NRows(p) then
      Some(Pairing(Put(Put(p.colOfRow, c, -1), tmpCol, -1),
                   Put(Put(p.rowOfCol, r, -1), tmpRow, -1),
                   p.nnz - 2))
    else
      None
  }

  /** add as written: the literal clear_pair followed by the installation of (r, c). */
  function AddAsWritten(p: Pairing, r: int, c: int): Option<Pairing>
  {
    if 0 <= r < NRows(p) && 0 <= c < NCols(p) then
      match ClearAsWritten(p, r, c)
      case None => None
      case Some(q) => Some(Pairing(Put(q.colOfRow, r, c), Put(q.rowOfCol, c, r), q.nnz + 1))
    else
      Some(p)
  }

  /**
   * The literal clear_pair differs from `Clear` only in case 5, where both r
   * and c hold other partners. So an add from a row that holds nothing, as
   * every add the auction makes is, behaves as written.
   */
  lemma AsWrittenAgrees(p: Pairing, r: int, c: int)
    ensures LookupCol(p, r) == -1 || LookupRow(p, c) == -1 || (LookupRow(p, c) == r && LookupCol(p, r) == c)
      ==> ClearAsWritten(p, r, c) == Some(Clear(p, r, c))
    ensures LookupCol(p, r) == -1 ==> AddAsWritten(p, r, c) == Some(AddPair(p, r, c))
  {
    if LookupCol(p, r) == -1 && 0 <= r < NRows(p) && 0 <= c < NCols(p) {
      assert ClearAsWritten(p, r, c) == Some(Clear(p, r, c));
    }
  }

  /** The 3-by-3 association holding (0,1) and (2,0) is consistent. */
  lemma SampleConsistent()
    ensures Consistent(Pairing([1, -1, 0], [2, 0, -1], 2))
  {
    var p := Pairing([1, -1, 0], [2, 0, -1], 2);
    assert Assigned(p.colOfRow) == 2 by {
      assert p.colOfRow[..2] == [1, -1];
      assert p.colOfRow[..2][..1] == [1];
      assert [1][..0] == [];
    }
    assert Assigned(p.rowOfCol) == 2 by {
      assert p.rowOfCol[..2] == [2, 0];
      assert p.rowOfCol[..2][..1] == [2];
      assert [2][..0] == [];
    }
  }

  /** The literal add(0,0) on the sample association. */
  lemma SampleAddAsWritten()
    ensures AddAsWritten(Pairing([1, -1, 0], [2, 0, -1], 2), 0, 0) == Some(Pairing([0, -1, 0], [0, 0, -1], 1))
  {
    var p := Pairing([1, -1, 0], [2, 0, -1], 2);
    assert LookupRow(p, 0) == 2 && LookupCol(p, 0) == 1;
    assert Put(Put(p.colOfRow, 0, -1), 1, -1) == [-1, -1, 0];
    assert Put(Put(p.rowOfCol, 0, -1), 2, -1) == [-1, 0, -1];
    assert ClearAsWritten(p, 0, 0) == Some(Pairing([-1, -1, 0], [-1, 0, -1], 0));
    assert Put([-1, -1, 0], 0, 0) == [0, -1, 0] && Put([-1, 0, -1], 0, 0) == [0, 0, -1];
  }

  /** The corrected add(0,0) on the sample association. */
  lemma SampleAdd()
    ensures AddPair(Pairing([1, -1, 0], [2, 0, -1], 2), 0, 0) == Pairing([0, -1, -1], [0, -1, -1], 1)
  {
    var p := Pairing([1, -1, 0], [2, 0, -1], 2);
    assert LookupRow(p, 0) == 2 && LookupCol(p, 0) == 1;
    assert Put(Put(p.colOfRow, 0, -1), 2, -1) == [-1, -1, -1];
    assert Put(Put(p.rowOfCol, 0, -1), 1, -1) == [-1, -1, -1];
    assert Clear(p, 0, 0) == Pairing([-1, -1, -1], [-1, -1, -1], 0);
    assert Put([-1, -1, -1], 0, 0) == [0, -1, -1];
  }

  /**
   * On a 3-by-3 association holding (0,1) and (2,0), the literal add(0,0)
   * leaves row 2 claiming column 0 while column 0 is held by row 0, so the
   * inverse invariant breaks; the corrected add keeps it.
   */
  lemma AddAsWrittenBreaksInverse()
    ensures var p := Pairing([1, -1, 0], [2, 0, -1], 2);
      && Consistent(p)
      && AddAsWritten(p, 0, 0) == Some(Pairing([0, -1, 0], [0, 0, -1], 1))
      && !Consistent(AddAsWritten(p, 0, 0).value)
      && Consistent(AddPair(p, 0, 0))
      && AddPair(p, 0, 0) == Pairing([0, -1, -1], [0, -1, -1], 1)
  {
    var p := Pairing([1, -1, 0], [2, 0, -1], 2);
    SampleConsistent();
    SampleAddAsWritten();
    SampleAdd();
    var bad := Pairing([0, -1, 0], [0, 0, -1], 1);
    assert bad.colOfRow[2] == 0 && bad.rowOfCol[0] != 2;
    AddCorrect(p, 0, 0);
  }

  /**
   * With 3 rows and 2 columns holding (2,0) and (1,1), the literal add(2,1)
   * writes rowassign[2], outside the 2-entry column array.
   */
  lemma AddAsWrittenOutOfBounds()
    ensures var p := Pairing([-1, 1, 0], [2, 1], 2);
      && AddAsWritten(p, 2, 1) == None
      && AddPair(p, 2, 1) == Pairing([-1, -1, 1], [-1, 2], 1)
  {
  }

  // ------------------------------------------------------------------
  // The association matrix object
  // ------------------------------------------------------------------

  class AssocMatrix {
    var nrows: int
    var ncols: int
    var nnz: int
    /** Indexed by column: the row holding that column, or -1. */
    var rowassign: array<int>
    /** Indexed by row: the column that row holds, or -1. */
    var colassign: array<int>

    ghost function Model(): Pairing
      reads this, rowassign, colassign
    {
      Pairing(colassign[..], rowassign[..], nnz)
    }

    ghost predicate Valid()
      reads this, rowassign, colassign
    {
      && rowassign != colassign
      && colassign.Length == nrows
      && rowassign.Length == ncols
      && Consistent(Model())
    }

    /** AssocMatrix(N, M): every row and column unassigned, no pairs. */
    constructor (n: nat, m: nat)
      ensures Valid() && fresh(rowassign) && fresh(colassign)
      ensures nrows == n && ncols == m
      ensures Model() == Empty(n, m)
    {
      nrows, ncols, nnz := n, m, 0;
      rowassign := new int[m](_ => -1);
      colassign := new int[n](_ => -1);
      new;
      assert rowassign[..] == seq(m, _ => -1);
      assert colassign[..] == seq(n, _ => -1);
      EmptyConsistent(n, m);
    }

    /** AssocMatrix(N): the square case. */
    constructor Square(n: nat)
      ensures Valid() && fresh(rowassign) && fresh(colassign)
      ensures nrows == n && ncols == n
      ensures Model() == Empty(n, n)
    {
      nrows, ncols, nnz := n, n, 0;
      rowassign := new int[n](_ => -1);
      colassign := new int[n](_ => -1);
      new;
      assert rowassign[..] == seq(n, _ => -1);
      assert colassign[..] == seq(n, _ => -1);
      EmptyConsistent(n, n);
    }

    /**
     * nassoc(): the number of associated pairs, which Consistent ties to the
     * number of assigned rows and of assigned columns.
     */
    function NAssoc(): (k: int)
      reads this, rowassign, colassign
      requires Valid()
      ensures k == Model().nnz
      ensures 0 <= k <= nrows && k <= ncols
    {
      PairCountBounds(Model());
      nnz
    }

    /** row(c): the row holding column c, -1 when c is unassigned or out of range. */
    function Row(c: int): (r: int)
      reads this, rowassign, colassign
      requires Valid()
      ensures r == LookupRow(Model(), c)
      ensures !(0 <= c < ncols) ==> r == -1
      ensures r == -1 || (0 <= r < nrows && colassign[r] == c)
    {
      if 0 <= c < ncols then rowassign[c] else -1
    }

    /** col(r): the column held by row r, -1 when r is unassigned or out of range. */
    function Col(r: int): (c: int)
      reads this, rowassign, colassign
      requires Valid()
      ensures c == LookupCol(Model(), r)
      ensures !(0 <= r < nrows) ==> c == -1
      ensures c == -1 || (0 <= c < ncols && rowassign[c] == r)
    {
      if 0 <= r < nrows then colassign[r] else -1
    }

    /** val(r, c): 1 when r and c hold each other, 0 otherwise. */
    function Val(r: int, c: int): (v: int)
      reads this, rowassign, colassign
      requires Valid()
      ensures v == 0 || v == 1
      ensures v == 1 <==> ((0 <= r < nrows && 0 <= c < ncols && colassign[r] == c) || (r == -1 && c == -1))
    {
      ValMeaning(Model(), r, c);
      if Row(c) == r && Col(r) == c then 1 else 0
    }

    /** get_columns: copies the column of every row into `out`. */
    method GetColumns(out: array<int>)
      requires Valid() && out.Length >= nrows
      requires out != rowassign && out != colassign
      modifies out
      ensures out[..nrows] == colassign[..]
      ensures out[nrows..] == old(out[nrows..])
    {
      forall i | 0 <= i < nrows {
        out[i] := colassign[i];
      }
    }

    /** get_rows: copies the row of every column into `out`. */
    method GetRows(out: array<int>)
      requires Valid() && out.Length >= ncols
      requires out != rowassign && out != colassign
      modifies out
      ensures out[..ncols] == rowassign[..]
      ensures out[ncols..] == old(out[ncols..])
    {
      forall i | 0 <= i < ncols {
        out[i] := rowassign[i];
      }
    }

    /**
     * The two writes and the count decrement with which clear_pair removes
     * one pair: column c and the row holding it both become unassigned.
     */
    method Unassign(c: int)
      requires Valid() && 0 <= c < ncols && rowassign[c] != -1
      modifies this`nnz, rowassign, colassign
      ensures Valid()
      ensures Model() == Unpair(old(Model()), c)
    {
      ghost var p := Model();
      UnpairConsistent(p, c);
      var row := rowassign[c];
      rowassign[c] := -1;
      colassign[row] := -1;
      nnz := nnz - 1;
      assert colassign[..] == Put(p.colOfRow, row, -1) && rowassign[..] == Put(p.rowOfCol, c, -1);
    }

    /** clear_pair: removes every pair involving row r or column c in constant time. */
    method ClearPair(r: int, c: int)
      requires Valid() && 0 <= r < nrows && 0 <= c < ncols
      modifies this`nnz, rowassign, colassign
      ensures Valid()
      ensures Model() == Clear(old(Model()), r, c)
    {
      ghost var p := Model();
      ClearByUnpairIsClear(p, r, c);
      var tmpRow := rowassign[c];
      var tmpCol := colassign[r];
      if tmpRow == -1 && tmpCol == -1 {
        // case 1: nothing to clear
      } else if tmpRow == r && tmpCol == c {
        // case 2: exactly this pair
        Unassign(c);
      } else if tmpRow == -1 && tmpCol != -1 {
        // case 3: the row holds another column
        Unassign(tmpCol);
      } else if tmpRow != -1 && tmpCol == -1 {
        // case 4: the column is held by another row
        Unassign(c);
      } else {
        // case 5, corrected: both hold other partners; both stale pairs go
        // (the source clears these entries at crossed indices)
        Unassign(tmpCol);
        Unassign(c);
      }
    }

    /** add(r, c): 0 and the pair installed for valid indices, -1 and no change otherwise. */
    method Add(r: int, c: int) returns (flag: int)
      requires Valid()
      modifies this`nnz, rowassign, colassign
      ensures Valid()
      ensures flag == (if 0 <= r < nrows && 0 <= c < ncols then 0 else -1)
      ensures Model() == AddPair(old(Model()), r, c)
    {
      if 0 <= r < nrows && 0 <= c < ncols {
        ClearPair(r, c);
        colassign[r] := c;
        rowassign[c] := r;
        nnz := nnz + 1;
        flag := 0;
        AddCorrect(old(Model()), r, c);
      } else {
        flag := -1;
      }
    }

    /** blockval: the number of rows of [startRow, endRow) whose col() lies in [startCol, endCol); with startCol <= -1 an unassigned row counts too. */
    method BlockVal(startRow: int, endRow: int, startCol: int, endCol: int) returns (v: int)
      requires Valid()
      ensures v == BlockValue(Model(), startRow, endRow, startCol, endCol)
      ensures 0 <= v && (startRow <= endRow ==> v <= endRow - startRow)
    {
      v := 0;
      if endRow < startRow || endCol < startCol {
        return;
      }
      var i := startRow;
      while i < endRow
        invariant startRow <= i <= endRow
        invariant v == BlockCount(Model(), startRow, i, startCol, endCol)
      {
        var c := Col(i);
        v := v + if startCol <= c < endCol then 1 else 0;
        i := i + 1;
      }
      BlockCountBound(Model(), startRow, endRow, startCol, endCol);
    }

    /** transpose: exchanges the dimensions and the two arrays without copying. */
    method Transpose()
      requires Valid()
      modifies this`nrows, this`ncols, this`rowassign, this`colassign
      ensures Valid()
      ensures rowassign == old(colassign) && colassign == old(rowassign)
      ensures nrows == old(ncols) && ncols == old(nrows)
      ensures Model() == Transposed(old(Model()))
    {
      nrows, ncols := ncols, nrows;
      rowassign, colassign := colassign, rowassign;
    }

    /** blank: every row and column unassigned, no pairs. */
    method Blank()
      requires Valid()
      modifies this`nnz, rowassign, colassign
      ensures Valid()
      ensures Model() == Empty(nrows, ncols)
    {
      var j := 0;
      while j < ncols
        invariant 0 <= j <= ncols
        invariant forall k :: 0 <= k < j ==> rowassign[k] == -1
        invariant colassign[..] == old(colassign[..])
      {
        rowassign[j] := -1;
        j := j + 1;
      }
      j := 0;
      while j < nrows
        invariant 0 <= j <= nrows
        invariant forall k :: 0 <= k < j ==> colassign[k] == -1
        invariant forall k :: 0 <= k < ncols ==> rowassign[k] == -1
      {
        colassign[j] := -1;
        j := j + 1;
      }
      nnz := 0;
      assert rowassign[..] == seq(ncols, _ => -1);
      assert colassign[..] == seq(nrows, _ => -1);
      EmptyConsistent(nrows, ncols);
    }
  }
}
