/**
 * The auction's internal payoff (AuctAlg.cpp): the compressed payoff,
 * transposed by ctransp when the problem is reoriented, with every value
 * multiplied by min(N, M) + 1 so that an epsilon of 1 is fine enough.
 */
module InternalMatrix {
  import opened Payoff

  /** The entries of one row that lie in column c, as entries (r, value) of a transposed row. */
  function Hits(row: seq<Entry>, c: int, r: int): (h: seq<Entry>)
    ensures forall k :: 0 <= k < |h| ==> h[k].col == r
  {
    if |row| == 0 then []
    else Hits(row[..|row| - 1], c, r) + (if row[|row| - 1].col == c then [Entry(r, row[|row| - 1].val)] else [])
  }

  /** Column c of rows [0, k): for each row in turn, its entries in column c. */
  function ColumnOf(a: seq<seq<Entry>>, c: int, k: nat): (col: seq<Entry>)
    requires k <= |a|
    ensures forall i :: 0 <= i < |col| ==> 0 <= col[i].col < k
    decreases k
  {
    if k == 0 then []
    else ColumnOf(a, c, k - 1) + Hits(a[k - 1], c, k - 1)
  }

  /** ctransp: the m columns of a compressed matrix as the rows of its transpose. */
  function TransposeRows(a: seq<seq<Entry>>, m: nat): (t: seq<seq<Entry>>)
    ensures |t| == m
  {
    seq(m, c requires 0 <= c < m => ColumnOf(a, c, |a|))
  }

  /**
   * The entries of one row that ctransp's cursor reaches: it sweeps the
   * columns upwards and takes an entry only when its column is the one
   * being swept, so it keeps the longest prefix whose columns strictly
   * increase from above `last` and stay below m, and drops the rest of
   * the row at the first entry that breaks that.
   */
  function Swept(row: seq<Entry>, m: int, last: int): (p: seq<Entry>)
    ensures |p| <= |row| && p == row[..|p|]
    ensures forall k :: 0 <= k < |p| ==> last < p[k].col < m
    ensures Increasing(p)
    decreases |row|
  {
    if |row| == 0 || !(last < row[0].col < m) then []
    else [row[0]] + Swept(row[1..], m, row[0].col)
  }

  /** Every row cut to what ctransp's cursor reaches. */
  function SweptRows(a: seq<seq<Entry>>, m: int): (b: seq<seq<Entry>>)
    ensures |b| == |a|
  {
    seq(|a|, r requires 0 <= r < |a| => Swept(a[r], m, -1))
  }

  /** ctransp: the transpose of what the cursors reach. */
  function CTransp(a: seq<seq<Entry>>, m: nat): (t: seq<seq<Entry>>)
    ensures |t| == m
  {
    TransposeRows(SweptRows(a, m), m)
  }

  /** mtl::scale: every stored value multiplied by f. */
  function Scaled(a: seq<seq<Entry>>, f: int): (b: seq<seq<Entry>>)
    ensures |b| == |a|
  {
    seq(|a|, r requires 0 <= r < |a| => seq(|a[r]|, k requires 0 <= k < |a[r]| => Entry(a[r][k].col, a[r][k].val * f)))
  }

  /** The columns of a row strictly increase. */
  predicate Increasing(row: seq<Entry>)
  {
    forall i, j :: 0 <= i < j < |row| ==> row[i].col < row[j].col
  }

  /** Row r of a holds value v in column c. */
  ghost predicate Holds(a: seq<seq<Entry>>, r: int, c: int, v: int)
  {
    0 <= r < |a| && exists k :: 0 <= k < |a[r]| && a[r][k] == Entry(c, v)
  }

  // ------------------------------------------------------------------
  // Properties
  // ------------------------------------------------------------------

  /** Hits holds exactly the entries of the row in column c. */
  lemma {:induction false} HitsMembers(row: seq<Entry>, c: int, r: int, v: int)
    ensures Entry(r, v) in Hits(row, c, r) <==> Entry(c, v) in row
  {
    if |row| > 0 {
      HitsMembers(row[..|row| - 1], c, r, v);
      assert row == row[..|row| - 1] + [row[|row| - 1]];
    }
  }

  /** In a row whose columns strictly increase, at most one entry lies in column c. */
  lemma {:induction false} HitsAtMostOne(row: seq<Entry>, c: int, r: int)
    requires Increasing(row)
    ensures |Hits(row, c, r)| <= 1
    ensures |Hits(row, c, r)| == 1 ==> exists k :: 0 <= k < |row| && row[k].col == c
  {
    if |row| > 0 {
      var init := row[..|row| - 1];
      HitsAtMostOne(init, c, r);
    }
  }

  /** Column c of the first k rows holds exactly the (row, value) pairs of those rows in column c. */
  lemma {:induction false} ColumnOfMembers(a: seq<seq<Entry>>, c: int, k: nat, r: int, v: int)
    requires k <= |a|
    ensures Entry(r, v) in ColumnOf(a, c, k) <==> 0 <= r < k && Entry(c, v) in a[r]
    decreases k
  {
    if k > 0 {
      ColumnOfMembers(a, c, k - 1, r, v);
      HitsMembers(a[k - 1], c, k - 1, v);
      var h := Hits(a[k - 1], c, k - 1);
      if Entry(r, v) in h {
        assert r == k - 1 by {
          var i :| 0 <= i < |h| && h[i] == Entry(r, v);
        }
      }
    }
  }

  /** With strictly increasing columns in every row, each transposed row is strictly increasing too. */
  lemma {:induction false} ColumnOfSorted(a: seq<seq<Entry>>, c: int, k: nat)
    requires k <= |a| && RowsSorted(a)
    ensures Increasing(ColumnOf(a, c, k))
    decreases k
  {
    if k > 0 {
      ColumnOfSorted(a, c, k - 1);
      assert Increasing(a[k - 1]);
      HitsAtMostOne(a[k - 1], c, k - 1);
      var before, h := ColumnOf(a, c, k - 1), Hits(a[k - 1], c, k - 1);
      var col := before + h;
      forall i, j | 0 <= i < j < |col|
        ensures col[i].col < col[j].col
      {
        if j < |before| {
          assert col[i] == before[i] && col[j] == before[j];
          assert before[i].col < before[j].col;
        } else {
          assert j == |before| && col[j] == h[0] && col[i] == before[i];
          assert before[i].col < k - 1 && h[0].col == k - 1;
        }
      }
    }
  }

  /**
   * ctransp of rows with strictly increasing columns below m: the
   * transposed rows have their columns below the original row count and
   * strictly increasing, and value v sits at (c, r) of the transpose
   * exactly when it sits at (r, c) of the original.
   */
  lemma TransposeRowsMeaning(a: seq<seq<Entry>>, m: nat)
    requires RowsSorted(a) && ColsBelow(a, m)
    ensures var t := TransposeRows(a, m);
      && ColsBelow(t, |a|) && RowsSorted(t)
      && forall r, c, v :: 0 <= c < m ==> (Holds(t, c, r, v) <==> Holds(a, r, c, v))
  {
    var t: seq<seq<Entry>> := TransposeRows(a, m);
    forall c | 0 <= c < m
      ensures Increasing(t[c])
    {
      assert t[c] == ColumnOf(a, c, |a|);
      ColumnOfSorted(a, c, |a|);
    }
    forall r, c, v | 0 <= c < m
      ensures Holds(t, c, r, v) <==> Holds(a, r, c, v)
    {
      assert t[c] == ColumnOf(a, c, |a|);
      ColumnOfMembers(a, c, |a|, r, v);
    }
  }

  /** The reached rows are sorted with their columns below m. */
  lemma SweptRowsShape(a: seq<seq<Entry>>, m: int)
    ensures RowsSorted(SweptRows(a, m)) && ColsBelow(SweptRows(a, m), m)
  {
    var b := SweptRows(a, m);
    forall r | 0 <= r < |b|
      ensures Increasing(b[r]) && forall k :: 0 <= k < |b[r]| ==> 0 <= b[r][k].col < m
    {
      assert b[r] == Swept(a[r], m, -1);
    }
  }

  /** A row whose columns strictly increase from above `last` and stay below m is reached whole. */
  lemma {:induction false} SweptWhole(row: seq<Entry>, m: int, last: int)
    requires Increasing(row)
    requires forall k :: 0 <= k < |row| ==> last < row[k].col < m
    ensures Swept(row, m, last) == row
    decreases |row|
  {
    if |row| > 0 {
      SweptWhole(row[1..], m, row[0].col);
      assert row == [row[0]] + row[1..];
    }
  }

  /**
   * ctransp on any rows: the transpose is sorted with columns below the
   * original row count, holds value v at (c, r) exactly when the reached
   * part of row r holds it at c, and on rows that are already sorted with
   * columns below m it is the plain transpose.
   */
  lemma CTranspMeaning(a: seq<seq<Entry>>, m: nat)
    ensures var t := CTransp(a, m);
      && ColsBelow(t, |a|) && RowsSorted(t)
      && (forall r, c, v :: 0 <= c < m ==> (Holds(t, c, r, v) <==> Holds(SweptRows(a, m), r, c, v)))
      && (RowsSorted(a) && ColsBelow(a, m) ==> t == TransposeRows(a, m))
  {
    SweptRowsShape(a, m);
    TransposeRowsMeaning(SweptRows(a, m), m);
    if RowsSorted(a) && ColsBelow(a, m) {
      forall r | 0 <= r < |a|
        ensures SweptRows(a, m)[r] == a[r]
      {
        assert Increasing(a[r]);
        SweptWhole(a[r], m, -1);
      }
      assert SweptRows(a, m) == a;
    }
  }

  /**
   * A row whose columns descend loses everything after the descent:
   * row 0 holds columns 1 then 0, so only its column-1 entry reaches the
   * transpose and column 0 of the transpose is empty.
   */
  lemma CTranspDropsDescent()
    ensures var t := CTransp([[Entry(1, 7), Entry(0, 5)], [], []], 2);
      t[0] == [] && t[1] == [Entry(0, 7)]
  {
    var a := [[Entry(1, 7), Entry(0, 5)], [], []];
    var b := [[Entry(1, 7)], [], []];
    SweptDescent();
    assert SweptRows(a, 2) == b;
    ColumnsOfExample();
    assert TransposeRows(b, 2)[0] == ColumnOf(b, 0, 3);
    assert TransposeRows(b, 2)[1] == ColumnOf(b, 1, 3);
  }

  /** The cursor of the row with columns 1 then 0 stops after its first entry. */
  lemma SweptDescent()
    ensures Swept([Entry(1, 7), Entry(0, 5)], 2, -1) == [Entry(1, 7)]
  {
    assert [Entry(1, 7), Entry(0, 5)][1..] == [Entry(0, 5)];
    assert Swept([Entry(0, 5)], 2, 1) == [];
  }

  /** The two columns of the reached rows [[Entry(1, 7)], [], []]. */
  lemma ColumnsOfExample()
    ensures ColumnOf([[Entry(1, 7)], [], []], 0, 3) == []
    ensures ColumnOf([[Entry(1, 7)], [], []], 1, 3) == [Entry(0, 7)]
  {
    var b := [[Entry(1, 7)], [], []];
    var row0 := [Entry(1, 7)];
    assert row0[..0] == [];
    assert Hits(row0, 0, 0) == [];
    assert Hits(row0, 1, 0) == [Entry(0, 7)];
    assert ColumnOf(b, 0, 1) == [] && ColumnOf(b, 1, 1) == [Entry(0, 7)];
    assert ColumnOf(b, 0, 2) == [] && ColumnOf(b, 1, 2) == [Entry(0, 7)];
  }

  /** Scaling keeps every column where it was, so sortedness and column bounds carry over. */
  lemma ScaledShape(a: seq<seq<Entry>>, f: int, m: int)
    ensures RowsSorted(a) ==> RowsSorted(Scaled(a, f))
    ensures ColsBelow(a, m) ==> ColsBelow(Scaled(a, f), m)
    ensures forall r, c, v :: Holds(a, r, c, v) ==> Holds(Scaled(a, f), r, c, v * f)
  {
    var b := Scaled(a, f);
    forall r, c, v | Holds(a, r, c, v)
      ensures Holds(b, r, c, v * f)
    {
      var k :| 0 <= k < |a[r]| && a[r][k] == Entry(c, v);
      assert b[r][k] == Entry(c, v * f);
    }
  }
}
