/**
 * The specification shared by both versions of the GWAS table: rows of
 * string fields, the column-name index built from the header, the rows that
 * hold one value in one column, the distinct values of a column and the
 * per-value row counts. Every definition here is a pure function of the
 * header and the rows; the two header modules prove their loops against it.
 */
module Table {
  import opened Wrappers

  /** Column names the catalog code looks up by name. */
  const CHR_POS: string := "CHR_POS"
  const EFFECT_SIZE: string := "OR or BETA"
  const DISEASE_TRAIT: string := "DISEASE/TRAIT"
  const CHR_ID: string := "CHR_ID"
  const SNPS: string := "SNPS"

  /** One catalog line after splitting: its fields in column order. */
  type Row = seq<string>

  /** A (position, effect size) pair; `double` is modelled as `real`. */
  datatype PosEffect = PosEffect(pos: ULong, effect: real)

  /** Every row is wide enough to be indexed at `col`. */
  predicate HasField(rows: seq<Row>, col: nat)
  {
    forall r :: 0 <= r < |rows| ==> col < |rows[r]|
  }

  // ---------------------------------------------------------------------
  // Column index

  /**
   * The map `initHeaderIndexMap` fills in: each header name to a position,
   * assigning positions in increasing order, so a repeated name keeps its
   * last position.
   */
  function HeaderIndex(header: seq<string>): (m: map<string, nat>)
    ensures m.Keys == set n | n in header
    ensures forall n :: n in m ==> m[n] < |header| && header[m[n]] == n
    ensures forall n, j :: n in m && m[n] < j < |header| ==> header[j] != n
  {
    if header == [] then map[]
    else
      var init := header[..|header| - 1];
      assert forall j :: 0 <= j < |init| ==> init[j] == header[j];
      HeaderIndex(init)[header[|header| - 1] := |header| - 1]
  }

  /** One step of `initHeaderIndexMap`: recording position `i` extends the index to `header[..i + 1]`. */
  lemma IndexStep(start: map<string, nat>, header: seq<string>, i: nat)
    requires i < |header|
    ensures (start + HeaderIndex(header[..i]))[header[i] := i] == start + HeaderIndex(header[..i + 1])
  {
    assert header[..i + 1][..i] == header[..i];
    assert HeaderIndex(header[..i + 1]) == HeaderIndex(header[..i])[header[i] := i];
  }

  /** Filling an empty map gives exactly the index. */
  lemma IndexFromEmpty(header: seq<string>)
    ensures map[] + HeaderIndex(header) == HeaderIndex(header)
  {
  }

  /** With distinct names, the index is the inverse of the header. */
  lemma DistinctHeaderIndex(header: seq<string>)
    requires forall i, j :: 0 <= i < j < |header| ==> header[i] != header[j]
    ensures forall j :: 0 <= j < |header| ==> HeaderIndex(header)[header[j]] == j
  {
  }

  // ---------------------------------------------------------------------
  // Filtering rows by the value of one column

  /** The rows whose field `col` equals `value`, in their original order. */
  function Select(rows: seq<Row>, col: nat, value: string): (r: seq<Row>)
    requires HasField(rows, col)
    ensures |r| <= |rows|
    ensures HasField(r, col)
    ensures forall k :: 0 <= k < |r| ==> r[k] in rows && r[k][col] == value
    ensures forall k :: 0 <= k < |rows| && rows[k][col] == value ==> rows[k] in r
  {
    if rows == [] then []
    else
      var init := rows[..|rows| - 1];
      var last := rows[|rows| - 1];
      assert rows == init + [last];
      Select(init, col, value) + (if last[col] == value then [last] else [])
  }

  /** Filtering distributes over concatenation: relative order is kept. */
  lemma {:induction false} SelectAppend(a: seq<Row>, b: seq<Row>, col: nat, value: string)
    requires HasField(a, col) && HasField(b, col)
    ensures HasField(a + b, col)
    ensures Select(a + b, col, value) == Select(a, col, value) + Select(b, col, value)
    decreases |b|
  {
    assert HasField(a + b, col) by {
      forall r | 0 <= r < |a + b| ensures col < |(a + b)[r]| {
        if r >= |a| { assert (a + b)[r] == b[r - |a|]; }
      }
    }
    if b != [] {
      var init := b[..|b| - 1];
      assert (a + b)[..|a + b| - 1] == a + init;
      SelectAppend(a, init, col, value);
    } else {
      assert a + b == a;
    }
  }

  /** Filtering the filtered rows again by the same test changes nothing. */
  lemma {:induction false} SelectIdempotent(rows: seq<Row>, col: nat, value: string)
    requires HasField(rows, col)
    ensures Select(Select(rows, col, value), col, value) == Select(rows, col, value)
    decreases |rows|
  {
    if rows != [] {
      var init := rows[..|rows| - 1];
      var last := rows[|rows| - 1];
      var s := Select(init, col, value);
      SelectIdempotent(init, col, value);
      var tail := if last[col] == value then [last] else [];
      SelectAppend(s, tail, col, value);
      if last[col] == value {
        assert tail[..0] == [];
      }
    }
  }

  // ---------------------------------------------------------------------
  // The values of one column

  /** The fields at `col`, one per row, in row order. */
  function Column(rows: seq<Row>, col: nat): (vs: seq<string>)
    requires HasField(rows, col)
    ensures |vs| == |rows|
    ensures forall k :: 0 <= k < |rows| ==> vs[k] == rows[k][col]
  {
    if rows == [] then []
    else Column(rows[..|rows| - 1], col) + [rows[|rows| - 1][col]]
  }

  /** The distinct values of column `col`. */
  function ValueSet(rows: seq<Row>, col: nat): set<string>
    requires HasField(rows, col)
  {
    set k | 0 <= k < |rows| :: rows[k][col]
  }

  /** A column never has more distinct values than there are rows. */
  lemma {:induction false} ValueSetSize(rows: seq<Row>, col: nat)
    requires HasField(rows, col)
    ensures |ValueSet(rows, col)| <= |rows|
    decreases |rows|
  {
    if rows != [] {
      var init := rows[..|rows| - 1];
      ValueSetSize(init, col);
      assert ValueSet(rows, col) == ValueSet(init, col) + {rows[|rows| - 1][col]} by {
        forall v | v in ValueSet(rows, col) ensures v in ValueSet(init, col) + {rows[|rows| - 1][col]} {
          var k :| 0 <= k < |rows| && rows[k][col] == v;
          if k < |init| { assert init[k] == rows[k]; }
        }
        forall v | v in ValueSet(init, col) ensures v in ValueSet(rows, col) {
          var k :| 0 <= k < |init| && init[k][col] == v;
          assert rows[k] == init[k];
        }
      }
    }
  }

  // ---------------------------------------------------------------------
  // Counting rows per value

  /** How many entries of `vs` equal `v`. */
  function Occurrences(vs: seq<string>, v: string): (n: nat)
    ensures n <= |vs|
    ensures n > 0 <==> v in vs
  {
    if vs == [] then 0
    else
      assert vs == vs[..|vs| - 1] + [vs[|vs| - 1]];
      Occurrences(vs[..|vs| - 1], v) + (if vs[|vs| - 1] == v then 1 else 0)
  }

  /** The counts `diseases()` builds: one key per distinct value, with its count. */
  function Tally(vs: seq<string>): (m: map<string, nat>)
    ensures m.Keys == set v | v in vs
    ensures forall v :: v in m ==> m[v] == Occurrences(vs, v)
  {
    if vs == [] then map[]
    else
      var init := vs[..|vs| - 1];
      var v := vs[|vs| - 1];
      assert vs == init + [v];
      var m := Tally(init);
      assert (set u | u in vs) == (set u | u in init) + {v};
      m[v := (if v in m then m[v] else 0) + 1]
  }

  /** The sum of the counts of a map. */
  ghost function SumCounts(m: map<string, nat>): nat
    decreases |m|
  {
    if m == map[] then 0
    else
      var k :| k in m;
      m[k] + SumCounts(m - {k})
  }

  /** The sum may be taken out at any key. */
  lemma {:induction false} SumCountsAt(m: map<string, nat>, k: string)
    requires k in m
    ensures SumCounts(m) == m[k] + SumCounts(m - {k})
    decreases |m|
  {
    var x :| x in m && SumCounts(m) == m[x] + SumCounts(m - {x});
    if x != k {
      assert (m - {x}) - {k} == (m - {k}) - {x};
      SumCountsAt(m - {x}, k);
      SumCountsAt(m - {k}, x);
    }
  }

  /** The counts add up to the number of entries counted. */
  lemma {:induction false} TallySum(vs: seq<string>)
    ensures SumCounts(Tally(vs)) == |vs|
    decreases |vs|
  {
    if vs != [] {
      var init := vs[..|vs| - 1];
      var v := vs[|vs| - 1];
      var m := Tally(init);
      TallySum(init);
      var m' := Tally(vs);
      SumCountsAt(m', v);
      assert m' - {v} == m - {v};
      if v in m {
        SumCountsAt(m, v);
      } else {
        assert m - {v} == m;
      }
    }
  }

  /** The count of a value is the number of rows that filtering by it keeps. */
  lemma {:induction false} OccurrencesIsSelectSize(rows: seq<Row>, col: nat, value: string)
    requires HasField(rows, col)
    ensures Occurrences(Column(rows, col), value) == |Select(rows, col, value)|
    decreases |rows|
  {
    if rows != [] {
      var init := rows[..|rows| - 1];
      OccurrencesIsSelectSize(init, col, value);
      var vs := Column(rows, col);
      assert vs[..|vs| - 1] == Column(init, col);
    }
  }
}
