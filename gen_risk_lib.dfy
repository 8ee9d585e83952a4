/**
 * The newer version of the catalog store (gen_risk_lib/GWAS.hxx): a
 * `FlatFile` holding the header, the rows and the column index, and a `GWAS`
 * wrapper that computes validity masks over columns, intersects them and
 * extracts (position, effect size) pairs for the rows valid in both.
 *
 * Parsing is a parameter: `parsePos` stands for `boost::lexical_cast<unsigned
 * long>` and `parseEs` for `boost::lexical_cast<double>`, each `None` where
 * the cast throws `bad_lexical_cast`.
 */
module GenRiskLib {
  import opened Wrappers
  import opened Table
  import TabSplit

  /**
   * `intersect`: the values present in both collections, as a set (so
   * without duplicates). Swapping the arguments gives the same set.
   */
  method Intersect<T(==)>(a: seq<T>, b: seq<T>) returns (r: set<T>)
    ensures forall x :: x in r <==> x in a && x in b
  {
    var s := set x | x in a;
    r := {};
    for i := 0 to |b|
      invariant forall x :: x in r <==> x in a && x in b[..i]
    {
      if b[i] in s {
        r := r + {b[i]};
      }
    }
  }

  /** Every non-empty set of row indices has a least element. */
  lemma LeastExists(s: set<nat>)
    requires s != {}
    ensures exists m :: m in s && forall j :: j in s ==> m <= j
  {
    var x :| x in s;
    LeastAtMost(s, x);
  }

  lemma {:induction false} LeastAtMost(s: set<nat>, x: nat)
    requires x in s
    ensures exists m :: m in s && forall j :: j in s ==> m <= j
    decreases x
  {
    if !forall j :: j in s ==> x <= j {
      var y :| y in s && y < x;
      LeastAtMost(s, y);
    }
  }

  // -----------------------------------------------------------------------
  // Paired extraction, as a function of the rows

  /** Both the position and the effect size of `row` parse. */
  predicate BothParse(row: Row, posCol: nat, esCol: nat,
                      parsePos: string -> Option<ULong>, parseEs: string -> Option<real>)
    requires posCol < |row| && esCol < |row|
  {
    parsePos(row[posCol]).Some? && parseEs(row[esCol]).Some?
  }

  /**
   * The intended result of paired extraction: one pair per row whose two
   * fields both parse, in row order.
   */
  function Paired(rows: seq<Row>, posCol: nat, esCol: nat,
                  parsePos: string -> Option<ULong>, parseEs: string -> Option<real>): (ps: seq<PosEffect>)
    requires HasField(rows, posCol) && HasField(rows, esCol)
    ensures |ps| <= |rows|
  {
    if rows == [] then []
    else
      var n := |rows| - 1;
      var prev := Paired(rows[..n], posCol, esCol, parsePos, parseEs);
      match (parsePos(rows[n][posCol]), parseEs(rows[n][esCol]))
      case (Some(p), Some(e)) => prev + [PosEffect(p, e)]
      case _ => prev
  }

  /**
   * What the loop of `positions_and_effect_size` yields for the indices in
   * `mask`, visited in ascending order: each visited row is cast again, and
   * the first cast that fails throws out of the whole call.
   */
  function Emit(rows: seq<Row>, mask: set<nat>, posCol: nat, esCol: nat,
                parsePos: string -> Option<ULong>, parseEs: string -> Option<real>): Result<seq<PosEffect>>
    requires HasField(rows, posCol) && HasField(rows, esCol)
  {
    if rows == [] then Ok([])
    else
      var n := |rows| - 1;
      var prev := Emit(rows[..n], mask, posCol, esCol, parsePos, parseEs);
      if prev.Err? || n !in mask then prev
      else
        match parsePos(rows[n][posCol])
        case None => Err(BadLexicalCast(rows[n][posCol]))
        case Some(p) =>
          match parseEs(rows[n][esCol])
          case None => Err(BadLexicalCast(rows[n][esCol]))
          case Some(e) => Ok(prev.value + [PosEffect(p, e)])
  }

  /**
   * Rows past a failure, and rows outside the mask, change nothing: the
   * result over a longer prefix equals the result over the shorter one.
   */
  lemma {:induction false} EmitUnchanged(rows: seq<Row>, mask: set<nat>, posCol: nat, esCol: nat,
                                         parsePos: string -> Option<ULong>, parseEs: string -> Option<real>,
                                         b: nat, m: nat)
    requires HasField(rows, posCol) && HasField(rows, esCol)
    requires b <= m <= |rows|
    requires Emit(rows[..b], mask, posCol, esCol, parsePos, parseEs).Err?
             || forall i :: b <= i < m ==> i !in mask
    ensures Emit(rows[..m], mask, posCol, esCol, parsePos, parseEs)
         == Emit(rows[..b], mask, posCol, esCol, parsePos, parseEs)
    decreases m
  {
    if m > b {
      EmitUnchanged(rows, mask, posCol, esCol, parsePos, parseEs, b, m - 1);
      assert rows[..m][..m - 1] == rows[..m - 1];
    }
  }

  /**
   * Visiting the next index `i` of the mask after the rows before `done`:
   * the rows in between are outside the mask, and row `i` either throws or
   * adds its pair.
   */
  lemma EmitNext(rows: seq<Row>, mask: set<nat>, posCol: nat, esCol: nat,
                 parsePos: string -> Option<ULong>, parseEs: string -> Option<real>,
                 done: nat, i: nat, pe: seq<PosEffect>)
    requires HasField(rows, posCol) && HasField(rows, esCol)
    requires done <= i < |rows| && i in mask
    requires forall j :: done <= j < i ==> j !in mask
    requires Emit(rows[..done], mask, posCol, esCol, parsePos, parseEs) == Ok(pe)
    ensures Emit(rows[..i + 1], mask, posCol, esCol, parsePos, parseEs)
         == if parsePos(rows[i][posCol]).None? then Err(BadLexicalCast(rows[i][posCol]))
            else if parseEs(rows[i][esCol]).None? then Err(BadLexicalCast(rows[i][esCol]))
            else Ok(pe + [PosEffect(parsePos(rows[i][posCol]).value, parseEs(rows[i][esCol]).value)])
  {
    EmitUnchanged(rows, mask, posCol, esCol, parsePos, parseEs, done, i);
    assert rows[..i + 1][..i] == rows[..i];
    assert rows[..i + 1][i] == rows[i];
  }

  /** A failure at the prefix `rows[..b]` is the result over all of `rows`. */
  lemma EmitAfterFailure(rows: seq<Row>, mask: set<nat>, posCol: nat, esCol: nat,
                         parsePos: string -> Option<ULong>, parseEs: string -> Option<real>, b: nat)
    requires HasField(rows, posCol) && HasField(rows, esCol)
    requires b <= |rows| && Emit(rows[..b], mask, posCol, esCol, parsePos, parseEs).Err?
    ensures Emit(rows, mask, posCol, esCol, parsePos, parseEs) == Emit(rows[..b], mask, posCol, esCol, parsePos, parseEs)
  {
    EmitUnchanged(rows, mask, posCol, esCol, parsePos, parseEs, b, |rows|);
    assert rows[..|rows|] == rows;
  }

  /** With the mask of rows where both fields parse, extraction never fails and yields `Paired`. */
  lemma {:induction false} EmitBothMask(rows: seq<Row>, mask: set<nat>, posCol: nat, esCol: nat,
                                        parsePos: string -> Option<ULong>, parseEs: string -> Option<real>)
    requires HasField(rows, posCol) && HasField(rows, esCol)
    requires forall i :: 0 <= i < |rows| ==> (i in mask <==> BothParse(rows[i], posCol, esCol, parsePos, parseEs))
    ensures Emit(rows, mask, posCol, esCol, parsePos, parseEs) == Ok(Paired(rows, posCol, esCol, parsePos, parseEs))
    decreases |rows|
  {
    if rows != [] {
      var n := |rows| - 1;
      assert forall i :: 0 <= i < n ==> rows[..n][i] == rows[i];
      EmitBothMask(rows[..n], mask, posCol, esCol, parsePos, parseEs);
    }
  }

  /**
   * With the mask of rows whose effect size parses (what the source builds,
   * since its position mask admits every row), extraction succeeds exactly
   * when every such row also has a parseable position, and then yields
   * `Paired`.
   */
  lemma {:induction false} EmitEffectMask(rows: seq<Row>, mask: set<nat>, posCol: nat, esCol: nat,
                                          parsePos: string -> Option<ULong>, parseEs: string -> Option<real>)
    requires HasField(rows, posCol) && HasField(rows, esCol)
    requires forall i :: 0 <= i < |rows| ==> (i in mask <==> parseEs(rows[i][esCol]).Some?)
    ensures Emit(rows, mask, posCol, esCol, parsePos, parseEs).Ok?
        <==> forall i :: 0 <= i < |rows| && parseEs(rows[i][esCol]).Some? ==> parsePos(rows[i][posCol]).Some?
    ensures Emit(rows, mask, posCol, esCol, parsePos, parseEs).Ok?
        ==> Emit(rows, mask, posCol, esCol, parsePos, parseEs).value == Paired(rows, posCol, esCol, parsePos, parseEs)
    decreases |rows|
  {
    if rows != [] {
      var n := |rows| - 1;
      assert forall i :: 0 <= i < n ==> rows[..n][i] == rows[i];
      EmitEffectMask(rows[..n], mask, posCol, esCol, parsePos, parseEs);
    }
  }

  /**
   * Row `i` is the first row whose effect size parses but whose position
   * does not.
   */
  predicate FirstUnparsedPosition(rows: seq<Row>, posCol: nat, esCol: nat,
                                  parsePos: string -> Option<ULong>, parseEs: string -> Option<real>, i: nat)
    requires HasField(rows, posCol) && HasField(rows, esCol)
  {
    i < |rows| && parseEs(rows[i][esCol]).Some? && parsePos(rows[i][posCol]).None? &&
    forall j :: 0 <= j < i && parseEs(rows[j][esCol]).Some? ==> parsePos(rows[j][posCol]).Some?
  }

  /** The first such row of a prefix is the first such row of the whole. */
  lemma FirstUnparsedInPrefix(rows: seq<Row>, posCol: nat, esCol: nat,
                              parsePos: string -> Option<ULong>, parseEs: string -> Option<real>, n: nat, i: nat)
    requires HasField(rows, posCol) && HasField(rows, esCol) && n <= |rows|
    requires FirstUnparsedPosition(rows[..n], posCol, esCol, parsePos, parseEs, i)
    ensures FirstUnparsedPosition(rows, posCol, esCol, parsePos, parseEs, i)
  {
    assert forall j :: 0 <= j <= i ==> rows[..n][j] == rows[j];
  }

  /**
   * With the mask of rows whose effect size parses, a failed extraction
   * reports the position field of the first such row whose position does
   * not parse.
   */
  lemma EffectMaskFailure(rows: seq<Row>, mask: set<nat>, posCol: nat, esCol: nat,
                          parsePos: string -> Option<ULong>, parseEs: string -> Option<real>)
    requires HasField(rows, posCol) && HasField(rows, esCol)
    requires forall i :: 0 <= i < |rows| ==> (i in mask <==> parseEs(rows[i][esCol]).Some?)
    ensures Emit(rows, mask, posCol, esCol, parsePos, parseEs).Err? ==>
      exists i: nat :: FirstUnparsedPosition(rows, posCol, esCol, parsePos, parseEs, i) &&
        Emit(rows, mask, posCol, esCol, parsePos, parseEs).failure == BadLexicalCast(rows[i][posCol])
  {
    if Emit(rows, mask, posCol, esCol, parsePos, parseEs).Err? {
      var i := FailingRow(rows, mask, posCol, esCol, parsePos, parseEs);
    }
  }

  /** The row a failed extraction with the effect-size mask stops at. */
  lemma {:induction false} FailingRow(rows: seq<Row>, mask: set<nat>, posCol: nat, esCol: nat,
                                      parsePos: string -> Option<ULong>, parseEs: string -> Option<real>)
    returns (i: nat)
    requires HasField(rows, posCol) && HasField(rows, esCol)
    requires forall i :: 0 <= i < |rows| ==> (i in mask <==> parseEs(rows[i][esCol]).Some?)
    requires Emit(rows, mask, posCol, esCol, parsePos, parseEs).Err?
    ensures FirstUnparsedPosition(rows, posCol, esCol, parsePos, parseEs, i)
    ensures Emit(rows, mask, posCol, esCol, parsePos, parseEs).failure == BadLexicalCast(rows[i][posCol])
    decreases |rows|
  {
    var n := |rows| - 1;
    assert forall i :: 0 <= i < n ==> rows[..n][i] == rows[i];
    if Emit(rows[..n], mask, posCol, esCol, parsePos, parseEs).Err? {
      i := FailingRow(rows[..n], mask, posCol, esCol, parsePos, parseEs);
      FirstUnparsedInPrefix(rows, posCol, esCol, parsePos, parseEs, n, i);
    } else {
      EmitEffectMask(rows[..n], mask, posCol, esCol, parsePos, parseEs);
      i := n;
    }
  }

  /** The indices of the rows whose effect-size field parses: the effect-size mask. */
  function EffectParseRows(rows: seq<Row>, esCol: nat, parseEs: string -> Option<real>): set<nat>
    requires HasField(rows, esCol)
  {
    set i: nat | i < |rows| && parseEs(rows[i][esCol]).Some?
  }

  /** The indices of the rows whose two fields both parse. */
  function BothParseRows(rows: seq<Row>, posCol: nat, esCol: nat,
                         parsePos: string -> Option<ULong>, parseEs: string -> Option<real>): set<nat>
    requires HasField(rows, posCol) && HasField(rows, esCol)
  {
    set i: nat | i < |rows| && BothParse(rows[i], posCol, esCol, parsePos, parseEs)
  }

  /** One pair per index of the intersection of the two masks. */
  lemma {:induction false} PairedSize(rows: seq<Row>, posCol: nat, esCol: nat,
                                      parsePos: string -> Option<ULong>, parseEs: string -> Option<real>)
    requires HasField(rows, posCol) && HasField(rows, esCol)
    ensures |Paired(rows, posCol, esCol, parsePos, parseEs)| == |BothParseRows(rows, posCol, esCol, parsePos, parseEs)|
    decreases |rows|
  {
    if rows != [] {
      var n := |rows| - 1;
      PairedSize(rows[..n], posCol, esCol, parsePos, parseEs);
      BothParseRowsStep(rows, posCol, esCol, parsePos, parseEs);
    }
  }

  /** The last row adds its index to the rows where both fields parse exactly when both of its fields parse. */
  lemma BothParseRowsStep(rows: seq<Row>, posCol: nat, esCol: nat,
                          parsePos: string -> Option<ULong>, parseEs: string -> Option<real>)
    requires HasField(rows, posCol) && HasField(rows, esCol) && rows != []
    ensures var n := |rows| - 1;
      BothParseRows(rows, posCol, esCol, parsePos, parseEs)
      == BothParseRows(rows[..n], posCol, esCol, parsePos, parseEs)
         + (if BothParse(rows[n], posCol, esCol, parsePos, parseEs) then {n} else {})
  {
    var n := |rows| - 1;
    assert forall i :: 0 <= i < n ==> rows[..n][i] == rows[i];
  }

  /**
   * A pair is extracted exactly when some row parses to it in both columns:
   * a row with an unparseable field contributes nothing.
   */
  lemma {:induction false} PairedMembers(rows: seq<Row>, posCol: nat, esCol: nat,
                                         parsePos: string -> Option<ULong>, parseEs: string -> Option<real>,
                                         p: PosEffect)
    requires HasField(rows, posCol) && HasField(rows, esCol)
    ensures p in Paired(rows, posCol, esCol, parsePos, parseEs)
        <==> exists i :: 0 <= i < |rows| && parsePos(rows[i][posCol]) == Some(p.pos)
                                         && parseEs(rows[i][esCol]) == Some(p.effect)
    decreases |rows|
  {
    if rows != [] {
      var n := |rows| - 1;
      PairedMembers(rows[..n], posCol, esCol, parsePos, parseEs, p);
      assert forall i :: 0 <= i < n ==> rows[..n][i] == rows[i];
      if exists i :: 0 <= i < |rows| && parsePos(rows[i][posCol]) == Some(p.pos)
                                      && parseEs(rows[i][esCol]) == Some(p.effect) {
        var i :| 0 <= i < |rows| && parsePos(rows[i][posCol]) == Some(p.pos)
                                  && parseEs(rows[i][esCol]) == Some(p.effect);
        if i < n {
          assert rows[..n][i] == rows[i];
        }
      }
    }
  }

  /** The three-row table of the example below: header ID, CHR_POS, OR or BETA. */
  const exampleRows: seq<Row> := [["x1", "100", "1.2"], ["x2", "abc", "0.9"], ["x3", "200", "n/a"]]

  /** A position parser that knows the example's numerals. */
  function ExamplePos(s: string): Option<ULong>
  {
    if s == "100" then Some(100) else if s == "200" then Some(200) else None
  }

  /** An effect-size parser that knows the example's numerals. */
  function ExampleEffect(s: string): Option<real>
  {
    if s == "1.2" then Some(1.2) else if s == "0.9" then Some(0.9) else None
  }

  /**
   * A row with a non-numeric position and a row with a non-numeric effect
   * size: only the first row is a valid pair, but the mask the source builds
   * (every row whose effect size parses) admits the second row, whose
   * position cast then throws.
   */
  lemma ThreeRowExample()
    ensures Paired(exampleRows, 1, 2, ExamplePos, ExampleEffect) == [PosEffect(100, 1.2)]
    ensures Emit(exampleRows, {0, 1}, 1, 2, ExamplePos, ExampleEffect) == Err(BadLexicalCast("abc"))
  {
    var rows := exampleRows;
    assert rows[..2][..1] == rows[..1] == [rows[0]];
    assert rows[..1][..0] == [];
    assert ExamplePos("abc") == None && ExampleEffect("n/a") == None;
    assert Paired(rows[..1], 1, 2, ExamplePos, ExampleEffect) == [PosEffect(100, 1.2)];
    assert Paired(rows[..2], 1, 2, ExamplePos, ExampleEffect) == [PosEffect(100, 1.2)];
    assert Emit(rows[..1], {0, 1}, 1, 2, ExamplePos, ExampleEffect) == Ok([PosEffect(100, 1.2)]);
    assert Emit(rows[..2], {0, 1}, 1, 2, ExamplePos, ExampleEffect) == Err(BadLexicalCast("abc"));
  }

  // -----------------------------------------------------------------------
  // The table

  /** `FlatFile`: a header, the rows, and the index from column name to position. */
  class FlatFile {
    var header: seq<string>
    var data: seq<Row>
    var indexOf: map<string, nat>

    /** The (header, rows) constructor. */
    constructor (aHeader: seq<string>, aData: seq<Row>)
      ensures header == aHeader && data == aData
      ensures indexOf == HeaderIndex(aHeader)
    {
      header := aHeader;
      data := aData;
      indexOf := map[];
      new;
      InitHeaderIndexMap();
      IndexFromEmpty(header);
    }

    /**
     * The file constructor once the file's lines are read: the header is the
     * first line split on tabs, and every later line becomes one row, in
     * order. Reading the lines asserts that there is at least one.
     */
    constructor FromLines(lines: seq<string>)
      requires |lines| > 0
      ensures header == TabSplit.Tokens(lines[0])
      ensures indexOf == HeaderIndex(header)
      ensures |data| == |lines| - 1
      ensures forall k :: 0 <= k < |data| ==> data[k] == TabSplit.Tokens(lines[k + 1])
    {
      var h := TabSplit.GetTokens(lines[0]);
      header := h;
      data := [];
      indexOf := map[];
      new;
      InitHeaderIndexMap();
      IndexFromEmpty(header);
      var i := 1;
      while i < |lines|
        invariant 1 <= i <= |lines|
        invariant header == TabSplit.Tokens(lines[0]) && indexOf == HeaderIndex(header)
        invariant |data| == i - 1
        invariant forall k :: 0 <= k < |data| ==> data[k] == TabSplit.Tokens(lines[k + 1])
      {
        var tokens := TabSplit.GetTokens(lines[i]);
        data := data + [tokens];
        i := i + 1;
      }
    }

    /** `initHeaderIndexMap`: records every header name at its position, later ones overwriting. */
    method InitHeaderIndexMap()
      modifies this`indexOf
      ensures indexOf == old(indexOf) + HeaderIndex(header)
    {
      var i := 0;
      while i < |header|
        invariant 0 <= i <= |header|
        invariant indexOf == old(indexOf) + HeaderIndex(header[..i])
      {
        IndexStep(old(indexOf), header, i);
        indexOf := indexOf[header[i] := i];
        i := i + 1;
      }
      assert header[..i] == header;
    }

    function NumRows(): nat
      reads this
    {
      |data|
    }

    /** `cell`: the field at (row, col); the source does no bounds check. */
    function Cell(row: nat, col: nat): string
      reads this
      requires row < |data| && col < |data[row]|
    {
      data[row][col]
    }

    /** `unique_col`: every value of column `col`, each once. */
    method UniqueCol(col: nat) returns (values: set<string>)
      requires HasField(data, col)
      ensures forall v :: v in values <==> exists k :: 0 <= k < |data| && data[k][col] == v
      ensures |values| <= NumRows()
    {
      values := {};
      for i := 0 to |data|
        invariant values == ValueSet(data[..i], col)
      {
        assert forall k :: 0 <= k < i ==> data[..i + 1][k] == data[..i][k];
        values := values + {data[i][col]};
      }
      assert data[..|data|] == data;
      ValueSetSize(data, col);
    }

    /** `trim`: the rows whose field `col` equals `value`, in order. */
    method Trim(col: nat, value: string) returns (rows: seq<Row>)
      requires HasField(data, col)
      ensures rows == Select(data, col, value)
    {
      rows := [];
      for i := 0 to |data|
        invariant rows == Select(data[..i], col, value)
      {
        assert data[..i + 1][..i] == data[..i];
        if data[i][col] == value {
          rows := rows + [data[i]];
        }
      }
      assert data[..|data|] == data;
    }

    /** `subsetter2`: a new table with the same header and the trimmed rows. */
    method Subsetter2(col: nat, value: string) returns (f: FlatFile)
      requires HasField(data, col)
      ensures fresh(f)
      ensures f.header == header && f.indexOf == HeaderIndex(header)
      ensures f.data == Select(data, col, value)
    {
      var rows := Trim(col, value);
      f := new FlatFile(header, rows);
    }
  }

  // -----------------------------------------------------------------------
  // The catalog

  /** `GWAS`: the catalog as one flat file. */
  class Gwas {
    const file: FlatFile

    constructor (f: FlatFile)
      ensures file == f
    {
      file := f;
    }

    /** `size`: the number of associations. */
    function Size(): nat
      reads file
    {
      |file.data|
    }

    /**
     * `grab_mask`: the indices, in increasing order, of the rows whose field
     * `idx` passes the validity test (`!isnan(f(cell))` in the source).
     */
    method GrabMask(idx: nat, valid: string -> bool) returns (mask: seq<nat>)
      requires HasField(file.data, idx)
      ensures forall k :: 0 <= k < |mask| ==> mask[k] < file.NumRows()
      ensures forall j, k :: 0 <= j < k < |mask| ==> mask[j] < mask[k]
      ensures forall i :: 0 <= i < file.NumRows() ==> (i in mask <==> valid(file.Cell(i, idx)))
    {
      mask := [];
      var i := 0;
      while i < file.NumRows()
        invariant 0 <= i <= file.NumRows()
        invariant forall k :: 0 <= k < |mask| ==> mask[k] < i
        invariant forall j, k :: 0 <= j < k < |mask| ==> mask[j] < mask[k]
        invariant forall r :: 0 <= r < i ==> (r in mask <==> valid(file.Cell(r, idx)))
      {
        if valid(file.Cell(i, idx)) {
          mask := mask + [i];
        }
        i := i + 1;
      }
    }

    /** The loop of `positions_and_effect_size` over a set of row indices, in ascending order. */
    method EmitAscending(mask: set<nat>, posCol: nat, esCol: nat,
                         parsePos: string -> Option<ULong>, parseEs: string -> Option<real>)
      returns (r: Result<seq<PosEffect>>)
      requires HasField(file.data, posCol) && HasField(file.data, esCol)
      requires forall i :: i in mask ==> i < |file.data|
      ensures r == Emit(file.data, mask, posCol, esCol, parsePos, parseEs)
    {
      var rows := file.data;
      var pe: seq<PosEffect> := [];
      var rest := mask;
      ghost var done: nat := 0;
      while rest != {}
        invariant done <= |rows|
        invariant forall i :: i in rest ==> done <= i && i in mask
        invariant forall i :: i in mask && done <= i ==> i in rest
        invariant Emit(rows[..done], mask, posCol, esCol, parsePos, parseEs) == Ok(pe)
        decreases |rest|
      {
        LeastExists(rest);
        var i :| i in rest && forall j :: j in rest ==> i <= j;
        EmitNext(rows, mask, posCol, esCol, parsePos, parseEs, done, i, pe);
        var row := rows[i];
        var aPos := parsePos(row[posCol]);
        if aPos.None? {
          r := Err(BadLexicalCast(row[posCol]));
          EmitAfterFailure(rows, mask, posCol, esCol, parsePos, parseEs, i + 1);
          return;
        }
        var effectSize := parseEs(row[esCol]);
        if effectSize.None? {
          r := Err(BadLexicalCast(row[esCol]));
          EmitAfterFailure(rows, mask, posCol, esCol, parsePos, parseEs, i + 1);
          return;
        }
        pe := pe + [PosEffect(aPos.value, effectSize.value)];
        rest := rest - {i};
        done := i + 1;
      }
      EmitUnchanged(rows, mask, posCol, esCol, parsePos, parseEs, done, |rows|);
      assert rows[..|rows|] == rows;
      r := Ok(pe);
    }

    /**
     * `positions_and_effect_size`, as written: the position mask tests
     * `!isnan(parser<unsigned long>(s))`, but an integer type has no NaN
     * (its quiet_NaN() is 0), so that mask admits every row, and a row whose
     * effect size parses but whose position does not makes the position cast
     * throw out of the whole call.
     */
    method PositionsAndEffectSize(parsePos: string -> Option<ULong>, parseEs: string -> Option<real>)
      returns (r: Result<seq<PosEffect>>)
      requires CHR_POS in file.indexOf ==> HasField(file.data, file.indexOf[CHR_POS])
      requires EFFECT_SIZE in file.indexOf ==> HasField(file.data, file.indexOf[EFFECT_SIZE])
      ensures r.Ok? <==>
        CHR_POS in file.indexOf && EFFECT_SIZE in file.indexOf &&
        forall i :: 0 <= i < |file.data| && parseEs(file.data[i][file.indexOf[EFFECT_SIZE]]).Some?
                    ==> parsePos(file.data[i][file.indexOf[CHR_POS]]).Some?
      ensures r.Ok? ==>
        r.value == Paired(file.data, file.indexOf[CHR_POS], file.indexOf[EFFECT_SIZE], parsePos, parseEs)
      ensures CHR_POS !in file.indexOf || EFFECT_SIZE !in file.indexOf ==> r.Err? && r.failure.UnknownColumn?
      ensures CHR_POS in file.indexOf && EFFECT_SIZE in file.indexOf ==>
        r == Emit(file.data, EffectParseRows(file.data, file.indexOf[EFFECT_SIZE], parseEs),
                  file.indexOf[CHR_POS], file.indexOf[EFFECT_SIZE], parsePos, parseEs)
      ensures r.Err? && CHR_POS in file.indexOf && EFFECT_SIZE in file.indexOf ==>
        var posCol, esCol := file.indexOf[CHR_POS], file.indexOf[EFFECT_SIZE];
        exists i: nat :: FirstUnparsedPosition(file.data, posCol, esCol, parsePos, parseEs, i) &&
          r.failure == BadLexicalCast(file.data[i][posCol])
    {
      if CHR_POS !in file.indexOf {
        return Err(UnknownColumn(CHR_POS));
      }
      if EFFECT_SIZE !in file.indexOf {
        return Err(UnknownColumn(EFFECT_SIZE));
      }
      var posCol := file.indexOf[CHR_POS];
      var esCol := file.indexOf[EFFECT_SIZE];
      // !isnan(parser<unsigned long>(s)) holds for every s.
      var posMask := GrabMask(posCol, _ => true);
      var esMask := GrabMask(esCol, s => parseEs(s).Some?);
      var both := Intersect(posMask, esMask);
      r := EmitAscending(both, posCol, esCol, parsePos, parseEs);
      assert both == EffectParseRows(file.data, esCol, parseEs);
      EmitEffectMask(file.data, both, posCol, esCol, parsePos, parseEs);
      EffectMaskFailure(file.data, both, posCol, esCol, parsePos, parseEs);
    }

    /**
     * Paired extraction as documented: the position mask tests that the
     * position parses, so a row is emitted exactly when both of its fields
     * parse, and the call never fails on a known pair of columns.
     */
    method PairedValues(parsePos: string -> Option<ULong>, parseEs: string -> Option<real>)
      returns (r: Result<seq<PosEffect>>)
      requires CHR_POS in file.indexOf ==> HasField(file.data, file.indexOf[CHR_POS])
      requires EFFECT_SIZE in file.indexOf ==> HasField(file.data, file.indexOf[EFFECT_SIZE])
      ensures r.Ok? <==> CHR_POS in file.indexOf && EFFECT_SIZE in file.indexOf
      ensures r.Err? ==> r.failure.UnknownColumn?
      ensures r.Ok? ==>
        r.value == Paired(file.data, file.indexOf[CHR_POS], file.indexOf[EFFECT_SIZE], parsePos, parseEs)
    {
      if CHR_POS !in file.indexOf {
        return Err(UnknownColumn(CHR_POS));
      }
      if EFFECT_SIZE !in file.indexOf {
        return Err(UnknownColumn(EFFECT_SIZE));
      }
      var posCol := file.indexOf[CHR_POS];
      var esCol := file.indexOf[EFFECT_SIZE];
      var posMask := GrabMask(posCol, s => parsePos(s).Some?);
      var esMask := GrabMask(esCol, s => parseEs(s).Some?);
      var both := Intersect(posMask, esMask);
      r := EmitAscending(both, posCol, esCol, parsePos, parseEs);
      EmitBothMask(file.data, both, posCol, esCol, parsePos, parseEs);
    }

    /** `uniqueDiseases`: the distinct values of the `DISEASE/TRAIT` column. */
    method UniqueDiseases() returns (r: Result<set<string>>)
      requires DISEASE_TRAIT in file.indexOf ==> HasField(file.data, file.indexOf[DISEASE_TRAIT])
      ensures DISEASE_TRAIT !in file.indexOf ==> r == Err(UnknownColumn(DISEASE_TRAIT))
      ensures DISEASE_TRAIT in file.indexOf ==>
        r.Ok? && r.value == ValueSet(file.data, file.indexOf[DISEASE_TRAIT]) && |r.value| <= Size()
    {
      if DISEASE_TRAIT !in file.indexOf {
        return Err(UnknownColumn(DISEASE_TRAIT));
      }
      var values := file.UniqueCol(file.indexOf[DISEASE_TRAIT]);
      r := Ok(values);
    }

    /** `uniqueRSIDs`: the distinct values of the `SNPS` column, unfiltered. */
    method UniqueRsids() returns (r: Result<set<string>>)
      requires SNPS in file.indexOf ==> HasField(file.data, file.indexOf[SNPS])
      ensures SNPS !in file.indexOf ==> r == Err(UnknownColumn(SNPS))
      ensures SNPS in file.indexOf ==>
        r.Ok? && r.value == ValueSet(file.data, file.indexOf[SNPS]) && |r.value| <= Size()
    {
      if SNPS !in file.indexOf {
        return Err(UnknownColumn(SNPS));
      }
      var values := file.UniqueCol(file.indexOf[SNPS]);
      r := Ok(values);
    }

    /**
     * `subsetter`: a new catalog over the rows whose column `colName` holds
     * `value`; an unknown column name throws from `index_of.at`.
     */
    method Subsetter(colName: string, value: string) returns (r: Result<Gwas>)
      requires colName in file.indexOf ==> HasField(file.data, file.indexOf[colName])
      ensures colName !in file.indexOf ==> r == Err(UnknownColumn(colName))
      ensures colName in file.indexOf ==>
        && r.Ok? && fresh(r.value) && fresh(r.value.file)
        && r.value.file.header == file.header
        && r.value.file.indexOf == HeaderIndex(file.header)
        && r.value.file.data == Select(file.data, file.indexOf[colName], value)
    {
      if colName !in file.indexOf {
        return Err(UnknownColumn(colName));
      }
      var f := file.Subsetter2(file.indexOf[colName], value);
      var g := new Gwas(f);
      r := Ok(g);
    }
  }
}
