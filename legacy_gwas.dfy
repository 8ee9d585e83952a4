/**
 * The older, single-class version of the catalog (GWAS.hxx): one `GWAS`
 * object holding the header, the column index and the rows, with per-disease
 * counts, subsetting by column value, an RSID filter and the sorted
 * (position, effect size) list.
 *
 * Number conversion is a parameter: `stoul` stands for `std::stoul` and
 * `stod` for `std::stod`, each reporting the value or which exception it
 * throws.
 */
module LegacyGwas {
  import opened Wrappers
  import opened Table
  import TabSplit

  /** What `std::stoul` / `std::stod` do with a field. */
  datatype Conversion<T> =
    | Converted(value: T)
    | InvalidArgument   // std::invalid_argument: no number at the start of the field
    | ValueOutOfRange   // std::out_of_range: the number does not fit the type

  /** `rsid.starts_with("rs")` and no space, tab or ';' anywhere in it. */
  predicate IsRsid(s: string)
  {
    |s| >= 2 && s[..2] == "rs" && ' ' !in s && TabSplit.TAB !in s && ';' !in s
  }

  /** The diseases whose count is above nine, as `printSummary` counts them. */
  function Frequent(counts: map<string, nat>): (r: set<string>)
    ensures r <= counts.Keys
  {
    set k | k in counts && counts[k] > 9
  }

  /**
   * The frequent diseases are the distinct values of the column whose subset
   * of rows has more than nine rows: the quantity the newer `printSummary`
   * counts by subsetting on each value of `uniqueDiseases`.
   */
  lemma {:induction false} FrequentAreLargeSubsets(rows: seq<Row>, col: nat)
    requires HasField(rows, col)
    ensures Frequent(Tally(Column(rows, col))) == set d | d in ValueSet(rows, col) && |Select(rows, col, d)| > 9
  {
    var counts := Tally(Column(rows, col));
    TallyKeysAreValues(rows, col);
    forall d | d in counts
      ensures counts[d] == |Select(rows, col, d)|
    {
      OccurrencesIsSelectSize(rows, col, d);
    }
  }

  /** The keys of the tally of a column are its distinct values. */
  lemma {:induction false} TallyKeysAreValues(rows: seq<Row>, col: nat)
    requires HasField(rows, col)
    ensures Tally(Column(rows, col)).Keys == ValueSet(rows, col)
  {
    var vs := Column(rows, col);
    forall d | d in vs
      ensures d in ValueSet(rows, col)
    {
      var k :| 0 <= k < |vs| && vs[k] == d;
      assert rows[k][col] == d;
    }
  }

  // -----------------------------------------------------------------------
  // positions(), as a function of the rows

  predicate SortedByPosition(ps: seq<PosEffect>)
  {
    forall i, j :: 0 <= i < j < |ps| ==> ps[i].pos <= ps[j].pos
  }

  /**
   * One row of the loop in `positions()`: an invalid position becomes the
   * `unsigned long` -1, that is ULONG_MAX, an invalid effect size becomes
   * -1.0, std::out_of_range is not caught, and the pair is kept when both
   * numbers are above zero.
   */
  function RowStep(row: Row, posCol: nat, esCol: nat,
                   stoul: string -> Conversion<ULong>, stod: string -> Conversion<real>): Result<Option<PosEffect>>
    requires posCol < |row| && esCol < |row|
  {
    var posConv := stoul(row[posCol]);
    var esConv := stod(row[esCol]);
    if posConv.ValueOutOfRange? then Err(OutOfRange(row[posCol]))
    else if esConv.ValueOutOfRange? then Err(OutOfRange(row[esCol]))
    else
      var aPos: ULong := if posConv.Converted? then posConv.value else ToULong(-1);
      var effectSize: real := if esConv.Converted? then esConv.value else -1.0;
      Ok(if aPos > 0 && effectSize > 0.0 then Some(PosEffect(aPos, effectSize)) else None)
  }

  /**
   * The corrected row step: the same conversions and exceptions, but a
   * position that did not convert never yields a pair.
   */
  function ValidRowStep(row: Row, posCol: nat, esCol: nat,
                        stoul: string -> Conversion<ULong>, stod: string -> Conversion<real>): Result<Option<PosEffect>>
    requires posCol < |row| && esCol < |row|
  {
    var step := RowStep(row, posCol, esCol, stoul, stod);
    if step.Ok? && stoul(row[posCol]).InvalidArgument? then Ok(None) else step
  }

  /** The row step of the loop as written, or with `corrected` the corrected one. */
  function RowStepFor(row: Row, posCol: nat, esCol: nat,
                      stoul: string -> Conversion<ULong>, stod: string -> Conversion<real>,
                      corrected: bool): Result<Option<PosEffect>>
    requires posCol < |row| && esCol < |row|
  {
    if corrected then ValidRowStep(row, posCol, esCol, stoul, stod) else RowStep(row, posCol, esCol, stoul, stod)
  }

  /**
   * The loop as written keeps a pair exactly when neither conversion is out
   * of range, the effect size converted to a positive number, and the
   * position either converted to a positive number or did not convert at
   * all and became ULONG_MAX.
   */
  lemma RowStepKeeps(row: Row, posCol: nat, esCol: nat,
                     stoul: string -> Conversion<ULong>, stod: string -> Conversion<real>, p: PosEffect)
    requires posCol < |row| && esCol < |row|
    ensures RowStep(row, posCol, esCol, stoul, stod) == Ok(Some(p))
        <==> (stoul(row[posCol]) == Converted(p.pos) || (stoul(row[posCol]).InvalidArgument? && p.pos == ULONG_MAX))
             && p.pos > 0 && stod(row[esCol]) == Converted(p.effect) && p.effect > 0.0
  {
  }

  /**
   * The corrected step keeps a pair exactly when both fields converted to
   * it and both numbers are above zero.
   */
  lemma ValidRowStepKeeps(row: Row, posCol: nat, esCol: nat,
                          stoul: string -> Conversion<ULong>, stod: string -> Conversion<real>, p: PosEffect)
    requires posCol < |row| && esCol < |row|
    ensures ValidRowStep(row, posCol, esCol, stoul, stod) == Ok(Some(p))
        <==> stoul(row[posCol]) == Converted(p.pos) && p.pos > 0
             && stod(row[esCol]) == Converted(p.effect) && p.effect > 0.0
  {
  }

  /** On a row whose effect size is positive, only the position 0 is rejected. */
  lemma OnlyZeroPositionRejected(row: Row, posCol: nat, esCol: nat,
                                 stoul: string -> Conversion<ULong>, stod: string -> Conversion<real>)
    requires posCol < |row| && esCol < |row|
    requires !stoul(row[posCol]).ValueOutOfRange?
    requires stod(row[esCol]).Converted? && stod(row[esCol]).value > 0.0
    ensures RowStep(row, posCol, esCol, stoul, stod) == Ok(None) <==> stoul(row[posCol]) == Converted(0)
  {
  }

  /**
   * The pairs `positions()` collects before sorting, in row order; the first
   * row whose conversion throws std::out_of_range ends the call. With
   * `corrected`, rows use `ValidRowStep` instead of `RowStep`.
   */
  function Collect(rows: seq<Row>, posCol: nat, esCol: nat,
                   stoul: string -> Conversion<ULong>, stod: string -> Conversion<real>,
                   corrected: bool): (r: Result<seq<PosEffect>>)
    requires HasField(rows, posCol) && HasField(rows, esCol)
    ensures r.Ok? ==> |r.value| <= |rows|
    ensures r.Ok? ==> forall k :: 0 <= k < |r.value| ==> r.value[k].pos > 0 && r.value[k].effect > 0.0
  {
    if rows == [] then Ok([])
    else
      var n := |rows| - 1;
      var prev := Collect(rows[..n], posCol, esCol, stoul, stod, corrected);
      var step := RowStepFor(rows[n], posCol, esCol, stoul, stod, corrected);
      if prev.Err? then prev
      else if step.Err? then Err(step.failure)
      else if step.value.Some? then Ok(prev.value + [step.value.value])
      else prev
  }

  /** One more row: the result over `rows[..i + 1]` from the result over `rows[..i]`. */
  lemma CollectStep(rows: seq<Row>, posCol: nat, esCol: nat,
                    stoul: string -> Conversion<ULong>, stod: string -> Conversion<real>,
                    corrected: bool, i: nat)
    requires HasField(rows, posCol) && HasField(rows, esCol) && i < |rows|
    ensures
      var prev := Collect(rows[..i], posCol, esCol, stoul, stod, corrected);
      var step := RowStepFor(rows[i], posCol, esCol, stoul, stod, corrected);
      Collect(rows[..i + 1], posCol, esCol, stoul, stod, corrected)
      == if prev.Err? then prev
         else if step.Err? then Err(step.failure)
         else if step.value.Some? then Ok(prev.value + [step.value.value])
         else prev
  {
    assert rows[..i + 1][..i] == rows[..i];
    assert rows[..i + 1][i] == rows[i];
  }

  /** Once a conversion has thrown, later rows change nothing. */
  lemma {:induction false} CollectFailureSticks(rows: seq<Row>, posCol: nat, esCol: nat,
                                                stoul: string -> Conversion<ULong>, stod: string -> Conversion<real>,
                                                corrected: bool, b: nat, m: nat)
    requires HasField(rows, posCol) && HasField(rows, esCol)
    requires b <= m <= |rows|
    requires Collect(rows[..b], posCol, esCol, stoul, stod, corrected).Err?
    ensures Collect(rows[..m], posCol, esCol, stoul, stod, corrected)
         == Collect(rows[..b], posCol, esCol, stoul, stod, corrected)
    decreases m
  {
    if m > b {
      CollectFailureSticks(rows, posCol, esCol, stoul, stod, corrected, b, m - 1);
      assert rows[..m][..m - 1] == rows[..m - 1];
    }
  }

  /** A failure at the prefix `rows[..b]` is the result over all of `rows`. */
  lemma CollectAfterFailure(rows: seq<Row>, posCol: nat, esCol: nat,
                            stoul: string -> Conversion<ULong>, stod: string -> Conversion<real>,
                            corrected: bool, b: nat)
    requires HasField(rows, posCol) && HasField(rows, esCol)
    requires b <= |rows| && Collect(rows[..b], posCol, esCol, stoul, stod, corrected).Err?
    ensures Collect(rows, posCol, esCol, stoul, stod, corrected) == Collect(rows[..b], posCol, esCol, stoul, stod, corrected)
  {
    CollectFailureSticks(rows, posCol, esCol, stoul, stod, corrected, b, |rows|);
    assert rows[..|rows|] == rows;
  }

  /**
   * A row whose position is not a number but whose effect size is positive is
   * kept, at position ULONG_MAX, by the loop as written.
   */
  lemma {:induction false} InvalidPositionKept(rows: seq<Row>, posCol: nat, esCol: nat,
                                               stoul: string -> Conversion<ULong>, stod: string -> Conversion<real>,
                                               i: nat, e: real)
    requires HasField(rows, posCol) && HasField(rows, esCol)
    requires Collect(rows, posCol, esCol, stoul, stod, false).Ok?
    requires i < |rows| && stoul(rows[i][posCol]) == InvalidArgument
    requires stod(rows[i][esCol]) == Converted(e) && e > 0.0
    ensures PosEffect(ULONG_MAX, e) in Collect(rows, posCol, esCol, stoul, stod, false).value
    decreases |rows|
  {
    var n := |rows| - 1;
    if i < n {
      assert rows[..n][i] == rows[i];
      InvalidPositionKept(rows[..n], posCol, esCol, stoul, stod, i, e);
    }
  }

  /** A pair is collected exactly when the step of some row keeps it. */
  lemma {:induction false} CollectMembers(rows: seq<Row>, posCol: nat, esCol: nat,
                                          stoul: string -> Conversion<ULong>, stod: string -> Conversion<real>,
                                          corrected: bool, p: PosEffect)
    requires HasField(rows, posCol) && HasField(rows, esCol)
    requires Collect(rows, posCol, esCol, stoul, stod, corrected).Ok?
    ensures p in Collect(rows, posCol, esCol, stoul, stod, corrected).value
        <==> exists i :: 0 <= i < |rows| && RowStepFor(rows[i], posCol, esCol, stoul, stod, corrected) == Ok(Some(p))
    decreases |rows|
  {
    if rows != [] {
      var n := |rows| - 1;
      assert forall i :: 0 <= i < n ==> rows[..n][i] == rows[i];
      CollectMembers(rows[..n], posCol, esCol, stoul, stod, corrected, p);
    }
  }

  /**
   * The loop as written collects a pair exactly when some row's effect size
   * converted to it and is positive, and that row's position converted to
   * it or did not convert and the pair's position is ULONG_MAX.
   */
  lemma {:induction false} AsWrittenMembers(rows: seq<Row>, posCol: nat, esCol: nat,
                         stoul: string -> Conversion<ULong>, stod: string -> Conversion<real>, p: PosEffect)
    requires HasField(rows, posCol) && HasField(rows, esCol)
    requires Collect(rows, posCol, esCol, stoul, stod, false).Ok?
    ensures p in Collect(rows, posCol, esCol, stoul, stod, false).value
        <==> exists i :: 0 <= i < |rows|
               && (stoul(rows[i][posCol]) == Converted(p.pos) || (stoul(rows[i][posCol]).InvalidArgument? && p.pos == ULONG_MAX))
               && p.pos > 0 && stod(rows[i][esCol]) == Converted(p.effect) && p.effect > 0.0
  {
    CollectMembers(rows, posCol, esCol, stoul, stod, false, p);
    forall i | 0 <= i < |rows| {
      RowStepKeeps(rows[i], posCol, esCol, stoul, stod, p);
    }
  }

  /**
   * The corrected loop collects a pair exactly when some row's two fields
   * converted to it and both numbers are above zero.
   */
  lemma {:induction false} ValidMembers(rows: seq<Row>, posCol: nat, esCol: nat,
                     stoul: string -> Conversion<ULong>, stod: string -> Conversion<real>, p: PosEffect)
    requires HasField(rows, posCol) && HasField(rows, esCol)
    requires Collect(rows, posCol, esCol, stoul, stod, true).Ok?
    ensures p in Collect(rows, posCol, esCol, stoul, stod, true).value
        <==> exists i :: 0 <= i < |rows| && stoul(rows[i][posCol]) == Converted(p.pos) && p.pos > 0
                                         && stod(rows[i][esCol]) == Converted(p.effect) && p.effect > 0.0
  {
    CollectMembers(rows, posCol, esCol, stoul, stod, true, p);
    forall i | 0 <= i < |rows| {
      ValidRowStepKeeps(rows[i], posCol, esCol, stoul, stod, p);
    }
  }

  /**
   * The correction changes nothing when every position converts or is out
   * of range, and it never changes whether the call throws.
   */
  lemma {:induction false} CorrectionAgrees(rows: seq<Row>, posCol: nat, esCol: nat,
                                            stoul: string -> Conversion<ULong>, stod: string -> Conversion<real>)
    requires HasField(rows, posCol) && HasField(rows, esCol)
    ensures Collect(rows, posCol, esCol, stoul, stod, true).Ok?
        <==> Collect(rows, posCol, esCol, stoul, stod, false).Ok?
    ensures (forall i :: 0 <= i < |rows| ==> !stoul(rows[i][posCol]).InvalidArgument?)
        ==> Collect(rows, posCol, esCol, stoul, stod, true) == Collect(rows, posCol, esCol, stoul, stod, false)
    decreases |rows|
  {
    if rows != [] {
      var n := |rows| - 1;
      assert forall i :: 0 <= i < n ==> rows[..n][i] == rows[i];
      CorrectionAgrees(rows[..n], posCol, esCol, stoul, stod);
    }
  }

  /** `std::sort` by position: sorted, and the same pairs. */
  method SortByPosition(a: array<PosEffect>)
    modifies a
    ensures SortedByPosition(a[..])
    ensures multiset(a[..]) == old(multiset(a[..]))
  {
    var i := 0;
    while i < a.Length
      invariant 0 <= i <= a.Length
      invariant SortedByPosition(a[..i])
      invariant multiset(a[..]) == old(multiset(a[..]))
    {
      Sink(a, i);
      i := i + 1;
    }
    assert a[..i] == a[..];
  }

  /** One insertion step: moves `a[i]` down into the sorted prefix `a[..i]`. */
  method Sink(a: array<PosEffect>, i: nat)
    modifies a
    requires i < a.Length && SortedByPosition(a[..i])
    ensures SortedByPosition(a[..i + 1])
    ensures multiset(a[..i + 1]) == old(multiset(a[..i + 1]))
    ensures a[i + 1..] == old(a[i + 1..])
    ensures multiset(a[..]) == old(multiset(a[..]))
  {
    ghost var start := a[..];
    var j := i;
    while j > 0 && a[j - 1].pos > a[j].pos
      invariant 0 <= j <= i
      invariant Sinking(a[..], i, j)
      invariant RearrangedBelow(start, a[..], i + 1)
    {
      SwapDown(a, start, i, j);
      j := j - 1;
    }
    SinkingDone(a[..], i, j);
    RearrangedBelowWhole(start, a[..], i + 1);
  }

  /** One step of `Sink`: the sinking element trades places with its larger left neighbour. */
  method SwapDown(a: array<PosEffect>, ghost start: seq<PosEffect>, i: nat, j: nat)
    modifies a
    requires 0 < j <= i < a.Length && a[j - 1].pos > a[j].pos
    requires Sinking(a[..], i, j) && RearrangedBelow(start, a[..], i + 1)
    ensures Sinking(a[..], i, j - 1) && RearrangedBelow(start, a[..], i + 1)
  {
    SinkingStep(a[..], i, j);
    SwapWithin(start, a[..], j - 1, j, i + 1);
    Swap(a, j - 1, j);
  }

  /**
   * The state inside `Sink` while the element that started at `i` sits at
   * `j`: apart from position `j` the prefix up to `i` is ordered, and the
   * element at `j` is no larger than anything after it up to `i`.
   */
  ghost predicate Sinking(s: seq<PosEffect>, i: nat, j: nat)
    requires j <= i < |s|
  {
    (forall x, y :: 0 <= x < y <= i && x != j && y != j ==> s[x].pos <= s[y].pos) &&
    (forall y :: j < y <= i ==> s[j].pos <= s[y].pos)
  }

  /** Swapping the sinking element with a larger left neighbour moves it one place down. */
  lemma SinkingStep(s: seq<PosEffect>, i: nat, j: nat)
    requires 0 < j <= i < |s| && Sinking(s, i, j) && s[j - 1].pos > s[j].pos
    ensures Sinking(s[j - 1 := s[j]][j := s[j - 1]], i, j - 1)
  {
  }

  /** Once the left neighbour is no larger, the whole prefix up to `i` is ordered. */
  lemma SinkingDone(s: seq<PosEffect>, i: nat, j: nat)
    requires j <= i < |s| && Sinking(s, i, j) && (j == 0 || s[j - 1].pos <= s[j].pos)
    ensures SortedByPosition(s[..i + 1])
  {
  }

  /** `t` holds the elements of `s` below `n`, possibly reordered, and agrees with `s` from `n` on. */
  ghost predicate RearrangedBelow(s: seq<PosEffect>, t: seq<PosEffect>, n: nat)
  {
    n <= |s| && n <= |t| && multiset(t[..n]) == multiset(s[..n]) && t[n..] == s[n..]
  }

  /** Exchanging two elements below `n` keeps a rearrangement below `n` one. */
  lemma SwapWithin(s: seq<PosEffect>, t: seq<PosEffect>, x: nat, y: nat, n: nat)
    requires x < n && y < n && RearrangedBelow(s, t, n)
    ensures RearrangedBelow(s, t[x := t[y]][y := t[x]], n)
  {
    assert t[x := t[y]][y := t[x]][..n] == t[..n][x := t[y]][y := t[x]];
    assert t[x := t[y]][y := t[x]][n..] == t[n..];
  }

  /** A rearrangement below `n` has the same elements overall. */
  lemma RearrangedBelowWhole(s: seq<PosEffect>, t: seq<PosEffect>, n: nat)
    requires RearrangedBelow(s, t, n)
    ensures multiset(t) == multiset(s)
  {
    assert s == s[..n] + s[n..];
    assert t == t[..n] + t[n..];
  }

  /** Exchanges two elements; the array keeps the same elements. */
  method Swap(a: array<PosEffect>, x: nat, y: nat)
    modifies a
    requires x < a.Length && y < a.Length
    ensures a[..] == old(a[..])[x := old(a[y])][y := old(a[x])]
  {
    a[x], a[y] := a[y], a[x];
  }

  /** Sorting a sequence through an array, as `std::sort` does on the vector. */
  method Sorted(ps: seq<PosEffect>) returns (r: seq<PosEffect>)
    ensures SortedByPosition(r)
    ensures multiset(r) == multiset(ps)
  {
    var a := new PosEffect[|ps|](k requires 0 <= k < |ps| => ps[k]);
    assert a[..] == ps;
    SortByPosition(a);
    r := a[..];
  }

  // -----------------------------------------------------------------------
  // The catalog

  /** `GWAS`: the header, the column index and the rows. */
  class Gwas {
    var header: seq<string>
    var indexOf: map<string, nat>
    var data: seq<Row>

    /** The (header, rows) constructor. */
    constructor (aHeader: seq<string>, aData: seq<Row>)
      ensures header == aHeader && data == aData
      ensures indexOf == HeaderIndex(aHeader)
    {
      header := aHeader;
      data := aData;
      indexOf := map[];
      new;
      InitHeaderIndexMap();
      IndexFromEmpty(header);
    }

    /**
     * The file constructor once the file's lines are read: the header is the
     * first line split on tabs, and every later line becomes one row, in
     * order. Reading the lines asserts that there is at least one.
     */
    constructor FromLines(lines: seq<string>)
      requires |lines| > 0
      ensures header == TabSplit.Tokens(lines[0])
      ensures indexOf == HeaderIndex(header)
      ensures |data| == |lines| - 1
      ensures forall k :: 0 <= k < |data| ==> data[k] == TabSplit.Tokens(lines[k + 1])
    {
      var h := TabSplit.GetTokens(lines[0]);
      header := h;
      data := [];
      indexOf := map[];
      new;
      InitHeaderIndexMap();
      IndexFromEmpty(header);
      var i := 1;
      while i < |lines|
        invariant 1 <= i <= |lines|
        invariant header == TabSplit.Tokens(lines[0]) && indexOf == HeaderIndex(header)
        invariant |data| == i - 1
        invariant forall k :: 0 <= k < |data| ==> data[k] == TabSplit.Tokens(lines[k + 1])
      {
        var tokens := TabSplit.GetTokens(lines[i]);
        data := data + [tokens];
        i := i + 1;
      }
    }

    /** `initHeaderIndexMap`: records every header name at its position, later ones overwriting. */
    method InitHeaderIndexMap()
      modifies this`indexOf
      ensures indexOf == old(indexOf) + HeaderIndex(header)
    {
      var i := 0;
      while i < |header|
        invariant 0 <= i <= |header|
        invariant indexOf == old(indexOf) + HeaderIndex(header[..i])
      {
        IndexStep(old(indexOf), header, i);
        indexOf := indexOf[header[i] := i];
        i := i + 1;
      }
      assert header[..i] == header;
    }

    /** `size`: the number of associations. */
    function Size(): nat
      reads this
    {
      |data|
    }

    /** `integrityCheck`: passes exactly when every row has one field per header name. */
    method IntegrityCheck() returns (ok: bool)
      ensures ok <==> forall k :: 0 <= k < |data| ==> |data[k]| == |header|
    {
      for i := 0 to |data|
        invariant forall k :: 0 <= k < i ==> |data[k]| == |header|
      {
        if |data[i]| != |header| {
          return false;
        }
      }
      return true;
    }

    /**
     * `diseases`: the number of rows per `DISEASE/TRAIT` value. The column is
     * looked up inside the loop, so an empty table gives no counts even
     * without that column.
     */
    method Diseases() returns (r: Result<map<string, nat>>)
      requires DISEASE_TRAIT in indexOf ==> HasField(data, indexOf[DISEASE_TRAIT])
      ensures DISEASE_TRAIT in indexOf ==> r == Ok(Tally(Column(data, indexOf[DISEASE_TRAIT])))
      ensures DISEASE_TRAIT !in indexOf ==>
        r == if |data| == 0 then Ok(map[]) else Err(UnknownColumn(DISEASE_TRAIT))
    {
      var counts: map<string, nat> := map[];
      for i := 0 to |data|
        invariant i > 0 ==> DISEASE_TRAIT in indexOf
        invariant DISEASE_TRAIT !in indexOf ==> counts == map[]
        invariant DISEASE_TRAIT in indexOf ==> counts == Tally(Column(data[..i], indexOf[DISEASE_TRAIT]))
      {
        if DISEASE_TRAIT !in indexOf {
          return Err(UnknownColumn(DISEASE_TRAIT));
        }
        var col := indexOf[DISEASE_TRAIT];
        var d := data[i][col];
        TallyStep(data, col, i);
        counts := counts[d := (if d in counts then counts[d] else 0) + 1];
      }
      if DISEASE_TRAIT in indexOf {
        assert data[..|data|] == data;
      }
      return Ok(counts);
    }

    /**
     * The count `printSummary` prints: how many diseases have more than nine
     * associations. It is at most the number of distinct diseases.
     */
    method FrequentDiseaseCount() returns (r: Result<nat>)
      requires DISEASE_TRAIT in indexOf ==> HasField(data, indexOf[DISEASE_TRAIT])
      ensures r.Err? <==> |data| > 0 && DISEASE_TRAIT !in indexOf
      ensures DISEASE_TRAIT in indexOf ==>
        var counts := Tally(Column(data, indexOf[DISEASE_TRAIT]));
        r == Ok(|Frequent(counts)|) && r.value <= |counts.Keys|
      ensures DISEASE_TRAIT in indexOf ==>
        var col := indexOf[DISEASE_TRAIT];
        r == Ok(|set d | d in ValueSet(data, col) && |Select(data, col, d)| > 9|)
      ensures DISEASE_TRAIT !in indexOf && |data| == 0 ==> r == Ok(0)
    {
      var d := Diseases();
      if d.Err? {
        return Err(d.failure);
      }
      var cnt := CountFrequent(d.value);
      FrequentAtMostDistinct(d.value);
      if DISEASE_TRAIT in indexOf {
        FrequentAreLargeSubsets(data, indexOf[DISEASE_TRAIT]);
      }
      r := Ok(cnt);
    }

    /**
     * `subsetter`: a new catalog with a copy of the header and the rows
     * whose column `colName` holds `value`, in order; an unknown column name
     * throws from `index_of.at`.
     */
    method Subsetter(colName: string, value: string) returns (r: Result<Gwas>)
      requires colName in indexOf ==> HasField(data, indexOf[colName])
      ensures colName !in indexOf ==> r == Err(UnknownColumn(colName))
      ensures colName in indexOf ==>
        && r.Ok? && fresh(r.value)
        && r.value.header == header
        && r.value.indexOf == HeaderIndex(header)
        && r.value.data == Select(data, indexOf[colName], value)
    {
      if colName !in indexOf {
        return Err(UnknownColumn(colName));
      }
      var nameIdx := indexOf[colName];
      var newData: seq<Row> := [];
      for i := 0 to |data|
        invariant newData == Select(data[..i], nameIdx, value)
      {
        assert data[..i + 1][..i] == data[..i];
        if data[i][nameIdx] == value {
          newData := newData + [data[i]];
        }
      }
      assert data[..|data|] == data;
      var newHeader := header;
      var g := new Gwas(newHeader, newData);
      r := Ok(g);
    }

    /** `get_disease`: the subset for one `DISEASE/TRAIT` value. */
    method GetDisease(disName: string) returns (r: Result<Gwas>)
      requires DISEASE_TRAIT in indexOf ==> HasField(data, indexOf[DISEASE_TRAIT])
      ensures DISEASE_TRAIT !in indexOf ==> r == Err(UnknownColumn(DISEASE_TRAIT))
      ensures DISEASE_TRAIT in indexOf ==>
        && r.Ok? && fresh(r.value)
        && r.value.header == header
        && r.value.indexOf == HeaderIndex(header)
        && r.value.data == Select(data, indexOf[DISEASE_TRAIT], disName)
    {
      r := Subsetter(DISEASE_TRAIT, disName);
    }

    /** `getChr`: the subset for one `CHR_ID` value. */
    method GetChr(chr: string) returns (r: Result<Gwas>)
      requires CHR_ID in indexOf ==> HasField(data, indexOf[CHR_ID])
      ensures CHR_ID !in indexOf ==> r == Err(UnknownColumn(CHR_ID))
      ensures CHR_ID in indexOf ==>
        && r.Ok? && fresh(r.value)
        && r.value.header == header
        && r.value.indexOf == HeaderIndex(header)
        && r.value.data == Select(data, indexOf[CHR_ID], chr)
    {
      r := Subsetter(CHR_ID, chr);
    }

    /**
     * `positions`, as written: the pairs with a position and an effect size
     * above zero, sorted by position. Because -1 stored in an `unsigned long`
     * is ULONG_MAX, a position that is not a number passes `a_pos > 0`.
     */
    method Positions(stoul: string -> Conversion<ULong>, stod: string -> Conversion<real>)
      returns (r: Result<seq<PosEffect>>)
      requires CHR_POS in indexOf ==> HasField(data, indexOf[CHR_POS])
      requires EFFECT_SIZE in indexOf ==> HasField(data, indexOf[EFFECT_SIZE])
      ensures CHR_POS !in indexOf ==> r == Err(UnknownColumn(CHR_POS))
      ensures CHR_POS in indexOf && EFFECT_SIZE !in indexOf ==> r == Err(UnknownColumn(EFFECT_SIZE))
      ensures CHR_POS in indexOf && EFFECT_SIZE in indexOf ==>
        var kept := Collect(data, indexOf[CHR_POS], indexOf[EFFECT_SIZE], stoul, stod, false);
        && (kept.Err? ==> r == kept)
        && (kept.Ok? ==> r.Ok? && SortedByPosition(r.value) && multiset(r.value) == multiset(kept.value))
      ensures r.Ok? ==> |r.value| <= Size()
    {
      if CHR_POS !in indexOf {
        return Err(UnknownColumn(CHR_POS));
      }
      var idx := indexOf[CHR_POS];
      if EFFECT_SIZE !in indexOf {
        return Err(UnknownColumn(EFFECT_SIZE));
      }
      var esI := indexOf[EFFECT_SIZE];
      var pos: seq<PosEffect> := [];
      for i := 0 to |data|
        invariant Collect(data[..i], idx, esI, stoul, stod, false) == Ok(pos)
      {
        CollectStep(data, idx, esI, stoul, stod, false, i);
        var row := data[i];
        var aPos: ULong;
        match stoul(row[idx]) {
          case Converted(v) => aPos := v;
          case InvalidArgument => aPos := ToULong(-1);
          case ValueOutOfRange =>
            r := Err(OutOfRange(row[idx]));
            CollectAfterFailure(data, idx, esI, stoul, stod, false, i + 1);
            return;
        }
        var effectSize: real;
        match stod(row[esI]) {
          case Converted(v) => effectSize := v;
          case InvalidArgument => effectSize := -1.0;
          case ValueOutOfRange =>
            r := Err(OutOfRange(row[esI]));
            CollectAfterFailure(data, idx, esI, stoul, stod, false, i + 1);
            return;
        }
        assert RowStep(row, idx, esI, stoul, stod)
            == Ok(if aPos > 0 && effectSize > 0.0 then Some(PosEffect(aPos, effectSize)) else None);
        if aPos > 0 && effectSize > 0.0 {
          pos := pos + [PosEffect(aPos, effectSize)];
        }
      }
      assert data[..|data|] == data;
      var sorted := Sorted(pos);
      assert |sorted| == |multiset(sorted)| == |multiset(pos)| == |pos|;
      r := Ok(sorted);
    }

    /**
     * `positions` with the invalid-position sentinel honoured: a row is kept
     * only when its position converted to a number above zero and its
     * effect size converted to a number above zero.
     */
    method ValidPositions(stoul: string -> Conversion<ULong>, stod: string -> Conversion<real>)
      returns (r: Result<seq<PosEffect>>)
      requires CHR_POS in indexOf ==> HasField(data, indexOf[CHR_POS])
      requires EFFECT_SIZE in indexOf ==> HasField(data, indexOf[EFFECT_SIZE])
      ensures CHR_POS !in indexOf ==> r == Err(UnknownColumn(CHR_POS))
      ensures CHR_POS in indexOf && EFFECT_SIZE !in indexOf ==> r == Err(UnknownColumn(EFFECT_SIZE))
      ensures CHR_POS in indexOf && EFFECT_SIZE in indexOf ==>
        var kept := Collect(data, indexOf[CHR_POS], indexOf[EFFECT_SIZE], stoul, stod, true);
        && (kept.Err? ==> r == kept)
        && (kept.Ok? ==> r.Ok? && SortedByPosition(r.value) && multiset(r.value) == multiset(kept.value))
      ensures r.Ok? ==> |r.value| <= Size()
    {
      if CHR_POS !in indexOf {
        return Err(UnknownColumn(CHR_POS));
      }
      var idx := indexOf[CHR_POS];
      if EFFECT_SIZE !in indexOf {
        return Err(UnknownColumn(EFFECT_SIZE));
      }
      var esI := indexOf[EFFECT_SIZE];
      var pos: seq<PosEffect> := [];
      for i := 0 to |data|
        invariant Collect(data[..i], idx, esI, stoul, stod, true) == Ok(pos)
      {
        CollectStep(data, idx, esI, stoul, stod, true, i);
        var step := ValidRowStep(data[i], idx, esI, stoul, stod);
        if step.Err? {
          r := Err(step.failure);
          CollectAfterFailure(data, idx, esI, stoul, stod, true, i + 1);
          return;
        }
        if step.value.Some? {
          pos := pos + [step.value.value];
        }
      }
      assert data[..|data|] == data;
      var sorted := Sorted(pos);
      assert |sorted| == |multiset(sorted)| == |multiset(pos)| == |pos|;
      r := Ok(sorted);
    }

    /** `uniqueRSIDs`: the distinct `SNPS` values that look like an RSID. */
    method UniqueRsids() returns (r: Result<set<string>>)
      requires SNPS in indexOf ==> HasField(data, indexOf[SNPS])
      ensures SNPS !in indexOf ==> r == Err(UnknownColumn(SNPS))
      ensures SNPS in indexOf ==> r.Ok?
      ensures r.Ok? ==> forall id :: id in r.value ==> IsRsid(id)
      ensures r.Ok? ==> forall k :: 0 <= k < |data| && IsRsid(data[k][indexOf[SNPS]]) ==> data[k][indexOf[SNPS]] in r.value
      ensures r.Ok? ==> forall id :: id in r.value ==> exists k :: 0 <= k < |data| && data[k][indexOf[SNPS]] == id
    {
      if SNPS !in indexOf {
        return Err(UnknownColumn(SNPS));
      }
      var rsidI := indexOf[SNPS];
      var rsids: set<string> := {};
      for i := 0 to |data|
        invariant forall id :: id in rsids ==> IsRsid(id)
        invariant forall k :: 0 <= k < i && IsRsid(data[k][rsidI]) ==> data[k][rsidI] in rsids
        invariant forall id :: id in rsids ==> exists k :: 0 <= k < i && data[k][rsidI] == id
      {
        var rsid := data[i][rsidI];
        if IsRsid(rsid) {
          rsids := rsids + {rsid};
        }
      }
      r := Ok(rsids);
    }
  }

  /** The loop of `printSummary` over the disease counts, in the map's own order. */
  method CountFrequent(counts: map<string, nat>) returns (cnt: nat)
    ensures cnt == |Frequent(counts)|
  {
    cnt := 0;
    var rest := counts.Keys;
    while rest != {}
      invariant rest <= counts.Keys
      invariant cnt == |Frequent(counts) - rest|
      decreases |rest|
    {
      var k :| k in rest;
      FrequentStep(counts, rest, k);
      if counts[k] > 9 {
        cnt := cnt + 1;
      }
      rest := rest - {k};
    }
    assert Frequent(counts) - rest == Frequent(counts);
  }

  /** No more diseases are frequent than there are diseases. */
  lemma FrequentAtMostDistinct(counts: map<string, nat>)
    ensures |Frequent(counts)| <= |counts.Keys|
  {
    SubsetSize(Frequent(counts), counts.Keys);
  }

  lemma {:induction false} SubsetSize(a: set<string>, b: set<string>)
    requires a <= b
    ensures |a| <= |b|
    decreases |b|
  {
    if a != {} {
      var x :| x in a;
      SubsetSize(a - {x}, b - {x});
    }
  }

  lemma FrequentStep(counts: map<string, nat>, rest: set<string>, k: string)
    requires k in rest && rest <= counts.Keys
    ensures |Frequent(counts) - (rest - {k})|
         == |Frequent(counts) - rest| + (if counts[k] > 9 then 1 else 0)
  {
    var done := Frequent(counts) - rest;
    if counts[k] > 9 {
      assert Frequent(counts) - (rest - {k}) == done + {k};
    } else {
      assert Frequent(counts) - (rest - {k}) == done;
    }
  }

  /** One step of `diseases()`: counting row `i` extends the tally to `rows[..i + 1]`. */
  lemma TallyStep(rows: seq<Row>, col: nat, i: nat)
    requires HasField(rows, col) && i < |rows|
    ensures
      var m := Tally(Column(rows[..i], col));
      var d := rows[i][col];
      Tally(Column(rows[..i + 1], col)) == m[d := (if d in m then m[d] else 0) + 1]
  {
    var vs := Column(rows[..i + 1], col);
    assert rows[..i + 1][..i] == rows[..i];
    assert vs[..|vs| - 1] == Column(rows[..i], col);
  }
}
