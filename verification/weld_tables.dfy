/**
 * The weld-table normaliser of the OCR route: filter_table_data keeps the
 * columns a weld engineer needs, update_table_format reshapes them (one row
 * per weld, multipliers stripped from lengths, overlaps summed, blanks
 * dropped). Both work on the records of one frame, a list of rows whose cells
 * are strings or None. A Python exception is modelled as the result None.
 */
module WeldTables {
  import opened Wrappers
  import opened Text
  import opened Tables

  // ---------------------------------------------------------------------------
  // Column keywords

  /** A header naming a pair of columns: itself and its right neighbour are kept. */
  predicate IsPaired(header: string)
  {
    ContainsIgnoringCase(header, "weld no") || ContainsIgnoringCase(header, "overlapping")
    || ContainsIgnoringCase(header, "ueberlappung")
  }

  /** A header naming a single column worth keeping. */
  predicate IsSingle(header: string)
  {
    ContainsIgnoringCase(header, "total weld length") || ContainsIgnoringCase(header, "weld gap")
    || ContainsIgnoringCase(header, "schweiss")
  }

  /** How the column scan treats a header: the paired keywords are tested first. */
  datatype Kind = PairedKeyword | SingleKeyword | Other

  function KindOf(header: string): Kind
  {
    if IsPaired(header) then PairedKeyword
    else if IsSingle(header) then SingleKeyword
    else Other
  }

  /** The kind of each header cell; None for a None cell, on which `.lower()` raises. */
  function Kinds(h: Row): (ks: seq<Option<Kind>>)
    ensures |ks| == |h|
    ensures forall k :: 0 <= k < |h| ==> ks[k] == (if h[k].Missing? then None else Some(KindOf(h[k].s)))
  {
    seq(|h|, k requires 0 <= k < |h| => if h[k].Missing? then None else Some(KindOf(h[k].s)))
  }

  /** The header positions the column scan looks at: a paired header's neighbour is skipped. */
  predicate Visited(ks: seq<Option<Kind>>, k: nat)
    requires k <= |ks|
  {
    k == 0 || !(Visited(ks, k - 1) && ks[k - 1] == Some(PairedKeyword))
  }

  function Prepend(bs: seq<bool>, o: Option<seq<bool>>): Option<seq<bool>>
  {
    if o.Some? then Some(bs + o.value) else None
  }

  lemma PrependNest(a: seq<bool>, b: seq<bool>, o: Option<seq<bool>>)
    ensures Prepend(a, Prepend(b, o)) == Prepend(a + b, o)
  {
    if o.Some? {
      assert a + (b + o.value) == (a + b) + o.value;
    }
  }

  /** The keep-mask the scan builds from position i on; None when it reads a None header. */
  function MaskFrom(ks: seq<Option<Kind>>, i: nat): Option<seq<bool>>
    decreases |ks| - i
  {
    if i >= |ks| then Some([])
    else if ks[i].None? then None
    else if ks[i].value == PairedKeyword then Prepend([true, true], MaskFrom(ks, i + 2))
    else Prepend([ks[i].value == SingleKeyword], MaskFrom(ks, i + 1))
  }

  /**
   * What the mask says about each column: a visited column is kept iff its header
   * names a keyword; a skipped column is always kept, as the partner of the paired
   * header just before it.
   */
  lemma {:induction false} MaskFromMeaning(ks: seq<Option<Kind>>, i: nat, m: seq<bool>)
    requires i <= |ks| && Visited(ks, i) && MaskFrom(ks, i) == Some(m)
    ensures |ks| - i <= |m| <= |ks| - i + 1
    ensures forall k :: i <= k < |ks| && Visited(ks, k) ==> ks[k].Some? && (m[k - i] <==> ks[k] != Some(Other))
    ensures forall k :: i <= k < |ks| && !Visited(ks, k) ==>
      m[k - i] && Visited(ks, k - 1) && ks[k - 1] == Some(PairedKeyword)
    decreases |ks| - i
  {
    if i < |ks| {
      if ks[i].value == PairedKeyword {
        var rest := MaskFrom(ks, i + 2).value;
        assert m == [true, true] + rest;
        assert !Visited(ks, i + 1);
        if i + 2 <= |ks| {
          assert Visited(ks, i + 2);
          MaskFromMeaning(ks, i + 2, rest);
        }
      } else {
        var rest := MaskFrom(ks, i + 1).value;
        assert m == [ks[i].value == SingleKeyword] + rest;
        assert Visited(ks, i + 1);
        MaskFromMeaning(ks, i + 1, rest);
      }
    }
  }

  /** The scan raises exactly when it looks at a None header cell. */
  lemma {:induction false} MaskFromCrash(ks: seq<Option<Kind>>, i: nat)
    requires i <= |ks| && Visited(ks, i)
    ensures MaskFrom(ks, i).None? <==> exists k :: i <= k < |ks| && Visited(ks, k) && ks[k].None?
    decreases |ks| - i
  {
    if i < |ks| && ks[i].Some? {
      if ks[i].value == PairedKeyword {
        assert !Visited(ks, i + 1);
        if i + 2 <= |ks| {
          assert Visited(ks, i + 2);
          MaskFromCrash(ks, i + 2);
        }
      } else {
        assert Visited(ks, i + 1);
        MaskFromCrash(ks, i + 1);
      }
    }
  }

  /** The entries of row whose mask bit is set, in order. */
  function KeepByMask(row: Row, m: seq<bool>): (r: Row)
    requires |row| <= |m|
    ensures |r| <= |row|
    ensures forall v :: v in r ==> exists k :: 0 <= k < |row| && m[k] && row[k] == v
    ensures (forall k :: 0 <= k < |row| ==> m[k]) ==> r == row
  {
    if row == [] then []
    else
      var last := |row| - 1;
      KeepByMask(row[..last], m) + (if m[last] then [row[last]] else [])
  }
  /**
   * Masking a concatenation masks each part with its own stretch of the mask,
   * so the kept cells keep their order and their repetitions.
   */
  lemma {:induction false} KeepByMaskConcat(a: Row, b: Row, m: seq<bool>)
    requires |a| + |b| <= |m|
    decreases |b|
    ensures KeepByMask(a + b, m) == KeepByMask(a, m) + KeepByMask(b, m[|a|..])
  {
    if b == [] {
      assert a + b == a;
    } else {
      var last := |b| - 1;
      assert (a + b)[..|a + b| - 1] == a + b[..last];
      assert (a + b)[|a + b| - 1] == b[last];
      assert m[|a| + last] == m[|a|..][last];
      KeepByMaskConcat(a, b[..last], m);
    }
  }

  /** A single cell is kept exactly when the first mask bit is set. */
  lemma KeepByMaskOne(x: Value, m: seq<bool>)
    requires 1 <= |m|
    ensures KeepByMask([x], m) == if m[0] then [x] else []
  {
    assert [x][..0] == [];
  }


  /** filter_table_data: [] stays []; otherwise every row keeps the columns the header selects. */
  function FilterSpec(g: Grid): Option<Grid>
  {
    if g == [] then Some([])
    else
      var mask := MaskFrom(Kinds(g[0]), 0);
      if mask.None? then None
      else if exists k :: 0 <= k < |g| && |g[k]| > |mask.value| then None
      else Some(MaskRows(g, mask.value))
  }

  /** Every row cut down to its masked cells. */
  function MaskRows(g: Grid, m: seq<bool>): (r: Grid)
    requires forall k :: 0 <= k < |g| ==> |g[k]| <= |m|
    ensures |r| == |g| && forall k :: 0 <= k < |g| ==> r[k] == KeepByMask(g[k], m)
  {
    seq(|g|, k requires 0 <= k < |g| => KeepByMask(g[k], m))
  }

  /**
   * The header scan of filter_table_data over the headers' kinds: one mask bit
   * per visited column, two for a paired header, and a None header raises.
   */
  method BuildMask(ks: seq<Option<Kind>>) returns (r: Option<seq<bool>>)
    ensures r == MaskFrom(ks, 0)
  {
    var mask: seq<bool> := [];
    var i := 0;
    assert MaskFrom(ks, 0).Some? ==> [] + MaskFrom(ks, 0).value == MaskFrom(ks, 0).value;
    while i < |ks|
      invariant i <= |ks| + 1
      invariant MaskFrom(ks, 0) == Prepend(mask, MaskFrom(ks, i))
      decreases |ks| + 1 - i
    {
      if ks[i].None? {
        return None;
      }
      var kind := ks[i].value;
      if kind == PairedKeyword {
        PrependNest(mask, [true, true], MaskFrom(ks, i + 2));
        mask := mask + [true, true];
        i := i + 1;
      } else if kind == SingleKeyword {
        PrependNest(mask, [true], MaskFrom(ks, i + 1));
        mask := mask + [true];
      } else {
        PrependNest(mask, [false], MaskFrom(ks, i + 1));
        mask := mask + [false];
      }
      i := i + 1;
    }
    assert mask + [] == mask;
    return Some(mask);
  }

  /** One row of filter_table_data: its masked cells; a cell beyond the mask raises. */
  method KeepColumns(row: Row, mask: seq<bool>) returns (r: Option<Row>)
    ensures r.None? <==> |row| > |mask|
    ensures r.Some? ==> r.value == KeepByMask(row, mask)
  {
    var data: Row := [];
    for index := 0 to |row|
      invariant index <= |mask| && data == KeepByMask(row[..index], mask)
    {
      if index >= |mask| {
        return None;
      }
      if mask[index] {
        data := data + [row[index]];
      }
      assert row[..index + 1][..index] == row[..index];
    }
    assert row[..|row|] == row;
    return Some(data);
  }

  /**
   * filter_table_data: scan the header once to build the keep-mask, then copy
   * each row's masked cells. A None header cell on the scan path, or a row
   * longer than the mask, raises.
   */
  method FilterTableData(g: Grid) returns (r: Option<Grid>)
    ensures r == FilterSpec(g)
  {
    if |g| == 0 {
      return Some([]);
    }
    var mask := BuildMask(Kinds(g[0]));
    if mask.None? {
      return None;
    }
    r := KeepAllColumns(g, mask.value);
  }

  /** The row loop of filter_table_data: each row's masked cells; a row longer than the mask raises. */
  method KeepAllColumns(g: Grid, mask: seq<bool>) returns (r: Option<Grid>)
    ensures r.None? <==> exists k :: 0 <= k < |g| && |g[k]| > |mask|
    ensures r.Some? ==> r.value == MaskRows(g, mask)
  {
    var out: Grid := [];
    for k := 0 to |g|
      invariant forall k' :: 0 <= k' < k ==> |g[k']| <= |mask|
      invariant |out| == k && forall k' :: 0 <= k' < k ==> out[k'] == KeepByMask(g[k'], mask)
    {
      var data := KeepColumns(g[k], mask);
      if data.None? {
        return None;
      }
      out := out + [data.value];
    }
    return Some(out);
  }

  /** The filter keeps the row count, and no row grows. */
  lemma FilterKeepsRows(g: Grid)
    requires FilterSpec(g).Some?
    ensures |FilterSpec(g).value| == |g|
    ensures forall k :: 0 <= k < |g| ==> |FilterSpec(g).value[k]| <= |g[k]|
  {
  }

  /** The filter raises exactly when a visited header is None or a row outgrows the mask. */
  lemma FilterCrash(g: Grid)
    requires g != []
    ensures FilterSpec(g).None? <==>
      (exists k :: 0 <= k < |g[0]| && Visited(Kinds(g[0]), k) && g[0][k].Missing?)
      || (MaskFrom(Kinds(g[0]), 0).Some? && exists k :: 0 <= k < |g| && |g[k]| > |MaskFrom(Kinds(g[0]), 0).value|)
  {
    MaskFromCrash(Kinds(g[0]), 0);
  }

  // ---------------------------------------------------------------------------
  // find_col_index

  datatype ColSearch = Found(i: nat) | NotFound | Crash

  /** The first column from i on whose header contains the keyword; None before a match raises. */
  function FindFrom(row: Row, keyword: string, i: nat): (r: ColSearch)
    ensures r.Found? ==> i <= r.i < |row| && row[r.i].Text? && ContainsIgnoringCase(row[r.i].s, keyword)
    ensures r.Found? ==> forall k :: i <= k < r.i ==> row[k].Text? && !ContainsIgnoringCase(row[k].s, keyword)
    ensures r.NotFound? ==> forall k :: i <= k < |row| ==> row[k].Text? && !ContainsIgnoringCase(row[k].s, keyword)
    ensures r.Crash? ==> exists k :: (i <= k < |row| && row[k].Missing?
      && forall k' :: i <= k' < k ==> row[k'].Text? && !ContainsIgnoringCase(row[k'].s, keyword))
    decreases |row| - i
  {
    if i >= |row| then NotFound
    else if row[i].Missing? then Crash
    else if ContainsIgnoringCase(row[i].s, keyword) then Found(i)
    else FindFrom(row, keyword, i + 1)
  }

  function FindColIndex(row: Row, keyword: string): ColSearch
  {
    FindFrom(row, keyword, 0)
  }

  /** The overlap column: the first 'overlapping' header, else the first 'ueberlappung' one. */
  function OverlapColumn(header: Row): ColSearch
  {
    var o := FindColIndex(header, "overlapping");
    if o.NotFound? then FindColIndex(header, "ueberlappung") else o
  }

  // ---------------------------------------------------------------------------
  // Splitting rows that hold two weld numbers

  /** Reading the weld cells of this row cannot go out of range. */
  predicate SplitSafeRow(row: Row, w: nat)
  {
    w < |row| && (row[w] != Text("") ==> w + 1 < |row|)
  }

  predicate SplitSafe(rows: Grid, w: nat)
  {
    forall k :: 1 <= k < |rows| ==> SplitSafeRow(rows[k], w)
  }

  /** Both weld cells of the row are filled (None counts as filled). */
  predicate HoldsTwoWelds(row: Row, w: nat)
    requires SplitSafeRow(row, w)
  {
    row[w] != Text("") && row[w + 1] != Text("")
  }

  /**
   * A row with two weld numbers becomes two rows: the first keeps the left weld
   * (right one blanked), the second keeps the right weld (left one blanked).
   */
  function Piece(row: Row, w: nat): (r: Grid)
    requires SplitSafeRow(row, w)
    ensures HoldsTwoWelds(row, w) ==> (|r| == 2
      && r[0] == row[w + 1 := Text("")] && r[1] == row[w := Text("")])
    ensures !HoldsTwoWelds(row, w) ==> r == [row]
  {
    if HoldsTwoWelds(row, w) then [row[w + 1 := Text("")], row[w := Text("")]] else [row]
  }

  function SplitAll(rows: Grid, w: nat): Grid
    requires forall k :: 0 <= k < |rows| ==> SplitSafeRow(rows[k], w)
  {
    if rows == [] then []
    else SplitAll(rows[..|rows| - 1], w) + Piece(rows[|rows| - 1], w)
  }

  function CountSplits(rows: Grid, w: nat): nat
    requires forall k :: 0 <= k < |rows| ==> SplitSafeRow(rows[k], w)
  {
    if rows == [] then 0
    else CountSplits(rows[..|rows| - 1], w) + (if HoldsTwoWelds(rows[|rows| - 1], w) then 1 else 0)
  }

  /** Splitting adds one row per row that held two welds. */
  lemma {:induction false} SplitAllLength(rows: Grid, w: nat)
    requires forall k :: 0 <= k < |rows| ==> SplitSafeRow(rows[k], w)
    ensures |SplitAll(rows, w)| == |rows| + CountSplits(rows, w)
  {
    if rows != [] {
      SplitAllLength(rows[..|rows| - 1], w);
    }
  }

  /**
   * The split loop of update_table_format: walk the data rows, replace each row
   * holding two welds by its two pieces, and step over the inserted piece.
   */
  method SplitWeldRows(rows: Grid, w: nat) returns (out: Grid)
    requires |rows| >= 1 && SplitSafe(rows, w)
    ensures out == [rows[0]] + SplitAll(rows[1..], w)
  {
    out := rows;
    var i := 1;
    ghost var k := 1;
    ghost var done := [rows[0]];
    assert rows[1..1] == [] && done == SplitPrefix(rows, w, 1);
    while i < |out|
      invariant 1 <= k <= |rows|
      invariant done == SplitPrefix(rows, w, k)
      invariant out == done + rows[k..]
      invariant i == |done|
      decreases |rows| - k
    {
      ghost var before := out;
      assert out[i] == rows[k] by { OutAt(done, rows, k, out); }
      var row := out[i];
      if row[w] != Text("") && row[w + 1] != Text("") {
        var oldRowModified := row[w + 1 := Text("")];
        var newRowToInsert := row[w := Text("")];
        out := out[..i] + [oldRowModified, newRowToInsert] + out[i + 1..];
        i := i + 1;
      }
      i := i + 1;
      done := SplitStepOut(rows, w, k, done, before, out);
      k := k + 1;
    }
    assert rows[1..k] == rows[1..];
  }

  /** The header row followed by the pieces of data rows 1 to k - 1. */
  function SplitPrefix(rows: Grid, w: nat, k: nat): Grid
    requires 1 <= k <= |rows| && SplitSafe(rows, w)
  {
    [rows[0]] + SplitAll(rows[1..k], w)
  }

  /** The walk's view at row k: the rows done so far, then row k, then the rest untouched. */
  lemma OutAt(done: Grid, rows: Grid, k: nat, out: Grid)
    requires k < |rows| && out == done + rows[k..]
    ensures out[..|done|] == done && out[|done|] == rows[k] && out[|done| + 1..] == rows[k + 1..]
  {
  }

  lemma Regroup(a: Grid, b: Grid, c: Grid)
    ensures a + (b + c) == a + b + c
  {
  }

  /**
   * One step of the walk: the row at the cursor, replaced by its two pieces
   * when it holds two welds, extends the finished prefix by Piece.
   */
  lemma SplitStepOut(rows: Grid, w: nat, k: nat, done: Grid, before: Grid, after: Grid) returns (next: Grid)
    requires 1 <= k < |rows| && SplitSafe(rows, w)
    requires done == SplitPrefix(rows, w, k) && before == done + rows[k..]
    requires var row := rows[k]; after == if HoldsTwoWelds(row, w)
      then before[..|done|] + [row[w + 1 := Text("")], row[w := Text("")]] + before[|done| + 1..]
      else before
    ensures next == SplitPrefix(rows, w, k + 1) && after == next + rows[k + 1..]
    ensures |next| == |done| + |after| - |before| + 1
  {
    assert rows[k..] == [rows[k]] + rows[k + 1..];
    next := done + Piece(rows[k], w);
    PrefixStep(rows, w, k);
    WalkStep(rows[k], w, done, rows[k + 1..], before, after);
  }

  /** The prefix grows by the pieces of row k. */
  lemma PrefixStep(rows: Grid, w: nat, k: nat)
    requires 1 <= k < |rows| && SplitSafe(rows, w)
    ensures SplitPrefix(rows, w, k) + Piece(rows[k], w) == SplitPrefix(rows, w, k + 1)
  {
    SplitStep(rows, w, k);
    Regroup([rows[0]], SplitAll(rows[1..k], w), Piece(rows[k], w));
  }

  /** Replacing the row after the finished prefix by its pieces. */
  lemma WalkStep(row: Row, w: nat, done: Grid, rest: Grid, before: Grid, after: Grid)
    requires SplitSafeRow(row, w) && before == done + [row] + rest
    requires after == if HoldsTwoWelds(row, w)
      then before[..|done|] + [row[w + 1 := Text("")], row[w := Text("")]] + before[|done| + 1..]
      else before
    ensures after == done + Piece(row, w) + rest
    ensures |after| == |before| + |Piece(row, w)| - 1
  {
    assert before[..|done|] == done && before[|done| + 1..] == rest;
  }

  /** One more data row adds its pieces at the end. */
  lemma SplitStep(rows: Grid, w: nat, k: nat)
    requires 1 <= k < |rows| && SplitSafe(rows, w)
    ensures SplitAll(rows[1..k + 1], w) == SplitAll(rows[1..k], w) + Piece(rows[k], w)
  {
    assert rows[1..k + 1][..k - 1] == rows[1..k];
  }

  // ---------------------------------------------------------------------------
  // re.sub(r"\(x[0-9]+\)", "", s)

  /** The length of the run of ASCII digits s starts with. */
  function DigitRun(s: string): (n: nat)
    ensures n <= |s| && AllDigits(s[..n]) && (n < |s| ==> !IsDigit(s[n]))
  {
    if s != [] && IsDigit(s[0]) then
      var n := 1 + DigitRun(s[1..]);
      assert s[..n] == [s[0]] + s[1..][..n - 1];
      n
    else 0
  }

  /** The length of a multiplier "(x<digits>)" at the start of s, if one is there. */
  function MultiplierAt(s: string): (r: Option<nat>)
    ensures r.Some? ==> 4 <= r.value <= |s| && s[0] == '(' && s[1] == 'x' && s[r.value - 1] == ')'
  {
    if |s| >= 2 && s[0] == '(' && s[1] == 'x' then
      var d := DigitRun(s[2..]);
      if d > 0 && 2 + d < |s| && s[2 + d] == ')' then Some(3 + d) else None
    else None
  }

  /** Every multiplier, scanned left to right without overlap, removed. */
  function RemoveMultipliers(s: string): (r: string)
    ensures |r| <= |s|
    decreases |s|
  {
    if s == [] then []
    else
      var m := MultiplierAt(s);
      if m.Some? then RemoveMultipliers(s[m.value..]) else [s[0]] + RemoveMultipliers(s[1..])
  }

  /** Text with no '(' holds no multiplier and is left alone. */
  lemma {:induction false} NoParenUnchanged(s: string)
    requires '(' !in s
    ensures RemoveMultipliers(s) == s
    decreases |s|
  {
    if s != [] {
      assert s[0] != '(';
      NoParenUnchanged(s[1..]);
    }
  }

  /** A lone "(x2)" is one whole multiplier and is removed entirely. */
  lemma TimesTwoRemoved()
    ensures RemoveMultipliers("(x2)") == []
  {
    assert MultiplierAt("(x2)") == Some(4) by {
      assert "(x2)"[2..] == "2)";
      assert DigitRun("2)") == 1 by { assert "2)"[1..] == ")"; }
    }
    assert "(x2)"[4..] == [];
  }

  /** '45(x2)' becomes '45'. */
  lemma MultiplierAfterDigits()
    ensures RemoveMultipliers("45(x2)") == "45"
  {
    TimesTwoRemoved();
    assert "45(x2)"[1..] == "5(x2)" && "5(x2)"[1..] == "(x2)";
    assert MultiplierAt("5(x2)") == None;
    assert RemoveMultipliers("5(x2)") == "5";
    assert MultiplierAt("45(x2)") == None;
  }

  /** '121 (x2)' becomes '121 ': the space before the multiplier stays. */
  lemma MultiplierAfterSpace()
    ensures RemoveMultipliers("121 (x2)") == "121 "
  {
    TimesTwoRemoved();
    assert " (x2)"[1..] == "(x2)";
    assert RemoveMultipliers(" (x2)") == " ";
    assert "1 (x2)"[1..] == " (x2)";
    assert RemoveMultipliers("1 (x2)") == "1 ";
    assert "21 (x2)"[1..] == "1 (x2)";
    assert RemoveMultipliers("21 (x2)") == "21 ";
    assert "121 (x2)"[1..] == "21 (x2)";
  }

  /** '100' has no multiplier and is left alone. */
  lemma PlainNumberKept()
    ensures RemoveMultipliers("100") == "100"
  {
    NoParenUnchanged("100");
  }

  /** Reading a cell of a data row that the strip step needs cannot fail. */
  predicate StripSafe(rows: Grid, c: nat)
  {
    forall k :: 1 <= k < |rows| ==> c < |rows[k]| && rows[k][c].Text?
  }

  /** Multipliers stripped from column c of every data row; the header is left alone. */
  function StripSpec(rows: Grid, c: nat): (r: Grid)
    requires StripSafe(rows, c)
    ensures |r| == |rows|
  {
    seq(|rows|, k requires 0 <= k < |rows| =>
      if k == 0 then rows[0] else rows[k][c := Text(RemoveMultipliers(rows[k][c].s))])
  }

  /** The multiplier loop of update_table_format, over the data rows. */
  method StripMultipliers(rows: Grid, c: nat) returns (out: Grid)
    requires StripSafe(rows, c)
    ensures out == StripSpec(rows, c)
  {
    out := rows;
    var i := 1;
    while i < |out|
      invariant 1 <= i && |out| == |rows|
      invariant forall k :: 0 <= k < |rows| ==> out[k] == (if k < i then StripSpec(rows, c)[k] else rows[k])
    {
      var weldLength := RemoveMultipliers(out[i][c].s);
      out := out[i := out[i][c := Text(weldLength)]];
      i := i + 1;
    }
  }

  // ---------------------------------------------------------------------------
  // re.search(r"\((\d+)\)", s)

  /** The value of "(<digits>)" at the start of s, if one is there. */
  function ParenNumberAt(s: string): Option<nat>
  {
    if s != [] && s[0] == '(' then
      var d := DigitRun(s[1..]);
      if d > 0 && 1 + d < |s| && s[1 + d] == ')' then
        assert s[1..1 + d] == s[1..][..d];
        Some(DigitsValue(s[1..1 + d]))
      else None
    else None
  }

  /** find_overlapping_match: the first parenthesised number, or 0 when there is none. */
  function FindOverlappingMatch(s: string): nat
  {
    if s == [] then 0
    else
      var m := ParenNumberAt(s);
      if m.Some? then m.value else FindOverlappingMatch(s[1..])
  }

  /** Text with no '(' reads as 0. */
  lemma {:induction false} NoParenIsZero(s: string)
    requires '(' !in s
    ensures FindOverlappingMatch(s) == 0
    decreases |s|
  {
    if s != [] {
      assert s[0] != '(';
      NoParenIsZero(s[1..]);
    }
  }

  /** "(n)" reads back as n for every n: the scanner inverts the formatting. */
  lemma ParenNumberRoundTrip(n: nat)
    ensures FindOverlappingMatch("(" + NatToString(n) + ")") == n
  {
    var digits := NatToString(n);
    var s := "(" + digits + ")";
    assert s[1..] == digits + ")";
    assert (digits + ")")[..|digits|] == digits;
    DigitRunOfDigits(digits, ")");
    assert s[1..1 + |digits|] == digits;
    NatToStringRoundTrip(n);
  }

  lemma DigitRunOfDigits(digits: string, rest: string)
    requires AllDigits(digits) && (rest == [] || !IsDigit(rest[0]))
    ensures DigitRun(digits + rest) == |digits|
    decreases |digits|
  {
    if digits != [] {
      assert (digits + rest)[1..] == digits[1..] + rest;
      DigitRunOfDigits(digits[1..], rest);
    } else {
      assert digits + rest == rest;
    }
  }

  /** '(3)' and '(4)' sum to '7'; '5' has no parenthesised number and counts as 0. */
  lemma OverlapExamples()
    ensures NatToString(FindOverlappingMatch("(3)") + FindOverlappingMatch("(4)")) == "7"
    ensures FindOverlappingMatch("5") == 0
  {
    ParenNumberRoundTrip(3);
    ParenNumberRoundTrip(4);
    assert NatToString(3) == "3" && NatToString(4) == "4" && NatToString(7) == "7";
    assert "(" + NatToString(3) + ")" == "(3)";
    assert "(" + NatToString(4) + ")" == "(4)";
    NoParenIsZero("5");
  }

  /** Both overlap cells of every data row can be read. */
  predicate SumSafe(rows: Grid, o: nat)
  {
    forall k :: 1 <= k < |rows| ==> o + 1 < |rows[k]| && rows[k][o].Text? && rows[k][o + 1].Text?
  }

  /** The sum str(n(row[o]) + n(row[o + 1])) of one data row. */
  function OverlapSum(row: Row, o: nat): string
    requires o + 1 < |row| && row[o].Text? && row[o + 1].Text?
  {
    NatToString(FindOverlappingMatch(row[o].s) + FindOverlappingMatch(row[o + 1].s))
  }

  /** Each data row's two overlap cells merged into their sum; the header keeps both cells. */
  function SumSpec(rows: Grid, o: nat): (r: Grid)
    requires SumSafe(rows, o)
    ensures |r| == |rows|
    ensures |rows| > 0 ==> r[0] == rows[0]
    ensures forall k :: 1 <= k < |rows| ==> (|r[k]| == |rows[k]| - 1
      && r[k][..o] == rows[k][..o] && r[k][o] == Text(OverlapSum(rows[k], o))
      && r[k][o + 1..] == rows[k][o + 2..])
  {
    seq(|rows|, k requires 0 <= k < |rows| =>
      if k == 0 then rows[0] else rows[k][..o] + [Text(OverlapSum(rows[k], o))] + rows[k][o + 2..])
  }

  /** The overlap step of update_table_format: compute every sum, then rewrite the data rows. */
  method SumOverlaps(rows: Grid, o: nat) returns (out: Grid)
    requires SumSafe(rows, o)
    ensures out == SumSpec(rows, o)
  {
    var sums := seq(|rows|, k requires 0 <= k < |rows| => if k == 0 then "" else OverlapSum(rows[k], o));
    out := rows;
    var index := 1;
    while index < |rows|
      invariant 1 <= index && |out| == |rows|
      invariant forall k :: 0 <= k < |rows| ==> out[k] == (if k < index then SumSpec(rows, o)[k] else rows[k])
    {
      var data := out[index][o := Text(sums[index])];
      data := data[..o + 1] + data[o + 2..];
      out := out[index := data];
      index := index + 1;
    }
  }

  // ---------------------------------------------------------------------------
  // The final pass: drop '' cells

  /** The row without its '' cells; None is kept, order is kept. */
  function PruneRow(row: Row): (r: Row)
    ensures |r| <= |row|
    ensures forall v :: v in r <==> v in row && v != Text("")
  {
    if row == [] then []
    else PruneRow(row[..|row| - 1]) + (if row[|row| - 1] != Text("") then [row[|row| - 1]] else [])
  }
  /** Pruning a concatenation prunes each part, so the kept cells keep their order and their repetitions. */
  lemma {:induction false} PruneRowConcat(a: Row, b: Row)
    decreases |b|
    ensures PruneRow(a + b) == PruneRow(a) + PruneRow(b)
  {
    if b == [] {
      assert a + b == a;
    } else {
      var last := |b| - 1;
      assert (a + b)[..|a + b| - 1] == a + b[..last];
      assert (a + b)[|a + b| - 1] == b[last];
      PruneRowConcat(a, b[..last]);
    }
  }

  /** A single cell survives exactly when it is not ''. */
  lemma PruneRowOne(x: Value)
    ensures PruneRow([x]) == if x != Text("") then [x] else []
  {
    assert [x][..0] == [];
  }


  function PruneAll(rows: Grid): (r: Grid)
    ensures |r| == |rows| && forall k :: 0 <= k < |rows| ==> r[k] == PruneRow(rows[k])
  {
    seq(|rows|, k requires 0 <= k < |rows| => PruneRow(rows[k]))
  }

  /** The final loop of update_table_format: every row, header included, loses its '' cells. */
  method PruneEmpty(rows: Grid) returns (out: Grid)
    ensures out == PruneAll(rows)
  {
    out := rows;
    var i := 0;
    while i < |out|
      invariant i <= |out| == |rows|
      invariant forall k :: 0 <= k < |rows| ==> out[k] == (if k < i then PruneRow(rows[k]) else rows[k])
    {
      var kept: Row := [];
      for index := 0 to |out[i]|
        invariant kept == PruneRow(out[i][..index])
      {
        if out[i][index] != Text("") {
          kept := kept + [out[i][index]];
        }
        assert out[i][..index + 1][..index] == out[i][..index];
      }
      assert out[i][..|out[i]|] == out[i];
      out := out[i := kept];
      i := i + 1;
    }
  }

  // ---------------------------------------------------------------------------
  // update_table_format

  /** update_table_format, step by step, with every way it can raise. */
  function UpdateSpec(g: Grid): Option<Grid>
  {
    if g == [] then None
    else
      var w := FindColIndex(g[0], "weld no");
      if w.Crash? || |g| < 2 then None
      else
        var g1 := g[..1] + g[2..];
        if w.Found? && !SplitSafe(g1, w.i) then None
        else
          var g2 := if w.Found? then [g1[0]] + SplitAll(g1[1..], w.i) else g1;
          var wl := FindColIndex(g2[0], "total weld length");
          if wl.Crash? || (wl.Found? && !StripSafe(g2, wl.i)) then None
          else
            var g3 := if wl.Found? then StripSpec(g2, wl.i) else g2;
            var o := OverlapColumn(g3[0]);
            if o.Crash? || (o.Found? && !SumSafe(g3, o.i)) then None
            else
              var g4 := if o.Found? then SumSpec(g3, o.i) else g3;
              Some(PruneAll(g4))
  }

  /**
   * update_table_format: find the weld column, delete row 1, split two-weld rows,
   * strip multipliers from the total weld length, sum the overlap pair, and drop
   * every '' cell.
   */
  method UpdateTableFormat(g: Grid) returns (r: Option<Grid>)
    ensures r == UpdateSpec(g)
  {
    if |g| == 0 {
      return None;
    }
    var weldIndex := FindColIndex(g[0], "weld no");
    if weldIndex.Crash? || |g| < 2 {
      return None;
    }
    var rows := g[..1] + g[2..];
    if weldIndex.Found? {
      if !SplitSafe(rows, weldIndex.i) {
        return None;
      }
      rows := SplitWeldRows(rows, weldIndex.i);
    }
    var weldLengthIndex := FindColIndex(rows[0], "total weld length");
    if weldLengthIndex.Crash? {
      return None;
    }
    if weldLengthIndex.Found? {
      if !StripSafe(rows, weldLengthIndex.i) {
        return None;
      }
      rows := StripMultipliers(rows, weldLengthIndex.i);
    }
    var overlappingIndex := OverlapColumn(rows[0]);
    if overlappingIndex.Crash? {
      return None;
    }
    if overlappingIndex.Found? {
      if !SumSafe(rows, overlappingIndex.i) {
        return None;
      }
      rows := SumOverlaps(rows, overlappingIndex.i);
    }
    rows := PruneEmpty(rows);
    return Some(rows);
  }

  /** The header row is only touched by the final pass. */
  lemma UpdateKeepsHeader(g: Grid)
    requires UpdateSpec(g).Some?
    ensures UpdateSpec(g).value != [] && UpdateSpec(g).value[0] == PruneRow(g[0])
  {
  }

  /** No '' cell survives, in any row. */
  lemma UpdateLeavesNoBlanks(g: Grid)
    requires UpdateSpec(g).Some?
    ensures forall k :: 0 <= k < |UpdateSpec(g).value| ==> Text("") !in UpdateSpec(g).value[k]
  {
  }

  /**
   * Row 1 is deleted and every later row holding two welds is split in two, so
   * the result has |g| - 1 rows plus one per split.
   */
  lemma UpdateRowCount(g: Grid)
    requires UpdateSpec(g).Some?
    ensures var w := FindColIndex(g[0], "weld no");
      |UpdateSpec(g).value| == |g| - 1 + (if w.Found? then CountSplits(g[2..], w.i) else 0)
  {
    var w := FindColIndex(g[0], "weld no");
    if w.Found? {
      var g1 := g[..1] + g[2..];
      assert g1[1..] == g[2..];
      SplitAllLength(g[2..], w.i);
    }
  }
}
