/** The excited-state table: `clean_data` turns the selected log lines into
    records, `filter_real_excited` drops the spin-contaminated ones. */
module ExcitedStates {
  import opened Wrappers
  import opened Text
  import opened Numbers

  /** Token positions of the five fields (`df.iloc[:, [2, 4, 6, 8, 9]]`). */
  const StateCol: nat := 2
  const EnergyCol: nat := 4
  const WavelengthCol: nat := 6
  const StrengthCol: nat := 8
  const S2Col: nat := 9
  /** The highest selected position plus one. */
  const MinTokens: nat := 10

  /** Lengths of the affixes `f=` and `<S**2>=` that are cut off by slicing. */
  const StrengthAffix: nat := 2
  const S2Affix: nat := 7

  /** `S2_FILTER`: states with a larger <S**2> are treated as spurious. */
  const S2Filter: real := 2.6

  /** One row of the cleaned table. */
  datatype Record = Record(state: int, energy: real, wavelength: real, strength: real, s2: real)

  /** The converted columns, in the order `clean_data` converts them. */
  datatype Column = ExciteState | Wavelength | Energy | Strength | S2

  datatype ParseError =
    | NoColumns          // no row reaches position 9: `iloc` raises IndexError
    | ShortRow           // some row has fewer than 10 tokens
    | BadValue(column: Column)  // the conversion of this column raises ValueError

  /** Errors in the order the program meets them. */
  function Rank(e: ParseError): nat
  {
    match e
    case NoColumns => 0
    case ShortRow => 0
    case BadValue(c) =>
      match c
      case ExciteState => 1
      case Wavelength => 2
      case Energy => 3
      case Strength => 4
      case S2 => 5
  }

  /** `s[:-1]`. */
  function DropLast(s: string): (r: string)
    ensures s == [] ==> r == []
    ensures s != [] ==> r + [s[|s| - 1]] == s
  {
    if s == [] then [] else s[..|s| - 1]
  }

  /** `s[k:]`. */
  function DropFirst(s: string, k: nat): (r: string)
    ensures |s| < k ==> r == []
    ensures |s| >= k ==> s[..k] + r == s
  {
    if |s| < k then [] else s[k..]
  }

  /** The record of one tokenised row, or the first conversion that fails:
      the state token loses its last character (`str[:-1]`) and goes
      through `int`, the strength and S**2 tokens lose their affixes
      (`str[2:]`, `str[7:]`) and everything but the state goes through
      `float`. */
  function ParseTokens(row: seq<string>): (r: Result<Record, ParseError>)
    ensures r == Err(ShortRow) <==> |row| < MinTokens
    ensures r.Err? && r.error != ShortRow ==> r.error.BadValue?
  {
    if |row| < MinTokens then Err(ShortRow)
    else
      var state := ParseInt(DropLast(row[StateCol]));
      var wavelength := ParseFloat(row[WavelengthCol]);
      var energy := ParseFloat(row[EnergyCol]);
      var strength := ParseFloat(DropFirst(row[StrengthCol], StrengthAffix));
      var s2 := ParseFloat(DropFirst(row[S2Col], S2Affix));
      if state.None? then Err(BadValue(ExciteState))
      else if wavelength.None? then Err(BadValue(Wavelength))
      else if energy.None? then Err(BadValue(Energy))
      else if strength.None? then Err(BadValue(Strength))
      else if s2.None? then Err(BadValue(S2))
      else Ok(Record(state.value, energy.value, wavelength.value, strength.value, s2.value))
  }

  /** The record of one log line. */
  function ParseLine(line: string): (r: Result<Record, ParseError>)
    ensures r == Err(ShortRow) <==> |Tokenize(line)| < MinTokens
    ensures r.Err? && r.error != ShortRow ==> r.error.BadValue?
  {
    ParseTokens(Tokenize(line))
  }

  /** Whether the cell of column `c` converts, in a row that has all ten
      tokens. */
  predicate CellConverts(row: seq<string>, c: Column)
    requires |row| >= MinTokens
  {
    match c
    case ExciteState => ParseInt(DropLast(row[StateCol])).Some?
    case Wavelength => ParseFloat(row[WavelengthCol]).Some?
    case Energy => ParseFloat(row[EnergyCol]).Some?
    case Strength => ParseFloat(DropFirst(row[StrengthCol], StrengthAffix)).Some?
    case S2 => ParseFloat(DropFirst(row[S2Col], S2Affix)).Some?
  }

  /** A row gives a record exactly when it has ten tokens and all five of
      its selected cells convert. */
  lemma ParseTokensAccepts(row: seq<string>)
    ensures ParseTokens(row).Ok? <==> |row| >= MinTokens && forall c :: CellConverts(row, c)
  {
    if |row| >= MinTokens && !ParseTokens(row).Ok? {
      assert !CellConverts(row, ParseTokens(row).error.column);
    }
  }

  /** A full row reports the column `c` exactly when `c` fails to convert
      and every column converted before it succeeds. */
  lemma ParseTokensReports(row: seq<string>, c: Column)
    ensures ParseTokens(row) == Err(BadValue(c)) <==>
              && |row| >= MinTokens
              && !CellConverts(row, c)
              && forall d :: Rank(BadValue(d)) < Rank(BadValue(c)) ==> CellConverts(row, d)
  {
    if |row| >= MinTokens {
      assert CellConverts(row, ExciteState) == ParseInt(DropLast(row[StateCol])).Some?;
      assert CellConverts(row, Wavelength) == ParseFloat(row[WavelengthCol]).Some?;
      assert CellConverts(row, Energy) == ParseFloat(row[EnergyCol]).Some?;
      assert CellConverts(row, Strength) == ParseFloat(DropFirst(row[StrengthCol], StrengthAffix)).Some?;
    }
  }

  /** ParseTokensAccepts for a whole log line. */
  lemma ParseLineAccepts(line: string)
    ensures ParseLine(line).Ok? <==>
              |Tokenize(line)| >= MinTokens && forall c :: CellConverts(Tokenize(line), c)
  {
    ParseTokensAccepts(Tokenize(line));
  }

  /** ParseTokensReports for a whole log line. */
  lemma ParseLineReports(line: string, c: Column)
    ensures ParseLine(line) == Err(BadValue(c)) <==>
              && |Tokenize(line)| >= MinTokens
              && !CellConverts(Tokenize(line), c)
              && forall d :: Rank(BadValue(d)) < Rank(BadValue(c)) ==> CellConverts(Tokenize(line), d)
  {
    ParseTokensReports(Tokenize(line), c);
  }

  /** The table-wide result of converting every line with `convert`: the
      records if every line converts, IndexError (NoColumns) if no line
      reaches position 9, the missing cell (ShortRow) if only some do, and
      else the ValueError of the earliest column, in conversion order, that
      fails in any line. `clean_data` converts column by column over all
      lines, so an error in a later column is never seen while an earlier
      column fails somewhere; this loop gets the same answer line by line by
      keeping the lowest-ranked error. */
  method ConvertLines(lines: seq<string>, convert: string -> Result<Record, ParseError>)
    returns (r: Result<seq<Record>, ParseError>)
    requires forall i :: 0 <= i < |lines| ==> convert(lines[i]) != Err(NoColumns)
    ensures r.Ok? <==> lines != [] && forall i :: 0 <= i < |lines| ==> convert(lines[i]).Ok?
    ensures r.Ok? ==> |r.value| == |lines|
    ensures r.Ok? ==> forall i :: 0 <= i < |lines| ==> convert(lines[i]) == Ok(r.value[i])
    ensures r == Err(NoColumns) <==> forall i :: 0 <= i < |lines| ==> convert(lines[i]) == Err(ShortRow)
    ensures r == Err(ShortRow) <==>
              (exists i :: 0 <= i < |lines| && convert(lines[i]) == Err(ShortRow)) &&
              (exists i :: 0 <= i < |lines| && convert(lines[i]) != Err(ShortRow))
    ensures r.Err? && r.error != NoColumns ==>
              exists i :: 0 <= i < |lines| && convert(lines[i]) == Err(r.error)
    ensures r.Err? && r.error != NoColumns ==>
              forall i :: 0 <= i < |lines| && convert(lines[i]).Err? ==>
                Rank(r.error) <= Rank(convert(lines[i]).error)
  {
    var records: seq<Record> := [];
    var anyLong, anyShort := false, false;
    var worst: Option<ParseError> := None;   // the earliest column that failed so far
    var i := 0;
    while i < |lines|
      invariant 0 <= i <= |lines|
      invariant anyLong <==> exists j :: 0 <= j < i && convert(lines[j]) != Err(ShortRow)
      invariant anyShort <==> exists j :: 0 <= j < i && convert(lines[j]) == Err(ShortRow)
      invariant worst.None? ==>
                  forall j :: 0 <= j < i && convert(lines[j]).Err? ==> convert(lines[j]) == Err(ShortRow)
      invariant worst.Some? ==> worst.value != ShortRow && worst.value != NoColumns
      invariant worst.Some? ==> exists j :: 0 <= j < i && convert(lines[j]) == Err(worst.value)
      invariant worst.Some? ==>
                  forall j :: 0 <= j < i && convert(lines[j]).Err? && convert(lines[j]) != Err(ShortRow) ==>
                    Rank(worst.value) <= Rank(convert(lines[j]).error)
      invariant !anyShort && worst.None? ==>
                  |records| == i && forall j :: 0 <= j < i ==> convert(lines[j]) == Ok(records[j])
    {
      var p := convert(lines[i]);
      if p == Err(ShortRow) {
        anyShort := true;
      } else {
        anyLong := true;
      }
      match p {
        case Ok(rec) =>
          records := records + [rec];
        case Err(e) =>
          if e != ShortRow && (worst.None? || Rank(e) < Rank(worst.value)) {
            worst := Some(e);
          }
      }
      i := i + 1;
    }
    if !anyLong {
      if lines != [] {
        assert !convert(lines[0]).Ok?;
      }
      return Err(NoColumns);
    }
    if anyShort {
      return Err(ShortRow);
    }
    if worst.Some? {
      return Err(worst.value);
    }
    return Ok(records);
  }

  /** `clean_data`: every line is tokenised (`i.strip().split()`), its five
      columns selected and converted (ParseLine), and the outcomes combined
      as ConvertLines describes. */
  method CleanData(lines: seq<string>) returns (r: Result<seq<Record>, ParseError>)
    ensures r.Ok? <==> lines != [] && forall i :: 0 <= i < |lines| ==> ParseLine(lines[i]).Ok?
    ensures r.Ok? ==> |r.value| == |lines|
    ensures r.Ok? ==> forall i :: 0 <= i < |lines| ==> ParseLine(lines[i]) == Ok(r.value[i])
    ensures r == Err(NoColumns) <==> forall i :: 0 <= i < |lines| ==> ParseLine(lines[i]) == Err(ShortRow)
    ensures r == Err(ShortRow) <==>
              (exists i :: 0 <= i < |lines| && ParseLine(lines[i]) == Err(ShortRow)) &&
              (exists i :: 0 <= i < |lines| && ParseLine(lines[i]) != Err(ShortRow))
    ensures r.Err? && r.error != NoColumns ==>
              exists i :: 0 <= i < |lines| && ParseLine(lines[i]) == Err(r.error)
    ensures r.Err? && r.error != NoColumns ==>
              forall i :: 0 <= i < |lines| && ParseLine(lines[i]).Err? ==>
                Rank(r.error) <= Rank(ParseLine(lines[i]).error)
  {
    r := ConvertLines(lines, ParseLine);
  }

  /** Which fields a row's record depends on: tokens other than those at
      positions 2, 4, 6, 8 and 9 are ignored. */
  lemma OnlySelectedTokensMatter(row1: seq<string>, row2: seq<string>)
    requires |row1| >= MinTokens && |row2| >= MinTokens
    requires row1[StateCol] == row2[StateCol] && row1[EnergyCol] == row2[EnergyCol]
    requires row1[WavelengthCol] == row2[WavelengthCol]
    requires row1[StrengthCol] == row2[StrengthCol] && row1[S2Col] == row2[S2Col]
    ensures ParseTokens(row1) == ParseTokens(row2)
  {
  }

  /** The fields of a row: the state token loses its last character
      whatever it is, the strength token its first 2, the S**2 token its
      first 7, and each remainder is converted as `int`/`float` would. */
  lemma FieldsOfRow(row: seq<string>, st: string, a: char, p8: string, f: string, p9: string, s: string,
                    n: int, e: real, w: real, fv: real, sv: real)
    requires |row| >= MinTokens
    requires row[StateCol] == st + [a] && ParseInt(st) == Some(n)
    requires ParseFloat(row[EnergyCol]) == Some(e) && ParseFloat(row[WavelengthCol]) == Some(w)
    requires |p8| == StrengthAffix && row[StrengthCol] == p8 + f && ParseFloat(f) == Some(fv)
    requires |p9| == S2Affix && row[S2Col] == p9 + s && ParseFloat(s) == Some(sv)
    ensures ParseTokens(row) == Ok(Record(n, e, w, fv, sv))
  {
    assert (st + [a])[..|st + [a]| - 1] == st;
    assert (p8 + f)[StrengthAffix..] == f;
    assert (p9 + s)[S2Affix..] == s;
  }

  /** A state token `"<n>:"` yields state number n. */
  lemma StateNumberRoundTrip(n: nat)
    ensures ParseInt(DropLast(NatToString(n) + ":")) == Some(n)
  {
    assert DropLast(NatToString(n) + ":") == NatToString(n);
    ParseIntRoundTrip(n);
  }

  /** The tokens of a line in the log's format, e.g.
      ` Excited State   1:  Singlet-A  3.5937 eV  345.00 nm  f=0.0012  <S**2>=0.000`. */
  const SampleTokens: seq<string> :=
    ["Excited", "State", "1:", "Singlet-A", "3.5937", "eV", "345.00", "nm", "f=0.0012", "<S**2>=0.000"]

  lemma SampleState()
    ensures ParseInt(DropLast(SampleTokens[StateCol])) == Some(1)
  {
    assert DropLast(SampleTokens[StateCol]) == "1";
    ParseIntRoundTrip(1);
    assert IntToString(1) == "1";
  }

  lemma SampleEnergy()
    ensures ParseFloat(SampleTokens[EnergyCol]) == Some(3.5937)
  {
    var a := Acc(35937, 5, 4, false, 0, 0);
    assert SampleTokens[EnergyCol] == "3.5937";
    assert ScanInt("3.5937", Start) == Some(a);
    ParseFloatUnsigned("3.5937", a);
    assert Pow10(4) == 10000 && Scale(0) == 1.0;
  }

  lemma SampleWavelength()
    ensures ParseFloat(SampleTokens[WavelengthCol]) == Some(345.0)
  {
    var a := Acc(34500, 5, 2, false, 0, 0);
    assert SampleTokens[WavelengthCol] == "345.00";
    assert ScanInt("345.00", Start) == Some(a);
    ParseFloatUnsigned("345.00", a);
    assert Pow10(2) == 100 && Scale(0) == 1.0;
  }

  lemma SampleStrength()
    ensures ParseFloat(DropFirst(SampleTokens[StrengthCol], StrengthAffix)) == Some(0.0012)
  {
    var a := Acc(12, 5, 4, false, 0, 0);
    assert DropFirst(SampleTokens[StrengthCol], StrengthAffix) == "0.0012";
    assert ScanInt("0.0012", Start) == Some(a);
    ParseFloatUnsigned("0.0012", a);
    assert Pow10(4) == 10000 && Scale(0) == 1.0;
  }

  lemma SampleS2()
    ensures ParseFloat(DropFirst(SampleTokens[S2Col], S2Affix)) == Some(0.0)
  {
    var a := Acc(0, 4, 3, false, 0, 0);
    assert DropFirst(SampleTokens[S2Col], S2Affix) == "0.000";
    assert ScanInt("0.000", Start) == Some(a);
    ParseFloatUnsigned("0.000", a);
  }

  /** The sample tokens convert to state 1 at 3.5937 eV and 345 nm with
      strength 0.0012 and <S**2> 0. */
  lemma SampleRecord()
    ensures ParseTokens(SampleTokens) == Ok(Record(1, 3.5937, 345.0, 0.0012, 0.0))
  {
    SampleState();
    SampleEnergy();
    SampleWavelength();
    SampleStrength();
    SampleS2();
  }

  /** Every sample token is a non-empty run of non-blank characters. */
  lemma SampleTokensAreWords()
    ensures forall k :: 0 <= k < |SampleTokens| ==> SampleTokens[k] != [] && NoSpace(SampleTokens[k])
  {
    forall k | 0 <= k < |SampleTokens|
      ensures SampleTokens[k] != [] && NoSpace(SampleTokens[k])
    {
      PrintableNoSpace(SampleTokens[k]);
    }
  }

  /** A log line carrying the sample tokens, whatever whitespace runs
      separate them (the log pads its columns with one to three spaces),
      converts to the sample record. */
  lemma SampleLineRecord(gaps: seq<string>)
    requires |gaps| == |SampleTokens|
    requires forall k :: 0 <= k < |gaps| ==> gaps[k] != [] && AllSpace(gaps[k])
    ensures ParseLine(Interleave(gaps, SampleTokens)) == Ok(Record(1, 3.5937, 345.0, 0.0012, 0.0))
  {
    var line := Interleave(gaps, SampleTokens);
    SampleTokensAreWords();
    SplitInterleave(gaps, SampleTokens);
    StripThenSplit(line);
    SampleRecord();
  }

  /** `<S**2> <= S2_FILTER`: the state is kept. */
  predicate IsReal(r: Record)
  {
    r.s2 <= S2Filter
  }

  /** `filter_real_excited`: the records with <S**2> at most 2.6, in order. */
  function FilterRealExcited(rs: seq<Record>): (kept: seq<Record>)
    ensures |kept| <= |rs|
    ensures forall k :: 0 <= k < |kept| ==> IsReal(kept[k])
  {
    if rs == [] then []
    else FilterRealExcited(rs[..|rs| - 1]) + (if IsReal(rs[|rs| - 1]) then [rs[|rs| - 1]] else [])
  }

  /** The positions of the kept records, in increasing order. */
  function KeptPositions(rs: seq<Record>): seq<nat>
  {
    if rs == [] then []
    else KeptPositions(rs[..|rs| - 1]) + (if IsReal(rs[|rs| - 1]) then [|rs| - 1] else [])
  }

  /** The kept positions lie inside `rs` and increase strictly. */
  lemma {:induction false} KeptPositionsIncrease(rs: seq<Record>)
    ensures forall k :: 0 <= k < |KeptPositions(rs)| ==> KeptPositions(rs)[k] < |rs|
    ensures forall k, l :: 0 <= k < l < |KeptPositions(rs)| ==> KeptPositions(rs)[k] < KeptPositions(rs)[l]
  {
    if rs != [] {
      KeptPositionsIncrease(rs[..|rs| - 1]);
    }
  }

  /** A position is kept exactly when the record there passes the threshold. */
  lemma {:induction false} KeptPositionsExact(rs: seq<Record>)
    ensures forall i :: 0 <= i < |rs| ==> (i in KeptPositions(rs) <==> IsReal(rs[i]))
  {
    if rs != [] {
      var init := rs[..|rs| - 1];
      KeptPositionsExact(init);
      KeptPositionsIncrease(init);
      forall i | 0 <= i < |rs| ensures i in KeptPositions(rs) <==> IsReal(rs[i]) {
        if i < |init| {
          assert init[i] == rs[i];
        }
      }
    }
  }

  /** The filter's result is the subsequence of `rs` at KeptPositions(rs):
      those positions increase, and a position is among them exactly when
      the record there passes the threshold. */
  lemma {:induction false} FilterIsSubsequence(rs: seq<Record>)
    ensures |KeptPositions(rs)| == |FilterRealExcited(rs)|
    ensures forall k :: 0 <= k < |KeptPositions(rs)| ==>
              KeptPositions(rs)[k] < |rs| && FilterRealExcited(rs)[k] == rs[KeptPositions(rs)[k]]
    ensures forall k, l :: 0 <= k < l < |KeptPositions(rs)| ==> KeptPositions(rs)[k] < KeptPositions(rs)[l]
    ensures forall i :: 0 <= i < |rs| ==> (i in KeptPositions(rs) <==> IsReal(rs[i]))
  {
    KeptPositionsIncrease(rs);
    KeptPositionsExact(rs);
    FilterAtKeptPositions(rs);
  }

  lemma {:induction false} FilterAtKeptPositions(rs: seq<Record>)
    ensures |KeptPositions(rs)| == |FilterRealExcited(rs)|
    ensures forall k :: 0 <= k < |KeptPositions(rs)| ==>
              KeptPositions(rs)[k] < |rs| && FilterRealExcited(rs)[k] == rs[KeptPositions(rs)[k]]
  {
    if rs != [] {
      var init := rs[..|rs| - 1];
      FilterAtKeptPositions(init);
      assert forall i :: 0 <= i < |init| ==> init[i] == rs[i];
    }
  }

  /** Filtering distributes over concatenation. */
  lemma {:induction false} FilterAppend(a: seq<Record>, b: seq<Record>)
    ensures FilterRealExcited(a + b) == FilterRealExcited(a) + FilterRealExcited(b)
    decreases |b|
  {
    if b == [] {
      assert a + b == a;
    } else {
      var last := b[|b| - 1];
      assert (a + b)[..|a + b| - 1] == a + b[..|b| - 1];
      FilterAppend(a, b[..|b| - 1]);
    }
  }

  /** A list whose records all pass is unchanged. */
  lemma {:induction false} FilterKeepsReal(rs: seq<Record>)
    requires forall k :: 0 <= k < |rs| ==> IsReal(rs[k])
    ensures FilterRealExcited(rs) == rs
  {
    if rs != [] {
      FilterKeepsReal(rs[..|rs| - 1]);
    }
  }

  /** Filtering twice is filtering once. */
  lemma FilterIdempotent(rs: seq<Record>)
    ensures FilterRealExcited(FilterRealExcited(rs)) == FilterRealExcited(rs)
  {
    FilterKeepsReal(FilterRealExcited(rs));
  }
}
