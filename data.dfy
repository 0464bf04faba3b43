/**
 * Dataset preparation (src/data.py): the line-by-line parser of an ARFF file
 * and the shuffled train/test split. File reading is not modelled: the
 * parser receives the file's lines. Feature fields stay text; their
 * conversion to 32-bit floats is not modelled.
 */
module Data {
  import opened Common

  // ---------------------------------------------------------------------
  // Python string primitives the parser relies on
  // ---------------------------------------------------------------------

  /** Python's `str.isspace()` for a single character: the characters `strip()` removes. */
  predicate IsSpace(c: char)
  {
    || ('\t' <= c <= '\r')
    || ('\U{1C}' <= c <= ' ')
    || c == '\U{85}' || c == '\U{A0}' || c == '\U{1680}'
    || ('\U{2000}' <= c <= '\U{200A}')
    || c == '\U{2028}' || c == '\U{2029}' || c == '\U{202F}' || c == '\U{205F}' || c == '\U{3000}'
  }

  /** `s.lstrip()`: s without its leading whitespace. */
  function StripLeft(s: string): (r: string)
    ensures |r| <= |s|
    ensures r != [] ==> !IsSpace(r[0])
  {
    if s != [] && IsSpace(s[0]) then StripLeft(s[1..]) else s
  }

  /** lstrip removes exactly the leading run of whitespace. */
  lemma {:induction false} StripLeftSpec(s: string)
    ensures StripLeft(s) == s[|s| - |StripLeft(s)|..]
    ensures forall i :: 0 <= i < |s| - |StripLeft(s)| ==> IsSpace(s[i])
  {
    if s != [] && IsSpace(s[0]) {
      StripLeftSpec(s[1..]);
    }
  }

  /** `s.rstrip()`: s without its trailing whitespace. */
  function StripRight(s: string): (r: string)
    ensures |r| <= |s|
    ensures r != [] ==> !IsSpace(r[|r| - 1])
  {
    if s != [] && IsSpace(s[|s| - 1]) then StripRight(s[..|s| - 1]) else s
  }

  /** rstrip removes exactly the trailing run of whitespace. */
  lemma {:induction false} StripRightSpec(s: string)
    ensures StripRight(s) == s[..|StripRight(s)|]
    ensures forall i :: |StripRight(s)| <= i < |s| ==> IsSpace(s[i])
  {
    if s != [] && IsSpace(s[|s| - 1]) {
      StripRightSpec(s[..|s| - 1]);
    }
  }

  /** `s.strip()`. */
  function Strip(s: string): (r: string)
    ensures |r| <= |s|
  {
    StripRight(StripLeft(s))
  }

  /** strip leaves no whitespace at either end. */
  lemma StripEnds(s: string)
    ensures var r := Strip(s);
      r != [] ==> !IsSpace(r[0]) && !IsSpace(r[|r| - 1])
  {
    StripRightSpec(StripLeft(s));
  }

  /** Stripping twice is stripping once. */
  lemma StripIdempotent(s: string)
    ensures Strip(Strip(s)) == Strip(s)
  {
    var t := Strip(s);
    StripEnds(s);
    assert StripLeft(t) == t;
    assert StripRight(t) == t;
  }

  /** `s.split(sep)`: the pieces between the separators, always at least one. */
  function Split(s: string, sep: char): (parts: seq<string>)
    ensures |parts| >= 1
    ensures forall k :: 0 <= k < |parts| ==> sep !in parts[k]
    decreases |s|
  {
    if s == [] then [""]
    else
      var rest := Split(s[1..], sep);
      if s[0] == sep then [""] + rest else [[s[0]] + rest[0]] + rest[1..]
  }

  /** `sep.join(parts)`. */
  function Join(parts: seq<string>, sep: char): string
    requires |parts| >= 1
  {
    if |parts| == 1 then parts[0] else parts[0] + [sep] + Join(parts[1..], sep)
  }

  /** Joining the pieces of a split with the separator restores the string. */
  lemma {:induction false} SplitJoin(s: string, sep: char)
    ensures Join(Split(s, sep), sep) == s
    decreases |s|
  {
    if s != [] {
      SplitJoin(s[1..], sep);
      var rest := Split(s[1..], sep);
      if s[0] == sep {
        assert ([""] + rest)[1..] == rest;
      } else {
        var parts := [[s[0]] + rest[0]] + rest[1..];
        if |rest| > 1 {
          assert parts[1..] == rest[1..];
          assert Join(rest, sep) == rest[0] + [sep] + Join(rest[1..], sep);
        }
      }
    }
  }

  /** Splitting a join of separator-free pieces gives the pieces back. */
  lemma {:induction false} JoinSplit(parts: seq<string>, sep: char)
    requires |parts| >= 1
    requires forall k :: 0 <= k < |parts| ==> sep !in parts[k]
    ensures Split(Join(parts, sep), sep) == parts
    decreases |parts|, |parts[0]|
  {
    var p := parts[0];
    if p == [] {
      if |parts| > 1 {
        JoinSplit(parts[1..], sep);
        assert Join(parts, sep) == [sep] + Join(parts[1..], sep);
        assert (([sep] + Join(parts[1..], sep))[1..]) == Join(parts[1..], sep);
      }
    } else {
      assert p == [p[0]] + p[1..];
      var shorter := [p[1..]] + parts[1..];
      assert shorter[1..] == parts[1..];
      JoinSplit(shorter, sep);
      var s := Join(parts, sep);
      assert s == [p[0]] + Join(shorter, sep);
      assert s[1..] == Join(shorter, sep);
      assert p[0] != sep;
      assert Split(s, sep) == [[p[0]] + shorter[0]] + shorter[1..];
      assert parts == [p] + parts[1..];
    }
  }

  // ---------------------------------------------------------------------
  // int() of a label field
  // ---------------------------------------------------------------------

  predicate IsDigit(c: char)
  {
    '0' <= c <= '9'
  }

  /** The digit strings `int()` accepts: digits, with single underscores between two digits. */
  predicate IsDigitString(s: string)
  {
    && |s| > 0
    && (forall i :: 0 <= i < |s| ==> IsDigit(s[i]) || s[i] == '_')
    && IsDigit(s[0]) && IsDigit(s[|s| - 1])
    && (forall i :: 0 <= i < |s| - 1 ==> s[i] == '_' ==> s[i + 1] != '_')
  }

  /** The decimal value of a digit string, underscores ignored. */
  function DigitsValue(s: string): nat
    requires forall i :: 0 <= i < |s| ==> IsDigit(s[i]) || s[i] == '_'
  {
    if s == [] then 0
    else
      var last := s[|s| - 1];
      assert IsDigit(last) || last == '_';
      if last == '_' then DigitsValue(s[..|s| - 1])
      else DigitsValue(s[..|s| - 1]) * 10 + (last as int - '0' as int)
  }

  /**
   * `int(field)` on a stripped field: an optional sign, then a digit string.
   * None stands for the ValueError `int` raises on anything else.
   */
  function ParseInt(s: string): Option<int>
  {
    if |s| > 0 && (s[0] == '+' || s[0] == '-') then
      if IsDigitString(s[1..]) then
        var v: int := DigitsValue(s[1..]);
        Some(if s[0] == '-' then -v else v)
      else None
    else if IsDigitString(s) then Some(DigitsValue(s))
    else None
  }

  function DigitChar(d: nat): char
    requires d < 10
  {
    ('0' as int + d) as char
  }

  /** The decimal text of a natural number, as an ARFF writer prints a label. */
  function ShowNat(n: nat): (s: string)
    ensures |s| > 0 && forall i :: 0 <= i < |s| ==> IsDigit(s[i])
  {
    if n < 10 then [DigitChar(n)] else ShowNat(n / 10) + [DigitChar(n % 10)]
  }

  /** The decimal text of an integer, with a leading '-' when negative. */
  function ShowInt(n: int): string
  {
    if n < 0 then "-" + ShowNat(-n) else ShowNat(n)
  }

  lemma {:induction false} ShowNatValue(n: nat)
    ensures DigitsValue(ShowNat(n)) == n
  {
    if n >= 10 {
      ShowNatValue(n / 10);
      var s := ShowNat(n);
      assert s[..|s| - 1] == ShowNat(n / 10);
    }
  }

  lemma ShowNatIsDigitString(n: nat)
    ensures IsDigitString(ShowNat(n))
  {
    var s := ShowNat(n);
    assert forall i :: 0 <= i < |s| - 1 ==> s[i] != '_';
  }

  /** Every integer label written in decimal is read back by ParseInt. */
  lemma ParseShowInt(n: int)
    ensures ParseInt(ShowInt(n)) == Some(n)
  {
    if n < 0 {
      var d := ShowNat(-n);
      ShowNatValue(-n);
      ShowNatIsDigitString(-n);
      var s := ShowInt(n);
      assert s == "-" + d;
      assert s[1..] == d;
      assert s[0] == '-';
    } else {
      var d := ShowNat(n);
      ShowNatValue(n);
      ShowNatIsDigitString(n);
      assert IsDigit(d[0]);
    }
  }

  // ---------------------------------------------------------------------
  // load_arff_mnist: the line state machine
  // ---------------------------------------------------------------------

  function LowerChar(c: char): char
  {
    if 'A' <= c <= 'Z' then (c as int + 32) as char else c
  }

  /**
   * `l.lower() == "@data"`: only ASCII letters lower to the letters of
   * "@data", so comparing the ASCII-lowered characters decides it.
   */
  predicate IsMarkerText(l: string)
  {
    && |l| == 5
    && l[0] == '@' && LowerChar(l[1]) == 'd' && LowerChar(l[2]) == 'a'
    && LowerChar(l[3]) == 't' && LowerChar(l[4]) == 'a'
  }

  /**
   * What the parser makes of one line once stripped: a blank or `%` comment
   * line is passed over in either state; any other line is content, flagged
   * when it reads "@data" in some letter case.
   */
  datatype Line = Skip | Content(text: string, marker: bool)

  function Classify(raw: string): Line
  {
    var s := Strip(raw);
    if |s| == 0 || s[0] == '%' then Skip else Content(s, IsMarkerText(s))
  }

  /** The line that opens the data section while the parser is still in the header. */
  predicate IsMarker(l: Line)
  {
    l.Content? && l.marker
  }

  /** Every line of a file, classified. */
  function Classes(lines: seq<string>): (c: seq<Line>)
    ensures |c| == |lines| && forall i :: 0 <= i < |lines| ==> c[i] == Classify(lines[i])
  {
    seq(|lines|, i requires 0 <= i < |lines| => Classify(lines[i]))
  }

  /** The position of the first "@data" line, if there is one. */
  function FirstMarker(ls: seq<Line>): (r: Option<nat>)
    ensures r.Some? ==>
      && r.value < |ls| && IsMarker(ls[r.value])
      && forall i :: 0 <= i < r.value ==> !IsMarker(ls[i])
    ensures r.None? ==> forall i :: 0 <= i < |ls| ==> !IsMarker(ls[i])
  {
    if ls == [] then None
    else if IsMarker(ls[0]) then Some(0)
    else match FirstMarker(ls[1..])
      case None => None
      case Some(m) => Some(m + 1)
  }

  /** The stripped text of the content lines, in order. */
  function Kept(ls: seq<Line>): seq<string>
  {
    if ls == [] then []
    else
      var last := ls[|ls| - 1];
      Kept(ls[..|ls| - 1]) + (if last.Content? then [last.text] else [])
  }

  /** The data lines: the content after the first "@data" line; none without one. */
  function Section(ls: seq<Line>): seq<string>
  {
    match FirstMarker(ls)
    case None => []
    case Some(m) => Kept(ls[m + 1..])
  }

  /** The data lines of a file, stripped. */
  function DataSection(lines: seq<string>): seq<string>
  {
    Section(Classes(lines))
  }

  /** `[p.strip() for p in line.split(",")]`. */
  function Fields(line: string): (parts: seq<string>)
    ensures |parts| >= 1
  {
    var pieces := Split(line, ',');
    seq(|pieces|, k requires 0 <= k < |pieces| => Strip(pieces[k]))
  }

  /** The feature fields of a data line: all fields but the last. */
  function RowFeatures(line: string): seq<string>
  {
    var parts := Fields(line);
    parts[..|parts| - 1]
  }

  /** The label of a data line: `int()` of its last field. */
  function RowLabel(line: string): Option<int>
  {
    var parts := Fields(line);
    ParseInt(parts[|parts| - 1])
  }

  function FeatureRows(data: seq<string>): (rows: seq<seq<string>>)
    ensures |rows| == |data| && forall k :: 0 <= k < |data| ==> rows[k] == RowFeatures(data[k])
  {
    seq(|data|, k requires 0 <= k < |data| => RowFeatures(data[k]))
  }

  /** Every data line carries an integer label. */
  predicate LabelsParse(data: seq<string>)
  {
    forall k :: 0 <= k < |data| ==> RowLabel(data[k]).Some?
  }

  /** numpy can build a 2-D float array from the rows only when they have one length. */
  predicate Rectangular(rows: seq<seq<string>>)
  {
    forall i :: 0 <= i < |rows| ==> |rows[i]| == |rows[0]|
  }

  /** Fits numpy's int64. */
  predicate IsInt64(v: int)
  {
    -0x8000_0000_0000_0000 <= v < 0x8000_0000_0000_0000
  }

  predicate LabelsFit(data: seq<string>)
    requires LabelsParse(data)
  {
    forall k :: 0 <= k < |data| ==> IsInt64(RowLabel(data[k]).value)
  }

  /** The feature array has at least one entry, so taking its maximum succeeds. */
  predicate HasValues(rows: seq<seq<string>>)
  {
    |rows| > 0 && |rows[0]| > 0
  }

  /** The parsed file: one feature row (still text) and one label per data line. */
  datatype Table = Table(features: seq<seq<string>>, labels: seq<int>)

  /**
   * The ways `load_arff_mnist` fails: `int` rejects a label (at data row
   * `row`), the rows differ in length when the float array is built, a label
   * does not fit the int64 label array, or the feature array is empty when
   * its maximum is taken.
   */
  datatype ArffError = BadLabel(row: nat) | Ragged | LabelOutOfRange | NoValues

  /** Extending a sequence of lines by one: the first marker stays, or the new line becomes it. */
  lemma {:induction false} FirstMarkerSnoc(ls: seq<Line>, l: Line)
    ensures FirstMarker(ls + [l]) ==
      if FirstMarker(ls).Some? then FirstMarker(ls)
      else if IsMarker(l) then Some(|ls|)
      else None
  {
    if ls != [] {
      assert (ls + [l])[0] == ls[0];
      assert (ls + [l])[1..] == ls[1..] + [l];
      FirstMarkerSnoc(ls[1..], l);
    }
  }

  /** The first marker of a prefix is the first marker of the whole. */
  lemma FirstMarkerPrefix(ls: seq<Line>, k: nat)
    requires k <= |ls| && FirstMarker(ls[..k]).Some?
    ensures FirstMarker(ls) == FirstMarker(ls[..k])
  {
    assert forall i :: 0 <= i < k ==> ls[..k][i] == ls[i];
  }

  /** Extending a sequence of lines by one adds that line's text when it is content. */
  lemma KeptSnoc(ls: seq<Line>, l: Line)
    ensures Kept(ls + [l]) == Kept(ls) + (if l.Content? then [l.text] else [])
  {
    assert (ls + [l])[..|ls|] == ls;
  }

  /** Kept distributes over concatenation. */
  lemma {:induction false} KeptAppend(a: seq<Line>, b: seq<Line>)
    ensures Kept(a + b) == Kept(a) + Kept(b)
    decreases |b|
  {
    if b == [] {
      assert a + b == a;
    } else {
      var b' := b[..|b| - 1];
      KeptAppend(a, b');
      assert (a + b)[..|a + b| - 1] == a + b';
    }
  }

  /** Where the parser stands after some lines: still in the header, or reading rows. */
  datatype ScanState = ScanState(inData: bool, rows: seq<string>)

  /** The parser's state after the given lines, one line at a time. */
  function Scan(ls: seq<Line>): ScanState
  {
    if ls == [] then ScanState(false, [])
    else
      var st := Scan(ls[..|ls| - 1]);
      match ls[|ls| - 1]
      case Skip => st
      case Content(text, marker) =>
        if !st.inData then ScanState(marker, []) else ScanState(true, st.rows + [text])
  }

  /**
   * The line-at-a-time parser agrees with the declarative description: it is
   * reading rows exactly once a marker has gone by, and the rows it holds are
   * the data section so far.
   */
  lemma {:induction false} ScanIsSection(ls: seq<Line>)
    ensures Scan(ls).inData <==> FirstMarker(ls).Some?
    ensures Scan(ls).rows == Section(ls)
  {
    if ls != [] {
      var init, l := ls[..|ls| - 1], ls[|ls| - 1];
      assert ls == init + [l];
      ScanIsSection(init);
      FirstMarkerSnoc(init, l);
      match FirstMarker(init)
      case Some(m) =>
        assert ls[m + 1..] == init[m + 1..] + [l];
        KeptSnoc(init[m + 1..], l);
      case None =>
        if IsMarker(l) {
          assert ls[|init| + 1..] == [];
        }
    }
  }

  /** Once the parser is reading rows, the rest of the section is the content that follows. */
  lemma SectionAfter(ls: seq<Line>, k: nat)
    requires k <= |ls| && Scan(ls[..k]).inData
    ensures Section(ls) == Scan(ls[..k]).rows + Kept(ls[k..])
  {
    ScanIsSection(ls[..k]);
    FirstMarkerPrefix(ls, k);
    var m := FirstMarker(ls).value;
    assert ls[..k][m + 1..] == ls[m + 1..k];
    assert Scan(ls[..k]).rows == Kept(ls[m + 1..k]);
    KeptAppend(ls[m + 1..k], ls[k..]);
    assert ls[m + 1..k] + ls[k..] == ls[m + 1..];
    assert Section(ls) == Kept(ls[m + 1..]);
  }

  /** One more line: what the parser does with line k given its state before it. */
  lemma ScanStep(ls: seq<Line>, k: nat)
    requires k < |ls|
    ensures Scan(ls[..k + 1]) ==
      match ls[k]
      case Skip => Scan(ls[..k])
      case Content(text, marker) =>
        if !Scan(ls[..k]).inData then ScanState(marker, [])
        else ScanState(true, Scan(ls[..k]).rows + [text])
  {
    assert ls[..k + 1][..k] == ls[..k];
  }

  /** While reading rows, content line k is the next row of the section. */
  lemma SectionAt(ls: seq<Line>, k: nat)
    requires k < |ls| && Scan(ls[..k]).inData && ls[k].Content?
    ensures Section(ls) == Scan(ls[..k]).rows + [ls[k].text] + Kept(ls[k + 1..])
  {
    SectionAfter(ls, k);
    assert ls[k..] == [ls[k]] + ls[k + 1..];
    KeptAppend([ls[k]], ls[k + 1..]);
    KeptSnoc([], ls[k]);
    assert [] + [ls[k]] == [ls[k]];
  }

  /** A data line reached while reading rows stands in the file's data section right after the rows read so far. */
  lemma RowPosition(lines: seq<string>, k: nat, rows: seq<string>)
    requires k < |lines| && Scan(Classes(lines)[..k]) == ScanState(true, rows)
    requires Classify(lines[k]).Content?
    ensures |rows| < |DataSection(lines)|
    ensures DataSection(lines)[|rows|] == Classify(lines[k]).text
    ensures forall i :: 0 <= i < |rows| ==> DataSection(lines)[i] == rows[i]
  {
    SectionAt(Classes(lines), k);
  }

  /** A label written in decimal holds no comma and no surrounding whitespace. */
  lemma ShowIntIsField(v: int)
    ensures ',' !in ShowInt(v) && Strip(ShowInt(v)) == ShowInt(v)
  {
    var s := ShowInt(v);
    var d := if v < 0 then ShowNat(-v) else ShowNat(v);
    assert s[|s| - 1] == d[|d| - 1];
    assert !IsSpace(s[0]) && !IsSpace(s[|s| - 1]);
    assert StripLeft(s) == s;
  }

  /**
   * A data line written as comma-joined feature fields followed by a decimal
   * label reads back as those features and that label.
   */
  lemma RowRoundTrip(fields: seq<string>, v: int)
    requires forall k :: 0 <= k < |fields| ==> ',' !in fields[k] && Strip(fields[k]) == fields[k]
    ensures var line := Join(fields + [ShowInt(v)], ',');
      RowFeatures(line) == fields && RowLabel(line) == Some(v)
  {
    var parts := fields + [ShowInt(v)];
    ShowIntIsField(v);
    JoinSplit(parts, ',');
    var line := Join(parts, ',');
    assert Fields(line) == parts;
    ParseShowInt(v);
  }

  /** One data line of `load_arff_mnist`: its stripped comma fields, the label parsed from the last. */
  method ParseRow(line: string) returns (features: seq<string>, parsed: Option<int>)
    ensures features == RowFeatures(line) && parsed == RowLabel(line)
  {
    var parts := Fields(line);
    parsed := ParseInt(parts[|parts| - 1]);
    features := parts[..|parts| - 1];
  }

  /**
   * The reading loop of `load_arff_mnist`: skip blank and comment lines, wait
   * for "@data", then read one (features, label) row per remaining line. It
   * stops at the first label `int` rejects, reporting that row's position.
   */
  method ReadRows(lines: seq<string>) returns (r: Result<Table, nat>)
    ensures r.Ok? ==>
      && r.value.features == FeatureRows(DataSection(lines))
      && |r.value.labels| == |DataSection(lines)|
      && forall k :: 0 <= k < |r.value.labels| ==> RowLabel(DataSection(lines)[k]) == Some(r.value.labels[k])
    ensures r.Err? ==>
      && r.error < |DataSection(lines)|
      && RowLabel(DataSection(lines)[r.error]).None?
      && forall k :: 0 <= k < r.error ==> RowLabel(DataSection(lines)[k]).Some?
  {
    ghost var cs := Classes(lines);
    var xRows: seq<seq<string>> := [];
    var yRows: seq<int> := [];
    var inData := false;
    ghost var rows: seq<string> := [];
    for k := 0 to |lines|
      invariant Scan(cs[..k]) == ScanState(inData, rows)
      invariant !inData ==> rows == []
      invariant |xRows| == |yRows| == |rows|
      invariant forall i :: 0 <= i < |rows| ==>
        xRows[i] == RowFeatures(rows[i]) && RowLabel(rows[i]) == Some(yRows[i])
    {
      ScanStep(cs, k);
      assert cs[k] == Classify(lines[k]);
      var line := Strip(lines[k]);
      if |line| == 0 || line[0] == '%' {
        continue;
      }
      if !inData {
        if IsMarkerText(line) {
          inData := true;
        }
        continue;
      }
      var features, parsed := ParseRow(line);
      if parsed.None? {
        RowPosition(lines, k, rows);
        return Err(|yRows|);
      }
      yRows := yRows + [parsed.value];
      xRows := xRows + [features];
      rows := rows + [line];
    }
    assert cs[..|lines|] == cs;
    ScanIsSection(cs);
    assert xRows == FeatureRows(rows);
    return Ok(Table(xRows, yRows));
  }

  /**
   * `load_arff_mnist` after the file is opened: read the rows, then build the
   * float feature array, the int64 label array, and take the feature maximum.
   */
  method LoadArffLines(lines: seq<string>) returns (r: Result<Table, ArffError>)
    ensures r.Ok? <==>
      && LabelsParse(DataSection(lines)) && Rectangular(FeatureRows(DataSection(lines)))
      && LabelsFit(DataSection(lines)) && HasValues(FeatureRows(DataSection(lines)))
    ensures r.Ok? ==>
      && r.value.features == FeatureRows(DataSection(lines))
      && |r.value.labels| == |DataSection(lines)|
      && forall k :: 0 <= k < |r.value.labels| ==> RowLabel(DataSection(lines)[k]) == Some(r.value.labels[k])
    ensures r.Err? && r.error.BadLabel? ==>
      && r.error.row < |DataSection(lines)|
      && RowLabel(DataSection(lines)[r.error.row]).None?
      && forall k :: 0 <= k < r.error.row ==> RowLabel(DataSection(lines)[k]).Some?
    ensures r.Err? && r.error.Ragged? ==>
      LabelsParse(DataSection(lines)) && !Rectangular(FeatureRows(DataSection(lines)))
    ensures r.Err? && r.error.LabelOutOfRange? ==>
      && LabelsParse(DataSection(lines)) && Rectangular(FeatureRows(DataSection(lines)))
      && !LabelsFit(DataSection(lines))
    ensures r.Err? && r.error.NoValues? ==>
      && LabelsParse(DataSection(lines)) && Rectangular(FeatureRows(DataSection(lines)))
      && LabelsFit(DataSection(lines)) && !HasValues(FeatureRows(DataSection(lines)))
  {
    ghost var data := DataSection(lines);
    var read := ReadRows(lines);
    if read.Err? {
      assert !LabelsParse(data);
      return Err(BadLabel(read.error));
    }
    var xRows, yRows := read.value.features, read.value.labels;
    assert LabelsParse(data);
    ghost var fit := forall i :: 0 <= i < |yRows| ==> IsInt64(yRows[i]);
    assert LabelsFit(data) == fit;
    if !Rectangular(xRows) {
      return Err(Ragged);
    }
    if exists i :: 0 <= i < |yRows| && !IsInt64(yRows[i]) {
      return Err(LabelOutOfRange);
    }
    if |xRows| == 0 || |xRows[0]| == 0 {
      return Err(NoValues);
    }
    return Ok(Table(xRows, yRows));
  }

  /** Classifying a concatenation classifies each part. */
  lemma ClassesAppend(a: seq<string>, b: seq<string>)
    ensures Classes(a + b) == Classes(a) + Classes(b)
  {
    assert forall i :: 0 <= i < |a| ==> (a + b)[i] == a[i];
    assert forall i :: |a| <= i < |a| + |b| ==> (a + b)[i] == b[i - |a|];
  }

  /** The first marker of a concatenation: in the first part if it has one, else shifted from the second. */
  lemma FirstMarkerAppend(a: seq<Line>, b: seq<Line>)
    ensures FirstMarker(a + b) ==
      match FirstMarker(a)
      case Some(m) => Some(m)
      case None => match FirstMarker(b) { case None => None case Some(m) => Some(|a| + m) }
  {
    var ab := a + b;
    assert forall i :: 0 <= i < |a| ==> ab[i] == a[i];
    assert forall i :: |a| <= i < |ab| ==> ab[i] == b[i - |a|];
    match FirstMarker(a)
    case Some(m) =>
    case None =>
      match FirstMarker(b)
      case None =>
      case Some(m) =>
        assert ab[|a| + m] == b[m];
  }

  /** The section starts right after the first marker. */
  lemma MarkerOpens(h: seq<Line>, l: Line, b: seq<Line>)
    requires forall i :: 0 <= i < |h| ==> !IsMarker(h[i])
    requires IsMarker(l)
    ensures Section(h + [l] + b) == Kept(b)
  {
    var ls := h + [l] + b;
    assert ls == h + ([l] + b);
    FirstMarkerAppend(h, [l] + b);
    assert FirstMarker(h) == None;
    assert FirstMarker([l] + b) == Some(0);
    assert ls[|h| + 1..] == b;
  }

  /** Whatever comes before the first "@data" line, and that line itself, yields no row. */
  lemma HeaderIgnored(header: seq<string>, marker: string, body: seq<string>)
    requires forall i :: 0 <= i < |header| ==> !IsMarker(Classify(header[i]))
    requires IsMarker(Classify(marker))
    ensures DataSection(header + [marker] + body) == Kept(Classes(body))
  {
    ClassesAppend(header + [marker], body);
    ClassesAppend(header, [marker]);
    assert Classes([marker]) == [Classify(marker)];
    MarkerOpens(Classes(header), Classify(marker), Classes(body));
  }

  /** Inserting a skipped line anywhere leaves the section as it was. */
  lemma SkipIgnored(a: seq<Line>, b: seq<Line>)
    ensures Section(a + [Skip] + b) == Section(a + b)
  {
    ScanSkip(a, b);
    ScanIsSection(a + [Skip] + b);
    ScanIsSection(a + b);
  }

  /** The parser's state does not see a skipped line. */
  lemma {:induction false} ScanSkip(a: seq<Line>, b: seq<Line>)
    ensures Scan(a + [Skip] + b) == Scan(a + b)
    decreases |b|
  {
    if b == [] {
      assert a + [Skip] + b == a + [Skip];
      assert (a + [Skip])[..|a|] == a;
      assert a + b == a;
    } else {
      var b' := b[..|b| - 1];
      ScanSkip(a, b');
      assert (a + [Skip] + b)[..|a| + |b|] == a + [Skip] + b';
      assert (a + b)[..|a| + |b| - 1] == a + b';
      assert (a + [Skip] + b)[|a| + |b|] == b[|b| - 1];
      assert (a + b)[|a| + |b| - 1] == b[|b| - 1];
    }
  }

  /** A blank or comment line yields no row, wherever it stands. */
  lemma SkippedLineIgnored(a: seq<string>, x: string, b: seq<string>)
    requires Classify(x).Skip?
    ensures DataSection(a + [x] + b) == DataSection(a + b)
  {
    ClassesAppend(a + [x], b);
    ClassesAppend(a, [x]);
    ClassesAppend(a, b);
    assert Classes([x]) == [Skip];
    SkipIgnored(Classes(a), Classes(b));
  }

  /** After a marker, one more content line appends its text to the section. */
  lemma ContentAppended(a: seq<Line>, l: Line, b: seq<Line>)
    requires FirstMarker(a).Some? && l.Content?
    ensures Section(a + [l] + b) == Section(a) + [l.text] + Kept(b)
  {
    var m := FirstMarker(a).value;
    FirstMarkerAppend(a, [l] + b);
    assert a + [l] + b == a + ([l] + b);
    assert (a + [l] + b)[m + 1..] == (a[m + 1..] + [l]) + b;
    KeptAppend(a[m + 1..] + [l], b);
    KeptSnoc(a[m + 1..], l);
  }

  /**
   * After "@data", each further content line yields exactly one row, its
   * stripped text, in file order; a second "@data" line is such a row too.
   */
  lemma DataLineYieldsRow(a: seq<string>, x: string, b: seq<string>)
    requires FirstMarker(Classes(a)).Some?
    requires Classify(x).Content?
    ensures DataSection(a + [x] + b) == DataSection(a) + [Strip(x)] + Kept(Classes(b))
  {
    ClassesAppend(a + [x], b);
    ClassesAppend(a, [x]);
    assert Classes([x]) == [Classify(x)];
    ContentAppended(Classes(a), Classify(x), Classes(b));
  }

  // ---------------------------------------------------------------------
  // train_test_split
  // ---------------------------------------------------------------------

  /** Python's `int(x)` of a float: truncation toward zero. */
  function Truncate(x: real): int
  {
    if x >= 0.0 then x.Floor else -((-x).Floor)
  }

  /** The cut `int(N * (1 - test_size))`, as slicing applies it. */
  function SplitPoint(n: nat, testSize: real): (s: nat)
    ensures s <= n
  {
    SliceBound(Truncate(n as real * (1.0 - testSize)), n)
  }

  /** For a test fraction in [0, 1] the training part has floor(N * (1 - test_size)) rows. */
  lemma SplitPointIsFloor(n: nat, testSize: real)
    requires 0.0 <= testSize <= 1.0
    ensures SplitPoint(n, testSize) == (n as real * (1.0 - testSize)).Floor
  {
    var x := n as real * (1.0 - testSize);
    assert 0.0 <= x <= n as real;
  }

  datatype TrainTest<T, L> = TrainTest(xTrain: seq<T>, yTrain: seq<L>, xTest: seq<T>, yTest: seq<L>)

  /**
   * `train_test_split(X, y, test_size)`: the first SplitPoint entries of the
   * shuffled index vector `perm` pick the training rows, the rest the test
   * rows; X and y are picked by the same indices.
   */
  function TrainTestSplit<T, L>(X: seq<T>, y: seq<L>, testSize: real, perm: seq<nat>): (r: TrainTest<T, L>)
    requires |X| <= |y|
    requires IsPermutation(perm, |X|)
    ensures |r.xTrain| == |r.yTrain| == SplitPoint(|X|, testSize)
    ensures |r.xTest| == |r.yTest| == |X| - SplitPoint(|X|, testSize)
    ensures forall k :: 0 <= k < |r.xTrain| ==> r.xTrain[k] == X[perm[k]] && r.yTrain[k] == y[perm[k]]
    ensures forall k :: 0 <= k < |r.xTest| ==>
      var i := perm[SplitPoint(|X|, testSize) + k];
      r.xTest[k] == X[i] && r.yTest[k] == y[i]
  {
    var split := SplitPoint(|X|, testSize);
    var trainIdx := perm[..split];
    var testIdx := perm[split..];
    TrainTest(Gather(X, trainIdx), Gather(y, trainIdx), Gather(X, testIdx), Gather(y, testIdx))
  }

  /** The train and test index vectors are disjoint and together hold every row 0 .. N-1 once. */
  lemma SplitPartitionsRows(perm: seq<nat>, n: nat, s: nat, x: nat)
    requires IsPermutation(perm, n) && s <= n
    ensures multiset(perm[..s])[x] + multiset(perm[s..])[x] == if x < n then 1 else 0
    ensures x in perm[..s] ==> x !in perm[s..]
    ensures x < n ==> x in perm[..s] || x in perm[s..]
  {
    assert perm == perm[..s] + perm[s..];
    PermutationMultiplicity(perm, n, x);
  }
}
