/** The record-based text commands: head, tail, sort and uniq on LF-delimited records. */
module TextCommands {
  import opened Basics
  import opened Utf8
  import opened Ordering

  const LF: Scalar := 0x0A

  // ---------------------------------------------------------------- records

  /** `text.split("\n")`. */
  function Parts(text: Text): (parts: seq<Text>)
    ensures parts != []
  {
    if text == [] then [[]]
    else
      var rest := Parts(text[1..]);
      if text[0] == LF then [[]] + rest else [[text[0]] + rest[0]] + rest[1..]
  }

  function Ended(lines: seq<Text>): (r: seq<Text>)
    ensures |r| == |lines| && forall i :: 0 <= i < |lines| ==> r[i] == lines[i] + [LF]
  {
    seq(|lines|, i requires 0 <= i < |lines| => lines[i] + [LF])
  }

  /** Every part but the last with its line feed; the last one if there is any of it. */
  function RecordsOf(parts: seq<Text>): seq<Text>
    requires parts != []
  {
    var last := parts[|parts| - 1];
    Ended(parts[..|parts| - 1]) + if last != [] then [last] else []
  }

  function Records(text: Text): seq<Text> {
    RecordsOf(Parts(text))
  }

  /** `"\n".join(parts)`. */
  function Rejoined(parts: seq<Text>): Text
    requires parts != []
  {
    if |parts| == 1 then parts[0] else parts[0] + [LF] + Rejoined(parts[1..])
  }

  lemma {:induction false} SplitThenJoin(text: Text)
    ensures Rejoined(Parts(text)) == text
  {
    if text != [] {
      SplitThenJoin(text[1..]);
      hide Rejoined;
      var rest := Parts(text[1..]);
      if text[0] == LF {
        RejoinedMore([], rest);
        assert [] + [LF] + text[1..] == text;
      } else {
        RejoinedGrows(text[0], rest);
        assert [text[0]] + text[1..] == text;
      }
    }
  }

  lemma RejoinedMore(first: Text, rest: seq<Text>)
    requires rest != []
    ensures Rejoined([first] + rest) == first + [LF] + Rejoined(rest)
  {
    assert ([first] + rest)[1..] == rest;
  }

  lemma RejoinedGrows(c: Scalar, parts: seq<Text>)
    requires parts != []
    ensures Rejoined([[c] + parts[0]] + parts[1..]) == [c] + Rejoined(parts)
  {
    var grown := [[c] + parts[0]] + parts[1..];
    assert grown[1..] == parts[1..];
    if |parts| > 1 {
      assert [c] + parts[0] + [LF] + Rejoined(parts[1..]) == [c] + (parts[0] + [LF] + Rejoined(parts[1..]));
    }
  }

  lemma {:induction false} RecordsRejoin(parts: seq<Text>)
    requires parts != []
    ensures Concatenated(RecordsOf(parts)) == Rejoined(parts)
    decreases |parts|
  {
    if |parts| == 1 {
      assert parts[..0] == [] && Ended([]) == [];
      var last := parts[0];
      if last != [] {
        var one: seq<Text> := [last];
        assert RecordsOf(parts) == one && one[1..] == [];
        assert last + Concatenated([]) == last;
      }
    } else {
      RecordsRejoin(parts[1..]);
      assert Ended(parts[..|parts| - 1]) == [parts[0] + [LF]] + Ended(parts[1..][..|parts| - 2]);
      assert RecordsOf(parts) == [parts[0] + [LF]] + RecordsOf(parts[1..]);
      assert ([parts[0] + [LF]] + RecordsOf(parts[1..]))[1..] == RecordsOf(parts[1..]);
    }
  }

  /** Joining the records gives the text back. */
  lemma RecordsJoin(text: Text)
    ensures Concatenated(Records(text)) == text
  {
    SplitThenJoin(text);
    RecordsRejoin(Parts(text));
  }

  predicate Line(t: Text) {
    LF !in t
  }

  predicate Lines(ts: seq<Text>) {
    forall i :: 0 <= i < |ts| ==> Line(ts[i])
  }

  lemma {:induction false} PartsAreLines(text: Text)
    ensures Lines(Parts(text))
  {
    if text != [] {
      PartsAreLines(text[1..]);
    }
  }

  /** A record is a line with its line feed; only the last may lack it, and none is empty. */
  lemma RecordShape(text: Text, i: nat)
    requires i < |Records(text)|
    ensures var r := Records(text)[i];
      && r != [] && Line(r[..|r| - 1])
      && (i < |Records(text)| - 1 ==> r[|r| - 1] == LF)
  {
    PartsAreLines(text);
    var parts := Parts(text);
    var r := Records(text)[i];
    if i < |parts| - 1 {
      assert r == parts[i] + [LF] && r[..|r| - 1] == parts[i];
    } else {
      assert r == parts[|parts| - 1];
    }
  }

  // ---------------------------------------------------------------- head and tail

  function Head(records: seq<Text>, count: nat): seq<Text> {
    if count <= |records| then records[..count] else records
  }

  /** `records[-count:]`, which for zero would be everything: zero is handled apart. */
  function Tail(records: seq<Text>, count: nat): seq<Text> {
    if count == 0 then [] else if count <= |records| then records[|records| - count..] else records
  }

  /** What head or tail selects of one text. */
  function Selected(text: Text, count: nat, fromEnd: bool): seq<Text> {
    if fromEnd then Tail(Records(text), count) else Head(Records(text), count)
  }

  /** `"".join(selected)` for one input. */
  method SelectedOutput(text: Text, count: nat, fromEnd: bool) returns (body: Text)
    ensures body == Concatenated(Selected(text, count, fromEnd))
  {
    hide Records, Concatenated;
    var records := Records(text);
    var selected;
    if fromEnd && count > 0 {
      selected := if count <= |records| then records[|records| - count..] else records;
    } else {
      selected := if count <= |records| then records[..count] else records;
    }
    body := [];
    assert selected[..0] == [];
    NothingConcatenated();
    for i := 0 to |selected|
      invariant body == Concatenated(selected[..i])
    {
      ConcatenatedAppend(selected[..i], selected[i]);
      assert selected[..i + 1] == selected[..i] + [selected[i]];
      body := body + selected[i];
    }
    assert selected[..|selected|] == selected;
  }

  lemma NothingConcatenated()
    ensures Concatenated<Scalar>([]) == []
  {
  }

  datatype Input = Input(name: Option<Text>, text: Text)

  /** "standard input", "==> ", " <==" and "-" */
  const STANDARD_INPUT: Text := [0x73, 0x74, 0x61, 0x6E, 0x64, 0x61, 0x72, 0x64, 0x20, 0x69, 0x6E, 0x70, 0x75, 0x74]
  const HEADING_OPENS: Text := [0x3D, 0x3D, 0x3E, 0x20]
  const HEADING_CLOSES: Text := [0x20, 0x3C, 0x3D, 0x3D]
  const DASH: Text := [0x2D]

  /** The heading over an input, which only several inputs have. */
  function Heading(name: Option<Text>): Text {
    var display := if name == None || name == Some(DASH) then STANDARD_INPUT else name.value;
    HEADING_OPENS + display + HEADING_CLOSES + [LF]
  }

  function Section(input: Input, several: bool, count: nat, fromEnd: bool): Text {
    (if several then Heading(input.name) else []) + Concatenated(Selected(input.text, count, fromEnd))
  }

  function Sections(inputs: seq<Input>, several: bool, count: nat, fromEnd: bool): (r: seq<Text>)
    ensures |r| == |inputs|
    ensures forall i :: 0 <= i < |inputs| ==> r[i] == Section(inputs[i], several, count, fromEnd)
  {
    seq(|inputs|, i requires 0 <= i < |inputs| => Section(inputs[i], several, count, fromEnd))
  }

  /** The selected records of every input, under headings when there are several, a line feed
      between one input's part and the next. */
  method LimitedOutput(inputs: seq<Input>, count: nat, fromEnd: bool) returns (output: Text)
    ensures inputs == [] ==> output == []
    ensures |inputs| == 1 ==> output == Concatenated(Selected(inputs[0].text, count, fromEnd))
    ensures |inputs| > 1 ==> output == Rejoined(Sections(inputs, true, count, fromEnd))
  {
    hide Concatenated, Selected;
    var sections: seq<Text> := [];
    var multiple := |inputs| > 1;
    for i := 0 to |inputs|
      invariant |sections| == i && forall j :: 0 <= j < i ==> sections[j] == Section(inputs[j], multiple, count, fromEnd)
    {
      var body := SelectedOutput(inputs[i].text, count, fromEnd);
      if multiple {
        var name := inputs[i].name;
        var display := if name == None || name == Some(DASH) then STANDARD_INPUT else name.value;
        sections := sections + [HEADING_OPENS + display + HEADING_CLOSES + [LF] + body];
      } else {
        assert [] + body == body;
        sections := sections + [body];
      }
    }
    assert sections == Sections(inputs, multiple, count, fromEnd);
    output := if sections == [] then [] else Rejoined(sections);
  }

  /** `head -n k` followed by `tail -n` of the remaining records is the whole text. */
  lemma HeadThenTail(text: Text, k: nat)
    requires k <= |Records(text)|
    ensures Concatenated(Head(Records(text), k)) + Concatenated(Tail(Records(text), |Records(text)| - k)) == text
  {
    hide Records;
    var rs := Records(text);
    RecordsJoin(text);
    ConcatenatedSplit(rs[..k], rs[k..]);
    assert rs[..k] + rs[k..] == rs;
  }

  // ---------------------------------------------------------------- lines

  function WithoutLf(record: Text): Text {
    if record != [] && record[|record| - 1] == LF then record[..|record| - 1] else record
  }

  function LinesOf(text: Text): (r: seq<Text>)
    ensures |r| == |Records(text)| && forall i :: 0 <= i < |r| ==> r[i] == WithoutLf(Records(text)[i])
  {
    seq(|Records(text)|, i requires 0 <= i < |Records(text)| => WithoutLf(Records(text)[i]))
  }

  lemma LinesAreLines(text: Text)
    ensures Lines(LinesOf(text))
  {
    hide Records;
    forall i | 0 <= i < |LinesOf(text)| ensures Line(LinesOf(text)[i]) {
      RecordShape(text, i);
      var r := Records(text)[i];
      if r[|r| - 1] != LF {
        assert r == r[..|r| - 1] + [r[|r| - 1]];
      }
    }
  }

  /** What sort and uniq write. */
  function Written(lines: seq<Text>): Text {
    Concatenated(Ended(lines))
  }

  lemma {:induction false} PartsOfLine(line: Text, rest: Text)
    requires Line(line)
    ensures Parts(line + [LF] + rest) == [line] + Parts(rest)
  {
    var t := line + [LF] + rest;
    if line == [] {
      assert t[1..] == rest;
    } else {
      assert line[0] in line;
      PartsOfLine(line[1..], rest);
      assert t[1..] == line[1..] + [LF] + rest;
      assert [line[0]] + line[1..] == line;
    }
  }

  /** Written lines are read back as they were. */
  lemma {:induction false} WrittenReadsBack(lines: seq<Text>)
    requires Lines(lines)
    ensures LinesOf(Written(lines)) == lines
    decreases |lines|
  {
    PartsOfWritten(lines);
    var parts := Parts(Written(lines));
    assert parts[..|parts| - 1] == lines;
    var records := Records(Written(lines));
    assert records == Ended(lines);
    forall i | 0 <= i < |lines| ensures WithoutLf(records[i]) == lines[i] {
      assert (lines[i] + [LF])[..|lines[i]|] == lines[i];
    }
  }

  lemma {:induction false} PartsOfWritten(lines: seq<Text>)
    requires Lines(lines)
    ensures Parts(Written(lines)) == lines + [[]]
    decreases |lines|
  {
    if lines == [] {
      assert Ended(lines) == [] && Written(lines) == [];
    } else {
      PartsOfWritten(lines[1..]);
      assert Ended(lines)[0] == lines[0] + [LF] && Ended(lines)[1..] == Ended(lines[1..]);
      PartsOfLine(lines[0], Written(lines[1..]));
      assert Written(lines) == lines[0] + [LF] + Written(lines[1..]);
    }
  }

  // ---------------------------------------------------------------- sort

  /** How two lines compare: by UTF-8 bytes, or by a numeric key left to the parameter. */
  datatype Key = Bytes | Numeric(value: Text -> real)

  predicate KeyLeq(k: Key, a: Text, b: Text) {
    match k
    case Bytes => LexLeq(Encode(a), Encode(b))
    case Numeric(value) => value(a) <= value(b)
  }

  predicate SameKey(k: Key, a: Text, b: Text) {
    match k
    case Bytes => Encode(a) == Encode(b)
    case Numeric(value) => value(a) == value(b)
  }

  function Order(k: Key, reverse: bool): (Text, Text) -> bool {
    if reverse then (a: Text, b: Text) => KeyLeq(k, b, a) else (a: Text, b: Text) => KeyLeq(k, a, b)
  }

  /** Adjacent lines with equal keys collapse to the first. */
  function Collapse(lines: seq<Text>, k: Key): seq<Text> {
    if lines == [] then []
    else
      var last := |lines| - 1;
      Collapse(lines[..last], k)
      + if last == 0 || !SameKey(k, lines[last], lines[last - 1]) then [lines[last]] else []
  }

  function SortedLines(lines: seq<Text>, k: Key, reverse: bool, unique: bool): seq<Text> {
    var ordered := Sort(lines, Order(k, reverse));
    if unique then Collapse(ordered, k) else ordered
  }

  /** The lines of all inputs, one input after the other. */
  function AllLines(texts: seq<Text>): seq<Text> {
    if texts == [] then [] else AllLines(texts[..|texts| - 1]) + LinesOf(texts[|texts| - 1])
  }

  lemma {:induction false} AllLinesAreLines(texts: seq<Text>)
    ensures Lines(AllLines(texts))
  {
    if texts != [] {
      AllLinesAreLines(texts[..|texts| - 1]);
      LinesAreLines(texts[|texts| - 1]);
    }
  }

  method SortText(texts: seq<Text>, k: Key, reverse: bool, unique: bool) returns (stdout: Text)
    ensures stdout == Written(SortedLines(AllLines(texts), k, reverse, unique))
  {
    hide SameKey, Encode, LinesOf;
    var lines: seq<Text> := [];
    for i := 0 to |texts|
      invariant lines == AllLines(texts[..i])
    {
      assert texts[..i + 1][..i] == texts[..i];
      lines := lines + LinesOf(texts[i]);
    }
    assert texts[..|texts|] == texts;
    lines := Sort(lines, Order(k, reverse));
    if unique {
      var kept: seq<Text> := [];
      for i := 0 to |lines|
        invariant kept == Collapse(lines[..i], k)
      {
        assert lines[..i + 1][..i] == lines[..i];
        if i == 0 || !SameKey(k, lines[i], lines[i - 1]) {
          kept := kept + [lines[i]];
        }
      }
      assert lines[..|lines|] == lines;
      lines := kept;
    }
    return Written(lines);
  }

  lemma KeyOrder(k: Key, reverse: bool)
    ensures TotalPreorder(Order(k, reverse))
  {
    LexOrder();
    hide LexLeq, Encode;
    var leq := Order(k, reverse);
    forall a, b, c | leq(a, b) && leq(b, c) ensures leq(a, c) {
      assert k.Bytes? && !reverse ==> LexLeq(Encode(a), Encode(c));
      assert k.Bytes? && reverse ==> LexLeq(Encode(c), Encode(a));
    }
    forall a, b ensures leq(a, b) || leq(b, a) {
      assert k.Bytes? ==> LexLeq(Encode(a), Encode(b)) || LexLeq(Encode(b), Encode(a));
    }
  }

  /** Sorting is a stable rearrangement into order. */
  lemma SortIsStable(lines: seq<Text>, k: Key, reverse: bool, z: Text)
    ensures var leq := Order(k, reverse);
      var r := SortedLines(lines, k, reverse, false);
      && multiset(r) == multiset(lines) && SortedBy(r, leq)
      && EqualTo(r, z, leq) == EqualTo(lines, z, leq)
  {
    KeyOrder(k, reverse);
    hide Order;
    SortContents(lines, Order(k, reverse));
    SortSorted(lines, Order(k, reverse));
    SortStable(lines, z, Order(k, reverse));
  }

  // ---------------------------------------------------------------- uniq

  datatype Run = Run(count: nat, record: Text)

  function RunLength(records: seq<Text>): (n: nat)
    ensures n <= |records| && (records != [] ==> n > 0)
  {
    if records == [] then 0
    else if |records| > 1 && records[1] == records[0] then 1 + RunLength(records[1..]) else 1
  }

  function Runs(records: seq<Text>): seq<Run>
    decreases |records|
  {
    if records == [] then []
    else [Run(RunLength(records), records[0])] + Runs(records[RunLength(records)..])
  }

  method UniqRuns(records: seq<Text>) returns (runs: seq<Run>)
    ensures runs == Runs(records)
  {
    hide Runs, RunLength;
    runs := [];
    var index := 0;
    assert records[0..] == records;
    RunsNothing(records);
    while index < |records|
      invariant index <= |records| && Runs(records) == runs + Runs(records[index..])
      decreases |records| - index
    {
      ghost var rest := records[index..];
      var end := index + 1;
      while end < |records| && records[end] == records[index]
        invariant index < end <= |records|
        invariant forall j :: index <= j < end ==> records[j] == records[index]
        invariant RunLength(rest) == end - index - 1 + RunLength(records[end - 1..])
      {
        RunGrows(records[end - 1..]);
        assert records[end - 1..][1..] == records[end..];
        end := end + 1;
      }
      RunEnds(records[end - 1..]);
      RunsStep(rest);
      assert rest[end - index..] == records[end..];
      assert runs + ([Run(end - index, records[index])] + Runs(records[end..])) == runs + [Run(end - index, records[index])] + Runs(records[end..]);
      runs := runs + [Run(end - index, records[index])];
      index := end;
    }
    assert records[index..] == [];
    RunsNothing([]);
  }

  lemma RunsNothing(records: seq<Text>)
    ensures Runs([]) == [] && [] + Runs(records) == Runs(records)
  {
  }

  lemma RunEnds(records: seq<Text>)
    requires records != [] && (|records| == 1 || records[1] != records[0])
    ensures RunLength(records) == 1
  {
  }

  lemma RunGrows(records: seq<Text>)
    requires |records| > 1 && records[1] == records[0]
    ensures RunLength(records) == 1 + RunLength(records[1..])
  {
  }

  lemma RunsStep(records: seq<Text>)
    requires records != []
    ensures Runs(records) == [Run(RunLength(records), records[0])] + Runs(records[RunLength(records)..])
  {
  }

  function Repeat(record: Text, n: nat): seq<Text> {
    if n == 0 then [] else [record] + Repeat(record, n - 1)
  }

  function Unfold(runs: seq<Run>): seq<Text> {
    if runs == [] then [] else Repeat(runs[0].record, runs[0].count) + Unfold(runs[1..])
  }

  lemma {:induction false} RunIsRepeated(records: seq<Text>)
    ensures records != [] ==> records[..RunLength(records)] == Repeat(records[0], RunLength(records))
    ensures records != [] && RunLength(records) < |records| ==> records[RunLength(records)] != records[0]
  {
    if records != [] {
      if |records| > 1 && records[1] == records[0] {
        RunIsRepeated(records[1..]);
        var n := RunLength(records[1..]);
        assert records[..n + 1] == [records[0]] + records[1..][..n];
      } else {
        assert Repeat(records[0], 0) == [];
        assert records[..1] == [records[0]];
      }
    }
  }

  lemma RunsCons(records: seq<Text>)
    requires records != []
    ensures Runs(records) == [Run(RunLength(records), records[0])] + Runs(records[RunLength(records)..])
  {
    hide RunLength;
  }

  lemma UnfoldCons(run: Run, runs: seq<Run>)
    ensures Unfold([run] + runs) == Repeat(run.record, run.count) + Unfold(runs)
  {
    hide Repeat;
    assert ([run] + runs)[1..] == runs;
  }

  lemma ProperCons(run: Run, runs: seq<Run>)
    requires Proper(runs) && run.count > 0 && (runs != [] ==> run.record != runs[0].record)
    ensures Proper([run] + runs)
  {
    var all := [run] + runs;
    forall i | 0 < i < |all| ensures all[i].record != all[i - 1].record && all[i].count > 0 {
      assert all[i] == runs[i - 1];
      assert i > 1 ==> all[i - 1] == runs[i - 2];
    }
  }

  lemma NothingRuns()
    ensures Runs([]) == [] && Unfold([]) == [] && Proper([])
  {
  }

  /** The runs of `uniq -c` expand back to the records; neighbouring runs differ. */
  lemma {:induction false} RunsUnfold(records: seq<Text>)
    ensures Unfold(Runs(records)) == records && Proper(Runs(records))
    ensures records != [] ==> Runs(records) != [] && Runs(records)[0].record == records[0]
    decreases |records|
  {
    hide Runs, Unfold, Proper, RunLength, Repeat;
    if records == [] {
      NothingRuns();
    } else {
      var n := RunLength(records);
      var run, rest := Run(n, records[0]), records[n..];
      RunIsRepeated(records);
      RunsUnfold(rest);
      RunsCons(records);
      UnfoldCons(run, Runs(rest));
      if rest == [] {
        NothingRuns();
      }
      ProperCons(run, Runs(rest));
      assert records == records[..n] + records[n..];
    }
  }

  function Firsts(runs: seq<Run>): (r: seq<Text>)
    ensures |r| == |runs| && forall i :: 0 <= i < |r| ==> r[i] == runs[i].record
  {
    seq(|runs|, i requires 0 <= i < |runs| => runs[i].record)
  }

  /** `uniq` without counts. */
  function UniqText(text: Text): Text {
    Written(Firsts(Runs(LinesOf(text))))
  }

  lemma CollapseStep(lines: seq<Text>, x: Text, k: Key)
    ensures Collapse(lines + [x], k)
         == Collapse(lines, k) + if lines == [] || !SameKey(k, x, lines[|lines| - 1]) then [x] else []
  {
    hide SameKey;
    assert (lines + [x])[..|lines|] == lines;
  }

  lemma {:induction false} CollapseRepeats(before: seq<Text>, x: Text, n: nat, k: Key)
    requires n > 0 && SameKey(k, x, x)
    ensures Collapse(before + Repeat(x, n), k)
         == Collapse(before, k) + if before == [] || !SameKey(k, x, before[|before| - 1]) then [x] else []
    decreases n
  {
    hide SameKey;
    if n == 1 {
      assert Repeat(x, 0) == [];
      assert Repeat(x, 1) == [x];
      CollapseStep(before, x, k);
    } else {
      RepeatEnds(x, n - 1);
      CollapseRepeats(before, x, n - 1, k);
      var more := before + Repeat(x, n - 1);
      RepeatAppend(x, n - 1);
      assert before + Repeat(x, n) == more + [x];
      CollapseStep(more, x, k);
      assert more[|more| - 1] == x;
    }
  }

  lemma {:induction false} RepeatAppend(x: Text, n: nat)
    ensures Repeat(x, n + 1) == Repeat(x, n) + [x]
  {
    if n > 0 {
      RepeatAppend(x, n - 1);
    }
  }

  lemma {:induction false} RepeatEnds(x: Text, n: nat)
    requires n > 0
    ensures |Repeat(x, n)| == n && Repeat(x, n)[n - 1] == x
  {
    if n > 1 {
      RepeatEnds(x, n - 1);
    }
  }

  lemma SameBytes(a: Text, b: Text)
    ensures SameKey(Bytes, a, b) <==> a == b
  {
    if Encode(a) == Encode(b) {
      EncodeInjective(a, b);
    }
  }

  lemma FirstRun(before: seq<Text>, runs: seq<Run>)
    requires runs != []
    ensures before + Unfold(runs) == before + Repeat(runs[0].record, runs[0].count) + Unfold(runs[1..])
    ensures Firsts(runs) == [runs[0].record] + Firsts(runs[1..])
  {
    hide Repeat;
    var first, rest := Repeat(runs[0].record, runs[0].count), Unfold(runs[1..]);
    assert Unfold(runs) == first + rest;
    hide Unfold;
    assert before + (first + rest) == before + first + rest;
  }

  lemma FirstCollapses(before: seq<Text>, run: Run)
    requires run.count > 0 && (before != [] ==> before[|before| - 1] != run.record)
    ensures var more := before + Repeat(run.record, run.count);
      && Collapse(more, Bytes) == Collapse(before, Bytes) + [run.record]
      && more != [] && more[|more| - 1] == run.record
  {
    hide Collapse, SameKey, Repeat;
    SameBytes(run.record, run.record);
    if before != [] {
      SameBytes(run.record, before[|before| - 1]);
    }
    CollapseRepeats(before, run.record, run.count, Bytes);
    RepeatEnds(run.record, run.count);
  }

  /** Runs as `uniq -c` makes them: none empty, neighbours different. */
  predicate Proper(runs: seq<Run>) {
    && (forall i :: 0 <= i < |runs| ==> runs[i].count > 0)
    && (forall i :: 0 < i < |runs| ==> runs[i].record != runs[i - 1].record)
  }

  lemma ProperTail(runs: seq<Run>)
    requires Proper(runs) && runs != []
    ensures runs[0].count > 0 && Proper(runs[1..])
    ensures |runs| > 1 ==> runs[0].record != runs[1..][0].record
  {
  }

  lemma NoRuns(before: seq<Text>)
    ensures before + Unfold([]) == before && Collapse(before, Bytes) + Firsts([]) == Collapse(before, Bytes)
  {
  }

  /** Under the byte key, collapsing keeps the first of every run. */
  lemma {:induction false} CollapseIsFirsts(before: seq<Text>, runs: seq<Run>)
    requires Proper(runs) && (before != [] && runs != [] ==> before[|before| - 1] != runs[0].record)
    ensures Collapse(before + Unfold(runs), Bytes) == Collapse(before, Bytes) + Firsts(runs)
    decreases |runs|
  {
    hide Collapse, Repeat, Unfold, Firsts, Proper;
    if runs == [] {
      NoRuns(before);
    } else {
      ProperTail(runs);
      FirstRun(before, runs);
      FirstCollapses(before, runs[0]);
      CollapseIsFirsts(before + Repeat(runs[0].record, runs[0].count), runs[1..]);
      assert Collapse(before, Bytes) + [runs[0].record] + Firsts(runs[1..])
          == Collapse(before, Bytes) + ([runs[0].record] + Firsts(runs[1..]));
    }
  }

  /** `sort | uniq` writes what `sort -u` writes, in either direction. */
  lemma SortThenUniq(texts: seq<Text>, reverse: bool)
    ensures UniqText(Written(SortedLines(AllLines(texts), Bytes, reverse, false)))
         == Written(SortedLines(AllLines(texts), Bytes, reverse, true))
  {
    hide Collapse, Runs, Unfold, Written, LinesOf, Order, AllLines;
    var ordered := SortedLines(AllLines(texts), Bytes, reverse, false);
    AllLinesAreLines(texts);
    SortedAreLines(AllLines(texts), reverse);
    WrittenReadsBack(ordered);
    RunsUnfold(ordered);
    CollapseIsFirsts([], Runs(ordered));
    CollapseNothing();
    assert [] + Unfold(Runs(ordered)) == ordered;
    assert [] + Firsts(Runs(ordered)) == Firsts(Runs(ordered));
  }

  lemma CollapseNothing()
    ensures Collapse([], Bytes) == []
  {
  }

  lemma SortedAreLines(lines: seq<Text>, reverse: bool)
    requires Lines(lines)
    ensures Lines(Sort(lines, Order(Bytes, reverse)))
  {
    hide Order;
    var r := Sort(lines, Order(Bytes, reverse));
    SortContents(lines, Order(Bytes, reverse));
    forall i | 0 <= i < |r| ensures Line(r[i]) {
      assert r[i] in multiset(lines);
    }
  }
}
