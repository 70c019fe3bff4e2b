/** Reference definitions for the alternation front end of src/jrep.c: the
    split of the pattern on '|', the per-line combination of the
    alternatives, the records printed, the -c count and the exit status. */
module JrepSpec {
  import opened CStrings
  import opened RegexSpec

  const BAR: char := '|'

  // ---------------------------------------------------------------------------
  // Splitting the pattern
  // ---------------------------------------------------------------------------

  /** The number of separators in s (orcount). */
  function Bars(s: seq<char>): nat {
    if s == [] then 0 else Bars(s[..|s| - 1]) + (if s[|s| - 1] == BAR then 1 else 0)
  }

  /** The alternatives of s, read left to right: a separator closes the
      current alternative and opens an empty one, any other character
      (a backslash included) extends the current one. */
  function Split(s: seq<char>): (r: seq<seq<char>>)
    ensures |r| > 0
  {
    if s == [] then [[]]
    else
      var r := Split(s[..|s| - 1]);
      var c := s[|s| - 1];
      if c == BAR then r + [[]] else r[..|r| - 1] + [r[|r| - 1] + [c]]
  }

  /** The alternatives written back with separators between them. */
  function Join(alts: seq<seq<char>>): seq<char>
    requires |alts| > 0
  {
    if |alts| == 1 then alts[0] else Join(alts[..|alts| - 1]) + [BAR] + alts[|alts| - 1]
  }

  predicate NoBar(s: seq<char>) {
    forall k :: 0 <= k < |s| ==> s[k] != BAR
  }

  /** There is one alternative more than there are separators. */
  lemma {:induction false} SplitCount(s: seq<char>)
    ensures |Split(s)| == Bars(s) + 1
  {
    if s != [] {
      SplitCount(s[..|s| - 1]);
    }
  }

  /** No alternative holds a separator. */
  lemma {:induction false} SplitNoBar(s: seq<char>)
    ensures forall j :: 0 <= j < |Split(s)| ==> NoBar(Split(s)[j])
  {
    if s != [] {
      SplitNoBar(s[..|s| - 1]);
    }
  }

  /** Splitting loses nothing: joining the alternatives gives the pattern
      back. */
  lemma {:induction false} SplitJoin(s: seq<char>)
    ensures Join(Split(s)) == s
  {
    if s != [] {
      var init := s[..|s| - 1];
      var c := s[|s| - 1];
      var r := Split(init);
      SplitJoin(init);
      if c == BAR {
        assert Split(s)[..|Split(s)| - 1] == r;
      } else {
        JoinLast(r, c);
      }
      assert init + [c] == s;
    }
  }

  /** Extending the last alternative by one character extends the joined
      text by that character. */
  lemma {:induction false} JoinLast(r: seq<seq<char>>, c: char)
    requires |r| > 0
    ensures Join(r[..|r| - 1] + [r[|r| - 1] + [c]]) == Join(r) + [c]
  {
    var r' := r[..|r| - 1] + [r[|r| - 1] + [c]];
    if |r| > 1 {
      assert r'[..|r'| - 1] == r[..|r| - 1];
    }
  }

  /** Text without separators is appended to the last alternative. */
  lemma {:induction false} SplitPlain(x: seq<char>, t: seq<char>)
    requires NoBar(t)
    ensures Split(x + t) == Split(x)[..|Split(x)| - 1] + [Split(x)[|Split(x)| - 1] + t]
    decreases |t|
  {
    var r := Split(x);
    if t == [] {
      assert x + t == x;
      assert r[|r| - 1] + t == r[|r| - 1];
      assert r[..|r| - 1] + [r[|r| - 1]] == r;
    } else {
      var t' := t[..|t| - 1];
      var c := t[|t| - 1];
      SplitPlain(x, t');
      var r' := Split(x + t');
      assert (x + t)[..|x + t| - 1] == x + t';
      assert (x + t)[|x + t| - 1] == c && c != BAR;
      assert Split(x + t) == r'[..|r'| - 1] + [r'[|r'| - 1] + [c]];
      assert r'[..|r'| - 1] == r[..|r| - 1];
      assert r'[|r'| - 1] == r[|r| - 1] + t';
      assert t' + [c] == t;
      assert r[|r| - 1] + t' + [c] == r[|r| - 1] + t;
    }
  }

  /** A separator opens a new, empty alternative. */
  lemma SplitBar(x: seq<char>)
    ensures Split(x + [BAR]) == Split(x) + [[]]
  {
    assert (x + [BAR])[..|x|] == x;
  }

  /** Alternatives without separators survive a join and a split: the split
      recovers each one, empty ones included. */
  lemma {:induction false} JoinSplit(alts: seq<seq<char>>)
    requires |alts| > 0 && forall j :: 0 <= j < |alts| ==> NoBar(alts[j])
    ensures Split(Join(alts)) == alts
    decreases |alts|
  {
    if |alts| == 1 {
      SplitPlain([], alts[0]);
      assert [] + alts[0] == alts[0];
    } else {
      var init := alts[..|alts| - 1];
      var last := alts[|alts| - 1];
      JoinSplit(init);
      var x := Join(init) + [BAR];
      assert NoBar(last);
      SplitBar(Join(init));
      SplitPlain(x, last);
      var sx := Split(x);
      assert sx == init + [[]];
      assert sx[..|sx| - 1] == init;
      assert sx[|sx| - 1] + last == last;
      assert Join(alts) == x + last;
      assert init + [last] == alts;
    }
  }

  /** The alternatives of a C string are C strings no longer than it. */
  lemma {:induction false} SplitParts(s: seq<char>)
    requires IsCString(s)
    ensures forall j :: 0 <= j < |Split(s)| ==> IsCString(Split(s)[j]) && |Split(s)[j]| <= |s|
  {
    if s != [] {
      SplitParts(s[..|s| - 1]);
    }
  }

  /** Every alternative is a C string and compiles. */
  predicate AllCompile(alts: seq<seq<char>>) {
    forall j :: 0 <= j < |alts| ==> IsCString(alts[j]) && Compile(alts[j]).Ok?
  }

  /** The compiled alternatives, in order. */
  function CompileAll(alts: seq<seq<char>>): (cs: seq<Compiled>)
    requires AllCompile(alts)
    ensures |cs| == |alts| && forall j :: 0 <= j < |alts| ==> cs[j] == Compile(alts[j]).value
  {
    seq(|alts|, j requires 0 <= j < |alts| => Compile(alts[j]).value)
  }

  /** main parses orcount + 1 pieces, one per `|` plus one, into as many
      compiled alternatives. */
  lemma CompiledCount(pattern: seq<char>)
    requires AllCompile(Split(pattern))
    ensures |CompileAll(Split(pattern))| == Bars(pattern) + 1
  {
    SplitCount(pattern);
  }

  // ---------------------------------------------------------------------------
  // Matching a line against every alternative
  // ---------------------------------------------------------------------------

  /** Every alternative has at least one state. */
  predicate Ready(cs: seq<Compiled>) {
    forall j :: 0 <= j < |cs| ==> |cs[j].states| > 0
  }

  /** A line as getline delivers it. */
  predicate IsLine(line: seq<char>) {
    IsCString(line) && |line| > 0
  }

  /** Alternative j finds a hit in line. */
  predicate Found(cs: seq<Compiled>, j: nat, line: seq<char>)
    requires Ready(cs) && j < |cs| && IsLine(line)
  {
    Search(line, cs[j].states, cs[j].beg).Some?
  }

  /** The line is selected: some alternative's result, flipped by -v, is
      true. */
  predicate LineMatches(cs: seq<Compiled>, line: seq<char>, inverse: bool)
    requires Ready(cs) && IsLine(line)
  {
    exists j :: 0 <= j < |cs| && inverse != Found(cs, j, line)
  }

  /** With -o, every hit the alternatives find in line has text to print. */
  predicate Printable(cs: seq<Compiled>, line: seq<char>)
    requires Ready(cs) && IsLine(line)
  {
    forall j :: 0 <= j < |cs| ==>
      Search(line, cs[j].states, cs[j].beg).None? || Search(line, cs[j].states, cs[j].beg).value.len > 0
  }

  /** The buffer after the first k alternatives have been tried with -o:
      each hit overwrites it with the text of that hit. */
  function CaptureUpTo(cs: seq<Compiled>, line: seq<char>, k: nat, buffer: seq<char>): seq<char>
    requires Ready(cs) && IsLine(line) && Printable(cs, line) && k <= |cs|
  {
    if k == 0 then buffer
    else
      match Search(line, cs[k - 1].states, cs[k - 1].beg)
      case Some(h) => Capture(line, h)
      case None => CaptureUpTo(cs, line, k - 1, buffer)
  }

  /** The buffer is untouched when no alternative found a hit. */
  lemma {:induction false} CaptureNone(cs: seq<Compiled>, line: seq<char>, k: nat, buffer: seq<char>)
    requires Ready(cs) && IsLine(line) && Printable(cs, line) && k <= |cs|
    requires forall j :: 0 <= j < k ==> !Found(cs, j, line)
    ensures CaptureUpTo(cs, line, k, buffer) == buffer
  {
    if k > 0 {
      assert !Found(cs, k - 1, line);
      CaptureNone(cs, line, k - 1, buffer);
    }
  }

  /** The buffer keeps the text of the LAST alternative that found a hit. */
  lemma {:induction false} CaptureIsLast(cs: seq<Compiled>, line: seq<char>, k: nat, buffer: seq<char>, j: nat)
    requires Ready(cs) && IsLine(line) && Printable(cs, line) && j < k <= |cs|
    requires Found(cs, j, line) && forall l :: j < l < k ==> !Found(cs, l, line)
    ensures CaptureUpTo(cs, line, k, buffer) == Capture(line, Search(line, cs[j].states, cs[j].beg).value)
  {
    if j < k - 1 {
      assert !Found(cs, k - 1, line);
      CaptureIsLast(cs, line, k - 1, buffer, j);
    }
  }

  /** Alternation is inclusive or: a line matches A|B exactly when it
      matches A or matches B. */
  lemma AlternationIsOr(a: seq<char>, b: seq<char>, line: seq<char>)
    requires IsCString(a) && IsCString(b) && NoBar(a) && NoBar(b) && IsLine(line)
    requires Compile(a).Ok? && Compile(b).Ok?
    requires |Compile(a).value.states| > 0 && |Compile(b).value.states| > 0
    ensures AllCompile(Split(a + [BAR] + b)) && Ready(CompileAll(Split(a + [BAR] + b)))
    ensures LineMatches(CompileAll(Split(a + [BAR] + b)), line, false) <==>
      Search(line, Compile(a).value.states, Compile(a).value.beg).Some? ||
      Search(line, Compile(b).value.states, Compile(b).value.beg).Some?
  {
    assert [a, b][..1] == [a];
    assert Join([a, b]) == a + [BAR] + b;
    JoinSplit([a, b]);
    var cs := CompileAll([a, b]);
    if Search(line, cs[0].states, cs[0].beg).Some? {
      assert Found(cs, 0, line);
    }
    if Search(line, cs[1].states, cs[1].beg).Some? {
      assert Found(cs, 1, line);
    }
  }

  /** With -v the flip is applied to each alternative before the or, so a
      line that one alternative finds and another does not is selected both
      with and without -v. */
  lemma InverseOverlap(cs: seq<Compiled>, line: seq<char>, i: nat, j: nat)
    requires Ready(cs) && IsLine(line) && i < |cs| && j < |cs|
    requires Found(cs, i, line) && !Found(cs, j, line)
    ensures LineMatches(cs, line, false) && LineMatches(cs, line, true)
  {
  }

  /** The selection -v evidently intends: the flip of the whole alternation. */
  predicate Selected(cs: seq<Compiled>, line: seq<char>, inverse: bool)
    requires Ready(cs) && IsLine(line)
  {
    inverse != exists j :: 0 <= j < |cs| && Found(cs, j, line)
  }

  /** Under the intended selection, -v selects exactly the lines that are
      not selected without it, and without -v it agrees with the code. */
  lemma InverseComplement(cs: seq<Compiled>, line: seq<char>)
    requires Ready(cs) && IsLine(line)
    ensures Selected(cs, line, true) <==> !Selected(cs, line, false)
    ensures Selected(cs, line, false) <==> LineMatches(cs, line, false)
  {
  }

  /** With a single alternative the code's flip and the intended one agree. */
  lemma SingleInverse(cs: seq<Compiled>, line: seq<char>, inverse: bool)
    requires Ready(cs) && IsLine(line) && |cs| == 1
    ensures LineMatches(cs, line, inverse) <==> Selected(cs, line, inverse)
  {
    if Found(cs, 0, line) {
      assert exists j :: 0 <= j < |cs| && Found(cs, j, line);
    }
    if inverse != Found(cs, 0, line) {
      assert LineMatches(cs, line, inverse);
    }
  }

  // ---------------------------------------------------------------------------
  // The whole run
  // ---------------------------------------------------------------------------

  /** The flags of the command line that the front end consults:
      -v, -c, -H, -n and -o. */
  datatype Options = Options(inverse: bool, count: bool, names: bool, numbers: bool, only: bool)

  /** One printed line: the file name (with -H), the line number (with -n)
      and the text. */
  datatype Record = Record(file: Option<seq<char>>, number: Option<nat>, text: seq<char>)

  predicate AllLines(lines: seq<seq<char>>) {
    forall k :: 0 <= k < |lines| ==> IsLine(lines[k])
  }

  /** Every line is printable under -o. */
  predicate AllPrintable(cs: seq<Compiled>, lines: seq<seq<char>>, o: Options)
    requires Ready(cs) && AllLines(lines)
  {
    o.only ==> forall k :: 0 <= k < |lines| ==> Printable(cs, lines[k])
  }

  /** The buffer after one line. */
  function NextBuffer(cs: seq<Compiled>, line: seq<char>, only: bool, buffer: seq<char>): seq<char>
    requires Ready(cs) && IsLine(line) && (only ==> Printable(cs, line))
  {
    if only then CaptureUpTo(cs, line, |cs|, buffer) else buffer
  }

  /** The record for a selected line numbered lc. */
  function RecordOf(o: Options, name: seq<char>, lc: nat, line: seq<char>, buffer: seq<char>): Record {
    Record(if o.names then Some(name) else None, if o.numbers then Some(lc) else None,
           if o.only && !o.inverse then buffer else line)
  }

  /** What is printed for the lines, the first of which is line lc + 1,
      with buffer holding the last text captured before them. */
  function Report(cs: seq<Compiled>, lines: seq<seq<char>>, o: Options, name: seq<char>,
                  buffer: seq<char>, lc: nat): seq<Record>
    requires Ready(cs) && AllLines(lines) && AllPrintable(cs, lines, o)
    decreases |lines|
  {
    if lines == [] then []
    else
      var line := lines[0];
      var buffer' := NextBuffer(cs, line, o.only, buffer);
      var here := if LineMatches(cs, line, o.inverse) && !o.count
                  then [RecordOf(o, name, lc + 1, line, buffer')] else [];
      assert AllPrintable(cs, lines[1..], o);
      here + Report(cs, lines[1..], o, name, buffer', lc + 1)
  }

  /** One step of Report and Count: the first line's share followed by the
      rest. */
  lemma ReportStep(cs: seq<Compiled>, lines: seq<seq<char>>, o: Options, name: seq<char>,
                   buffer: seq<char>, lc: nat)
    requires Ready(cs) && AllLines(lines) && AllPrintable(cs, lines, o) && lines != []
    ensures AllPrintable(cs, lines[1..], o) && (o.only ==> Printable(cs, lines[0]))
    ensures Report(cs, lines, o, name, buffer, lc) ==
      (if LineMatches(cs, lines[0], o.inverse) && !o.count
       then [RecordOf(o, name, lc + 1, lines[0], NextBuffer(cs, lines[0], o.only, buffer))] else []) +
      Report(cs, lines[1..], o, name, NextBuffer(cs, lines[0], o.only, buffer), lc + 1)
    ensures Count(cs, lines, o.inverse) ==
      (if LineMatches(cs, lines[0], o.inverse) then 1 else 0) + Count(cs, lines[1..], o.inverse)
  {
    assert AllPrintable(cs, lines[1..], o);
  }

  /** The number of selected lines. */
  function Count(cs: seq<Compiled>, lines: seq<seq<char>>, inverse: bool): nat
    requires Ready(cs) && AllLines(lines)
    decreases |lines|
  {
    if lines == [] then 0
    else (if LineMatches(cs, lines[0], inverse) then 1 else 0) + Count(cs, lines[1..], inverse)
  }

  /** The exit status of a run whose alternatives all compiled: 0 when the
      LAST line is selected, 1 otherwise and for empty input. */
  function Status(cs: seq<Compiled>, lines: seq<seq<char>>, inverse: bool): int
    requires Ready(cs) && AllLines(lines)
  {
    if lines != [] && LineMatches(cs, lines[|lines| - 1], inverse) then 0 else 1
  }

  /** -c prints nothing per line; otherwise one record is printed per
      selected line, so the count equals the number of records. */
  lemma {:induction false} ReportCount(cs: seq<Compiled>, lines: seq<seq<char>>, o: Options, name: seq<char>,
                                       buffer: seq<char>, lc: nat)
    requires Ready(cs) && AllLines(lines) && AllPrintable(cs, lines, o)
    ensures o.count ==> Report(cs, lines, o, name, buffer, lc) == []
    ensures !o.count ==> |Report(cs, lines, o, name, buffer, lc)| == Count(cs, lines, o.inverse)
    decreases |lines|
  {
    if lines != [] {
      assert AllPrintable(cs, lines[1..], o);
      ReportCount(cs, lines[1..], o, name, NextBuffer(cs, lines[0], o.only, buffer), lc + 1);
    }
  }

  /** Without -o, or with -v, every record shows a selected input line in
      full, and with -n its number is the position of that line. */
  lemma {:induction false} ReportShowsLines(cs: seq<Compiled>, lines: seq<seq<char>>, o: Options, name: seq<char>,
                                            buffer: seq<char>, lc: nat)
    requires Ready(cs) && AllLines(lines) && AllPrintable(cs, lines, o)
    requires !o.only || o.inverse
    ensures forall r :: r in Report(cs, lines, o, name, buffer, lc) ==>
      exists k :: 0 <= k < |lines| && r.text == lines[k] && LineMatches(cs, lines[k], o.inverse) &&
        (o.numbers ==> r.number == Some(lc + k + 1))
    decreases |lines|
  {
    if lines != [] {
      var buffer' := NextBuffer(cs, lines[0], o.only, buffer);
      assert AllPrintable(cs, lines[1..], o);
      ReportShowsLines(cs, lines[1..], o, name, buffer', lc + 1);
      forall r | r in Report(cs, lines, o, name, buffer, lc)
        ensures exists k :: (0 <= k < |lines| && r.text == lines[k] && LineMatches(cs, lines[k], o.inverse) &&
          (o.numbers ==> r.number == Some(lc + k + 1)))
      {
        if r !in Report(cs, lines[1..], o, name, buffer', lc + 1) {
          assert r.text == lines[0];
        } else {
          var k :| 0 <= k < |lines[1..]| && r.text == lines[1..][k] && LineMatches(cs, lines[1..][k], o.inverse) &&
            (o.numbers ==> r.number == Some(lc + 1 + k + 1));
          assert lines[1..][k] == lines[k + 1];
        }
      }
    }
  }

  /** Exit status 0 means at least one line was selected; the converse fails
      when only an earlier line was selected. */
  lemma StatusCount(cs: seq<Compiled>, lines: seq<seq<char>>, inverse: bool)
    requires Ready(cs) && AllLines(lines)
    ensures Status(cs, lines, inverse) == 0 ==> Count(cs, lines, inverse) > 0
  {
    if lines != [] && LineMatches(cs, lines[|lines| - 1], inverse) {
      CountLast(cs, lines, inverse);
    }
  }

  /** A selected last line is counted. */
  lemma {:induction false} CountLast(cs: seq<Compiled>, lines: seq<seq<char>>, inverse: bool)
    requires Ready(cs) && AllLines(lines) && lines != [] && LineMatches(cs, lines[|lines| - 1], inverse)
    ensures Count(cs, lines, inverse) > 0
    decreases |lines|
  {
    if |lines| > 1 {
      assert lines[1..][|lines[1..]| - 1] == lines[|lines| - 1];
      CountLast(cs, lines[1..], inverse);
    }
  }

  /** The count is positive exactly when some line is selected. */
  lemma {:induction false} CountPositive(cs: seq<Compiled>, lines: seq<seq<char>>, inverse: bool)
    requires Ready(cs) && AllLines(lines)
    ensures Count(cs, lines, inverse) > 0 <==>
      exists k :: 0 <= k < |lines| && LineMatches(cs, lines[k], inverse)
    decreases |lines|
  {
    if lines != [] {
      var rest := lines[1..];
      CountPositive(cs, rest, inverse);
      if exists k :: 0 <= k < |lines| && LineMatches(cs, lines[k], inverse) {
        var k :| 0 <= k < |lines| && LineMatches(cs, lines[k], inverse);
        if k > 0 {
          assert rest[k - 1] == lines[k];
        }
      }
      if exists k :: 0 <= k < |rest| && LineMatches(cs, rest[k], inverse) {
        var k :| 0 <= k < |rest| && LineMatches(cs, rest[k], inverse);
        assert lines[k + 1] == rest[k];
      }
    }
  }

  /** The exit status the program documents: 0 when any line of the input
      was selected, 1 otherwise. */
  function StatusAny(cs: seq<Compiled>, lines: seq<seq<char>>, inverse: bool): (r: int)
    requires Ready(cs) && AllLines(lines)
    ensures r == 0 || r == 1
    ensures r == 0 <==> exists k :: 0 <= k < |lines| && LineMatches(cs, lines[k], inverse)
  {
    CountPositive(cs, lines, inverse);
    if Count(cs, lines, inverse) > 0 then 0 else 1
  }

  /** The status as written disagrees with the documented one whenever a
      line is selected but the last line is not. */
  lemma StatusLastOnly(cs: seq<Compiled>, lines: seq<seq<char>>, inverse: bool, k: nat)
    requires Ready(cs) && AllLines(lines) && k < |lines|
    requires LineMatches(cs, lines[k], inverse) && !LineMatches(cs, lines[|lines| - 1], inverse)
    ensures Status(cs, lines, inverse) == 1 && StatusAny(cs, lines, inverse) == 0
    ensures Count(cs, lines, inverse) > 0
  {
    CountPositive(cs, lines, inverse);
  }
}
