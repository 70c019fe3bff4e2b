/** The alternation front end of src/jrep.c (main, lines 96-164): count the
    separators, split the pattern, parse every alternative into its own
    Pattern, then select lines, count them and compute the exit status. */
module Jrep {
  import opened CStrings
  import opened RegexSpec
  import opened Regex
  import opened JrepSpec

  /** The loop that counts the separators (orcount). */
  method CountBars(pattern: seq<char>) returns (orcount: nat)
    ensures orcount == Bars(pattern)
  {
    orcount := 0;
    var j := 0;
    while j < |pattern|
      invariant j <= |pattern| && orcount == Bars(pattern[..j])
    {
      assert pattern[..j + 1][..j] == pattern[..j];
      if pattern[j] == BAR {
        orcount := orcount + 1;
      }
      j := j + 1;
    }
    assert pattern[..j] == pattern;
  }

  /** The loop that copies the pattern into regex[patc], moving to the next
      alternative at each separator. */
  method SplitAlternatives(pattern: seq<char>) returns (regex: seq<seq<char>>)
    ensures regex == Split(pattern)
  {
    var patlen, patc := 0, 0;
    regex := [[]];
    var j := 0;
    while j < |pattern|
      invariant j <= |pattern| && regex == Split(pattern[..j])
      invariant patc == |regex| - 1 && patlen == |regex[patc]|
    {
      assert pattern[..j + 1][..j] == pattern[..j];
      if pattern[j] != BAR {
        assert regex[patc := regex[patc] + [pattern[j]]] == regex[..patc] + [regex[patc] + [pattern[j]]];
        regex := regex[patc := regex[patc] + [pattern[j]]];
        patlen := patlen + 1;
      } else {
        patlen := 0;
        patc := patc + 1;
        regex := regex + [[]];
      }
      j := j + 1;
    }
    assert pattern[..j] == pattern;
  }

  /** Each pattern holds the corresponding compiled alternative. */
  ghost predicate Holds(pats: seq<Pattern>, cs: seq<Compiled>)
    reads pats, set p | p in pats :: p.kind, set p | p in pats :: p.value, set p | p in pats :: p.optional,
          set p | p in pats :: p.kleene, set p | p in pats :: p.glb, set p | p in pats :: p.lub
  {
    |pats| == |cs| &&
    forall k :: 0 <= k < |pats| ==>
      pats[k].Valid() && Compiled(pats[k].states, pats[k].beg) == cs[k]
  }

  /** The parse loop: one fresh Pattern per alternative; the first
      alternative that fails to parse stops the program. */
  method CompileAlternatives(regex: seq<seq<char>>, n: nat) returns (pats: seq<Pattern>, ok: bool)
    requires n == |regex|
    requires forall j :: 0 <= j < |regex| ==> IsCString(regex[j]) && |regex[j]| <= MAX_EXPR
    ensures ok <==> AllCompile(regex)
    ensures ok ==> Holds(pats, CompileAll(regex))
  {
    pats := [];
    var j := 0;
    while j < n
      invariant j <= n && |pats| == j
      invariant forall k :: 0 <= k < j ==> Compile(regex[k]).Ok?
      invariant forall k :: 0 <= k < j ==>
        pats[k].Valid() && Compiled(pats[k].states, pats[k].beg) == Compile(regex[k]).value
    {
      var p := new Pattern();
      var r := p.Parse(regex[j]);
      if r < 0 {
        return pats, false;
      }
      pats := pats + [p];
      j := j + 1;
    }
    return pats, true;
  }

  /** The loop over the alternatives for one line: matches |= inverse ^
      does_match, stopping at the first success unless -o is given. */
  method MatchLine(pats: seq<Pattern>, ghost cs: seq<Compiled>, line: seq<char>, inverse: bool, only: bool,
                   buffer: seq<char>) returns (matches: bool, out: seq<char>)
    requires Holds(pats, cs) && Ready(cs) && IsLine(line) && (only ==> Printable(cs, line))
    ensures matches == LineMatches(cs, line, inverse)
    ensures out == NextBuffer(cs, line, only, buffer)
  {
    matches := false;
    out := buffer;
    var j := 0;
    while j < |pats|
      invariant j <= |pats|
      invariant matches == exists l :: 0 <= l < j && inverse != Found(cs, l, line)
      invariant out == if only then CaptureUpTo(cs, line, j, buffer) else buffer
    {
      assert Compiled(pats[j].states, pats[j].beg) == cs[j];
      var found;
      found, out := pats[j].DoesMatch(line, only, out);
      assert found == Found(cs, j, line);
      matches := matches || (inverse != found);
      if !only && matches {
        break;
      }
      j := j + 1;
    }
  }

  /** One more line processed: the report and the count of the lines seen
      so far grow by that line's share. */
  lemma Advance(cs: seq<Compiled>, lines: seq<seq<char>>, o: Options, name: seq<char>, buffer: seq<char>,
                k: nat, records: seq<Record>, buf: seq<char>, c: nat, matches: bool, buf': seq<char>)
    requires Ready(cs) && AllLines(lines) && AllPrintable(cs, lines, o) && k < |lines|
    requires AllPrintable(cs, lines[k..], o)
    requires records + Report(cs, lines[k..], o, name, buf, k) == Report(cs, lines, o, name, buffer, 0)
    requires c + Count(cs, lines[k..], o.inverse) == Count(cs, lines, o.inverse)
    requires matches == LineMatches(cs, lines[k], o.inverse)
    requires o.only ==> Printable(cs, lines[k])
    requires buf' == NextBuffer(cs, lines[k], o.only, buf)
    ensures AllPrintable(cs, lines[k + 1..], o)
    ensures (records + if matches && !o.count then [RecordOf(o, name, k + 1, lines[k], buf')] else []) +
      Report(cs, lines[k + 1..], o, name, buf', k + 1) == Report(cs, lines, o, name, buffer, 0)
    ensures (c + if matches then 1 else 0) + Count(cs, lines[k + 1..], o.inverse) == Count(cs, lines, o.inverse)
  {
    var rest := lines[k..];
    assert rest[0] == lines[k] && rest[1..] == lines[k + 1..];
    ReportStep(cs, rest, o, name, buf, k);
  }

  /** The getline loop: every line is matched against the alternatives,
      a selected line is counted and, unless -c, printed. It returns the
      records, the count c and matches for the last line. */
  method SelectLines(pats: seq<Pattern>, ghost cs: seq<Compiled>, lines: seq<seq<char>>, o: Options,
                     name: seq<char>, buffer: seq<char>) returns (matches: bool, records: seq<Record>, c: nat)
    requires Holds(pats, cs) && Ready(cs) && AllLines(lines) && AllPrintable(cs, lines, o)
    ensures records == Report(cs, lines, o, name, buffer, 0)
    ensures c == Count(cs, lines, o.inverse)
    ensures matches == (lines != [] && LineMatches(cs, lines[|lines| - 1], o.inverse))
  {
    var lc := 0;
    c := 0;
    matches := false;
    var buf := buffer;
    records := [];
    var k := 0;
    while k < |lines|
      invariant k <= |lines| && lc == k && AllPrintable(cs, lines[k..], o)
      invariant records + Report(cs, lines[k..], o, name, buf, lc) == Report(cs, lines, o, name, buffer, 0)
      invariant c + Count(cs, lines[k..], o.inverse) == Count(cs, lines, o.inverse)
      invariant matches == (k > 0 && LineMatches(cs, lines[k - 1], o.inverse))
    {
      var line := lines[k];
      ghost var buf0 := buf;
      assert o.only ==> Printable(cs, line);
      lc := lc + 1;
      matches, buf := MatchLine(pats, cs, line, o.inverse, o.only, buf);
      Advance(cs, lines, o, name, buffer, k, records, buf0, c, matches, buf);
      if matches {
        c := c + 1;
        if !o.count {
          records := records + [RecordOf(o, name, lc, line, buf)];
        }
      }
      k := k + 1;
    }
    assert lines[k..] == [];
  }

  /** main from the pattern on: compile the alternatives (status 2 when one
      fails, with nothing printed), then select the lines, print the count
      with -c, and return 0 when the last line was selected and 1
      otherwise. */
  method Run(pattern: seq<char>, lines: seq<seq<char>>, o: Options, name: seq<char>, buffer: seq<char>)
    returns (status: int, records: seq<Record>, total: Option<nat>)
    requires IsCString(pattern) && AllLines(lines)
    requires forall j :: 0 <= j < |Split(pattern)| ==> |Split(pattern)[j]| <= MAX_EXPR
    requires AllCompile(Split(pattern)) ==>
      Ready(CompileAll(Split(pattern))) && AllPrintable(CompileAll(Split(pattern)), lines, o)
    ensures status == 2 <==> !AllCompile(Split(pattern))
    ensures status == 2 ==> records == [] && total == None
    ensures status != 2 ==>
      var cs := CompileAll(Split(pattern));
      records == Report(cs, lines, o, name, buffer, 0) &&
      total == (if o.count then Some(Count(cs, lines, o.inverse)) else None) &&
      status == Status(cs, lines, o.inverse)
  {
    var orcount := CountBars(pattern);
    var regex := SplitAlternatives(pattern);
    SplitCount(pattern);
    SplitParts(pattern);
    var pats, ok := CompileAlternatives(regex, orcount + 1);
    if !ok {
      return 2, [], None;
    }
    var matches, c;
    matches, records, c := SelectLines(pats, CompileAll(regex), lines, o, name, buffer);
    total := if o.count then Some(c) else None;
    status := if matches then 0 else 1;
  }
}
