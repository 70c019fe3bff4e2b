/** Facts about the scan of src/regex.c: where the jump heuristic of
    match_start is safe, where it is not, and the search it stands for. */
module RegexFacts {
  import opened CStrings
  import opened RegexSpec

  /** The search the jump heuristic shortcuts: one attempt at every offset
      in turn, the first success wins. */
  function SearchEvery(line: seq<char>, st: seq<State>, beg: bool, off: nat): (r: Option<Hit>)
    requires IsCString(line) && |st| > 0 && off < |line|
    decreases |line| - off
  {
    match Walk(line[off..], st)
    case Matched(e) => Some(Hit(off, e))
    case Failed(_) =>
      if beg || off + 1 == |line| then None else SearchEvery(line, st, beg, off + 1)
  }

  /** The every-offset search is complete: it succeeds exactly when some
      offset from off on starts a successful attempt, and it reports the
      first such offset. */
  lemma {:induction false} SearchEveryComplete(line: seq<char>, st: seq<State>, off: nat)
    requires IsCString(line) && |st| > 0 && off < |line|
    ensures SearchEvery(line, st, false, off).Some? <==>
      exists k :: off <= k < |line| && Walk(line[k..], st).Matched?
    ensures SearchEvery(line, st, false, off).Some? ==>
      var h := SearchEvery(line, st, false, off).value;
      off <= h.start < |line| && Walk(line[h.start..], st) == Matched(h.len) &&
      forall k :: off <= k < h.start ==> Walk(line[k..], st).Failed?
    decreases |line| - off
  {
    match Walk(line[off..], st)
    case Matched(e) =>
    case Failed(_) =>
      if off + 1 < |line| {
        SearchEveryComplete(line, st, off + 1);
        if exists k :: off <= k < |line| && Walk(line[k..], st).Matched? {
          var k :| off <= k < |line| && Walk(line[k..], st).Matched?;
          assert off + 1 <= k;
        }
      }
  }

  /** A state that must accept exactly one character. */
  predicate Mandatory(s: State) {
    !s.optional && !s.kleene
  }

  /** With a mandatory first state, every character the walk passes over
      before its jump target is rejected by state 0. */
  lemma {:induction false} WalkFromSkips(line: seq<char>, st: seq<State>, i: nat, n: nat, jump: nat, b: bool)
    requires IsCString(line) && i < |st| && n < |line| && Mandatory(st[0])
    requires (n == 0) == (i == 0)
    requires !b ==> jump == 1 && forall k :: 1 <= k < n ==> !CharMatches(line[k], st[0])
    requires b ==> 1 <= jump <= n && forall k :: 1 <= k < jump ==> !CharMatches(line[k], st[0])
    ensures WalkFrom(line, st, i, n, jump, b).Failed? ==>
      forall k :: 1 <= k < WalkFrom(line, st, i, n, jump, b).jump && k < |line| ==> !CharMatches(line[k], st[0])
    decreases |line| - n, |st| - i
  {
    var found := jump == 1 && i > 0 && !b && CharMatches(line[n], st[0]);
    var jump' := if found then n else jump;
    var b' := b || found;
    if CharMatches(line[n], st[i]) {
      var i' :=
        if !st[i].kleene || (i + 1 < |st| && CharMatches(At(line, n + 1), st[i + 1])) then i + 1 else i;
      if At(line, n + 1) != NUL && i' < |st| {
        WalkFromSkips(line, st, i', n + 1, jump', b');
      }
    } else if st[i].optional {
      if At(line, n) != NUL && i + 1 < |st| {
        WalkFromSkips(line, st, i + 1, n, jump', b');
      }
    }
  }

  /** An attempt whose mandatory first state rejects the first character
      fails at once with a jump of one. */
  lemma MandatoryMismatch(line: seq<char>, st: seq<State>)
    requires IsCString(line) && |line| > 0 && |st| > 0
    requires Mandatory(st[0]) && !CharMatches(line[0], st[0])
    ensures Walk(line, st) == Failed(1)
  {
  }

  /** Offsets whose character the mandatory first state rejects are passed
      over by the every-offset search. */
  lemma {:induction false} SkipEvery(line: seq<char>, st: seq<State>, lo: nat, hi: nat)
    requires IsCString(line) && |st| > 0 && Mandatory(st[0])
    requires lo <= hi <= |line| && lo < |line|
    requires forall k :: lo <= k < hi ==> !CharMatches(line[k], st[0])
    ensures SearchEvery(line, st, false, lo) ==
      if hi < |line| then SearchEvery(line, st, false, hi) else None
    decreases hi - lo
  {
    if lo < hi {
      MandatoryMismatch(line[lo..], st);
      if lo + 1 < |line| {
        SkipEvery(line, st, lo + 1, hi);
      }
    }
  }

  /** When the first state is mandatory, the jump heuristic loses nothing:
      does_match finds exactly what the every-offset search finds. */
  lemma {:induction false} JumpSafe(line: seq<char>, st: seq<State>, beg: bool, off: nat)
    requires IsCString(line) && |st| > 0 && off < |line| && Mandatory(st[0])
    ensures SearchFrom(line, st, beg, off) == SearchEvery(line, st, beg, off)
    decreases |line| - off
  {
    var rest := line[off..];
    match Walk(rest, st)
    case Matched(e) =>
    case Failed(j) =>
      if !beg {
        WalkBounds(rest, st);
        WalkFromSkips(rest, st, 0, 0, 1, false);
        forall k | off + 1 <= k < off + j
          ensures !CharMatches(line[k], st[0])
        {
          assert line[k] == rest[k - off];
        }
        if off + 1 < |line| {
          SkipEvery(line, st, off + 1, off + j);
        }
        if off + j < |line| {
          JumpSafe(line, st, beg, off + j);
        }
      }
  }

  /** The attempt match_start makes at offset k of line. */
  function AttemptAt(line: seq<char>, st: seq<State>, k: nat): Attempt
    requires IsCString(line) && |st| > 0 && k < |line|
  {
    Walk(line[k..], st)
  }

  /** The offsets does_match passes to match_start, in order. */
  function Attempts(line: seq<char>, st: seq<State>, beg: bool, off: nat): (r: seq<nat>)
    requires IsCString(line) && |st| > 0 && off < |line|
    ensures |r| > 0 && r[0] == off
    ensures forall i :: 0 <= i < |r| ==> off <= r[i] < |line|
    decreases |line| - off
  {
    var rest := line[off..];
    WalkBounds(rest, st);
    match Walk(rest, st)
    case Matched(_) => [off]
    case Failed(j) =>
      if beg then [off]
      else
        if At(line, off + j) != NUL then [off] + Attempts(line, st, beg, off + j) else [off]
  }

  /** does_match tries strictly increasing offsets inside the line (only
      the first when anchored), every attempt but the last fails and jumps
      to the next offset, and it
      succeeds exactly when the last attempt does, with the hit there. */
  lemma AttemptsShape(line: seq<char>, st: seq<State>, beg: bool, off: nat)
    requires IsCString(line) && |st| > 0 && off < |line|
    ensures var r := Attempts(line, st, beg, off);
      (beg ==> r == [off]) &&
      (forall i :: 0 <= i < |r| ==> off <= r[i] < |line|) &&
      (forall i :: 0 < i < |r| ==> r[i - 1] < r[i]) &&
      (forall i :: 0 <= i < |r| - 1 ==>
         AttemptAt(line, st, r[i]).Failed? && r[i + 1] == r[i] + AttemptAt(line, st, r[i]).jump) &&
      (SearchFrom(line, st, beg, off).Some? <==> AttemptAt(line, st, r[|r| - 1]).Matched?) &&
      (SearchFrom(line, st, beg, off).Some? ==> SearchFrom(line, st, beg, off).value.start == r[|r| - 1])
  {
    AttemptsOrdered(line, st, beg, off);
    AttemptsFail(line, st, beg, off);
    AttemptsLast(line, st, beg, off);
  }

  /** The offsets tried strictly increase. */
  lemma {:induction false} AttemptsOrdered(line: seq<char>, st: seq<State>, beg: bool, off: nat)
    requires IsCString(line) && |st| > 0 && off < |line|
    ensures Increasing(Attempts(line, st, beg, off))
    decreases |line| - off
  {
    var rest := line[off..];
    SearchFromStep(line, st, beg, off);
    match Walk(rest, st)
    case Matched(_) =>
    case Failed(j) =>
      if !beg && At(line, off + j) != NUL {
        AttemptsOrdered(line, st, beg, off + j);
        var t := Attempts(line, st, beg, off + j);
        var r := [off] + t;
        assert Attempts(line, st, beg, off) == r;
        forall i | 0 < i < |r|
          ensures r[i - 1] < r[i]
        {
          if i > 1 {
            assert r[i - 1] == t[i - 2] && r[i] == t[i - 1];
          }
        }
      }
  }

  predicate Increasing(r: seq<nat>) {
    forall i :: 0 < i < |r| ==> r[i - 1] < r[i]
  }

  /** Every attempt before the last fails, and its jump gives the next
      offset. */
  lemma {:induction false} AttemptsFail(line: seq<char>, st: seq<State>, beg: bool, off: nat)
    requires IsCString(line) && |st| > 0 && off < |line|
    ensures FailBeforeLast(line, st, Attempts(line, st, beg, off))
    decreases |line| - off
  {
    var rest := line[off..];
    SearchFromStep(line, st, beg, off);
    match Walk(rest, st)
    case Matched(_) =>
    case Failed(j) =>
      if !beg && At(line, off + j) != NUL {
        AttemptsFail(line, st, beg, off + j);
        var t := Attempts(line, st, beg, off + j);
        var r := [off] + t;
        assert Attempts(line, st, beg, off) == r;
        forall i | 0 <= i < |r| - 1
          ensures AttemptAt(line, st, r[i]).Failed? && r[i + 1] == r[i] + AttemptAt(line, st, r[i]).jump
        {
          if i > 0 {
            assert r[i] == t[i - 1] && r[i + 1] == t[i];
          }
        }
      }
  }

  /** Every offset of r but the last is inside line, its attempt fails, and
      the next offset is the one its jump leads to. */
  ghost predicate FailBeforeLast(line: seq<char>, st: seq<State>, r: seq<nat>)
    requires IsCString(line) && |st| > 0
  {
    forall i :: 0 <= i < |r| - 1 ==>
      r[i] < |line| && AttemptAt(line, st, r[i]).Failed? && r[i + 1] == r[i] + AttemptAt(line, st, r[i]).jump
  }

  /** The scan succeeds exactly when the last attempt does, with its hit
      there. */
  lemma {:induction false} AttemptsLast(line: seq<char>, st: seq<State>, beg: bool, off: nat)
    requires IsCString(line) && |st| > 0 && off < |line|
    ensures SearchFrom(line, st, beg, off) == LastHit(line, st, Attempts(line, st, beg, off))
    decreases |line| - off
  {
    var rest := line[off..];
    SearchFromStep(line, st, beg, off);
    match Walk(rest, st)
    case Matched(_) =>
    case Failed(j) =>
      if !beg && At(line, off + j) != NUL {
        AttemptsLast(line, st, beg, off + j);
        var t := Attempts(line, st, beg, off + j);
        var r := [off] + t;
        assert Attempts(line, st, beg, off) == r;
        assert r[|r| - 1] == t[|t| - 1];
      }
  }

  /** The hit, if any, of the attempt at the last offset of r. */
  function LastHit(line: seq<char>, st: seq<State>, r: seq<nat>): Option<Hit>
    requires IsCString(line) && |st| > 0 && |r| > 0 && r[|r| - 1] < |line|
  {
    match AttemptAt(line, st, r[|r| - 1])
    case Matched(e) => Some(Hit(r[|r| - 1], e))
    case Failed(_) => None
  }

  /** The pattern a?b.c compiled: an optional literal first state. */
  const OptionalFirst: seq<State> :=
    [State(Lit('a'), true, false), State(Lit('b'), false, false),
     State(Any, false, false), State(Lit('c'), false, false)]

  /** Counterexample to the jump heuristic: a?b.c matches the line "bbac\n"
      at offset 1 ("bac"), but the attempt at offset 0 jumps to offset 2
      (the 'a'), and does_match reports no match. */
  lemma MissedMatch()
    ensures Compile("a?b.c") == Ok(Compiled(OptionalFirst, false))
    ensures Walk("bac\n", OptionalFirst) == Matched(3)
    ensures Search("bbac\n", OptionalFirst, false) == None
    ensures SearchEvery("bbac\n", OptionalFirst, false, 0) == Some(Hit(1, 3))
  {
    OptionalFirstCompiles();
    OptionalFirstWalks();
    var line := "bbac\n";
    assert IsCString(line);
    assert line[0..] == line && line[1..] == "bac\n" && line[2..] == "ac\n" && line[3..] == "c\n" && line[4..] == "\n";
    assert SearchFrom(line, OptionalFirst, false, 4) == None;
    assert SearchFrom(line, OptionalFirst, false, 3) == None;
    assert SearchFrom(line, OptionalFirst, false, 2) == None;
    assert SearchFrom(line, OptionalFirst, false, 0) == None;
    assert SearchEvery(line, OptionalFirst, false, 1) == Some(Hit(1, 3));
  }

  /** The parse of a?b.c, one character at a time. */
  lemma OptionalFirstCompiles()
    ensures Compile("a?b.c") == Ok(Compiled(OptionalFirst, false))
  {
    var expr := "a?b.c";
    var s0 := Compiled([], false);
    var s1 := Append(s0, Lit('a'));
    var s2 := Compiled([State(Lit('a'), true, false)], false);
    var s3 := Append(s2, Lit('b'));
    var s4 := Append(s3, Any);
    var s5 := Append(s4, Lit('c'));
    assert IsCString(expr);
    assert expr[0] == 'a' && expr[1] == '?' && expr[2] == 'b' && expr[3] == '.' && expr[4] == 'c';
    assert ParseStep(expr, 0, s0) == Ok(Progress(s1, 1));
    assert s1.states == [State(Lit('a'), false, false)];
    assert s1.states[0 := s1.states[0].(optional := true)] == s2.states;
    assert ParseStep(expr, 1, s1) == Ok(Progress(s2, 2));
    assert ParseStep(expr, 2, s2) == Ok(Progress(s3, 3));
    assert ParseStep(expr, 3, s3) == Ok(Progress(s4, 4));
    assert ParseStep(expr, 4, s4) == Ok(Progress(s5, 5));
    assert ParseFrom(expr, 5, s5) == Ok(s5);
    assert ParseFrom(expr, 4, s4) == Ok(s5);
    assert ParseFrom(expr, 3, s3) == Ok(s5);
    assert ParseFrom(expr, 2, s2) == Ok(s5);
    assert ParseFrom(expr, 1, s1) == Ok(s5);
    assert ParseFrom(expr, 0, s0) == Ok(s5);
    assert s5 == Compiled(OptionalFirst, false);
  }

  /** The walks of a?b.c from each offset of "bbac\n". */
  lemma OptionalFirstWalks()
    ensures Walk("bbac\n", OptionalFirst) == Failed(2)
    ensures Walk("bac\n", OptionalFirst) == Matched(3)
    ensures Walk("ac\n", OptionalFirst) == Failed(1)
    ensures Walk("c\n", OptionalFirst) == Failed(1)
    ensures Walk("\n", OptionalFirst) == Failed(1)
  {
    assert IsCString("bbac\n") && IsCString("bac\n") && IsCString("ac\n");
    assert IsCString("c\n") && IsCString("\n");
    assert Walk("bbac\n", OptionalFirst) == Failed(2);
    var r1 := "bac\n";
    assert WalkFrom(r1, OptionalFirst, 3, 2, 1, true) == Matched(3);
    assert WalkFrom(r1, OptionalFirst, 2, 1, 1, false) == Matched(3);
    assert WalkFrom(r1, OptionalFirst, 1, 0, 1, false) == Matched(3);
    assert WalkFrom("ac\n", OptionalFirst, 1, 1, 1, false) == Failed(1);
    assert WalkFrom("c\n", OptionalFirst, 1, 0, 1, false) == Failed(1);
    assert WalkFrom("\n", OptionalFirst, 1, 0, 1, false) == Failed(1);
  }

  /** A trailing optional state is not enough at the terminator: "ab?"
      matches "a\n" (the newline is read and rejected by the optional 'b'),
      but fails on "a", where the loop stops at '\0' with a state left. */
  lemma OptionalAtEnd()
    ensures Walk("a\n", [State(Lit('a'), false, false), State(Lit('b'), true, false)]) == Matched(1)
    ensures Walk("a", [State(Lit('a'), false, false), State(Lit('b'), true, false)]) == Failed(1)
  {
    var st := [State(Lit('a'), false, false), State(Lit('b'), true, false)];
    assert IsCString("a\n") && IsCString("a");
    assert WalkFrom("a\n", st, 1, 1, 1, false) == Matched(1);
    assert WalkFrom("a\n", st, 0, 0, 1, false) == Matched(1);
    assert WalkFrom("a", st, 0, 0, 1, false) == Failed(1);
  }

  /** A walk over literal states matches exactly when the line agrees
      with the literal text from position i to its end. */
  lemma {:induction false} WalkFromLiterals(line: seq<char>, p: seq<char>, st: seq<State>, i: nat, jump: nat, b: bool)
    requires IsCString(line) && i < |p| && i < |line| && IsLiterals(st, p)
    ensures WalkFrom(line, st, i, i, jump, b).Matched? <==>
      |p| <= |line| && forall k :: i <= k < |p| ==> line[k] == p[k]
    ensures WalkFrom(line, st, i, i, jump, b).Matched? ==>
      WalkFrom(line, st, i, i, jump, b).end == |p|
    decreases |p| - i
  {
    var found := jump == 1 && i > 0 && !b && CharMatches(line[i], st[0]);
    var jump' := if found then i else jump;
    var b' := b || found;
    assert st[i] == State(Lit(p[i]), false, false);
    if line[i] != p[i] {
      assert WalkFrom(line, st, i, i, jump, b) == Failed(jump');
    } else if i + 1 < |line| && i + 1 < |p| {
      assert WalkFrom(line, st, i, i, jump, b) == WalkFrom(line, st, i + 1, i + 1, jump', b');
      WalkFromLiterals(line, p, st, i + 1, jump', b');
    } else if i + 1 == |p| {
      assert WalkFrom(line, st, i, i, jump, b) == Matched(i + 1);
    } else {
      assert WalkFrom(line, st, i, i, jump, b) == Failed(jump');
    }
  }

  /** st holds one mandatory literal state per character of p. */
  predicate IsLiterals(st: seq<State>, p: seq<char>) {
    |st| == |p| && forall k :: 0 <= k < |p| ==> st[k] == State(Lit(p[k]), false, false)
  }

  /** The literal text p occurs in line at offset k. */
  predicate OccursAt(line: seq<char>, p: seq<char>, k: nat) {
    k + |p| <= |line| && line[k..k + |p|] == p
  }

  /** An attempt of a literal pattern at offset k succeeds exactly when the
      text occurs there. */
  lemma LiteralAttempt(line: seq<char>, p: seq<char>, k: nat)
    requires IsCString(line) && k < |line| && |p| > 0
    ensures Walk(line[k..], Literals(p)).Matched? <==> OccursAt(line, p, k)
  {
    var rest := line[k..];
    WalkFromLiterals(rest, p, Literals(p), 0, 1, false);
    if k + |p| <= |line| {
      assert (forall j :: 0 <= j < |p| ==> rest[j] == p[j]) <==> line[k..k + |p|] == p by {
        assert forall j :: 0 <= j < |p| ==> rest[j] == line[k..k + |p|][j];
      }
    }
  }

  /** A pattern of plain characters (an ordinary character stands for
      itself) matches a line exactly when its text occurs in the line. */
  lemma LiteralSearch(line: seq<char>, p: seq<char>)
    requires IsCString(line) && |line| > 0 && |p| > 0
    ensures Search(line, Literals(p), false).Some? <==> exists k :: OccursAt(line, p, k)
  {
    var st := Literals(p);
    JumpSafe(line, st, false, 0);
    SearchEveryComplete(line, st, 0);
    if Search(line, st, false).Some? {
      var k :| 0 <= k < |line| && Walk(line[k..], st).Matched?;
      LiteralAttempt(line, p, k);
    }
    if exists k :: OccursAt(line, p, k) {
      var k :| OccursAt(line, p, k);
      assert |p| > 0;
      LiteralAttempt(line, p, k);
    }
  }
}
