/** The s_state structure of src/jrep.h and the functions of src/regex.c that
    fill and read it. Each method is proved to compute the reference function
    of the same name in module RegexSpec. */
module Regex {
  import opened CStrings
  import opened RegexSpec

  /** The state type codes T_CHAR, T_EOL, T_RANGE and T_DOT. */
  datatype Kind = TChar | TEol | TRange | TDot

  /** The state one slot of the arrays holds: its type code selects which of
      value, glb and lub it uses. */
  function StateOf(kind: Kind, value: char, glb: char, lub: char, optional: bool, kleene: bool): State {
    var t := match kind
      case TChar => Lit(value)
      case TEol => Eol
      case TRange => Span(glb, lub)
      case TDot => Any;
    State(t, optional, kleene)
  }

  /** A compiled pattern: parallel arrays of MAX_EXPR slots, the number of
      states in use, the parser's cursor and the anchor flag. */
  class Pattern {
    const kind: array<Kind>
    const value: array<char>
    const optional: array<bool>
    const kleene: array<bool>
    const glb: array<char>
    const lub: array<char>
    var count: nat
    var current: nat
    var beg: bool

    /** The states in slots [0, count), as values. */
    ghost var states: seq<State>

    /** The objects that make up the pattern. */
    ghost function Repr(): set<object> {
      {this, kind, value, optional, kleene, glb, lub}
    }

    ghost predicate Sized() {
      kind.Length == MAX_EXPR && value.Length == MAX_EXPR && optional.Length == MAX_EXPR
      && kleene.Length == MAX_EXPR && glb.Length == MAX_EXPR && lub.Length == MAX_EXPR
    }

    /** The state slot k holds. */
    ghost function Slot(k: nat): State
      reads kind, value, optional, kleene, glb, lub
      requires Sized() && k < MAX_EXPR
    {
      StateOf(kind[k], value[k], glb[k], lub[k], optional[k], kleene[k])
    }

    ghost predicate Valid()
      reads this, kind, value, optional, kleene, glb, lub
    {
      Sized() && value != glb && value != lub && glb != lub && optional != kleene
      && count <= MAX_EXPR && |states| == count
      && forall k :: 0 <= k < count ==>
           states[k] == StateOf(kind[k], value[k], glb[k], lub[k], optional[k], kleene[k])
    }

    /** A fresh structure, as main allocates it for each alternative; `beg`
        starts false. */
    constructor ()
      ensures Valid() && states == [] && count == 0 && !beg
      ensures fresh(kind) && fresh(value) && fresh(optional) && fresh(kleene) && fresh(glb) && fresh(lub)
    {
      kind := new Kind[MAX_EXPR];
      value := new char[MAX_EXPR];
      optional := new bool[MAX_EXPR];
      kleene := new bool[MAX_EXPR];
      glb := new char[MAX_EXPR];
      lub := new char[MAX_EXPR];
      count := 0;
      current := 0;
      beg := false;
      states := [];
    }

    /** copy_state: slot i + 1 becomes a copy of slot i in every array, and one
        more state is in use. */
    method CopyState(i: nat) returns (r: int)
      requires Valid() && i < count < MAX_EXPR
      modifies this, kind, value, optional, kleene, glb, lub
      ensures Valid() && r == 0
      ensures count == old(count) + 1 && current == old(current) && beg == old(beg)
      ensures Slot(i + 1) == old(Slot(i))
      ensures states == (old(states) + [old(Slot(count))])[i + 1 := old(states)[i]]
    {
      ghost var was := states + [Slot(count)];
      kind[i + 1] := kind[i];
      optional[i + 1] := optional[i];
      kleene[i + 1] := kleene[i];
      value[i + 1] := value[i];
      lub[i + 1] := lub[i];
      glb[i + 1] := glb[i];
      count := count + 1;
      states := was[i + 1 := was[i]];
      r := 0;
    }

    /** parse: fills the arrays from the pattern. It succeeds (0) exactly when
        the reference parse does, and then holds its states and anchor flag,
        with the cursor on the first free slot. */
    method Parse(expr: seq<char>) returns (r: int)
      requires Valid() && IsCString(expr) && |expr| <= MAX_EXPR
      modifies this, kind, value, optional, kleene, glb, lub
      ensures Valid()
      ensures r == 0 || r == -1
      ensures r == 0 <==> ParseFrom(expr, 0, Compiled([], old(beg))).Ok?
      ensures r == 0 ==> Compiled(states, beg) == ParseFrom(expr, 0, Compiled([], old(beg))).value
      ensures r == 0 ==> current == count
    {
      current := 0;
      count := 0;
      states := [];
      var i := 0;
      while i < |expr|
        invariant Valid() && i <= |expr| && current == count <= i
        invariant ParseFrom(expr, 0, Compiled([], old(beg))) == ParseFrom(expr, i, Compiled(states, beg))
      {
        var failed;
        failed, i := ParseChar(expr, i);
        if failed {
          return -1;
        }
      }
      return 0;
    }

    /** One turn of parse's loop: the pattern character at i and, for a range
        or an escape, the characters after it. It returns the index of the
        next character to read, or fails where parse returns -1. */
    method ParseChar(expr: seq<char>, i: nat) returns (failed: bool, next: nat)
      requires Valid() && IsCString(expr) && i < |expr| <= MAX_EXPR && current == count <= i
      modifies this, kind, value, optional, kleene, glb, lub
      ensures Valid() && current == count
      ensures failed <==> ParseStep(expr, i, old(Compiled(states, beg))).Err?
      ensures !failed ==> count <= next
      ensures !failed ==> ParseStep(expr, i, old(Compiled(states, beg))).value == Progress(Compiled(states, beg), next)
    {
      optional[current] := false;
      kleene[current] := false;
      var c := expr[i];
      failed, next := false, i + 1;
      if c == '^' {
        if i != 0 {
          return true, next;
        }
        beg := true;
      } else if c == '?' || c == '*' || c == '+' {
        if current == 0 {
          return true, next;
        }
        Quantify(c);
      } else if c == '[' {
        failed, next := ParseRange(expr, i);
      } else if c == ']' {
        return true, next;
      } else {
        failed, next := ParseAtom(expr, i);
      }
    }

    /** The cases of parse that append one state for one character: '$',
        '.', an escape `\x` (two characters) and any other character. */
    method ParseAtom(expr: seq<char>, i: nat) returns (failed: bool, next: nat)
      requires Valid() && IsCString(expr) && i < |expr| <= MAX_EXPR && current == count <= i
      requires !optional[current] && !kleene[current]
      requires expr[i] !in ['^', '?', '*', '+', '[', ']']
      modifies this, kind, value
      ensures Valid() && current == count
      ensures failed <==> ParseStep(expr, i, old(Compiled(states, beg))).Err?
      ensures !failed ==> count <= next
      ensures !failed ==> ParseStep(expr, i, old(Compiled(states, beg))).value == Progress(Compiled(states, beg), next)
    {
      var c := expr[i];
      failed, next := false, i + 1;
      if c == '$' {
        if At(expr, i + 1) != NUL {
          return true, next;
        }
        kind[current] := TEol;
        Push();
      } else if c == '.' {
        kind[current] := TDot;
        Push();
      } else if c == '\\' {
        if At(expr, i + 1) == NUL {
          return true, next;
        }
        kind[current] := TChar;
        value[current] := expr[i + 1];
        Push();
        next := i + 2;
      } else {
        kind[current] := TChar;
        value[current] := c;
        Push();
      }
    }

    /** `++state->count; ++state->current`: the slot under the cursor becomes
        the last state in use. */
    method Push()
      requires Valid() && current == count < MAX_EXPR
      modifies this
      ensures Valid() && current == count == old(count) + 1 && beg == old(beg)
      ensures states == old(states) + [old(Slot(count))]
    {
      states := states + [Slot(current)];
      count := count + 1;
      current := current + 1;
    }

    /** The '?', '*' and '+' cases of parse, on the last state k: '?' sets
        its optional flag, '*' both flags, and '+' copies it to k + 1, makes
        k mandatory and not repeatable and the copy optional and repeatable. */
    method Quantify(c: char)
      requires Valid() && 0 < current == count < MAX_EXPR && (c == '?' || c == '*' || c == '+')
      modifies this, kind, value, optional, kleene, glb, lub
      ensures Valid() && current == count && beg == old(beg)
      ensures var last := old(states)[old(count) - 1];
        states ==
          if c == '?' then old(states)[old(count) - 1 := last.(optional := true)]
          else if c == '*' then old(states)[old(count) - 1 := last.(optional := true, kleene := true)]
          else old(states)[old(count) - 1 := last.(optional := false, kleene := false)]
               + [last.(optional := true, kleene := true)]
    {
      if c == '?' {
        SetOptional(current - 1, true);
      } else if c == '*' {
        SetOptional(current - 1, true);
        SetKleene(current - 1, true);
      } else {
        Plus();
      }
    }

    /** The '+' case: the last state is copied, the original made mandatory
        and not repeatable, the copy optional and repeatable. */
    method Plus()
      requires Valid() && 0 < current == count < MAX_EXPR
      modifies this, kind, value, optional, kleene, glb, lub
      ensures Valid() && current == count && beg == old(beg)
      ensures var last := old(states)[old(count) - 1];
        states == old(states)[old(count) - 1 := last.(optional := false, kleene := false)]
                  + [last.(optional := true, kleene := true)]
    {
      var _ := CopyState(current - 1);
      SetOptional(current - 1, false);
      SetKleene(current - 1, false);
      SetOptional(current, true);
      SetKleene(current, true);
      current := current + 1;
    }

    /** `state->optional[k] = b` on a state in use. */
    method SetOptional(k: nat, b: bool)
      requires Valid() && k < count
      modifies this, optional
      ensures count == old(count) && current == old(current) && beg == old(beg)
      ensures Valid() && states == old(states)[k := old(states)[k].(optional := b)]
    {
      optional[k] := b;
      states := states[k := Slot(k)];
    }

    /** `state->kleene[k] = b` on a state in use. */
    method SetKleene(k: nat, b: bool)
      requires Valid() && k < count
      modifies this, kleene
      ensures count == old(count) && current == old(current) && beg == old(beg)
      ensures Valid() && states == old(states)[k := old(states)[k].(kleene := b)]
    {
      kleene[k] := b;
      states := states[k := Slot(k)];
    }

    /** The '[' case of parse: reads `x-y]` after the bracket into a range
        state. The source only prints a message when the upper bound is ']'
        or the end; at the end it would read past the terminator, which is a
        rejection here. */
    method ParseRange(expr: seq<char>, i: nat) returns (failed: bool, next: nat)
      requires Valid() && IsCString(expr) && i < |expr| <= MAX_EXPR && expr[i] == '['
      requires current == count <= i && !optional[current] && !kleene[current]
      modifies this, kind, glb, lub
      ensures Valid() && current == count
      ensures failed <==> RangeAt(expr, i).Err?
      ensures !failed ==> next == i + 5 <= |expr| && count <= next && beg == old(beg)
      ensures !failed ==> states == old(states) + [State(RangeAt(expr, i).value, false, false)]
    {
      var j := i;
      kind[current] := TRange;
      j := j + 1;
      if At(expr, j) == NUL || At(expr, j) == ']' {
        return true, j;
      }
      glb[current] := expr[j];
      j := j + 1;
      if At(expr, j) != '-' {
        return true, j;
      }
      j := j + 1;
      if j >= |expr| {
        return true, j;
      }
      lub[current] := expr[j];
      j := j + 1;
      if At(expr, j) != ']' {
        return true, j;
      }
      if lub[current] < glb[current] {
        return true, j;
      }
      Push();
      return false, j + 1;
    }

    /** does_char_match: the test of character c against slot i. */
    function DoesCharMatch(c: char, i: nat): (r: bool)
      reads this, kind, value, optional, kleene, glb, lub
      requires Valid() && i < count
      ensures r == CharMatches(c, states[i])
    {
      match kind[i]
      case TChar => value[i] == c
      case TEol => c == '\n'
      case TRange => c >= glb[i] && c <= lub[i]
      case TDot => c != '\n'
    }

    /** match_start: one attempt at the start of line. It returns 0 exactly
        when the walk consumes every state, and the walk's jump otherwise; on
        success with show the buffer receives the consumed text. */
    method MatchStart(line: seq<char>, show: bool, buffer: seq<char>) returns (jump: nat, out: seq<char>)
      requires Valid() && count > 0 && IsCString(line) && |line| > 0
      requires show ==> Walk(line, states) != Matched(0)
      ensures jump == 0 <==> Walk(line, states).Matched?
      ensures jump != 0 ==> Walk(line, states) == Failed(jump) && out == buffer
      ensures Walk(line, states).Matched? ==>
        out == if show then Capture(line, Hit(0, Walk(line, states).end)) else buffer
    {
      WalkBounds(line, states);
      var i, n := 0, 0;
      jump := 1;
      var b := false;
      while true
        invariant i < count && n < |line|
        invariant Walk(line, states) == WalkFrom(line, states, i, n, jump, b)
        decreases |line| - n, count - i
      {
        if jump == 1 && i > 0 && !b && DoesCharMatch(line[n], 0) {
          b := true;
          jump := n;
        }
        var matched := DoesCharMatch(line[n], i);
        if matched {
          if !kleene[i] || (kleene[i] && count > i + 1 && DoesCharMatch(At(line, n + 1), i + 1)) {
            i := i + 1;
          }
          n := n + 1;
        } else if optional[i] {
          i := i + 1;
        } else {
          return jump, buffer;
        }
        if !(At(line, n) != NUL && i < count) {
          break;
        }
      }
      if i == count {
        out := buffer;
        if show {
          out := [];
          var j := 0;
          while j < n
            invariant j <= n && out == line[..j]
          {
            out := out + [line[j]];
            j := j + 1;
          }
          if out[n - 1] != '\n' {
            out := out + ['\n'];
          }
        }
        return 0, out;
      }
      return jump, buffer;
    }

    /** The text show may capture is defined: a successful scan consumes at
        least one character. */
    ghost predicate CaptureDefined(line: seq<char>)
      reads this, kind, value, optional, kleene, glb, lub
      requires Valid() && count > 0 && IsCString(line) && |line| > 0
    {
      var h := Search(line, states, beg);
      h.None? || h.value.len > 0
    }

    /** does_match: true exactly when the reference scan finds a hit; with
        print the buffer then holds the hit's text, and is untouched
        otherwise. */
    method DoesMatch(line: seq<char>, show: bool, buffer: seq<char>) returns (r: bool, out: seq<char>)
      requires Valid() && count > 0 && IsCString(line) && |line| > 0
      requires show ==> CaptureDefined(line)
      ensures r == Search(line, states, beg).Some?
      ensures out == if r && show then Capture(line, Search(line, states, beg).value) else buffer
    {
      var n := 0;
      while true
        invariant n < |line|
        invariant Search(line, states, beg) == SearchFrom(line, states, beg, n)
        decreases |line| - n
      {
        var rest := line[n..];
        SearchFromStep(line, states, beg, n);
        if show && Walk(rest, states).Matched? {
          assert Search(line, states, beg) == Some(Hit(n, Walk(rest, states).end));
        }
        var jump;
        jump, out := MatchStart(rest, show, buffer);
        if jump == 0 {
          if show {
            CaptureShift(line, n, Walk(rest, states).end);
          }
          return true, out;
        }
        if beg {
          return false, buffer;
        }
        n := n + jump;
        if At(line, n) == NUL {
          return false, buffer;
        }
      }
    }
  }
}
