/** The s_state structure of the root jrep.c and its parse and does_match.
    Each method is proved to compute the reference function of module
    LegacySpec. */
module Legacy {
  import opened CStrings
  import opened RegexSpec
  import opened LegacySpec

  /** The type codes T_BEG_LINE, T_CHAR, T_EOL, T_RANGE and T_DOT. */
  datatype Kind = TBegLine | TChar | TEol | TRange | TDot

  /** The state one slot of the arrays holds. */
  function LStateOf(kind: Kind, value: char, glb: char, lub: char, optional: bool): LState {
    var t := match kind
      case TBegLine => BegLine
      case TChar => Char(value)
      case TEol => EndLine
      case TRange => Range(glb, lub)
      case TDot => Dot;
    LState(t, optional)
  }

  /** A legacy compiled pattern: parallel arrays of MAX_EXPR slots, the
      cursor current and the number of states in use. */
  class LegacyPattern {
    const kind: array<Kind>
    const value: array<char>
    const optional: array<bool>
    const glb: array<char>
    const lub: array<char>
    var current: nat
    var count: nat

    /** The states in slots [0, count), as values. */
    ghost var states: seq<LState>

    ghost predicate Sized() {
      kind.Length == MAX_EXPR && value.Length == MAX_EXPR && optional.Length == MAX_EXPR
      && glb.Length == MAX_EXPR && lub.Length == MAX_EXPR
    }

    /** The state slot k holds. */
    ghost function Slot(k: nat): LState
      reads kind, value, optional, glb, lub
      requires Sized() && k < MAX_EXPR
    {
      LStateOf(kind[k], value[k], glb[k], lub[k], optional[k])
    }

    ghost predicate Valid()
      reads this, kind, value, optional, glb, lub
    {
      Sized() && value != glb && value != lub && glb != lub
      && count <= MAX_EXPR && |states| == count
      && forall k :: 0 <= k < count ==> states[k] == LStateOf(kind[k], value[k], glb[k], lub[k], optional[k])
    }

    constructor ()
      ensures Valid() && states == [] && count == 0 && current == 0
      ensures fresh(kind) && fresh(value) && fresh(optional) && fresh(glb) && fresh(lub)
    {
      kind := new Kind[MAX_EXPR];
      value := new char[MAX_EXPR];
      optional := new bool[MAX_EXPR];
      glb := new char[MAX_EXPR];
      lub := new char[MAX_EXPR];
      current := 0;
      count := 0;
      states := [];
    }

    /** parse: 0 and the states of LegacyCompile when the pattern is
        accepted, with current reset to 0; -1 when it is rejected. */
    method Parse(expr: seq<char>) returns (r: int)
      requires Valid() && IsCString(expr) && |expr| <= MAX_EXPR
      modifies this, kind, value, optional, glb, lub
      ensures Valid()
      ensures r == 0 || r == -1
      ensures r == 0 <==> LegacyCompile(expr).Ok?
      ensures r == 0 ==> states == LegacyCompile(expr).value && current == 0
    {
      current := 0;
      count := 0;
      states := [];
      var i := 0;
      while i < |expr|
        invariant Valid() && i <= |expr| && current == count <= i
        invariant LegacyCompile(expr) == LegacyParse(expr, i, states)
      {
        optional[current] := false;
        var failed;
        failed, i := ParseChar(expr, i);
        if failed {
          return -1;
        }
      }
      current := 0;
      return 0;
    }

    /** One turn of parse's loop, at pattern index i. */
    method ParseChar(expr: seq<char>, i: nat) returns (failed: bool, next: nat)
      requires Valid() && IsCString(expr) && i < |expr| <= MAX_EXPR && current == count <= i
      requires !optional[current]
      modifies this, kind, value, optional, glb, lub
      ensures Valid() && current == count
      ensures failed <==> LegacyStep(expr, i, old(states)).Err?
      ensures !failed ==> count <= next && LegacyStep(expr, i, old(states)).value == Step(states, next)
    {
      var c := expr[i];
      failed, next := false, i + 1;
      if c == '^' {
        if i != 0 {
          return true, next;
        }
        kind[0] := TBegLine;
        Push();
      } else if c == '$' {
        if At(expr, i + 1) != NUL {
          return true, next;
        }
        kind[current] := TEol;
        Push();
      } else if c == '?' {
        if current == 0 {
          return true, next;
        }
        optional[current - 1] := true;
        states := states[current - 1 := states[current - 1].(optional := true)];
      } else if c == '[' {
        failed, next := ParseRange(expr, i);
      } else if c == ']' {
        return true, next;
      } else if c == '.' {
        kind[current] := TDot;
        Push();
      } else {
        kind[current] := TChar;
        value[current] := c;
        Push();
      }
    }

    /** Append the state in slot current. */
    method Push()
      requires Valid() && current == count < MAX_EXPR
      modifies this
      ensures Valid() && current == count == old(count) + 1
      ensures states == old(states) + [old(Slot(count))]
    {
      states := states + [Slot(current)];
      count := count + 1;
      current := current + 1;
    }

    /** The '[' case of parse: the same checks, in the same order, as the
        newer parser makes. */
    method ParseRange(expr: seq<char>, i: nat) returns (failed: bool, next: nat)
      requires Valid() && IsCString(expr) && i < |expr| <= MAX_EXPR && expr[i] == '['
      requires current == count <= i && !optional[current]
      modifies this, kind, glb, lub
      ensures Valid() && current == count
      ensures failed <==> RangeAt(expr, i).Err?
      ensures !failed ==> next == i + 5 <= |expr| && count <= next
      ensures !failed ==>
        states == old(states) + [LState(Range(RangeAt(expr, i).value.glb, RangeAt(expr, i).value.lub), false)]
    {
      var j := i;
      kind[current] := TRange;
      j := j + 1;
      if At(expr, j) == NUL || At(expr, j) == ']' {
        return true, j;
      }
      glb[current] := expr[j];
      j := j + 1;
      if At(expr, j) != '-' {
        return true, j;
      }
      j := j + 1;
      if j >= |expr| {
        return true, j;
      }
      lub[current] := expr[j];
      j := j + 1;
      if At(expr, j) != ']' {
        return true, j;
      }
      if lub[current] < glb[current] {
        return true, j;
      }
      Push();
      return false, j + 1;
    }

    /** does_match: runs the loop of LegacyMatch on the arrays, leaving
        state->current where the loop stopped. */
    method DoesMatch(line: seq<char>) returns (r: bool)
      requires Valid() && count > 0 && Getline(line)
      requires LegacyMatch(line, states) != Undefined
      modifies this`current
      ensures LegacyMatch(line, states) == Returned(r, current)
    {
      current := 0;
      var matches := false;
      var n: nat := 0;
      while true
        invariant Valid() && current < count && n < |line|
        invariant LegacyMatch(line, states) == LegacyFrom(line, states, current, n, matches)
        decreases Phase(line, states, current, n), count - current, Back(line, states, current, n)
      {
        var stop;
        stop, r, n, matches := Turn(line, n, matches);
        if stop {
          return r;
        }
        if !(At(line, n) != NUL && current < count) {
          break;
        }
      }
      return matches && current == count;
    }

    /** One turn of does_match's loop body: the switch on the type of state
        current. It reports whether the switch returned, and with what. */
    method Turn(line: seq<char>, n: nat, matches: bool) returns (stop: bool, r: bool, n': nat, matches': bool)
      requires Valid() && current < count && Getline(line) && n < |line|
      requires LegacyMove(line, states, current, n, matches) != BackPastStart
      modifies this`current
      ensures Valid()
      ensures stop ==> LegacyMove(line, states, old(current), n, matches) == Stop(r) && current == old(current)
      ensures !stop ==> LegacyMove(line, states, old(current), n, matches) == Go(current, n', matches')
    {
      var k := current;
      stop, r, n', matches' := false, false, n, matches;
      match kind[k] {
        case TBegLine =>
          if n != 0 {
            return true, false, n, matches;
          }
          matches' := true;
          current := current + 1;
        case TEol =>
          return true, (line[n] == '\n' && matches) || current == 0, n, matches;
        case TRange =>
          if line[n] >= glb[k] && line[n] <= lub[k] {
            n' := n + 1;
            current := current + 1;
            matches' := true;
          } else if optional[k] {
            current := current + 1;
            matches' := true;
          } else {
            current := 0;
            matches' := false;
            n' := n + 1;
          }
        case TDot =>
          if line[n] != '\n' {
            matches' := true;
            current := current + 1;
            n' := n + 1;
          } else if optional[k] {
            matches' := true;
            n' := n - 1;
          } else {
            matches' := false;
            n' := n + 1;
          }
        case TChar =>
          if line[n] == value[k] {
            current := current + 1;
            n' := n + 1;
            matches' := true;
          } else if optional[k] {
            matches' := true;
            current := current + 1;
            if At(line, n + 1) == '\n' {
              n' := n + 1;
            }
          } else {
            matches' := false;
            current := 0;
            n' := n + 1;
          }
      }
    }
  }
}
