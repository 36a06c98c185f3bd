/** Finding the other end of a bracketed expression, forwards and backwards, over
    lines of source text. Both scanners also track template angle brackets by a
    heuristic; for the brackets ( [ { that heuristic makes no difference. */
module BracketScan {
  import opened Options
  import opened LintText

  /** What scanning to the end of a line yields: the position found, a mismatch, or the stack
      to carry to the next line. */
  datatype Scan = Found(pos: nat) | Mismatch | Pending(stack: seq<char>)

  predicate IsOpener(c: char) {
    c == '(' || c == '[' || c == '{'
  }

  predicate IsCloser(c: char) {
    c == ')' || c == ']' || c == '}'
  }

  predicate IsBracket(c: char) {
    IsOpener(c) || IsCloser(c)
  }

  predicate Pairs(open: char, close: char) {
    (open == '(' && close == ')') || (open == '[' && close == ']') || (open == '{' && close == '}')
  }

  function Top(stack: seq<char>): char
    requires stack != []
  {
    stack[|stack| - 1]
  }

  function Pop(stack: seq<char>): seq<char>
    requires stack != []
  {
    stack[..|stack| - 1]
  }

  /** The stack without the angle brackets on top. */
  function DropAngles(stack: seq<char>, angle: char): seq<char> {
    if stack != [] && Top(stack) == angle then DropAngles(Pop(stack), angle) else stack
  }

  // ---------------------------------------------------------------------------
  // The regular expressions
  // ---------------------------------------------------------------------------

  function TrimRight(s: string): string {
    if s != [] && IsSpace(s[|s| - 1]) then TrimRight(s[..|s| - 1]) else s
  }

  /** The prefix ends in the word operator and optional white space. */
  predicate EndsInOperator(prefix: string) {
    var t := TrimRight(prefix);
    |t| >= 8 && t[|t| - 8..] == "operator" && (|t| == 8 || !IsWordChar(t[|t| - 9]))
  }

  /** The suffix starts with >= between white space. */
  predicate IsGreaterEqual(suffix: string) {
    |suffix| >= 4 && IsSpace(suffix[0]) && suffix[1] == '>' && suffix[2] == '=' && IsSpace(suffix[3])
  }

  /** The suffix starts with << or <=. */
  predicate IsShift(suffix: string) {
    |suffix| >= 2 && suffix[0] == '<' && (suffix[1] == '<' || suffix[1] == '=')
  }

  // ---------------------------------------------------------------------------
  // The forward scanner
  // ---------------------------------------------------------------------------

  /** Scanning a line from position i. */
  function ForwardScan(line: string, i: nat, stack: seq<char>): Scan
    requires i <= |line|
    decreases |line| - i
  {
    if i == |line| then Pending(stack)
    else
      var c := line[i];
      if IsOpener(c) then ForwardScan(line, i + 1, stack + [c])
      else if c == '<' then
        if i > 0 && line[i - 1] == '<' then
          if stack != [] && Top(stack) == '<' then
            if Pop(stack) == [] then Mismatch else ForwardScan(line, i + 1, Pop(stack))
          else ForwardScan(line, i + 1, stack)
        else if i > 0 && EndsInOperator(line[..i]) then ForwardScan(line, i + 1, stack)
        else ForwardScan(line, i + 1, stack + ['<'])
      else if IsCloser(c) then
        var rest := DropAngles(stack, '<');
        if rest == [] then Mismatch
        else if Pairs(Top(rest), c) then
          if Pop(rest) == [] then Found(i + 1) else ForwardScan(line, i + 1, Pop(rest))
        else Mismatch
      else if c == '>' then
        if i > 0 && (line[i - 1] == '-' || EndsInOperator(line[..i - 1])) then ForwardScan(line, i + 1, stack)
        else if stack != [] && Top(stack) == '<' then
          if Pop(stack) == [] then Found(i + 1) else ForwardScan(line, i + 1, Pop(stack))
        else ForwardScan(line, i + 1, stack)
      else if c == ';' then
        var rest := DropAngles(stack, '<');
        if rest == [] then Mismatch else ForwardScan(line, i + 1, rest)
      else ForwardScan(line, i + 1, stack)
  }

  method FindEndOfExpressionInLine(line: string, startpos: nat, stack: seq<char>) returns (r: Scan)
    requires startpos <= |line|
    ensures r == ForwardScan(line, startpos, stack)
  {
    var st := stack;
    var i := startpos;
    while i < |line|
      invariant startpos <= i <= |line|
      invariant ForwardScan(line, i, st) == ForwardScan(line, startpos, stack)
    {
      var c := line[i];
      if IsOpener(c) {
        st := st + [c];
      } else if c == '<' {
        if i > 0 && line[i - 1] == '<' {
          if st != [] && Top(st) == '<' {
            st := Pop(st);
            if st == [] {
              return Mismatch;
            }
          }
        } else if i > 0 && EndsInOperator(line[..i]) {
        } else {
          st := st + ['<'];
        }
      } else if IsCloser(c) {
        st := PopAngles(st, '<');
        if st == [] {
          return Mismatch;
        }
        if Pairs(Top(st), c) {
          st := Pop(st);
          if st == [] {
            return Found(i + 1);
          }
        } else {
          return Mismatch;
        }
      } else if c == '>' {
        if i > 0 && (line[i - 1] == '-' || EndsInOperator(line[..i - 1])) {
        } else if st != [] && Top(st) == '<' {
          st := Pop(st);
          if st == [] {
            return Found(i + 1);
          }
        }
      } else if c == ';' {
        st := PopAngles(st, '<');
        if st == [] {
          return Mismatch;
        }
      }
      i := i + 1;
    }
    return Pending(st);
  }

  method PopAngles(stack: seq<char>, angle: char) returns (st: seq<char>)
    ensures st == DropAngles(stack, angle)
  {
    st := stack;
    while st != [] && Top(st) == angle
      invariant DropAngles(st, angle) == DropAngles(stack, angle)
      decreases |st|
    {
      st := Pop(st);
    }
  }

  /** Scanning on from position i of line k: the line and position just past the end. */
  function CloseFrom(lines: seq<string>, k: nat, i: nat, stack: seq<char>): Option<(nat, nat)>
    requires k < |lines| && i <= |lines[k]|
    decreases |lines| - k
  {
    match ForwardScan(lines[k], i, stack)
    case Found(p) => Some((k, p))
    case Mismatch => None
    case Pending(st) => if st != [] && k + 1 < |lines| then CloseFrom(lines, k + 1, 0, st) else None
  }

  method CloseExpression(lines: seq<string>, linenum: nat, pos: nat)
    returns (r: Option<(nat, nat)>)
    requires linenum < |lines| && pos < |lines[linenum]|
    ensures r ==
      if !(IsOpener(lines[linenum][pos]) || lines[linenum][pos] == '<') || IsShift(lines[linenum][pos..]) then None
      else CloseFrom(lines, linenum, pos, [])
  {
    var k, line := linenum, lines[linenum];
    if !(IsOpener(line[pos]) || line[pos] == '<') || IsShift(line[pos..]) {
      return None;
    }
    var scan := FindEndOfExpressionInLine(line, pos, []);
    if scan.Found? {
      return Some((k, scan.pos));
    }
    while scan.Pending? && scan.stack != [] && k < |lines| - 1
      invariant linenum <= k < |lines| && !scan.Found?
      invariant CloseFrom(lines, linenum, pos, []) ==
        if scan.Pending? && scan.stack != [] && k + 1 < |lines| then CloseFrom(lines, k + 1, 0, scan.stack) else None
      decreases |lines| - k
    {
      k := k + 1;
      scan := FindEndOfExpressionInLine(lines[k], 0, scan.stack);
      if scan.Found? {
        return Some((k, scan.pos));
      }
    }
    return None;
  }

  // ---------------------------------------------------------------------------
  // The backward scanner
  // ---------------------------------------------------------------------------

  /** Scanning a line backwards from position i. */
  function BackwardScan(line: string, i: int, stack: seq<char>): Scan
    requires i < |line|
    decreases i
  {
    if i < 0 then Pending(stack)
    else
      var c := line[i];
      if IsCloser(c) then BackwardScan(line, i - 1, stack + [c])
      else if c == '>' then
        if i > 0 && (line[i - 1] == '-' || IsGreaterEqual(line[i - 1..]) || EndsInOperator(line[..i]))
        then BackwardScan(line, i - 2, stack)
        else BackwardScan(line, i - 1, stack + ['>'])
      else if c == '<' then
        if i > 0 && line[i - 1] == '<' then BackwardScan(line, i - 2, stack)
        else if stack != [] && Top(stack) == '>' then
          if Pop(stack) == [] then Found(i) else BackwardScan(line, i - 1, Pop(stack))
        else BackwardScan(line, i - 1, stack)
      else if IsOpener(c) then
        var rest := DropAngles(stack, '>');
        if rest == [] then Mismatch
        else if Pairs(c, Top(rest)) then
          if Pop(rest) == [] then Found(i) else BackwardScan(line, i - 1, Pop(rest))
        else Mismatch
      else if c == ';' then
        var rest := DropAngles(stack, '>');
        if rest == [] then Mismatch else BackwardScan(line, i - 1, rest)
      else BackwardScan(line, i - 1, stack)
  }

  method FindStartOfExpressionInLine(line: string, endpos: int, stack: seq<char>)
    returns (r: Scan)
    requires -1 <= endpos < |line|
    ensures r == BackwardScan(line, endpos, stack)
  {
    var st := stack;
    var i := endpos;
    while i >= 0
      invariant i < |line|
      invariant BackwardScan(line, i, st) == BackwardScan(line, endpos, stack)
      decreases i
    {
      var c := line[i];
      if IsCloser(c) {
        st := st + [c];
      } else if c == '>' {
        if i > 0 && (line[i - 1] == '-' || IsGreaterEqual(line[i - 1..]) || EndsInOperator(line[..i])) {
          i := i - 1;
        } else {
          st := st + ['>'];
        }
      } else if c == '<' {
        if i > 0 && line[i - 1] == '<' {
          i := i - 1;
        } else if st != [] && Top(st) == '>' {
          st := Pop(st);
          if st == [] {
            return Found(i);
          }
        }
      } else if IsOpener(c) {
        st := PopAngles(st, '>');
        if st == [] {
          return Mismatch;
        }
        if Pairs(c, Top(st)) {
          st := Pop(st);
          if st == [] {
            return Found(i);
          }
        } else {
          return Mismatch;
        }
      } else if c == ';' {
        st := PopAngles(st, '>');
        if st == [] {
          return Mismatch;
        }
      }
      i := i - 1;
    }
    return Pending(st);
  }

  /** Scanning back from position i of line k: the line and position of the start. */
  function OpenFrom(lines: seq<string>, k: nat, i: int, stack: seq<char>): Option<(nat, nat)>
    requires k < |lines| && i < |lines[k]|
    decreases k
  {
    match BackwardScan(lines[k], i, stack)
    case Found(p) => Some((k, p))
    case Mismatch => None
    case Pending(st) =>
      if st != [] && k > 0 then OpenFrom(lines, k - 1, |lines[k - 1]| - 1, st) else None
  }

  method ReverseCloseExpression(lines: seq<string>, linenum: nat, pos: nat)
    returns (r: Option<(nat, nat)>)
    requires linenum < |lines| && pos < |lines[linenum]|
    ensures r ==
      if !(IsCloser(lines[linenum][pos]) || lines[linenum][pos] == '>') then None
      else OpenFrom(lines, linenum, pos, [])
  {
    var k, line := linenum, lines[linenum];
    if !(IsCloser(line[pos]) || line[pos] == '>') {
      return None;
    }
    var scan := FindStartOfExpressionInLine(line, pos, []);
    if scan.Found? {
      return Some((k, scan.pos));
    }
    while scan.Pending? && scan.stack != [] && k > 0
      invariant k <= linenum && !scan.Found?
      invariant OpenFrom(lines, linenum, pos, []) ==
        if scan.Pending? && scan.stack != [] && k > 0
        then OpenFrom(lines, k - 1, |lines[k - 1]| - 1, scan.stack) else None
      decreases k
    {
      k := k - 1;
      scan := FindStartOfExpressionInLine(lines[k], |lines[k]| - 1, scan.stack);
      if scan.Found? {
        return Some((k, scan.pos));
      }
    }
    return None;
  }

  // ---------------------------------------------------------------------------
  // Reference matchers that know only the three kinds of bracket
  // ---------------------------------------------------------------------------

  /** The text between i and j is well nested: a sequence of enclosed groups and other characters. */
  ghost predicate Balanced(text: string, i: nat, j: nat)
    requires j <= |text|
    decreases j - i
  {
    i == j ||
    (i < j &&
     if IsOpener(text[i])
     then exists k :: i < k < j && Pairs(text[i], text[k]) && Balanced(text, i + 1, k) && Balanced(text, k + 1, j)
     else !IsCloser(text[i]) && Balanced(text, i + 1, j))
  }

  /** The brackets at a and b enclose a well-nested text. */
  ghost predicate Encloses(text: string, a: nat, b: nat) {
    a < b < |text| && Pairs(text[a], text[b]) && Balanced(text, a + 1, b)
  }

  function PlainForward(text: string, i: nat, stack: seq<char>): Scan
    requires i <= |text|
    decreases |text| - i
  {
    if i == |text| then Pending(stack)
    else if IsOpener(text[i]) then PlainForward(text, i + 1, stack + [text[i]])
    else if IsCloser(text[i]) then
      if stack == [] || !Pairs(Top(stack), text[i]) then Mismatch
      else if Pop(stack) == [] then Found(i + 1)
      else PlainForward(text, i + 1, Pop(stack))
    else PlainForward(text, i + 1, stack)
  }

  function PlainBackward(text: string, i: int, stack: seq<char>): Scan
    requires i < |text|
    decreases i
  {
    if i < 0 then Pending(stack)
    else if IsCloser(text[i]) then PlainBackward(text, i - 1, stack + [text[i]])
    else if IsOpener(text[i]) then
      if stack == [] || !Pairs(text[i], Top(stack)) then Mismatch
      else if Pop(stack) == [] then Found(i)
      else PlainBackward(text, i - 1, Pop(stack))
    else PlainBackward(text, i - 1, stack)
  }

  lemma BalancedSplit(text: string, i: nat, j: nat) returns (k: nat)
    requires i < j <= |text| && Balanced(text, i, j) && IsOpener(text[i])
    ensures i < k < j && Pairs(text[i], text[k]) && Balanced(text, i + 1, k) && Balanced(text, k + 1, j)
  {
    k :| i < k < j && Pairs(text[i], text[k]) && Balanced(text, i + 1, k) && Balanced(text, k + 1, j);
  }

  lemma {:induction false} BalancedAppend(text: string, i: nat, k: nat, j: nat)
    requires i <= k <= j <= |text|
    requires Balanced(text, i, k) && Balanced(text, k, j)
    ensures Balanced(text, i, j)
    decreases k - i
  {
    if i < k {
      if IsOpener(text[i]) {
        var m := BalancedSplit(text, i, k);
        BalancedAppend(text, m + 1, k, j);
      } else {
        BalancedAppend(text, i + 1, k, j);
      }
    }
  }

  lemma {:induction false} ForwardSkips(text: string, i: nat, j: nat, stack: seq<char>)
    requires i <= j <= |text| && Balanced(text, i, j) && stack != []
    ensures PlainForward(text, i, stack) == PlainForward(text, j, stack)
    decreases j - i
  {
    if i < j {
      if IsOpener(text[i]) {
        var k := BalancedSplit(text, i, j);
        ForwardSkips(text, i + 1, k, stack + [text[i]]);
        assert Pop(stack + [text[i]]) == stack;
        ForwardSkips(text, k + 1, j, stack);
      } else {
        ForwardSkips(text, i + 1, j, stack);
      }
    }
  }

  lemma {:induction false} BackwardSkips(text: string, i: nat, j: nat, stack: seq<char>)
    requires i <= j <= |text| && Balanced(text, i, j) && stack != []
    ensures PlainBackward(text, j - 1, stack) == PlainBackward(text, i - 1, stack)
    decreases j - i
  {
    if i < j {
      if IsOpener(text[i]) {
        var k := BalancedSplit(text, i, j);
        BackwardSkips(text, k + 1, j, stack);
        BackwardSkips(text, i + 1, k, stack + [text[k]]);
        assert Pop(stack + [text[k]]) == stack;
      } else {
        BackwardSkips(text, i + 1, j, stack);
      }
    }
  }

  /** When the forward matcher finds the end, it first finds the partner of the top of its stack. */
  lemma {:induction false} ForwardFinds(text: string, i: nat, stack: seq<char>, q: nat) returns (j: nat)
    requires i <= |text| && stack != [] && PlainForward(text, i, stack) == Found(q)
    ensures i <= j < q <= |text| && Balanced(text, i, j) && Pairs(Top(stack), text[j])
    ensures if Pop(stack) == [] then q == j + 1 else PlainForward(text, j + 1, Pop(stack)) == Found(q)
    decreases |text| - i
  {
    if IsOpener(text[i]) {
      var k := ForwardFinds(text, i + 1, stack + [text[i]], q);
      assert Pop(stack + [text[i]]) == stack;
      j := ForwardFinds(text, k + 1, stack, q);
    } else if IsCloser(text[i]) {
      j := i;
      if Pop(stack) != [] {
        var _ := ForwardFinds(text, i + 1, Pop(stack), q);
      }
    } else {
      j := ForwardFinds(text, i + 1, stack, q);
    }
  }

  /** The same backwards. */
  lemma {:induction false} BackwardFinds(text: string, i: int, stack: seq<char>, a: nat) returns (j: nat)
    requires -1 <= i < |text| && stack != [] && PlainBackward(text, i, stack) == Found(a)
    ensures a <= j <= i && Balanced(text, j + 1, i + 1) && Pairs(text[j], Top(stack))
    ensures if Pop(stack) == [] then a == j else PlainBackward(text, j - 1, Pop(stack)) == Found(a)
    decreases i, 1
  {
    if IsCloser(text[i]) {
      j := BackwardFindsCloser(text, i, stack, a);
    } else if IsOpener(text[i]) {
      j := i;
      if Pop(stack) != [] {
        var _ := BackwardFinds(text, i - 1, Pop(stack), a);
      }
    } else {
      j := BackwardFinds(text, i - 1, stack, a);
      BalancedAppend(text, j + 1, i, i + 1);
    }
  }

  lemma {:induction false} BackwardFindsCloser(text: string, i: nat, stack: seq<char>, a: nat) returns (j: nat)
    requires i < |text| && IsCloser(text[i]) && stack != [] && PlainBackward(text, i, stack) == Found(a)
    ensures a <= j <= i && Balanced(text, j + 1, i + 1) && Pairs(text[j], Top(stack))
    ensures if Pop(stack) == [] then a == j else PlainBackward(text, j - 1, Pop(stack)) == Found(a)
    decreases i, 0
  {
    var k := BackwardFinds(text, i - 1, stack + [text[i]], a);
    assert Pop(stack + [text[i]]) == stack;
    j := BackwardFinds(text, k - 1, stack, a);
    BalancedAppend(text, j + 1, k, i + 1);
  }

  /** The forward matcher finds q from an opener exactly when the brackets at a and q - 1 enclose a
      well-nested text. */
  lemma ForwardExact(text: string, a: nat, q: nat)
    requires a < |text| && IsOpener(text[a])
    ensures PlainForward(text, a, []) == Found(q) <==> q > 0 && Encloses(text, a, q - 1)
  {
    assert [] + [text[a]] == [text[a]];
    if PlainForward(text, a, []) == Found(q) {
      var j := ForwardFinds(text, a + 1, [text[a]], q);
    }
    if q > 0 && Encloses(text, a, q - 1) {
      ForwardSkips(text, a + 1, q - 1, [text[a]]);
    }
  }

  lemma BackwardExact(text: string, b: nat, a: nat)
    requires b < |text| && IsCloser(text[b])
    ensures PlainBackward(text, b, []) == Found(a) <==> Encloses(text, a, b)
  {
    assert [] + [text[b]] == [text[b]];
    if PlainBackward(text, b, []) == Found(a) {
      var j := BackwardFinds(text, b - 1, [text[b]], a);
    }
    if Encloses(text, a, b) {
      BackwardSkips(text, a + 1, b, [text[b]]);
    }
  }

  // ---------------------------------------------------------------------------
  // On one line the angle brackets make no difference
  // ---------------------------------------------------------------------------

  /** The stack without its angle brackets. */
  function Plain(stack: seq<char>, angle: char): seq<char> {
    if stack == [] then []
    else if Top(stack) == angle then Plain(Pop(stack), angle)
    else Plain(Pop(stack), angle) + [Top(stack)]
  }

  /** The scan started at a bracket, which is still open. */
  predicate Grounded(stack: seq<char>, angle: char) {
    stack != [] && stack[0] != angle
  }

  lemma {:induction false} PlainGrounded(stack: seq<char>, angle: char)
    requires Grounded(stack, angle)
    ensures Plain(stack, angle) != []
  {
    if |stack| > 1 {
      PlainGrounded(Pop(stack), angle);
    }
  }

  lemma {:induction false} PlainDropped(stack: seq<char>, angle: char)
    requires Grounded(stack, angle)
    ensures Grounded(DropAngles(stack, angle), angle) && Top(DropAngles(stack, angle)) != angle
    ensures Plain(DropAngles(stack, angle), angle) == Plain(stack, angle)
    decreases |stack|
  {
    if Top(stack) == angle {
      PlainDropped(Pop(stack), angle);
    }
  }

  /** Popping a bracket pops the plain stack, and empties one exactly when it empties the other. */
  lemma PlainPopped(stack: seq<char>, angle: char)
    requires Grounded(stack, angle) && Top(stack) != angle
    ensures Plain(stack, angle) != [] && Top(Plain(stack, angle)) == Top(stack)
    ensures Pop(Plain(stack, angle)) == Plain(Pop(stack), angle)
    ensures Pop(stack) == [] <==> Plain(Pop(stack), angle) == []
  {
    if Pop(stack) != [] {
      PlainGrounded(Pop(stack), angle);
    }
  }

  /** The scan with angle brackets does what the plain one does. */
  predicate Agrees(scan: Scan, plain: Scan, angle: char) {
    match plain
    case Pending(st) => scan.Pending? && Grounded(scan.stack, angle) && Plain(scan.stack, angle) == st
    case _ => scan == plain
  }

  lemma {:induction false} ForwardIgnoresAngles(line: string, i: nat, stack: seq<char>)
    requires i <= |line| && Grounded(stack, '<')
    ensures Agrees(ForwardScan(line, i, stack), PlainForward(line, i, Plain(stack, '<')), '<')
    decreases |line| - i, 1
  {
    if i == |line| {
    } else if IsOpener(line[i]) {
      ForwardIgnoresAngles(line, i + 1, stack + [line[i]]);
    } else if IsCloser(line[i]) {
      ForwardAtCloser(line, i, stack);
    } else if line[i] == '<' || line[i] == '>' {
      ForwardAtAngle(line, i, stack);
    } else if line[i] == ';' {
      PlainDropped(stack, '<');
      ForwardIgnoresAngles(line, i + 1, DropAngles(stack, '<'));
    } else {
      ForwardIgnoresAngles(line, i + 1, stack);
    }
  }

  lemma {:induction false} ForwardAtCloser(line: string, i: nat, stack: seq<char>)
    requires i < |line| && IsCloser(line[i]) && Grounded(stack, '<')
    ensures Agrees(ForwardScan(line, i, stack), PlainForward(line, i, Plain(stack, '<')), '<')
    decreases |line| - i, 0
  {
    var rest := DropAngles(stack, '<');
    PlainDropped(stack, '<');
    PlainPopped(rest, '<');
    if Pop(rest) != [] {
      ForwardIgnoresAngles(line, i + 1, Pop(rest));
    }
  }

  /** Whatever an angle bracket does to the stack, the plain stack stays. */
  lemma {:induction false} ForwardAtAngle(line: string, i: nat, stack: seq<char>)
    requires i < |line| && (line[i] == '<' || line[i] == '>') && Grounded(stack, '<')
    ensures Agrees(ForwardScan(line, i, stack), PlainForward(line, i, Plain(stack, '<')), '<')
    decreases |line| - i, 0
  {
    var next := NextAtAngle(line, i, stack);
    assert Grounded(next, '<') && Plain(next, '<') == Plain(stack, '<');
    ForwardIgnoresAngles(line, i + 1, next);
    assert ForwardScan(line, i, stack) == ForwardScan(line, i + 1, next);
  }

  /** The stack after an angle bracket, when the scan started at a bracket. */
  function NextAtAngle(line: string, i: nat, stack: seq<char>): seq<char>
    requires i < |line| && Grounded(stack, '<')
  {
    var popped := if Top(stack) == '<' then Pop(stack) else stack;
    if line[i] == '<' then
      if i > 0 && line[i - 1] == '<' then popped
      else if i > 0 && EndsInOperator(line[..i]) then stack
      else stack + ['<']
    else if i > 0 && (line[i - 1] == '-' || EndsInOperator(line[..i - 1])) then stack
    else popped
  }

  lemma {:induction false} BackwardIgnoresAngles(line: string, i: int, stack: seq<char>)
    requires -1 <= i < |line| && Grounded(stack, '>')
    ensures Agrees(BackwardScan(line, i, stack), PlainBackward(line, i, Plain(stack, '>')), '>')
    decreases i, 1
  {
    if i < 0 {
    } else if IsCloser(line[i]) {
      BackwardIgnoresAngles(line, i - 1, stack + [line[i]]);
    } else if line[i] == '>' {
      BackwardAtGreater(line, i, stack);
    } else if line[i] == '<' {
      BackwardAtLess(line, i, stack);
    } else if IsOpener(line[i]) {
      BackwardAtOpener(line, i, stack);
    } else if line[i] == ';' {
      PlainDropped(stack, '>');
      BackwardIgnoresAngles(line, i - 1, DropAngles(stack, '>'));
    } else {
      BackwardIgnoresAngles(line, i - 1, stack);
    }
  }

  lemma {:induction false} BackwardAtOpener(line: string, i: nat, stack: seq<char>)
    requires i < |line| && IsOpener(line[i]) && Grounded(stack, '>')
    ensures Agrees(BackwardScan(line, i, stack), PlainBackward(line, i, Plain(stack, '>')), '>')
    decreases i, 0
  {
    var rest := DropAngles(stack, '>');
    PlainDropped(stack, '>');
    PlainPopped(rest, '>');
    if Pop(rest) != [] {
      BackwardIgnoresAngles(line, i - 1, Pop(rest));
    }
  }

  /** The character skipped together with a > is never a bracket. */
  lemma {:induction false} BackwardAtGreater(line: string, i: nat, stack: seq<char>)
    requires i < |line| && line[i] == '>' && Grounded(stack, '>')
    ensures Agrees(BackwardScan(line, i, stack), PlainBackward(line, i, Plain(stack, '>')), '>')
    decreases i, 0
  {
    if i > 0 && (line[i - 1] == '-' || IsGreaterEqual(line[i - 1..]) || EndsInOperator(line[..i])) {
      assert !IsBracket(line[i - 1]);
      BackwardIgnoresAngles(line, i - 2, stack);
    } else {
      BackwardIgnoresAngles(line, i - 1, stack + ['>']);
    }
  }

  lemma {:induction false} BackwardAtLess(line: string, i: nat, stack: seq<char>)
    requires i < |line| && line[i] == '<' && Grounded(stack, '>')
    ensures Agrees(BackwardScan(line, i, stack), PlainBackward(line, i, Plain(stack, '>')), '>')
    decreases i, 0
  {
    if i > 0 && line[i - 1] == '<' {
      BackwardIgnoresAngles(line, i - 2, stack);
    } else {
      BackwardIgnoresAngles(line, i - 1, if Top(stack) == '>' then Pop(stack) else stack);
    }
  }

  // ---------------------------------------------------------------------------
  // Line by line is the same as on the joined text
  // ---------------------------------------------------------------------------

  function Joined(lines: seq<string>): string {
    if lines == [] then "" else Joined(lines[..|lines| - 1]) + lines[|lines| - 1]
  }

  /** Where line k starts in the joined text. */
  function Offset(lines: seq<string>, k: nat): nat
    requires k <= |lines|
  {
    |Joined(lines[..k])|
  }

  lemma OffsetNext(lines: seq<string>, k: nat)
    requires k < |lines|
    ensures Offset(lines, k + 1) == Offset(lines, k) + |lines[k]|
  {
    assert lines[..k + 1][..k] == lines[..k];
  }

  lemma {:induction false} JoinedAt(lines: seq<string>, k: nat, i: nat)
    requires k < |lines| && i < |lines[k]|
    ensures Offset(lines, k) + i < |Joined(lines)| && Joined(lines)[Offset(lines, k) + i] == lines[k][i]
    decreases |lines|
  {
    var front := lines[..|lines| - 1];
    if k < |lines| - 1 {
      JoinedAt(front, k, i);
      assert front[..k] == lines[..k];
    }
  }

  lemma {:induction false} OffsetMonotone(lines: seq<string>, k: nat, m: nat)
    requires k <= m <= |lines|
    ensures Offset(lines, k) <= Offset(lines, m)
    decreases m - k
  {
    if k < m {
      OffsetNext(lines, k);
      OffsetMonotone(lines, k + 1, m);
    }
  }

  lemma OffsetEnd(lines: seq<string>)
    ensures Offset(lines, 0) == 0 && Offset(lines, |lines|) == |Joined(lines)|
  {
    assert lines[..|lines|] == lines;
  }

  /** A place in the joined text is a place on one line only. */
  lemma PlaceUnique(lines: seq<string>, k: nat, i: nat, m: nat, j: nat)
    requires k < |lines| && i < |lines[k]| && m < |lines| && j < |lines[m]|
    requires Offset(lines, k) + i == Offset(lines, m) + j
    ensures k == m && i == j
  {
    OffsetNext(lines, k);
    OffsetNext(lines, m);
    if k < m {
      OffsetMonotone(lines, k + 1, m);
    } else if m < k {
      OffsetMonotone(lines, m + 1, k);
    }
  }

  lemma {:induction false} LineForward(lines: seq<string>, k: nat, i: nat, stack: seq<char>)
    requires k < |lines| && i <= |lines[k]|
    ensures Offset(lines, k) + i <= |Joined(lines)| && Offset(lines, k + 1) <= |Joined(lines)|
    ensures PlainForward(Joined(lines), Offset(lines, k) + i, stack) ==
      match PlainForward(lines[k], i, stack)
      case Found(p) => Found(Offset(lines, k) + p)
      case Mismatch => Mismatch
      case Pending(st) => PlainForward(Joined(lines), Offset(lines, k + 1), st)
    decreases |lines[k]| - i
  {
    OffsetNext(lines, k);
    OffsetMonotone(lines, k + 1, |lines|);
    OffsetEnd(lines);
    if i < |lines[k]| {
      var c := lines[k][i];
      JoinedAt(lines, k, i);
      LineForward(lines, k, i + 1,
        if IsOpener(c) then stack + [c] else if IsCloser(c) && stack != [] then Pop(stack) else stack);
    }
  }

  lemma {:induction false} LineBackward(lines: seq<string>, k: nat, i: int, stack: seq<char>)
    requires k < |lines| && -1 <= i < |lines[k]|
    ensures Offset(lines, k) + i < |Joined(lines)|
    ensures PlainBackward(Joined(lines), Offset(lines, k) + i, stack) ==
      match PlainBackward(lines[k], i, stack)
      case Found(p) => Found(Offset(lines, k) + p)
      case Mismatch => Mismatch
      case Pending(st) => PlainBackward(Joined(lines), Offset(lines, k) - 1, st)
    decreases i + 1
  {
    OffsetNext(lines, k);
    OffsetMonotone(lines, k + 1, |lines|);
    OffsetEnd(lines);
    if i >= 0 {
      var c := lines[k][i];
      JoinedAt(lines, k, i);
      LineBackward(lines, k, i - 1,
        if IsCloser(c) then stack + [c] else if IsOpener(c) && stack != [] then Pop(stack) else stack);
    }
  }

  /** The place a line scanner reports is the place q of the joined text. */
  predicate Reports(lines: seq<string>, r: Option<(nat, nat)>, q: nat) {
    r.Some? && r.value.0 < |lines| && r.value.1 <= |lines[r.value.0]| && Offset(lines, r.value.0) + r.value.1 == q
  }

  lemma {:induction false} ForwardFoundInLine(text: string, i: nat, stack: seq<char>)
    requires i <= |text|
    ensures PlainForward(text, i, stack).Found? ==> i < PlainForward(text, i, stack).pos <= |text|
    decreases |text| - i
  {
    if i < |text| {
      ForwardFoundInLine(text, i + 1,
        if IsOpener(text[i]) then stack + [text[i]] else if IsCloser(text[i]) && stack != [] then Pop(stack) else stack);
    }
  }

  lemma {:induction false} BackwardFoundInLine(text: string, i: int, stack: seq<char>)
    requires -1 <= i < |text|
    ensures PlainBackward(text, i, stack).Found? ==> PlainBackward(text, i, stack).pos <= i
    decreases i + 1
  {
    if i >= 0 {
      BackwardFoundInLine(text, i - 1,
        if IsCloser(text[i]) then stack + [text[i]] else if IsOpener(text[i]) && stack != [] then Pop(stack) else stack);
    }
  }

  lemma {:induction false} CloseIsPlain(lines: seq<string>, k: nat, i: nat, stack: seq<char>)
    requires k < |lines| && i <= |lines[k]| && Grounded(stack, '<') && Offset(lines, k) + i <= |Joined(lines)|
    ensures
      match PlainForward(Joined(lines), Offset(lines, k) + i, Plain(stack, '<'))
      case Found(q) =>
        var r := CloseFrom(lines, k, i, stack);
        Reports(lines, r, q) && r.value.1 > 0
      case _ => CloseFrom(lines, k, i, stack) == None
    decreases |lines| - k
  {
    LineForward(lines, k, i, Plain(stack, '<'));
    ForwardIgnoresAngles(lines[k], i, stack);
    ForwardFoundInLine(lines[k], i, Plain(stack, '<'));
    var scan := ForwardScan(lines[k], i, stack);
    if scan.Pending? {
      if k + 1 < |lines| {
        CloseIsPlain(lines, k + 1, 0, scan.stack);
      } else {
        OffsetEnd(lines);
      }
    }
  }

  lemma {:induction false} OpenIsPlain(lines: seq<string>, k: nat, i: int, stack: seq<char>)
    requires k < |lines| && -1 <= i < |lines[k]| && Grounded(stack, '>') && Offset(lines, k) + i < |Joined(lines)|
    ensures
      match PlainBackward(Joined(lines), Offset(lines, k) + i, Plain(stack, '>'))
      case Found(q) =>
        var r := OpenFrom(lines, k, i, stack);
        Reports(lines, r, q) && r.value.1 < |lines[r.value.0]|
      case _ => OpenFrom(lines, k, i, stack) == None
    decreases k
  {
    LineBackward(lines, k, i, Plain(stack, '>'));
    BackwardIgnoresAngles(lines[k], i, stack);
    BackwardFoundInLine(lines[k], i, Plain(stack, '>'));
    var scan := BackwardScan(lines[k], i, stack);
    if scan.Pending? {
      if k > 0 {
        OffsetNext(lines, k - 1);
        OpenIsPlain(lines, k - 1, |lines[k - 1]| - 1, scan.stack);
      } else {
        OffsetEnd(lines);
      }
    }
  }

  // ---------------------------------------------------------------------------
  // What the two searches find, and that each undoes the other
  // ---------------------------------------------------------------------------

  lemma CloseOnwards(lines: seq<string>, k: nat, i: nat)
    requires k < |lines| && i < |lines[k]| && IsOpener(lines[k][i])
    ensures CloseFrom(lines, k, i, []) == CloseFrom(lines, k, i + 1, [lines[k][i]])
  {
    assert [] + [lines[k][i]] == [lines[k][i]];
  }

  lemma OpenOnwards(lines: seq<string>, k: nat, i: nat)
    requires k < |lines| && i < |lines[k]| && IsCloser(lines[k][i])
    ensures OpenFrom(lines, k, i, []) == OpenFrom(lines, k, i - 1, [lines[k][i]])
  {
    assert [] + [lines[k][i]] == [lines[k][i]];
  }

  lemma CloseStart(lines: seq<string>, k: nat, i: nat)
    requires k < |lines| && i < |lines[k]| && IsOpener(lines[k][i])
    ensures Offset(lines, k) + i < |Joined(lines)| && Joined(lines)[Offset(lines, k) + i] == lines[k][i]
    ensures
      match PlainForward(Joined(lines), Offset(lines, k) + i, [])
      case Found(q) => Reports(lines, CloseFrom(lines, k, i, []), q) && CloseFrom(lines, k, i, []).value.1 > 0
      case _ => CloseFrom(lines, k, i, []) == None
  {
    var c := lines[k][i];
    JoinedAt(lines, k, i);
    assert [] + [c] == [c];
    assert Plain([c], '<') == [c];
    CloseIsPlain(lines, k, i + 1, [c]);
    CloseOnwards(lines, k, i);
  }

  lemma OpenStart(lines: seq<string>, k: nat, i: nat)
    requires k < |lines| && i < |lines[k]| && IsCloser(lines[k][i])
    ensures Offset(lines, k) + i < |Joined(lines)| && Joined(lines)[Offset(lines, k) + i] == lines[k][i]
    ensures
      match PlainBackward(Joined(lines), Offset(lines, k) + i, [])
      case Found(q) =>
        var r := OpenFrom(lines, k, i, []);
        Reports(lines, r, q) && r.value.1 < |lines[r.value.0]|
      case _ => OpenFrom(lines, k, i, []) == None
  {
    var c := lines[k][i];
    JoinedAt(lines, k, i);
    assert [] + [c] == [c];
    assert Plain([c], '>') == [c];
    OpenIsPlain(lines, k, i - 1, [c]);
    OpenOnwards(lines, k, i);
  }

  /** From an opening bracket the end found is the one bracket that encloses a well-nested text
      with it in the joined lines. */
  lemma CloseExact(lines: seq<string>, k: nat, i: nat, m: nat, j: nat)
    requires k < |lines| && i < |lines[k]| && IsOpener(lines[k][i])
    requires m < |lines| && j < |lines[m]|
    ensures CloseFrom(lines, k, i, []) == Some((m, j + 1)) <==>
            Encloses(Joined(lines), Offset(lines, k) + i, Offset(lines, m) + j)
  {
    CloseStart(lines, k, i);
    ForwardExact(Joined(lines), Offset(lines, k) + i, Offset(lines, m) + j + 1);
    if PlainForward(Joined(lines), Offset(lines, k) + i, []) == Found(Offset(lines, m) + j + 1) {
      var r := CloseFrom(lines, k, i, []).value;
      PlaceUnique(lines, r.0, r.1 - 1, m, j);
    }
  }

  lemma OpenExact(lines: seq<string>, k: nat, i: nat, m: nat, j: nat)
    requires k < |lines| && i < |lines[k]| && IsCloser(lines[k][i])
    requires m < |lines| && j < |lines[m]|
    ensures OpenFrom(lines, k, i, []) == Some((m, j)) <==>
            Encloses(Joined(lines), Offset(lines, m) + j, Offset(lines, k) + i)
  {
    OpenStart(lines, k, i);
    BackwardExact(Joined(lines), Offset(lines, k) + i, Offset(lines, m) + j);
    if PlainBackward(Joined(lines), Offset(lines, k) + i, []) == Found(Offset(lines, m) + j) {
      var r := OpenFrom(lines, k, i, []).value;
      PlaceUnique(lines, r.0, r.1, m, j);
    }
  }

  /** Whatever is found from an opening bracket is just past its partner on one of the lines. */
  lemma CloseFindsPartner(lines: seq<string>, k: nat, i: nat)
    requires k < |lines| && i < |lines[k]| && IsOpener(lines[k][i]) && CloseFrom(lines, k, i, []).Some?
    ensures
      var (m, q) := CloseFrom(lines, k, i, []).value;
      m < |lines| && 0 < q <= |lines[m]| && Pairs(lines[k][i], lines[m][q - 1])
  {
    CloseStart(lines, k, i);
    var (m, q) := CloseFrom(lines, k, i, []).value;
    CloseExact(lines, k, i, m, q - 1);
    JoinedAt(lines, m, q - 1);
  }

  /** Each search undoes the other: forward from one bracket finds the second exactly when backward
      from the second finds the first. */
  lemma CloseInvertsOpen(lines: seq<string>, k: nat, i: nat, m: nat, j: nat)
    requires k < |lines| && i < |lines[k]| && IsOpener(lines[k][i])
    requires m < |lines| && j < |lines[m]| && IsCloser(lines[m][j])
    ensures CloseFrom(lines, k, i, []) == Some((m, j + 1)) <==> OpenFrom(lines, m, j, []) == Some((k, i))
  {
    CloseExact(lines, k, i, m, j);
    OpenExact(lines, m, j, k, i);
  }
}
