/** How the stack of enclosing blocks survives preprocessor conditionals: the text from #if up to the
    first #else, #elif or #endif is taken as compiled, the other branches are not. */
module NestingStates {
  import opened LintText

  datatype Directive = If | Else | Endif | NoDirective

  /** A line of a file, with its number: what its braces mean may depend on where it stands. */
  datatype Line = Line(number: nat, text: string)

  /** What is remembered about an open #if. */
  datatype Info<B> = Info(stackBeforeIf: seq<B>, seenElse: bool, stackBeforeElse: seq<B>)

  datatype Nesting<B> = Nesting(stack: seq<B>, pp: seq<Info<B>>)

  // ---------------------------------------------------------------------------
  // Which line is a directive
  // ---------------------------------------------------------------------------

  function SkipSpace(s: string): string {
    if s != [] && IsSpace(s[0]) then SkipSpace(s[1..]) else s
  }

  /** The longest word at the start. */
  function Word(s: string): string {
    if s != [] && IsWordChar(s[0]) then [s[0]] + Word(s[1..]) else []
  }

  function DirectiveOf(line: Line): Directive {
    var rest := SkipSpace(line.text);
    if rest == [] || rest[0] != '#' then NoDirective
    else
      var word := Word(SkipSpace(rest[1..]));
      if word == "if" || word == "ifdef" || word == "ifndef" then If
      else if word == "else" || word == "elif" then Else
      else if word == "endif" then Endif
      else NoDirective
  }

  // ---------------------------------------------------------------------------
  // The state
  // ---------------------------------------------------------------------------

  /** The effect of a directive on the saved stacks. */
  function Preprocess<B>(s: Nesting<B>, d: Directive): Nesting<B> {
    match d
    case If => Nesting(s.stack, s.pp + [Info(s.stack, false, [])])
    case Else =>
      if s.pp == [] then s
      else
        var top := s.pp[|s.pp| - 1];
        Nesting(top.stackBeforeIf,
                s.pp[..|s.pp| - 1] + [if top.seenElse then top else Info(top.stackBeforeIf, true, s.stack)])
    case Endif =>
      if s.pp == [] then s
      else
        var top := s.pp[|s.pp| - 1];
        Nesting(if top.seenElse then top.stackBeforeElse else s.stack, s.pp[..|s.pp| - 1])
    case NoDirective => s
  }

  /** One line: its directive, and then what its braces do to the stack. That may be any function of the
      line, its number and so the lines around it, and the stack. */
  function Next<B>(s: Nesting<B>, line: Line, blocks: (Line, seq<B>) -> seq<B>): Nesting<B> {
    var t := Preprocess(s, DirectiveOf(line));
    t.(stack := blocks(line, t.stack))
  }

  function Run<B>(s: Nesting<B>, lines: seq<Line>, blocks: (Line, seq<B>) -> seq<B>): Nesting<B>
    decreases |lines|
  {
    if lines == [] then s else Run(Next(s, lines[0], blocks), lines[1..], blocks)
  }

  class NestingState<B> {
    var stack: seq<B>
    var ppStack: seq<Info<B>>

    ghost function State(): Nesting<B>
      reads this
    {
      Nesting(stack, ppStack)
    }

    constructor ()
      ensures State() == Nesting([], [])
    {
      stack, ppStack := [], [];
    }

    method UpdatePreprocessor(line: Line)
      modifies this
      ensures State() == Preprocess(old(State()), DirectiveOf(line))
    {
      var d := DirectiveOf(line);
      if d == If {
        ppStack := ppStack + [Info(stack, false, [])];
      } else if d == Else {
        if ppStack != [] {
          var top := ppStack[|ppStack| - 1];
          if !top.seenElse {
            ppStack := ppStack[|ppStack| - 1 := top.(seenElse := true, stackBeforeElse := stack)];
          }
          stack := ppStack[|ppStack| - 1].stackBeforeIf;
        }
      } else if d == Endif {
        if ppStack != [] {
          if ppStack[|ppStack| - 1].seenElse {
            stack := ppStack[|ppStack| - 1].stackBeforeElse;
          }
          ppStack := ppStack[..|ppStack| - 1];
        }
      }
    }

    method Update(line: Line, blocks: (Line, seq<B>) -> seq<B>)
      modifies this
      ensures State() == Next(old(State()), line, blocks)
    {
      UpdatePreprocessor(line);
      stack := blocks(line, stack);
    }

    /** A whole file, line by line. */
    method UpdateAll(lines: seq<Line>, blocks: (Line, seq<B>) -> seq<B>)
      modifies this
      ensures State() == Run(old(State()), lines, blocks)
    {
      for k := 0 to |lines|
        invariant Run(State(), lines[k..], blocks) == Run(old(State()), lines, blocks)
      {
        Update(lines[k], blocks);
        assert lines[k..][0] == lines[k] && lines[k..][1..] == lines[k + 1..];
      }
    }
  }

  lemma {:induction false} RunAppend<B>(s: Nesting<B>, a: seq<Line>, b: seq<Line>, blocks: (Line, seq<B>) -> seq<B>)
    ensures Run(s, a + b, blocks) == Run(Run(s, a, blocks), b, blocks)
    decreases |a|
  {
    if a == [] {
      assert a + b == b;
    } else {
      assert (a + b)[1..] == a[1..] + b;
      RunAppend(Next(s, a[0], blocks), a[1..], b, blocks);
    }
  }

  // ---------------------------------------------------------------------------
  // The branches after the first count for nothing
  // ---------------------------------------------------------------------------

  /** For every open conditional, whether an #else or #elif of it has been seen. */
  type Flags = seq<bool>

  function NextFlags(flags: Flags, d: Directive): Flags {
    match d
    case If => flags + [false]
    case Else => if flags == [] then [] else flags[..|flags| - 1] + [true]
    case Endif => if flags == [] then [] else flags[..|flags| - 1]
    case NoDirective => flags
  }

  /** Every open conditional is still in its first branch. */
  predicate Live(flags: Flags) {
    true !in flags
  }

  /** The line is outside every branch after a first one. The #if and #endif of a conditional belong
      to the text around it, and so do a stray #else and #endif. */
  predicate Keeps(flags: Flags, d: Directive) {
    match d
    case Else => flags == []
    case Endif => flags == [] || Live(flags[..|flags| - 1])
    case _ => Live(flags)
  }

  /** The lines without every branch after a first one. */
  function FirstBranches(lines: seq<Line>, flags: Flags): seq<Line> {
    if lines == [] then []
    else
      var d := DirectiveOf(lines[0]);
      (if Keeps(flags, d) then [lines[0]] else []) + FirstBranches(lines[1..], NextFlags(flags, d))
  }

  function FlagsOf<B>(pp: seq<Info<B>>): Flags {
    seq(|pp|, i requires 0 <= i < |pp| => pp[i].seenElse)
  }

  /** Nothing is saved for an #else that has not been seen. */
  predicate WellFormed<B(==)>(s: Nesting<B>) {
    forall info :: info in s.pp && !info.seenElse ==> info.stackBeforeElse == []
  }

  function FirstSeen<B>(pp: seq<Info<B>>): (k: nat)
    ensures k <= |pp|
    ensures k < |pp| ==> pp[k].seenElse
    ensures forall i :: 0 <= i < k ==> !pp[i].seenElse
  {
    if pp == [] then 0
    else
      var k := FirstSeen(pp[..|pp| - 1]);
      if k < |pp| - 1 || pp[k].seenElse then k else k + 1
  }

  /** The state that the first branches alone lead to. */
  function Compiled<B>(s: Nesting<B>): Nesting<B> {
    var k := FirstSeen(s.pp);
    if k == |s.pp| then s
    else Nesting(s.pp[k].stackBeforeElse, s.pp[..k] + [Info(s.pp[k].stackBeforeIf, false, [])])
  }

  lemma FirstSeenIs<B>(pp: seq<Info<B>>, k: nat)
    requires k <= |pp|
    requires k < |pp| ==> pp[k].seenElse
    requires forall i :: 0 <= i < k ==> !pp[i].seenElse
    ensures FirstSeen(pp) == k
  {
  }

  lemma LiveIs<B>(pp: seq<Info<B>>)
    ensures Live(FlagsOf(pp)) <==> FirstSeen(pp) == |pp|
    ensures pp != [] ==> FlagsOf(pp)[..|pp| - 1] == FlagsOf(pp[..|pp| - 1])
    ensures pp != [] ==> (Live(FlagsOf(pp[..|pp| - 1])) <==> FirstSeen(pp) >= |pp| - 1)
  {
    var k := FirstSeen(pp);
    if k < |pp| {
      assert FlagsOf(pp)[k];
    }
    if pp != [] {
      var front := pp[..|pp| - 1];
      if k < |pp| - 1 {
        assert FlagsOf(front)[k];
      }
    }
  }

  lemma FlagsFollow<B>(s: Nesting<B>, d: Directive)
    ensures FlagsOf(Preprocess(s, d).pp) == NextFlags(FlagsOf(s.pp), d)
  {
  }

  lemma WellFormedKept<B>(s: Nesting<B>, d: Directive)
    requires WellFormed(s)
    ensures WellFormed(Preprocess(s, d))
  {
  }

  /** A kept line is read in the state the first branches lead to; a dropped one leaves that state. */
  predicate Follows<B(==)>(s: Nesting<B>, d: Directive) {
    var t := Preprocess(s, d);
    if Keeps(FlagsOf(s.pp), d)
    then FirstSeen(t.pp) == |t.pp| && t == Preprocess(Compiled(s), d)
    else FirstSeen(t.pp) < |t.pp| && Compiled(t) == Compiled(s)
  }

  lemma IfFollows<B>(s: Nesting<B>)
    ensures Follows(s, If)
  {
    var k, n, t := FirstSeen(s.pp), |s.pp|, Preprocess(s, If);
    LiveIs(s.pp);
    FirstSeenIs(t.pp, if k == n then n + 1 else k);
  }

  lemma ElseFollows<B>(s: Nesting<B>)
    requires WellFormed(s)
    ensures Follows(s, Else)
  {
    var k, n, t := FirstSeen(s.pp), |s.pp|, Preprocess(s, Else);
    if n > 0 {
      FirstSeenIs(t.pp, if k == n then n - 1 else k);
      assert k < n - 1 ==> t.pp[..k] == s.pp[..k];
    }
  }

  lemma EndifFollows<B>(s: Nesting<B>)
    ensures Follows(s, Endif)
  {
    var k, n, t := FirstSeen(s.pp), |s.pp|, Preprocess(s, Endif);
    LiveIs(s.pp);
    if n > 0 {
      FirstSeenIs(t.pp, if k >= n - 1 then n - 1 else k);
      assert k < n - 1 ==> t.pp[..k] == s.pp[..k];
    }
  }

  lemma DirectiveFollows<B>(s: Nesting<B>, d: Directive)
    requires WellFormed(s)
    ensures Follows(s, d)
  {
    match d
    case If => IfFollows(s);
    case Else => ElseFollows(s);
    case Endif => EndifFollows(s);
    case NoDirective => LiveIs(s.pp);
  }

  /** One line, kept or dropped. */
  lemma NextCompiled<B>(s: Nesting<B>, line: Line, blocks: (Line, seq<B>) -> seq<B>)
    requires WellFormed(s)
    ensures Compiled(Next(s, line, blocks)) ==
            if Keeps(FlagsOf(s.pp), DirectiveOf(line)) then Next(Compiled(s), line, blocks) else Compiled(s)
  {
    DirectiveFollows(s, DirectiveOf(line));
  }

  /** For any lines at all, dropping every branch after a first one leads to the state with those
      branches cut out. */
  lemma {:induction false} RunCompiled<B>(s: Nesting<B>, lines: seq<Line>, blocks: (Line, seq<B>) -> seq<B>)
    requires WellFormed(s)
    ensures Compiled(Run(s, lines, blocks)) == Run(Compiled(s), FirstBranches(lines, FlagsOf(s.pp)), blocks)
    decreases |lines|
  {
    if lines == [] {
    } else {
      var flags, d := FlagsOf(s.pp), DirectiveOf(lines[0]);
      var rest := FirstBranches(lines[1..], NextFlags(flags, d));
      NextCompiled(s, lines[0], blocks);
      FlagsFollow(s, d);
      WellFormedKept(s, d);
      RunCompiled(Next(s, lines[0], blocks), lines[1..], blocks);
      if Keeps(flags, d) {
        assert FirstBranches(lines, flags) == [lines[0]] + rest;
        RunAppend(Compiled(s), [lines[0]], rest, blocks);
      } else {
        assert FirstBranches(lines, flags) == rest;
      }
    }
  }

  /** A file that ends outside every #else leaves exactly the blocks its first branches leave. */
  lemma OnlyFirstBranchesCount<B>(lines: seq<Line>, blocks: (Line, seq<B>) -> seq<B>)
    requires Live(FlagsOf(Run(Nesting([], []), lines, blocks).pp))
    ensures Run(Nesting([], []), lines, blocks) == Run(Nesting([], []), FirstBranches(lines, []), blocks)
  {
    var start: Nesting<B> := Nesting([], []);
    RunCompiled(start, lines, blocks);
    LiveIs(Run(start, lines, blocks).pp);
    assert FlagsOf(start.pp) == [];
  }

  /** Two files with the same first branches leave the same blocks, whatever their other branches. */
  lemma OtherBranchesDoNotMatter<B>(a: seq<Line>, b: seq<Line>, blocks: (Line, seq<B>) -> seq<B>)
    requires FirstBranches(a, []) == FirstBranches(b, [])
    ensures Compiled(Run(Nesting([], []), a, blocks)) == Compiled(Run(Nesting([], []), b, blocks))
  {
    var start: Nesting<B> := Nesting([], []);
    RunCompiled(start, a, blocks);
    RunCompiled(start, b, blocks);
    assert FlagsOf(start.pp) == [];
  }

  // ---------------------------------------------------------------------------
  // Every branch starts from the stack before its #if
  // ---------------------------------------------------------------------------

  /** How many conditionals deep the lines end, -1 once they close one they did not open. */
  function Depth(lines: seq<Line>): int {
    if lines == [] then 0 else NextDepth(Depth(lines[..|lines| - 1]), DirectiveOf(lines[|lines| - 1]))
  }

  function NextDepth(depth: int, d: Directive): int {
    match d
    case If => if depth < 0 then depth else depth + 1
    case Endif => if depth <= 0 then -1 else depth - 1
    case _ => depth
  }

  lemma OuterIfStep<B>(s: Nesting<B>, d: Directive, i: nat)
    requires i < |s.pp| && (d == Endif ==> i < |s.pp| - 1)
    ensures
      var t := Preprocess(s, d);
      i < |t.pp| && t.pp[i].stackBeforeIf == s.pp[i].stackBeforeIf
  {
  }

  /** While the lines close no conditional they did not open, those open before them keep the stack
      from before their #if. */
  lemma {:induction false} OuterIfKept<B>(s: Nesting<B>, lines: seq<Line>, blocks: (Line, seq<B>) -> seq<B>)
    requires Depth(lines) >= 0
    ensures
      var t := Run(s, lines, blocks);
      |t.pp| == |s.pp| + Depth(lines) &&
      forall i :: 0 <= i < |s.pp| ==> t.pp[i].stackBeforeIf == s.pp[i].stackBeforeIf
    decreases |lines|
  {
    if lines == [] {
    } else {
      var front, line := lines[..|lines| - 1], lines[|lines| - 1];
      assert lines == front + [line];
      OuterIfKept(s, front, blocks);
      RunAppend(s, front, [line], blocks);
      var t := Run(s, front, blocks);
      forall i | 0 <= i < |s.pp|
        ensures i < |Next(t, line, blocks).pp| && Next(t, line, blocks).pp[i].stackBeforeIf == s.pp[i].stackBeforeIf
      {
        OuterIfStep(t, DirectiveOf(line), i);
      }
    }
  }

  /** After an #if and any lines that bring the nesting back to it, with any number of its branches
      among them, an #else or #elif is read with the stack as it was before the #if. */
  lemma BranchStartsAsIf<B>(s: Nesting<B>, opening: Line, lines: seq<Line>, other: Line,
                            blocks: (Line, seq<B>) -> seq<B>)
    requires DirectiveOf(opening) == If && DirectiveOf(other) == Else
    requires Depth(lines) == 0
    ensures Run(s, [opening] + lines + [other], blocks).stack == blocks(other, s.stack)
  {
    var inside := Next(s, opening, blocks);
    OuterIfKept(inside, lines, blocks);
    RunAppend(s, [opening], lines, blocks);
    RunAppend(s, [opening] + lines, [other], blocks);
  }
}
