/** Dots back to brackets: the single left-to-right scan of `churchExpand`. */
module Expander {
  import opened Text
  import opened Brackets

  /** What an entry on the scanner's stack was opened by. */
  datatype Opener = Dot | Paren

  /** The output so far and the stack of open brackets, top last. */
  datatype State = State(out: string, stack: seq<Opener>)

  /** `n` closing parentheses. */
  function Closes(n: nat): (r: string)
    ensures |r| == n && forall k :: 0 <= k < n ==> r[k] == ')'
  {
    if n == 0 then "" else ")" + Closes(n - 1)
  }

  /** The dot at `i` is a heavy dot: it is not followed by another dot. A dot
      in last position counts, since the character after it is absent. */
  predicate HeavyAt(d: string, i: nat)
    requires i < |d|
  {
    d[i] == '.' && (i + 1 == |d| || d[i + 1] != '.')
  }

  /** The inner loop at `)`: pop every dot-bracket on top of the stack and
      emit a `)` for each. What remains is a prefix of the stack whose top,
      if any, is an ordinary bracket. */
  function CloseDots(st: State): (r: State)
    ensures |r.stack| <= |st.stack| && r.stack == st.stack[..|r.stack|]
    ensures forall k :: |r.stack| <= k < |st.stack| ==> st.stack[k] == Dot
    ensures |r.stack| > 0 ==> r.stack[|r.stack| - 1] == Paren
    ensures r.out == st.out + Closes(|st.stack| - |r.stack|)
    decreases |st.stack|
  {
    if |st.stack| > 0 && st.stack[|st.stack| - 1] == Dot then
      CloseDots(State(st.out + ")", st.stack[..|st.stack| - 1]))
    else
      assert |st.stack| == 0 || st.stack[|st.stack| - 1].Paren?;
      st
  }

  /** One iteration of the main loop on character `c`; `heavy` says whether
      a dot here is a heavy dot. */
  function Step(st: State, c: char, heavy: bool): State {
    if c == '.' && heavy then State(st.out + "(", st.stack + [Dot])
    else if c == '(' then State(st.out + "(", st.stack + [Paren])
    else if c == ')' then
      var cl := CloseDots(st);
      var n := |cl.stack|;
      State(cl.out + ")", if n > 0 && cl.stack[n - 1] == Paren then cl.stack[..n - 1] else cl.stack)
    else State(st.out + [c], st.stack)
  }

  /** What one step does: the output only grows, and the stack changes only
      at its top. An opener pushes one entry of its kind. `)` pops every
      dot-bracket on top, writing a `)` for each, then pops the ordinary
      bracket beneath them if there is one, and writes its own `)`. Any
      other character is copied and leaves the stack alone. */
  lemma {:induction false} StepShape(st: State, c: char, heavy: bool)
    ensures var r := Step(st, c, heavy);
      |st.out| < |r.out| && r.out[..|st.out|] == st.out
    ensures c == '(' || (c == '.' && heavy) ==>
      Step(st, c, heavy).stack == st.stack + [if c == '(' then Paren else Dot]
    ensures var r := Step(st, c, heavy); var n := |r.stack|;
      c == ')' ==>
        n <= |st.stack| && r.stack == st.stack[..n]
        && (forall k :: n < k < |st.stack| ==> st.stack[k] == Dot)
        && ((n < |st.stack| && st.stack[n] == Paren && r.out == st.out + Closes(|st.stack| - n - 1) + ")")
            || (n == 0 && (forall k :: 0 <= k < |st.stack| ==> st.stack[k] == Dot)
                && r.out == st.out + Closes(|st.stack|) + ")"))
    ensures c != '(' && c != ')' && !(c == '.' && heavy) ==> Step(st, c, heavy) == State(st.out + [c], st.stack)
  {
    if c == ')' {
      StepClose(st, c, heavy);
      var cl := CloseDots(st);
      assert (cl.out + ")")[..|st.out|] == st.out;
      if |cl.stack| > 0 {
        assert cl.stack[..|cl.stack| - 1] == st.stack[..|cl.stack| - 1];
      }
    }
  }

  /** The main loop from position `i` on. */
  function Scan(d: string, i: nat, st: State): State
    requires i <= |d|
    decreases |d| - i
  {
    if i == |d| then st else Scan(d, i + 1, Step(st, d[i], HeavyAt(d, i)))
  }

  /** The closing loop: pop the top; a dot-bracket gets its `)` and the loop
      goes on, anything else ends it. Only the dot-brackets above the topmost
      ordinary bracket are closed. */
  function Finish(st: State): (r: string)
    ensures r == CloseDots(st).out
    decreases |st.stack|
  {
    if |st.stack| == 0 then st.out
    else if st.stack[|st.stack| - 1] == Dot then Finish(State(st.out + ")", st.stack[..|st.stack| - 1]))
    else st.out
  }

  /** `churchExpand` as a function of its input. */
  function Expand(d: string): string {
    Finish(Scan(d, 0, State("", [])))
  }

  /** The source's `churchExpand`: the main loop with its inner closing loop,
      then the closing loop at the end. */
  method ChurchExpand(d: string) returns (r: string)
    ensures r == Expand(d)
  {
    var out := "";
    var stack: seq<Opener> := [];
    var i := 0;
    while i < |d|
      invariant i <= |d|
      invariant Scan(d, i, State(out, stack)) == Scan(d, 0, State("", []))
    {
      ghost var pre := State(out, stack);
      var ch := d[i];
      if ch == '.' && (i + 1 == |d| || d[i + 1] != '.') {
        out := out + "(";
        stack := stack + [Dot];
      } else if ch == '(' {
        out := out + "(";
        stack := stack + [Paren];
      } else if ch == ')' {
        while |stack| > 0 && stack[|stack| - 1] == Dot
          invariant CloseDots(State(out, stack)) == CloseDots(pre)
          decreases |stack|
        {
          out := out + ")";
          stack := stack[..|stack| - 1];
        }
        out := out + ")";
        if |stack| > 0 && stack[|stack| - 1] == Paren {
          stack := stack[..|stack| - 1];
        }
      } else {
        out := out + [ch];
      }
      assert State(out, stack) == Step(pre, ch, HeavyAt(d, i));
      i := i + 1;
    }
    ghost var end := State(out, stack);
    while |stack| > 0 && stack[|stack| - 1] == Dot
      invariant Finish(State(out, stack)) == Finish(end)
      decreases |stack|
    {
      out := out + ")";
      stack := stack[..|stack| - 1];
    }
    if |stack| > 0 {
      // the pop that ends the source's loop takes an ordinary bracket
      stack := stack[..|stack| - 1];
    }
    r := out;
  }

  /** The number of ordinary brackets on a stack. */
  function ParenCount(stack: seq<Opener>): (n: nat)
    ensures n <= |stack|
    ensures n == 0 <==> forall k :: 0 <= k < |stack| ==> stack[k] == Dot
  {
    if stack == [] then 0
    else
      var top := stack[|stack| - 1];
      var below := stack[..|stack| - 1];
      assert forall k :: 0 <= k < |below| ==> below[k] == stack[k];
      ParenCount(below) + (if top == Paren then 1 else 0)
  }

  lemma {:induction false} ParenCountPush(stack: seq<Opener>, o: Opener)
    ensures ParenCount(stack + [o]) == ParenCount(stack) + (if o == Paren then 1 else 0)
  {
    assert (stack + [o])[..|stack|] == stack;
  }

  lemma {:induction false} ParenCountDrop(stack: seq<Opener>, n: nat)
    requires n <= |stack| && forall k :: n <= k < |stack| ==> stack[k] == Dot
    ensures ParenCount(stack[..n]) == ParenCount(stack)
    decreases |stack| - n
  {
    if n < |stack| {
      var below := stack[..|stack| - 1];
      assert below[..n] == stack[..n];
      ParenCountDrop(below, n);
    } else {
      assert stack[..n] == stack;
    }
  }

  /** Appending one character to text read from depth 0. */
  lemma {:induction false} BalToSnoc(out: string, c: char, n: int)
    requires BalTo(out, 0, n) && n + Delta(c) >= 0
    ensures BalTo(out + [c], 0, n + Delta(c))
  {
    assert [c][1..] == [];
    BalToConcat(out, [c], 0, n, n + Delta(c));
  }

  /** `n` closing brackets take depth `m + n` down to `m`. */
  lemma {:induction false} BalToCloses(n: nat, m: int)
    requires m >= 0
    ensures BalTo(Closes(n), m + n, m)
  {
    if n > 0 {
      BalToCloses(n - 1, m);
      assert Closes(n)[1..] == Closes(n - 1);
    }
  }

  /** The output is balanced against the stack: read from depth 0 it never
      goes below 0 and ends at the stack's height; and the ordinary brackets
      on the stack are the input's open parentheses. */
  predicate Tracks(d: string, i: nat, st: State)
    requires i <= |d|
  {
    BalTo(st.out, 0, |st.stack|) && ParenCount(st.stack) == Depth(d, i)
  }

  lemma {:induction false} CloseDotsTracks(st: State)
    requires BalTo(st.out, 0, |st.stack|)
    ensures BalTo(CloseDots(st).out, 0, |CloseDots(st).stack|)
    ensures ParenCount(CloseDots(st).stack) == ParenCount(st.stack)
  {
    var cl := CloseDots(st);
    var n := |st.stack| - |cl.stack|;
    BalToCloses(n, |cl.stack|);
    BalToConcat(st.out, Closes(n), 0, |st.stack|, |cl.stack|);
    ParenCountDrop(st.stack, |cl.stack|);
  }

  lemma {:induction false} UnfoldScan(d: string, i: nat, st: State)
    requires i < |d|
    ensures Scan(d, i, st) == Scan(d, i + 1, Step(st, d[i], HeavyAt(d, i)))
  {
  }

  /** The four branches of `Step`, one lemma each. */
  lemma {:induction false} StepHeavy(st: State, c: char, heavy: bool)
    requires c == '.' && heavy
    ensures Step(st, c, heavy) == State(st.out + "(", st.stack + [Dot])
  {
  }

  lemma {:induction false} StepOpen(st: State, c: char, heavy: bool)
    requires c == '('
    ensures Step(st, c, heavy) == State(st.out + "(", st.stack + [Paren])
  {
  }

  lemma {:induction false} StepClose(st: State, c: char, heavy: bool)
    requires c == ')'
    ensures var cl := CloseDots(st);
      Step(st, c, heavy).out == cl.out + ")"
      && Step(st, c, heavy).stack == if |cl.stack| > 0 then cl.stack[..|cl.stack| - 1] else cl.stack
  {
  }

  lemma {:induction false} StepCopy(st: State, c: char, heavy: bool)
    requires c != '(' && c != ')' && !(c == '.' && heavy)
    ensures Step(st, c, heavy) == State(st.out + [c], st.stack)
  {
  }

  lemma {:induction false} PushTracks(out: string, stack: seq<Opener>, o: Opener)
    requires BalTo(out, 0, |stack|)
    ensures BalTo(out + "(", 0, |stack + [o]|)
    ensures ParenCount(stack + [o]) == ParenCount(stack) + (if o == Paren then 1 else 0)
  {
    BalToSnoc(out, '(', |stack|);
    ParenCountPush(stack, o);
  }

  lemma {:induction false} PopTracks(out: string, stack: seq<Opener>)
    requires BalTo(out, 0, |stack|) && |stack| > 0 && stack[|stack| - 1] == Paren
    ensures BalTo(out + ")", 0, |stack[..|stack| - 1]|)
    ensures ParenCount(stack[..|stack| - 1]) + 1 == ParenCount(stack)
  {
    BalToSnoc(out, ')', |stack|);
    assert stack[..|stack| - 1] + [Paren] == stack;
    ParenCountPush(stack[..|stack| - 1], Paren);
  }

  lemma {:induction false} StepCloseTracks(st: State, c: char, heavy: bool)
    requires c == ')' && BalTo(st.out, 0, |st.stack|) && ParenCount(st.stack) > 0
    ensures BalTo(Step(st, c, heavy).out, 0, |Step(st, c, heavy).stack|)
    ensures ParenCount(Step(st, c, heavy).stack) + 1 == ParenCount(st.stack)
  {
    CloseDotsTracks(st);
    var cl := CloseDots(st);
    assert |cl.stack| > 0;
    StepClose(st, c, heavy);
    PopTracks(cl.out, cl.stack);
  }

  lemma {:induction false} StepTracks(d: string, i: nat, st: State)
    requires Balanced(d) && i < |d| && Tracks(d, i, st)
    ensures Tracks(d, i + 1, Step(st, d[i], HeavyAt(d, i)))
  {
    var c := d[i];
    var heavy := HeavyAt(d, i);
    assert Depth(d, i + 1) == Depth(d, i) + Delta(c);
    if c == '.' && heavy {
      StepHeavy(st, c, heavy);
      PushTracks(st.out, st.stack, Dot);
    } else if c == '(' {
      StepOpen(st, c, heavy);
      PushTracks(st.out, st.stack, Paren);
    } else if c == ')' {
      assert Depth(d, i + 1) >= 0;
      StepCloseTracks(st, c, heavy);
    } else {
      StepCopy(st, c, heavy);
      BalToSnoc(st.out, c, |st.stack|);
    }
  }

  lemma {:induction false} ScanTracks(d: string, i: nat, st: State)
    requires Balanced(d) && i <= |d| && Tracks(d, i, st)
    ensures Tracks(d, |d|, Scan(d, i, st))
    decreases |d| - i
  {
    if i < |d| {
      StepTracks(d, i, st);
      ScanTracks(d, i + 1, Step(st, d[i], HeavyAt(d, i)));
    }
  }

  /** Balanced dotted text expands to balanced bracketed text: every heavy
      dot gets its `)` at the enclosing `)` or at the end. */
  lemma {:induction false} ExpandBalanced(d: string)
    requires Balanced(d)
    ensures Balanced(Expand(d))
  {
    var st := Scan(d, 0, State("", []));
    ScanTracks(d, 0, State("", []));
    CloseDotsTracks(st);
    assert ParenCount(CloseDots(st).stack) == 0;
    BalancedIsBalTo(Expand(d));
  }

  lemma {:induction false} ContentCloses(n: nat)
    ensures Content(Closes(n)) == []
  {
    if n > 0 {
      ContentCloses(n - 1);
      StripConcat(")", Closes(n - 1));
      ContentChar(')');
    }
  }

  lemma {:induction false} CloseDotsContent(st: State)
    ensures Content(CloseDots(st).out) == Content(st.out)
  {
    var n := |st.stack| - |CloseDots(st).stack|;
    ContentCloses(n);
    StripConcat(st.out, Closes(n));
  }

  lemma {:induction false} StepContent(st: State, c: char, heavy: bool)
    ensures Content(Step(st, c, heavy).out) == Content(st.out) + Content([c])
  {
    ContentChar(c);
    ContentChar('(');
    ContentChar(')');
    if c == '.' && heavy {
      StripConcat(st.out, "(");
    } else if c == '(' {
      StripConcat(st.out, "(");
    } else if c == ')' {
      CloseDotsContent(st);
      StripConcat(CloseDots(st).out, ")");
    } else {
      StripConcat(st.out, [c]);
    }
  }

  lemma {:induction false} ScanContent(d: string, i: nat, st: State)
    requires i <= |d|
    ensures Content(Scan(d, i, st).out) == Content(st.out) + Content(d[i..])
    decreases |d| - i
  {
    if i < |d| {
      var nx := Step(st, d[i], HeavyAt(d, i));
      StepContent(st, d[i], HeavyAt(d, i));
      ScanContent(d, i + 1, nx);
      assert d[i..] == [d[i]] + d[i + 1..];
      StripConcat([d[i]], d[i + 1..]);
    } else {
      assert d[i..] == [];
    }
  }

  /** Expansion adds and removes only brackets and dots: the payload is the
      input's, in order. */
  lemma {:induction false} ExpandContent(d: string)
    ensures Content(Expand(d)) == Content(d)
  {
    var st := Scan(d, 0, State("", []));
    ScanContent(d, 0, State("", []));
    CloseDotsContent(st);
    assert d[0..] == d;
  }

  /** A stack of ordinary brackets alone has no dot-brackets to close. */
  lemma {:induction false} CloseNoDots(st: State)
    requires ParenCount(st.stack) == |st.stack|
    ensures CloseDots(st) == st
  {
    if |st.stack| > 0 {
      assert st.stack[|st.stack| - 1] == Paren;
    }
  }

  lemma {:induction false} StepDotFree(st: State, c: char, heavy: bool)
    requires c != '.' && ParenCount(st.stack) == |st.stack|
    ensures Step(st, c, heavy).out == st.out + [c]
    ensures ParenCount(Step(st, c, heavy).stack) == |Step(st, c, heavy).stack|
  {
    if c == '(' {
      StepOpen(st, c, heavy);
      ParenCountPush(st.stack, Paren);
    } else if c == ')' {
      CloseNoDots(st);
      StepClose(st, c, heavy);
      if |st.stack| > 0 {
        assert st.stack[|st.stack| - 1] == Paren;
        assert st.stack[..|st.stack| - 1] + [Paren] == st.stack;
        ParenCountPush(st.stack[..|st.stack| - 1], Paren);
      }
    } else {
      StepCopy(st, c, heavy);
    }
  }

  lemma {:induction false} ConsAfter(out: string, c: char, rest: string, tail: string, whole: string)
    requires tail == [c] + rest && whole == (out + [c]) + rest
    ensures whole == out + tail
  {
  }

  /** Without dots the scan only ever holds ordinary brackets. */
  lemma {:induction false} ScanKeepsParens(d: string, i: nat, st: State)
    requires DotFree(d) && i <= |d| && ParenCount(st.stack) == |st.stack|
    ensures ParenCount(Scan(d, i, st).stack) == |Scan(d, i, st).stack|
    decreases |d| - i
  {
    if i < |d| {
      var nx := Step(st, d[i], HeavyAt(d, i));
      StepDotFree(st, d[i], HeavyAt(d, i));
      ScanKeepsParens(d, i + 1, nx);
      UnfoldScan(d, i, st);
    }
  }

  /** Without dots the scan copies its input. */
  lemma {:induction false} ScanDotFree(d: string, i: nat, st: State)
    requires DotFree(d) && i <= |d| && ParenCount(st.stack) == |st.stack|
    ensures Scan(d, i, st).out == st.out + d[i..]
    decreases |d| - i, 1
  {
    if i < |d| {
      var nx := Step(st, d[i], HeavyAt(d, i));
      StepDotFree(st, d[i], HeavyAt(d, i));
      UnfoldScan(d, i, st);
      ScanDotFreeFrom(d, i, st, nx);
    } else {
      assert d[i..] == [];
    }
  }

  /** The step of `ScanDotFree` once the character at `i` has been copied. */
  lemma {:induction false} ScanDotFreeFrom(d: string, i: nat, st: State, nx: State)
    requires DotFree(d) && i < |d| && nx.out == st.out + [d[i]] && ParenCount(nx.stack) == |nx.stack|
    ensures Scan(d, i + 1, nx).out == st.out + d[i..]
    decreases |d| - i, 0
  {
    ScanDotFree(d, i + 1, nx);
    assert d[i..] == [d[i]] + d[i + 1..];
    ConsAfter(st.out, d[i], d[i + 1..], d[i..], Scan(d, i + 1, nx).out);
  }

  /** Text without dots passes through unchanged, brackets and all, balanced
      or not. */
  lemma {:induction false} ExpandDotFree(d: string)
    requires DotFree(d)
    ensures Expand(d) == d
  {
    var st := Scan(d, 0, State("", []));
    ScanDotFree(d, 0, State("", []));
    ScanKeepsParens(d, 0, State("", []));
    CloseNoDots(st);
    assert d[0..] == d;
  }

  /** The main loop over `"a. bc"`: the heavy dot is pushed and stays open. */
  lemma {:induction false} ScanHeavyDot()
    ensures Scan("a. bc", 0, State("", [])) == State("a( bc", [Dot])
  {
    var d := "a. bc";
    var s0, s1, s2 := State("", []), State("a", []), State("a(", [Dot]);
    assert d[0] == 'a' && d[1] == '.' && d[2] == ' ';
    assert HeavyAt(d, 1);
    UnfoldScan(d, 0, s0);
    assert Step(s0, 'a', false) == s1;
    UnfoldScan(d, 1, s1);
    assert Step(s1, '.', true) == s2;
    ScanLetters(d, 2, s2);
  }

  /** From position 2 of `"a. bc"` on, the letters are copied. */
  lemma {:induction false} ScanLetters(d: string, i: nat, st: State)
    requires d == "a. bc" && i == 2 && st == State("a(", [Dot])
    ensures Scan(d, i, st) == State("a( bc", [Dot])
  {
    var s3, s4, s5 := State("a( ", [Dot]), State("a( b", [Dot]), State("a( bc", [Dot]);
    assert d[2] == ' ' && d[3] == 'b' && d[4] == 'c';
    UnfoldScan(d, 2, st);
    assert Step(st, ' ', false) == s3;
    UnfoldScan(d, 3, s3);
    assert Step(s3, 'b', false) == s4;
    UnfoldScan(d, 4, s4);
    assert Step(s4, 'c', false) == s5;
    assert Scan(d, 5, s5) == s5;
  }

  /** A heavy dot opens a bracket that closes at the end. */
  lemma {:induction false} ExpandHeavyDot()
    ensures Expand("a. bc") == "a( bc)"
  {
    ScanHeavyDot();
    var s5 := State("a( bc", [Dot]);
    assert CloseDots(State("a( bc)", [])) == State("a( bc)", []);
    assert CloseDots(s5) == State("a( bc)", []);
  }

  /** The main loop over `"a..b"`: the first dot is copied, the second pushed. */
  lemma {:induction false} ScanDoubledDot()
    ensures Scan("a..b", 0, State("", [])) == State("a.(b", [Dot])
  {
    var d := "a..b";
    var s0, s1, s2 := State("", []), State("a", []), State("a.", []);
    var s3, s4 := State("a.(", [Dot]), State("a.(b", [Dot]);
    assert d[0] == 'a' && d[1] == '.' && d[2] == '.' && d[3] == 'b';
    assert !HeavyAt(d, 1) && HeavyAt(d, 2);
    UnfoldScan(d, 0, s0);
    assert Step(s0, 'a', false) == s1;
    UnfoldScan(d, 1, s1);
    assert Step(s1, '.', false) == s2;
    UnfoldScan(d, 2, s2);
    assert Step(s2, '.', true) == s3;
    UnfoldScan(d, 3, s3);
    assert Step(s3, 'b', false) == s4;
    assert Scan(d, 4, s4) == s4;
  }

  /** A doubled dot is copied; only the second one, followed by a letter,
      is heavy. */
  lemma {:induction false} ExpandDoubledDot()
    ensures Expand("a..b") == "a.(b)"
  {
    ScanDoubledDot();
    var s4 := State("a.(b", [Dot]);
    assert CloseDots(State("a.(b)", [])) == State("a.(b)", []);
    assert CloseDots(s4) == State("a.(b)", []);
  }

  /** The main loop over `". (a"`: a heavy dot, then an ordinary bracket. */
  lemma {:induction false} ScanStopsAtParen()
    ensures Scan(". (a", 0, State("", [])) == State("( (a", [Dot, Paren])
  {
    var d := ". (a";
    var s0, s1, s2 := State("", []), State("(", [Dot]), State("( ", [Dot]);
    var s3, s4 := State("( (", [Dot, Paren]), State("( (a", [Dot, Paren]);
    assert d[0] == '.' && d[1] == ' ' && d[2] == '(' && d[3] == 'a';
    assert HeavyAt(d, 0);
    UnfoldScan(d, 0, s0);
    assert Step(s0, '.', true) == s1;
    UnfoldScan(d, 1, s1);
    assert Step(s1, ' ', false) == s2;
    UnfoldScan(d, 2, s2);
    assert Step(s2, '(', false) == s3;
    UnfoldScan(d, 3, s3);
    assert Step(s3, 'a', false) == s4;
    assert Scan(d, 4, s4) == s4;
  }

  /** The end loop stops at the first unclosed `(`: a heavy dot below it
      stays open. */
  lemma {:induction false} ExpandStopsAtParen()
    ensures Expand(". (a") == "( (a"
  {
    ScanStopsAtParen();
    var s4 := State("( (a", [Dot, Paren]);
    assert CloseDots(s4) == s4;
  }
}
