/** Compression followed by expansion gives back the normalised bracketed
    text, up to whitespace. */
module RoundTrip {
  import opened Text
  import opened Brackets
  import opened Normalizer
  import opened Compressor
  import opened Expander

  /** `n` dot-brackets. */
  function Dots(n: nat): (r: seq<Opener>)
    ensures |r| == n && forall k :: 0 <= k < n ==> r[k] == Dot
  {
    if n == 0 then [] else Dots(n - 1) + [Dot]
  }

  /** The expansion scan over `w` with every dot read as a heavy dot, which
      is what `Scan` does on text without a doubled dot. */
  function Run(w: string, st: State): State
    decreases |w|
  {
    if w == [] then st else Run(w[1..], Step(st, w[0], true))
  }

  lemma {:induction false} UnfoldRun(w: string, st: State)
    requires w != []
    ensures Run(w, st) == Run(w[1..], Step(st, w[0], true))
  {
  }

  /** Away from a dot, the heavy-dot flag does not matter. */
  lemma {:induction false} StepNotDot(st: State, c: char, heavy: bool)
    requires c != '.'
    ensures Step(st, c, heavy) == Step(st, c, true)
  {
    if c == '(' {
      StepOpen(st, c, heavy);
      StepOpen(st, c, true);
    } else if c == ')' {
      StepClose(st, c, heavy);
      StepClose(st, c, true);
    } else {
      StepCopy(st, c, heavy);
      StepCopy(st, c, true);
    }
  }

  /** Without a doubled dot, every dot is heavy and `Scan` is `Run`. */
  lemma {:induction false} ScanIsRun(d: string, i: nat, st: State)
    requires NoDoubleDot(d) && i <= |d|
    ensures Scan(d, i, st) == Run(d[i..], st)
    decreases |d| - i
  {
    if i < |d| {
      var c := d[i];
      if c == '.' {
        assert i + 1 == |d| || d[i + 1] != '.';
        assert HeavyAt(d, i);
      } else {
        StepNotDot(st, c, HeavyAt(d, i));
      }
      UnfoldScan(d, i, st);
      ScanIsRun(d, i + 1, Step(st, c, true));
      assert d[i..][1..] == d[i + 1..];
      UnfoldRun(d[i..], st);
    } else {
      assert d[i..] == [];
    }
  }

  lemma {:induction false} RunConcat(a: string, b: string, st: State)
    ensures Run(a + b, st) == Run(b, Run(a, st))
    decreases |a|
  {
    if a == [] {
      assert a + b == b;
    } else {
      assert (a + b)[0] == a[0];
      assert (a + b)[1..] == a[1..] + b;
      UnfoldRun(a + b, st);
      UnfoldRun(a, st);
      RunConcat(a[1..], b, Step(st, a[0], true));
    }
  }

  /** Whitespace is copied and leaves the stack alone. */
  lemma {:induction false} RunSpaces(w: string, st: State)
    requires AllSpace(w)
    ensures Run(w, st) == State(st.out + w, st.stack)
    decreases |w|
  {
    if w == [] {
      assert st.out + w == st.out;
    } else {
      StepCopy(st, w[0], true);
      UnfoldRun(w, st);
      RunSpaces(w[1..], State(st.out + [w[0]], st.stack));
      assert (st.out + [w[0]]) + w[1..] == st.out + w;
    }
  }

  /** Two scanner states that differ only in the whitespace of their output. */
  predicate Sim(x: State, y: State) {
    x.stack == y.stack && Strip(x.out) == Strip(y.out)
  }

  lemma {:induction false} CloseDotsStack(x: State, y: State)
    requires x.stack == y.stack
    ensures CloseDots(x).stack == CloseDots(y).stack
    decreases |x.stack|
  {
    if |x.stack| > 0 && x.stack[|x.stack| - 1] == Dot {
      var n := |x.stack| - 1;
      CloseDotsStack(State(x.out + ")", x.stack[..n]), State(y.out + ")", y.stack[..n]));
    }
  }

  lemma {:induction false} StepSimClose(x: State, y: State, c: char)
    requires Sim(x, y) && c == ')'
    ensures Sim(Step(x, c, true), Step(y, c, true))
  {
    StepClose(x, c, true);
    StepClose(y, c, true);
    CloseDotsStack(x, y);
    var n := |x.stack| - |CloseDots(x).stack|;
    assert CloseDots(x).out == x.out + Closes(n);
    assert CloseDots(y).out == y.out + Closes(n);
    StripAppend(x.out, Closes(n));
    StripAppend(y.out, Closes(n));
    StripAppend(CloseDots(x).out, ")");
    StripAppend(CloseDots(y).out, ")");
  }

  lemma {:induction false} StepSim(x: State, y: State, c: char)
    requires Sim(x, y)
    ensures Sim(Step(x, c, true), Step(y, c, true))
  {
    if c == '.' {
      StepHeavy(x, c, true);
      StepHeavy(y, c, true);
      StripAppend(x.out, "(");
      StripAppend(y.out, "(");
    } else if c == '(' {
      StepOpen(x, c, true);
      StepOpen(y, c, true);
      StripAppend(x.out, "(");
      StripAppend(y.out, "(");
    } else if c == ')' {
      StepSimClose(x, y, c);
    } else {
      StepCopy(x, c, true);
      StepCopy(y, c, true);
      StripAppend(x.out, [c]);
      StripAppend(y.out, [c]);
    }
  }

  /** The scan cannot tell states apart that differ only in whitespace. */
  lemma {:induction false} RunSim(w: string, x: State, y: State)
    requires Sim(x, y)
    ensures Sim(Run(w, x), Run(w, y))
    decreases |w|
  {
    if w != [] {
      StepSim(x, y, w[0]);
      UnfoldRun(w, x);
      UnfoldRun(w, y);
      RunSim(w[1..], Step(x, w[0], true), Step(y, w[0], true));
    }
  }

  /** Trailing whitespace only adds whitespace to the output. */
  lemma {:induction false} RunTrimEnd(x: string, st: State)
    ensures Sim(Run(TrimEnd(x), st), Run(x, st))
  {
    var t := TrimEnd(x);
    var sp := x[|t|..];
    assert x == t + sp;
    RunConcat(t, sp, st);
    RunSpaces(sp, Run(t, st));
    StripAppend(Run(t, st).out, sp);
    StripAllSpace(sp);
  }

  /** A whitespace run and a dot scan like one space and a dot. */
  lemma {:induction false} RunSpacesDot(sp: string, st: State)
    requires AllSpace(sp)
    ensures Sim(Run(" .", st), Run(sp + ".", st))
  {
    RunConcat(" ", ".", st);
    RunConcat(sp, ".", st);
    RunSpaces(" ", st);
    RunSpaces(sp, st);
    var x := State(st.out + " ", st.stack);
    var y := State(st.out + sp, st.stack);
    assert "."[1..] == [];
    UnfoldRun(".", x);
    UnfoldRun(".", y);
    StepHeavy(x, '.', true);
    StepHeavy(y, '.', true);
    StripAppend(st.out + " ", "(");
    StripAppend(st.out, " ");
    StripAppend(st.out + sp, "(");
    StripAppend(st.out, sp);
    StripAllSpace(sp);
    StripAllSpace(" ");
  }

  /** The tidy-up changes only whitespace, so the scan over its result ends
      in the same stack with the same visible output. */
  lemma {:induction false} RunTidy(w: string, st: State)
    ensures Sim(Run(Tidy(w), st), Run(w, st))
    decreases |w|
  {
    if w == [] {
    } else if RunBeforeDot(w) {
      var n := LeadingSpaces(w);
      var rest := w[n + 1..];
      UnfoldTidyDot(w);
      RunConcat(" .", Tidy(rest), st);
      RunConcat(w[..n] + ".", rest, st);
      RunSpacesDot(w[..n], st);
      var a := Run(" .", st);
      var b := Run(w[..n] + ".", st);
      RunTidy(rest, a);
      RunSim(rest, a, b);
    } else {
      UnfoldTidyCopy(w);
      RunConcat([w[0]], Tidy(w[1..]), st);
      RunConcat([w[0]], w[1..], st);
      RunTidy(w[1..], Run([w[0]], st));
    }
  }

  lemma {:induction false} DotsPop(base: seq<Opener>, k: nat)
    requires k > 0
    ensures var stack := base + Dots(k);
      stack[|stack| - 1] == Dot && stack[..|stack| - 1] == base + Dots(k - 1)
  {
    var stack := base + Dots(k);
    assert stack == (base + Dots(k - 1)) + [Dot];
  }

  lemma {:induction false} ClosesCons(out: string, k: nat)
    requires k > 0
    ensures out + ")" + Closes(k - 1) == out + Closes(k)
  {
  }

  /** Closing over dot-brackets piled on an ordinary bracket (or on nothing)
      closes exactly those. */
  lemma {:induction false} CloseDotsOver(out: string, base: seq<Opener>, k: nat)
    requires |base| == 0 || base[|base| - 1] == Paren
    ensures CloseDots(State(out, base + Dots(k))) == State(out + Closes(k), base)
    decreases k
  {
    if k == 0 {
      assert base + Dots(0) == base;
      assert out + Closes(0) == out;
    } else {
      DotsPop(base, k);
      CloseDotsOver(out + ")", base, k - 1);
      ClosesCons(out, k);
    }
  }

  lemma {:induction false} RunDotSpace(st: State)
    ensures Run(". ", st) == State(st.out + "( ", st.stack + [Dot])
  {
    var st1 := State(st.out + "(", st.stack + [Dot]);
    UnfoldRun(". ", st);
    StepHeavy(st, '.', true);
    assert ". "[1..] == " ";
    UnfoldRun(" ", st1);
    StepCopy(st1, ' ', true);
    assert " "[1..] == [];
    assert st.out + "(" + " " == st.out + "( ";
  }

  lemma {:induction false} RunOpen(st: State)
    ensures Run("(", st) == State(st.out + "(", st.stack + [Paren])
  {
    UnfoldRun("(", st);
    StepOpen(st, '(', true);
    assert "("[1..] == [];
  }

  /** The `)` of a pair closes the dot-brackets opened inside it, then the
      pair's own bracket. */
  lemma {:induction false} RunCloseOver(out: string, base: seq<Opener>, k: nat)
    ensures Run(")", State(out, base + [Paren] + Dots(k))) == State(out + Closes(k) + ")", base)
  {
    var st := State(out, base + [Paren] + Dots(k));
    CloseDotsOver(out, base + [Paren], k);
    UnfoldRun(")", st);
    StepClose(st, ')', true);
    assert ")"[1..] == [];
    assert (base + [Paren])[..|base|] == base;
  }

  lemma {:induction false} RunChar(c: char, st: State)
    requires c != '.' && c != '(' && c != ')'
    ensures Run([c], st) == State(st.out + [c], st.stack)
  {
    UnfoldRun([c], st);
    StepCopy(st, c, true);
    assert [c][1..] == [];
  }

  /** Scanning from `st` ended in `r` having pushed only dot-brackets, and
      closing them gives output whose visible characters are those of `st`
      followed by those of `span`. */
  predicate Restores(st: State, r: State, span: string) {
    && |r.stack| >= |st.stack|
    && r.stack == st.stack + Dots(|r.stack| - |st.stack|)
    && Strip(r.out + Closes(|r.stack| - |st.stack|)) == Strip(st.out) + Strip(span)
  }

  /** Expanding the compressed span `[i, hi]` from `st` restores the span. */
  predicate RunsAs(s: string, pair: map<nat, nat>, i: nat, hi: int, st: State)
    requires Nested(s, pair, i, hi)
  {
    Restores(st, Run(Rec(s, pair, i, hi), st), s[i..hi + 1])
  }

  lemma {:induction false} StripBrackets()
    ensures Strip("(") == "(" && Strip(")") == ")" && Strip("( ") == "("
  {
    assert "( "[1..] == " " && " "[1..] == [] && "("[1..] == [] && ")"[1..] == [];
  }

  /* The lemmas below collect the `Strip` facts of one branch of `Rec`
     exactly as `StripAppend` states them, and leave the regrouping of the
     concatenations to a lemma about plain sequences. In each `…Algebra`
     lemma a parameter stands for the `Strip` of the string of the same name
     in the `…Strip` lemma that calls it; `preLeft` is `pre + left`,
     `leftMid` is `left + mid`, and so on. */

  lemma {:induction false} TailAlgebra(whole: string, out: string, closes: string, closesRight: string,
                    outCloses: string, pre: string, preLeft: string, mid: string, leftMid: string,
                    span: string, left: string, right: string)
    requires whole == out + closesRight && closesRight == closes + right && outCloses == out + closes
    requires preLeft == pre + left && outCloses == preLeft + mid
    requires span == leftMid + right && leftMid == left + mid
    ensures whole == pre + span
  {
    assert whole == (out + closes) + right;
    assert whole == (pre + left + mid) + right;
    assert pre + span == pre + (left + mid + right);
  }

  /** The tail branch: `out` matches the interior's output `out1`, and the
      `(` the span starts with came out as `left2`. */
  lemma {:induction false} TailStrip(out: string, out1: string, closes: string, pre: string, mid: string,
                  span: string, left: string, left2: string, right: string)
    requires Strip(left2) == Strip(left)
    requires Strip(out) == Strip(out1)
    requires Strip(out1 + closes) == Strip(pre + left2) + Strip(mid)
    requires span == left + mid + right
    ensures Strip(out + (closes + right)) == Strip(pre) + Strip(span)
  {
    StripAppend(out, closes + right);
    StripAppend(closes, right);
    StripAppend(out1, closes);
    StripAppend(pre, left2);
    StripAppend(left + mid, right);
    StripAppend(left, mid);
    TailAlgebra(Strip(out + (closes + right)), Strip(out), Strip(closes), Strip(closes + right),
      Strip(out1 + closes), Strip(pre), Strip(pre + left2), Strip(mid), Strip(left + mid), Strip(span),
      Strip(left), Strip(right));
  }

  lemma {:induction false} PairAlgebra(outer: string, inner: string, innerRight: string, pre: string,
                    preLeft: string, mid: string, after: string, leftMid: string, leftMidRight: string,
                    span: string, left: string, right: string)
    requires outer == innerRight + after && innerRight == inner + right
    requires inner == preLeft + mid && preLeft == pre + left
    requires span == leftMidRight + after && leftMidRight == leftMid + right && leftMid == left + mid
    ensures outer == pre + span
  {
    assert outer == ((pre + left + mid) + right) + after;
    assert pre + span == pre + (((left + mid) + right) + after);
  }

  /** The kept-pair branch: `inner` is the output after the interior,
      `outer` the output after the rest of the span. */
  lemma {:induction false} PairStrip(pre: string, inner: string, outer: string, mid: string, after: string,
                  span: string, left: string, right: string)
    requires Strip(inner) == Strip(pre + left) + Strip(mid)
    requires Strip(outer) == Strip(inner + right) + Strip(after)
    requires span == left + mid + right + after
    ensures Strip(outer) == Strip(pre) + Strip(span)
  {
    StripAppend(pre, left);
    StripAppend(inner, right);
    StripAppend(left + mid + right, after);
    StripAppend(left + mid, right);
    StripAppend(left, mid);
    PairAlgebra(Strip(outer), Strip(inner), Strip(inner + right), Strip(pre), Strip(pre + left), Strip(mid),
      Strip(after), Strip(left + mid), Strip(left + mid + right), Strip(span), Strip(left), Strip(right));
  }

  /** Assembling `Restores` for each branch of `Rec` from the sub-spans. */
  lemma {:induction false} TailRestores(st: State, st1: State, r1: State, r: State, mid: string, span: string)
    requires st1 == State(st.out + "( ", st.stack + [Dot])
    requires Restores(st1, r1, mid) && Sim(r, r1)
    requires span == "(" + mid + ")"
    ensures Restores(st, r, span)
  {
    var k := |r1.stack| - |st1.stack|;
    DotsSnoc(st.stack, k);
    ClosesSnoc(k);
    StripBrackets();
    TailStrip(r.out, r1.out, Closes(k), st.out, mid, span, "(", "( ", ")");
  }

  lemma {:induction false} PairRestores(st: State, st1: State, r1: State, st2: State, r2: State,
                     mid: string, after: string, span: string)
    requires st1 == State(st.out + "(", st.stack + [Paren]) && Restores(st1, r1, mid)
    requires st2 == State(r1.out + Closes(|r1.stack| - |st1.stack|) + ")", st.stack)
    requires Restores(st2, r2, after)
    requires span == "(" + mid + ")" + after
    ensures Restores(st, r2, span)
  {
    PairStrip(st.out, r1.out + Closes(|r1.stack| - |st1.stack|), r2.out + Closes(|r2.stack| - |st.stack|),
      mid, after, span, "(", ")");
  }

  lemma {:induction false} CopyRestores(st: State, c: char, st1: State, r: State, after: string, span: string)
    requires st1 == State(st.out + [c], st.stack) && Restores(st1, r, after)
    requires span == [c] + after
    ensures Restores(st, r, span)
  {
    CopyStrip(st.out, c, r.out + Closes(|r.stack| - |st.stack|), after, span);
  }

  lemma {:induction false} CopyAlgebra(whole: string, preSingle: string, pre: string, single: string,
                    after: string, span: string)
    requires whole == preSingle + after && preSingle == pre + single && span == single + after
    ensures whole == pre + span
  {
  }

  lemma {:induction false} CopyStrip(pre: string, c: char, whole: string, after: string, span: string)
    requires Strip(whole) == Strip(pre + [c]) + Strip(after)
    requires span == [c] + after
    ensures Strip(whole) == Strip(pre) + Strip(span)
  {
    StripAppend(pre, [c]);
    StripAppend([c], after);
    CopyAlgebra(Strip(whole), Strip(pre + [c]), Strip(pre), Strip([c]), Strip(after), Strip(span));
  }

  lemma {:induction false} DotsSnoc(base: seq<Opener>, k: nat)
    ensures (base + [Dot]) + Dots(k) == base + Dots(k + 1)
  {
    assert [Dot] + Dots(k) == Dots(k + 1);
  }

  lemma {:induction false} ClosesSnoc(k: nat)
    ensures Closes(k + 1) == Closes(k) + ")"
  {
  }

  /** Expanding a compressed span restores it up to whitespace. Each branch
      of `Rec` is handled by one of the three lemmas that follow, which
      appeal back to this one on the sub-spans. */
  lemma {:induction false} RecRun(s: string, pair: map<nat, nat>, i: nat, hi: int, st: State)
    requires Nested(s, pair, i, hi) && DotFree(s)
    ensures RunsAs(s, pair, i, hi, st)
    decreases hi - i + 1, 2
  {
    if i > hi {
      assert Rec(s, pair, i, hi) == "";
      assert s[i..hi + 1] == "";
      assert st.stack + Dots(0) == st.stack;
      assert st.out + Closes(0) == st.out;
    } else if s[i] == '(' && pair[i] == hi {
      RecRunTail(s, pair, i, hi, st);
    } else if s[i] == '(' {
      RecRunPair(s, pair, i, hi, st);
    } else {
      RecRunCopy(s, pair, i, hi, st);
    }
  }

  /* One lemma per branch of `Rec`, stated over the compressed pieces and
     the scanner states as plain values. */

  lemma {:induction false} TailRuns(st: State, st1: State, inner: string, w: string, r1: State, mid: string, span: string)
    requires st1 == State(st.out + "( ", st.stack + [Dot])
    requires r1 == Run(inner, st1) && Restores(st1, r1, mid)
    requires w == TrimEnd(". " + inner) && span == "(" + mid + ")"
    ensures Restores(st, Run(w, st), span)
  {
    RunDotSpace(st);
    RunConcat(". ", inner, st);
    RunTrimEnd(". " + inner, st);
    TailRestores(st, st1, r1, Run(w, st), mid, span);
  }

  lemma {:induction false} PairRuns(st: State, st1: State, st2: State, inner: string, rest: string,
                                    w: string, r1: State, r2: State, mid: string, after: string, span: string)
    requires st1 == State(st.out + "(", st.stack + [Paren])
    requires r1 == Run(inner, st1) && Restores(st1, r1, mid)
    requires st2 == State(r1.out + Closes(|r1.stack| - |st1.stack|) + ")", st.stack)
    requires r2 == Run(rest, st2) && Restores(st2, r2, after)
    requires w == "(" + inner + ")" + rest && span == "(" + mid + ")" + after
    ensures Restores(st, Run(w, st), span)
  {
    var k1 := |r1.stack| - |st1.stack|;
    RunOpen(st);
    RunCloseOver(r1.out, st.stack, k1);
    RunConcat("(" + inner + ")", rest, st);
    RunConcat("(" + inner, ")", st);
    RunConcat("(", inner, st);
    PairRestores(st, st1, r1, st2, r2, mid, after, span);
  }

  lemma {:induction false} CopyRuns(st: State, c: char, rest: string, w: string, r: State, after: string, span: string)
    requires c != '.' && c != '(' && c != ')'
    requires r == Run(rest, State(st.out + [c], st.stack)) && Restores(State(st.out + [c], st.stack), r, after)
    requires w == [c] + rest && span == [c] + after
    ensures Restores(st, Run(w, st), span)
  {
    RunChar(c, st);
    RunConcat([c], rest, st);
    CopyRestores(st, c, State(st.out + [c], st.stack), r, after, span);
  }

  /** `RecRun` for a sub-span, stated over names for the compressed text and
      the state the scan reaches. */
  lemma {:induction false} SubRuns(s: string, pair: map<nat, nat>, i: nat, hi: int, st: State, w: string, r: State)
    requires Nested(s, pair, i, hi) && DotFree(s)
    requires w == Rec(s, pair, i, hi) && r == Run(w, st)
    ensures Restores(st, r, s[i..hi + 1])
    decreases hi - i + 1, 3
  {
    RecRun(s, pair, i, hi, st);
  }

  /** The tail-pair case once `Rec` is unfolded: the pair spans `[i, hi]` and
      compresses to a dot and a space in front of its interior's compression. */
  lemma {:induction false} TailFrom(s: string, pair: map<nat, nat>, i: nat, hi: int, st: State, w: string)
    requires i < hi < |s| && s[i] == '(' && s[hi] == ')'
    requires Nested(s, pair, i + 1, hi - 1) && DotFree(s)
    requires w == TrimEnd(". " + Rec(s, pair, i + 1, hi - 1))
    ensures Restores(st, Run(w, st), s[i..hi + 1])
    decreases hi - i - 1, 4
  {
    SplitTail(s, i, hi);
    var inner := Rec(s, pair, i + 1, hi - 1);
    var st1 := State(st.out + "( ", st.stack + [Dot]);
    var r1 := Run(inner, st1);
    SubRuns(s, pair, i + 1, hi - 1, st1, inner, r1);
    TailRuns(st, st1, inner, w, r1, s[i + 1..hi - 1 + 1], s[i..hi + 1]);
  }

  lemma {:induction false} RecRunTail(s: string, pair: map<nat, nat>, i: nat, hi: int, st: State)
    requires Nested(s, pair, i, hi) && DotFree(s)
    requires i <= hi && s[i] == '(' && pair[i] == hi
    ensures RunsAs(s, pair, i, hi, st)
    decreases hi - i + 1, 1
  {
    UnfoldTail(s, pair, i, hi);
    TailFrom(s, pair, i, hi, st, Rec(s, pair, i, hi));
  }

  /** The kept-pair case once `Rec` is unfolded: the pair at `a - 1` has its
      mate at `j`, and the span goes on to `hi`. */
  lemma {:induction false} PairFrom(s: string, pair: map<nat, nat>, a: nat, j: nat, hi: int, st: State,
                                    inner: string, rest: string, w: string, span: string)
    requires 0 < a <= j <= hi < |s| && s[a - 1] == '(' && s[j] == ')'
    requires Nested(s, pair, a, j - 1) && Nested(s, pair, j + 1, hi) && DotFree(s)
    requires inner == Rec(s, pair, a, j - 1) && rest == Rec(s, pair, j + 1, hi)
    requires w == "(" + inner + ")" + rest && span == s[a - 1..hi + 1]
    ensures Restores(st, Run(w, st), span)
    decreases hi - a + 1, 4
  {
    SplitSpan(s, a - 1, j, hi);
    var st1 := State(st.out + "(", st.stack + [Paren]);
    var r1 := Run(inner, st1);
    SubRuns(s, pair, a, j - 1, st1, inner, r1);
    var st2 := State(r1.out + Closes(|r1.stack| - |st1.stack|) + ")", st.stack);
    var r2 := Run(rest, st2);
    SubRuns(s, pair, j + 1, hi, st2, rest, r2);
    PairRuns(st, st1, st2, inner, rest, w, r1, r2, s[a..j - 1 + 1], s[j + 1..hi + 1], span);
  }

  /** The kept-pair case over a name `w` for the compressed span. */
  lemma {:induction false} PairAt(s: string, pair: map<nat, nat>, i: nat, hi: int, st: State, w: string)
    requires Nested(s, pair, i, hi) && DotFree(s)
    requires i <= hi && s[i] == '(' && pair[i] != hi && w == Rec(s, pair, i, hi)
    ensures Restores(st, Run(w, st), s[i..hi + 1])
    decreases hi - i + 1, 0
  {
    UnfoldOpen(s, pair, i, hi);
    var j := pair[i];
    UnfoldPair(s, pair, i, hi);
    PairFrom(s, pair, i + 1, j, hi, st, Rec(s, pair, i + 1, j - 1), Rec(s, pair, j + 1, hi), w, s[i..hi + 1]);
  }

  lemma {:induction false} RecRunPair(s: string, pair: map<nat, nat>, i: nat, hi: int, st: State)
    requires Nested(s, pair, i, hi) && DotFree(s)
    requires i <= hi && s[i] == '(' && pair[i] != hi
    ensures RunsAs(s, pair, i, hi, st)
    decreases hi - i + 1, 1
  {
    PairAt(s, pair, i, hi, st, Rec(s, pair, i, hi));
  }

  lemma {:induction false} RecRunCopy(s: string, pair: map<nat, nat>, i: nat, hi: int, st: State)
    requires Nested(s, pair, i, hi) && DotFree(s)
    requires i <= hi && s[i] != '('
    ensures RunsAs(s, pair, i, hi, st)
    decreases hi - i + 1, 1
  {
    UnfoldCopy(s, pair, i, hi);
    var c := s[i];
    var st1 := State(st.out + [c], st.stack);
    var rest := Rec(s, pair, i + 1, hi);
    var r1 := Run(rest, st1);
    SubRuns(s, pair, i + 1, hi, st1, rest, r1);
    assert s[i..hi + 1] == [c] + s[i + 1..hi + 1];
    CopyRuns(st, c, rest, Rec(s, pair, i, hi), r1, s[i + 1..hi + 1], s[i..hi + 1]);
  }

  lemma {:induction false} DotFreeSub(t: string, b: string)
    requires DotFree(b) && forall c :: c in t ==> c in b
    ensures DotFree(t)
  {
    forall k | 0 <= k < |t|
      ensures t[k] != '.'
    {
      assert t[k] in t;
    }
  }

  lemma {:induction false} RestoresSim(st: State, r: State, x: State, span: string)
    requires Restores(st, r, span) && Sim(x, r)
    ensures Restores(st, x, span)
  {
    var cl := Closes(|r.stack| - |st.stack|);
    StripAppend(x.out, cl);
    StripAppend(r.out, cl);
  }

  /** The tidy-up keeps what the scan restores. */
  lemma {:induction false} TidyRestores(w: string, st: State, span: string)
    requires Restores(st, Run(w, st), span)
    ensures Restores(st, Run(Tidy(w), st), span)
  {
    RunTidy(w, st);
    RestoresSim(st, Run(w, st), Run(Tidy(w), st), span);
  }

  /** The span processor on the whole normalised text: no doubled dot, and
      scanning its output restores the text. */
  lemma {:induction false} WholeRestores(t: string)
    requires Balanced(t) && DotFree(t)
    ensures Nested(t, Pairs(t), 0, |t| - 1)
    ensures NoDoubleDot(Rec(t, Pairs(t), 0, |t| - 1))
    ensures Restores(State("", []), Run(Rec(t, Pairs(t), 0, |t| - 1), State("", [])), t)
  {
    WholeSpanFacts(t);
    RecNoDoubleDot(t, Pairs(t), 0, |t| - 1);
    RecRun(t, Pairs(t), 0, |t| - 1, State("", []));
    assert t[0..|t| - 1 + 1] == t;
  }

  lemma {:induction false} UnfoldTrimmed(t: string)
    requires Balanced(t)
    ensures Nested(t, Pairs(t), 0, |t| - 1)
    ensures CompressTrimmed(t) == Tidy(Rec(t, Pairs(t), 0, |t| - 1))
  {
    WholeSpanFacts(t);
  }

  /** Tidying the span processor's output of the whole normalised text keeps
      both facts the scan needs. */
  lemma {:induction false} TidiedRestores(t: string, c: string)
    requires Balanced(t) && DotFree(t) && Nested(t, Pairs(t), 0, |t| - 1)
    requires c == Tidy(Rec(t, Pairs(t), 0, |t| - 1))
    ensures NoDoubleDot(c) && Restores(State("", []), Run(c, State("", [])), t)
  {
    var w := Rec(t, Pairs(t), 0, |t| - 1);
    WholeRestores(t);
    TidyNoDoubleDot(w);
    TidyRestores(w, State("", []), t);
  }

  /** The compressed text has no doubled dot, and scanning it with every dot
      heavy restores the normalised input. */
  lemma {:induction false} CompressRestores(b: string)
    requires Balanced(b) && DotFree(b)
    ensures NoDoubleDot(Compress(b))
    ensures Restores(State("", []), Run(Compress(b), State("", [])), TrimOuter(b))
  {
    var t := TrimOuter(b);
    DotFreeSub(t, b);
    assert Compress(b) == CompressTrimmed(t);
    UnfoldTrimmed(t);
    TidiedRestores(t, Compress(b));
  }

  /** The closing loop at the end closes the dot-brackets left open. */
  lemma {:induction false} FinishRestores(x: State, span: string)
    requires Restores(State("", []), x, span)
    ensures Strip(Finish(x)) == Strip(span)
  {
    var k := |x.stack|;
    assert x.stack == [] + Dots(k);
    CloseDotsOver(x.out, [], k);
    assert Finish(x) == x.out + Closes(k);
    assert Strip("") == "";
  }

  /** The round trip: bracketed text without dots, compressed to Church
      notation and expanded again, is the normalised input up to whitespace;
      it is balanced and keeps the payload. */
  lemma {:induction false} CompressThenExpand(b: string)
    requires Balanced(b) && DotFree(b)
    ensures Strip(Expand(Compress(b))) == Strip(TrimOuter(b))
    ensures Balanced(Expand(Compress(b)))
    ensures Content(Expand(Compress(b))) == Content(b)
  {
    var c := Compress(b);
    var init := State("", []);
    CompressRestores(b);
    ScanIsRun(c, 0, init);
    assert c[0..] == c;
    FinishRestores(Run(c, init), TrimOuter(b));
    ExpandBalanced(c);
    ExpandContent(c);
  }
}
