/** Church compression: every bracket pair that ends its enclosing span is
    replaced by a dot, every other pair is kept, and the whitespace in front
    of each dot is tidied afterwards. */
module Compressor {
  import opened Text
  import opened Brackets
  import opened Normalizer

  /** The span `[i, hi]` of `s` is well nested under `pair`: read left to
      right, each `(` is mapped to a `)` inside the span, with a well-nested
      interior and a well-nested remainder, and no `)` is met at the top
      level. This is exactly what the span processor relies on. */
  predicate Nested(s: string, pair: map<nat, nat>, i: nat, hi: int)
    decreases hi - i + 1
  {
    && i <= hi + 1 <= |s|
    && (i <= hi ==>
      if s[i] == '(' then
        && i in pair && i < pair[i] <= hi && s[pair[i]] == ')'
        && Nested(s, pair, i + 1, pair[i] - 1)
        && Nested(s, pair, pair[i] + 1, hi)
      else
        s[i] != ')' && Nested(s, pair, i + 1, hi))
  }

  /** A character at the top level of a balanced span that is not `(` is not
      `)` either, and the rest of the span is balanced. */
  lemma {:induction false} TopLevelStep(s: string, i: nat, hi: int)
    requires SpanOK(s, i, hi) && i <= hi && s[i] != '('
    ensures s[i] != ')' && SpanOK(s, i + 1, hi)
  {
    assert Depth(s, i + 1) == Depth(s, i) + Delta(s[i]);
    assert Depth(s, i + 1) >= Depth(s, i);
  }

  /** A `(` that opens a balanced span is in the pair map, and its mate
      splits the span into two balanced spans. */
  lemma {:induction false} SpanOpen(s: string, pair: map<nat, nat>, i: nat, hi: int)
    requires Balanced(s) && PairsAreMates(s, pair) && SpanOK(s, i, hi)
    requires i <= hi && s[i] == '('
    ensures i in pair && i < pair[i] <= hi && s[pair[i]] == ')'
    ensures SpanOK(s, i + 1, pair[i] - 1) && SpanOK(s, pair[i] + 1, hi)
  {
    MateInSpan(s, i, hi);
  }

  /** Every balanced span of balanced text is well nested under the map that
      sends each `(` to its mate. */
  lemma {:induction false} SpanNested(s: string, pair: map<nat, nat>, i: nat, hi: int)
    requires Balanced(s) && PairsAreMates(s, pair) && SpanOK(s, i, hi)
    ensures Nested(s, pair, i, hi)
    decreases hi - i + 1
  {
    if i <= hi {
      if s[i] == '(' {
        SpanOpen(s, pair, i, hi);
        var j := pair[i];
        SpanNested(s, pair, i + 1, j - 1);
        SpanNested(s, pair, j + 1, hi);
      } else {
        TopLevelStep(s, i, hi);
        SpanNested(s, pair, i + 1, hi);
      }
    }
  }

  /** The span processor `rec(i, hi)` as a pure function of the span: a pair
      whose mate is `hi` becomes `". "` plus its compressed interior, with
      trailing whitespace removed, and ends the span; any other pair is kept
      with its interior compressed; other characters are copied. Compression
      never lengthens the span. */
  function Rec(s: string, pair: map<nat, nat>, i: nat, hi: int): (r: string)
    requires Nested(s, pair, i, hi)
    ensures |r| <= hi - i + 1
    decreases hi - i + 1
  {
    if i > hi then ""
    else if s[i] == '(' then
      var j := pair[i];
      if j == hi then TrimEnd(". " + Rec(s, pair, i + 1, j - 1))
      else "(" + Rec(s, pair, i + 1, j - 1) + ")" + Rec(s, pair, j + 1, hi)
    else
      [s[i]] + Rec(s, pair, i + 1, hi)
  }

  /** The three branches of `Rec`, one lemma each. */
  lemma {:induction false} UnfoldTail(s: string, pair: map<nat, nat>, i: nat, hi: int)
    requires Nested(s, pair, i, hi) && i <= hi && s[i] == '(' && pair[i] == hi
    ensures i < hi < |s| && s[hi] == ')'
    ensures Nested(s, pair, i + 1, hi - 1)
    ensures Rec(s, pair, i, hi) == TrimEnd(". " + Rec(s, pair, i + 1, hi - 1))
  {
    UnfoldOpen(s, pair, i, hi);
  }

  lemma {:induction false} UnfoldPair(s: string, pair: map<nat, nat>, i: nat, hi: int)
    requires Nested(s, pair, i, hi) && i <= hi && s[i] == '(' && pair[i] != hi
    ensures Nested(s, pair, i + 1, pair[i] - 1) && Nested(s, pair, pair[i] + 1, hi)
    ensures Rec(s, pair, i, hi)
         == "(" + Rec(s, pair, i + 1, pair[i] - 1) + ")" + Rec(s, pair, pair[i] + 1, hi)
  {
  }

  /** `UnfoldPair` with the mate named `j` and the outputs of the interior
      and of the rest named `inner` and `rest`. */
  lemma {:induction false} UnfoldPairAt(s: string, pair: map<nat, nat>, i: nat, hi: int)
    returns (j: nat, inner: string, rest: string)
    requires Nested(s, pair, i, hi) && i <= hi && s[i] == '(' && pair[i] != hi
    ensures i in pair && j == pair[i] && 0 < i + 1 <= j <= hi < |s| && s[i] == '(' && s[j] == ')'
    ensures Nested(s, pair, i + 1, j - 1) && Nested(s, pair, j + 1, hi)
    ensures inner == Rec(s, pair, i + 1, j - 1) && rest == Rec(s, pair, j + 1, hi)
    ensures Rec(s, pair, i, hi) == "(" + inner + ")" + rest
  {
    UnfoldOpen(s, pair, i, hi);
    UnfoldPair(s, pair, i, hi);
    j := pair[i];
    inner, rest := Rec(s, pair, i + 1, pair[i] - 1), Rec(s, pair, pair[i] + 1, hi);
  }

  lemma {:induction false} UnfoldCopy(s: string, pair: map<nat, nat>, i: nat, hi: int)
    requires Nested(s, pair, i, hi) && i <= hi && s[i] != '('
    ensures s[i] != ')' && Nested(s, pair, i + 1, hi)
    ensures Rec(s, pair, i, hi) == [s[i]] + Rec(s, pair, i + 1, hi)
  {
  }

  /** The span loop at a pair in tail position: with `rest` the output still
      owed, the trimmed accumulator is the output of the whole span. */
  lemma {:induction false} TailStep(out: string, inner: string, rest: string, whole: string)
    requires rest == TrimEnd(". " + inner) && out + rest == whole
    ensures TrimEnd(out + ". " + inner) == whole
  {
    assert out + ". " + inner == out + (". " + inner);
    TrimEndAppend(out, ". " + inner);
  }

  /** The span loop at a pair that is kept. */
  lemma {:induction false} PairStep(out: string, inner: string, after: string, rest: string, whole: string)
    requires rest == "(" + inner + ")" + after && out + rest == whole
    ensures (out + "(" + inner + ")") + after == whole
  {
    assert out + ("(" + inner + ")" + after) == (out + "(" + inner + ")") + after;
  }

  /** The span loop at any other character. */
  lemma {:induction false} CopyStep(out: string, c: char, after: string, rest: string, whole: string)
    requires rest == [c] + after && out + rest == whole
    ensures (out + [c]) + after == whole
  {
    assert out + ([c] + after) == (out + [c]) + after;
  }

  /** What the span loop needs before it descends into a pair. */
  lemma {:induction false} UnfoldOpen(s: string, pair: map<nat, nat>, i: nat, hi: int)
    requires Nested(s, pair, i, hi) && i <= hi && s[i] == '('
    ensures i in pair && i < pair[i] <= hi < |s| && s[pair[i]] == ')'
    ensures Nested(s, pair, i + 1, pair[i] - 1)
  {
  }

  /** The source's `rec`: a loop over the span with an output accumulator,
      looking each mate up in the pair map and returning early, right-trimmed,
      at a pair in tail position. */
  method RecSpan(s: string, pair: map<nat, nat>, lo: nat, hi: int) returns (out: string)
    requires Nested(s, pair, lo, hi)
    ensures out == Rec(s, pair, lo, hi)
    decreases hi - lo + 1
  {
    ghost var whole := Rec(s, pair, lo, hi);
    out := "";
    var i := lo;
    assert "" + whole == whole;
    while i <= hi
      invariant lo <= i <= hi + 1
      invariant Nested(s, pair, i, hi)
      invariant out + Rec(s, pair, i, hi) == whole
      decreases hi - i + 1
    {
      if s[i] == '(' {
        UnfoldOpen(s, pair, i, hi);
        var j := pair[i];
        var inner := RecSpan(s, pair, i + 1, j - 1);
        if j == hi {
          UnfoldTail(s, pair, i, hi);
          TailStep(out, inner, Rec(s, pair, i, hi), whole);
          out := out + ". " + inner;
          return TrimEnd(out);
        }
        UnfoldPair(s, pair, i, hi);
        PairStep(out, inner, Rec(s, pair, j + 1, hi), Rec(s, pair, i, hi), whole);
        out := out + "(" + inner + ")";
        i := j + 1;
      } else {
        UnfoldCopy(s, pair, i, hi);
        CopyStep(out, s[i], Rec(s, pair, i + 1, hi), Rec(s, pair, i, hi), whole);
        out := out + [s[i]];
        i := i + 1;
      }
    }
    assert Rec(s, pair, i, hi) == "";
    assert out + "" == out;
  }

  /** The global replace of `/\s+\./` by `" ."`: a whitespace run that is
      followed by a dot becomes one space; everything else is copied. The
      result differs from `w` in whitespace only, and starts with a dot
      exactly when `w` does. */
  function Tidy(w: string): (r: string)
    ensures Strip(r) == Strip(w)
    ensures (|r| > 0 && r[0] == '.') <==> (|w| > 0 && w[0] == '.')
    decreases |w|
  {
    if w == [] then []
    else if RunBeforeDot(w) then
      var n := LeadingSpaces(w);
      var rest := Tidy(w[n + 1..]);
      assert w == w[..n] + [w[n]] + w[n + 1..];
      StripConcat(w[..n] + [w[n]], w[n + 1..]);
      StripConcat(w[..n], [w[n]]);
      StripAllSpace(w[..n]);
      StripConcat(" .", rest);
      " ." + rest
    else
      var rest := Tidy(w[1..]);
      assert w == [w[0]] + w[1..];
      StripConcat([w[0]], w[1..]);
      StripConcat([w[0]], rest);
      [w[0]] + rest
  }

  /** The whole normalised string as one span: well nested under its pair
      map, and compressed to balanced text with the same payload. */
  lemma {:induction false} WholeSpanFacts(t: string)
    requires Balanced(t)
    ensures Nested(t, Pairs(t), 0, |t| - 1)
    ensures Balanced(Rec(t, Pairs(t), 0, |t| - 1))
    ensures Content(Rec(t, Pairs(t), 0, |t| - 1)) == Content(t)
  {
    var pair := Pairs(t);
    SpanNested(t, pair, 0, |t| - 1);
    RecBalanced(t, pair, 0, |t| - 1);
    RecContent(t, pair, 0, |t| - 1);
    assert t[0..|t|] == t;
  }

  /** Compression of text that is already normalised: pair every bracket,
      compress the whole string as one span, tidy. The result is balanced and
      carries the input's payload in the same order. */
  function CompressTrimmed(t: string): (r: string)
    requires Balanced(t)
    ensures Balanced(r)
    ensures Content(r) == Content(t)
  {
    WholeSpanFacts(t);
    var w := Rec(t, Pairs(t), 0, |t| - 1);
    BalancedSameStrip(w, Tidy(w));
    Tidy(w)
  }

  /** `churchCompress` on balanced input: normalise, then compress. */
  function Compress(b: string): (r: string)
    requires Balanced(b)
    ensures Balanced(r)
    ensures Content(r) == Content(b)
  {
    CompressTrimmed(TrimOuter(b))
  }

  /** The body of `churchCompress` after the normaliser: the stack-based pair
      map, the span loop, then the tidy-up. */
  method CompressSpan(t: string) returns (r: string)
    requires Balanced(t)
    ensures r == CompressTrimmed(t)
  {
    var pair := PairMap(t);
    WholeSpanFacts(t);
    var w := RecSpan(t, pair, 0, |t| - 1);
    r := Tidy(w);
  }

  /** The source's `churchCompress`. */
  method ChurchCompress(b: string) returns (r: string)
    requires Balanced(b)
    ensures r == Compress(b)
  {
    var t := TrimOuterParens(b);
    r := CompressSpan(t);
  }

  /** A kept pair followed by more balanced text is balanced. */
  lemma {:induction false} BalancedPairThen(inner: string, rest: string)
    requires Balanced(inner) && Balanced(rest)
    ensures Balanced("(" + inner + ")" + rest)
  {
    BalancedIsBalTo(inner);
    BalancedIsBalTo(rest);
    BalToShift(inner, 0, 0);
    BalToConcat("(", inner, 0, 1, 1);
    BalToConcat("(" + inner, ")", 0, 1, 0);
    BalToConcat("(" + inner + ")", rest, 0, 0, 0);
    BalancedIsBalTo("(" + inner + ")" + rest);
  }

  /** A dot in place of a pair, with trailing whitespace trimmed, is balanced
      when the interior is. */
  lemma {:induction false} BalancedDotTail(inner: string)
    requires Balanced(inner)
    ensures Balanced(TrimEnd(". " + inner))
  {
    var x := ". " + inner;
    BalancedIsBalTo(inner);
    BalToConcat(". ", inner, 0, 0, 0);
    BalancedIsBalTo(x);
    StripTrimEnd(x);
    BalancedSameStrip(x, TrimEnd(x));
  }

  /** A character other than a parenthesis in front of balanced text. */
  lemma {:induction false} BalancedCons(c: char, rest: string)
    requires c != '(' && c != ')' && Balanced(rest)
    ensures Balanced([c] + rest)
  {
    BalancedIsBalTo(rest);
    BalToConcat([c], rest, 0, 0, 0);
    BalancedIsBalTo([c] + rest);
  }

  /** Compression output is balanced. */
  lemma {:induction false} RecBalanced(s: string, pair: map<nat, nat>, i: nat, hi: int)
    requires Nested(s, pair, i, hi)
    ensures Balanced(Rec(s, pair, i, hi))
    decreases hi - i + 1
  {
    if i > hi {
      assert Rec(s, pair, i, hi) == "";
    } else if s[i] == '(' {
      var j := pair[i];
      RecBalanced(s, pair, i + 1, j - 1);
      if j == hi {
        BalancedDotTail(Rec(s, pair, i + 1, j - 1));
      } else {
        RecBalanced(s, pair, j + 1, hi);
        BalancedPairThen(Rec(s, pair, i + 1, j - 1), Rec(s, pair, j + 1, hi));
      }
    } else {
      RecBalanced(s, pair, i + 1, hi);
      BalancedCons(s[i], Rec(s, pair, i + 1, hi));
    }
  }

  lemma {:induction false} ContentBrackets()
    ensures Content("(") == [] && Content(")") == [] && Content(". ") == []
  {
    assert "("[1..] == [] && ")"[1..] == [] && ". "[1..] == " " && " "[1..] == [];
  }

  /** Brackets carry no payload, so a pair followed by more text has the
      payload of its interior followed by that of the text. */
  lemma {:induction false} ContentPairThen(inner: string, rest: string)
    ensures Content("(" + inner + ")" + rest) == Content(inner) + Content(rest)
  {
    ContentBrackets();
    StripConcat("(", inner);
    StripConcat("(" + inner, ")");
    StripConcat("(" + inner + ")", rest);
  }

  /** A span that starts with a pair splits into the pair and the rest. */
  lemma {:induction false} SplitSpan(s: string, i: nat, j: nat, hi: int)
    requires i < j <= hi < |s| && s[i] == '(' && s[j] == ')'
    ensures s[i..hi + 1] == "(" + s[i + 1..j - 1 + 1] + ")" + s[j + 1..hi + 1]
  {
  }

  /** A span that is one pair. */
  lemma {:induction false} SplitTail(s: string, i: nat, j: nat)
    requires i < j < |s| && s[i] == '(' && s[j] == ')'
    ensures s[i..j + 1] == "(" + s[i + 1..j - 1 + 1] + ")"
  {
  }

  /** The payload cases of `Rec`, stated over the strings involved. */
  lemma {:induction false} ContentTailCase(span: string, mid: string, inner: string, r: string)
    requires span == "(" + mid + ")" && r == TrimEnd(". " + inner)
    requires Content(inner) == Content(mid)
    ensures Content(r) == Content(span)
  {
    ContentPairThen(mid, []);
    assert "(" + mid + ")" + [] == span;
    ContentBrackets();
    StripConcat(". ", inner);
    StripTrimEnd(". " + inner);
  }

  lemma {:induction false} ContentPairCase(span: string, mid: string, after: string, inner: string, rest: string, r: string)
    requires span == "(" + mid + ")" + after && r == "(" + inner + ")" + rest
    requires Content(inner) == Content(mid) && Content(rest) == Content(after)
    ensures Content(r) == Content(span)
  {
    ContentPairThen(mid, after);
    ContentPairThen(inner, rest);
  }

  lemma {:induction false} ContentCopyCase(span: string, c: char, after: string, rest: string, r: string)
    requires span == [c] + after && r == [c] + rest
    requires Content(rest) == Content(after)
    ensures Content(r) == Content(span)
  {
    StripConcat([c], after);
    StripConcat([c], rest);
  }

  /** The payload of a span, in order, survives compression. Each branch
      of `Rec` is proved by one of the three lemmas that follow, which appeal
      back to this one for the shorter spans. */
  lemma {:induction false} RecContent(s: string, pair: map<nat, nat>, i: nat, hi: int)
    requires Nested(s, pair, i, hi)
    ensures Content(Rec(s, pair, i, hi)) == Content(s[i..hi + 1])
    decreases hi - i + 1, 1
  {
    if i > hi {
      assert Rec(s, pair, i, hi) == "" && s[i..hi + 1] == "";
    } else if s[i] != '(' {
      RecContentCopy(s, pair, i, hi);
    } else if pair[i] == hi {
      RecContentTail(s, pair, i, hi);
    } else {
      RecContentPair(s, pair, i, hi);
    }
  }

  /** The tail case once `Rec` is unfolded: the pair spans `[i, hi]`. */
  lemma {:induction false} TailContentFrom(s: string, pair: map<nat, nat>, i: nat, hi: int, w: string)
    requires i < hi < |s| && s[i] == '(' && s[hi] == ')'
    requires Nested(s, pair, i + 1, hi - 1) && w == TrimEnd(". " + Rec(s, pair, i + 1, hi - 1))
    ensures Content(w) == Content(s[i..hi + 1])
    decreases hi - i - 1, 2
  {
    RecContent(s, pair, i + 1, hi - 1);
    SplitTail(s, i, hi);
    ContentTailCase(s[i..hi + 1], s[i + 1..hi - 1 + 1], Rec(s, pair, i + 1, hi - 1), w);
  }

  lemma {:induction false} RecContentTail(s: string, pair: map<nat, nat>, i: nat, hi: int)
    requires Nested(s, pair, i, hi) && i <= hi && s[i] == '(' && pair[i] == hi
    ensures Content(Rec(s, pair, i, hi)) == Content(s[i..hi + 1])
    decreases hi - i + 1, 0
  {
    UnfoldTail(s, pair, i, hi);
    TailContentFrom(s, pair, i, hi, Rec(s, pair, i, hi));
  }

  /** The kept-pair case once `Rec` is unfolded: the pair at `a - 1` has its
      mate at `j`, and the span goes on to `hi`. */
  lemma {:induction false} PairContentFrom(s: string, pair: map<nat, nat>, a: nat, j: nat, hi: int,
                                           inner: string, rest: string, w: string, span: string)
    requires 0 < a <= j <= hi < |s| && s[a - 1] == '(' && s[j] == ')'
    requires Nested(s, pair, a, j - 1) && Nested(s, pair, j + 1, hi)
    requires inner == Rec(s, pair, a, j - 1) && rest == Rec(s, pair, j + 1, hi)
    requires w == "(" + inner + ")" + rest && span == s[a - 1..hi + 1]
    ensures Content(w) == Content(span)
    decreases hi - a + 1, 2
  {
    SplitSpan(s, a - 1, j, hi);
    RecContent(s, pair, a, j - 1);
    RecContent(s, pair, j + 1, hi);
    ContentPairCase(span, s[a..j - 1 + 1], s[j + 1..hi + 1], inner, rest, w);
  }

  lemma {:induction false} RecContentPair(s: string, pair: map<nat, nat>, i: nat, hi: int)
    requires Nested(s, pair, i, hi) && i <= hi && s[i] == '(' && pair[i] != hi
    ensures Content(Rec(s, pair, i, hi)) == Content(s[i..hi + 1])
    decreases hi - i + 1, 0
  {
    var j, inner, rest := UnfoldPairAt(s, pair, i, hi);
    PairContentFrom(s, pair, i + 1, j, hi, inner, rest, Rec(s, pair, i, hi), s[i..hi + 1]);
  }

  lemma {:induction false} RecContentCopy(s: string, pair: map<nat, nat>, i: nat, hi: int)
    requires Nested(s, pair, i, hi) && i <= hi && s[i] != '('
    ensures Content(Rec(s, pair, i, hi)) == Content(s[i..hi + 1])
    decreases hi - i + 1, 0
  {
    UnfoldCopy(s, pair, i, hi);
    RecContent(s, pair, i + 1, hi);
    assert s[i..hi + 1] == [s[i]] + s[i + 1..hi + 1];
    ContentCopyCase(s[i..hi + 1], s[i], s[i + 1..hi + 1], Rec(s, pair, i + 1, hi), Rec(s, pair, i, hi));
  }

  /** On dot-free input, compression never writes two dots in a row, so each
      dot it writes reads back as a scope opener. */
  lemma {:induction false} RecNoDoubleDot(s: string, pair: map<nat, nat>, i: nat, hi: int)
    requires Nested(s, pair, i, hi) && DotFree(s)
    ensures NoDoubleDot(Rec(s, pair, i, hi))
    decreases hi - i + 1
  {
    if i <= hi {
      if s[i] == '(' {
        var j := pair[i];
        var inner := Rec(s, pair, i + 1, j - 1);
        RecNoDoubleDot(s, pair, i + 1, j - 1);
        if j == hi {
          var x := ". " + inner;
          NoDoubleDotConcat(". ", inner);
          NoDoubleDotPrefix(x, |TrimEnd(x)|);
        } else {
          var rest := Rec(s, pair, j + 1, hi);
          RecNoDoubleDot(s, pair, j + 1, hi);
          NoDoubleDotConcat("(", inner);
          NoDoubleDotConcat("(" + inner, ")");
          NoDoubleDotConcat("(" + inner + ")", rest);
        }
      } else {
        RecNoDoubleDot(s, pair, i + 1, hi);
        NoDoubleDotConcat([s[i]], Rec(s, pair, i + 1, hi));
      }
    }
  }

  /** Tail-position rule: on dot-free input, a span's output starts with a dot
      exactly when the span is one bracket pair, that is, the `(` at its start
      is closed by its last character. */
  lemma {:induction false} RecStartsWithDot(s: string, pair: map<nat, nat>, i: nat, hi: int)
    requires Nested(s, pair, i, hi) && DotFree(s)
    ensures var r := Rec(s, pair, i, hi);
      (|r| > 0 && r[0] == '.') <==> (i <= hi && s[i] == '(' && pair[i] == hi)
  {
    if i <= hi && s[i] == '(' && pair[i] == hi {
      var x := ". " + Rec(s, pair, i + 1, hi - 1);
      var r := TrimEnd(x);
      assert |r| > 0 by {
        assert !IsSpace(x[0]);
        assert AllSpace(x[|r|..]);
      }
      assert r[0] == x[0];
    }
  }

  /** The two branches of `Tidy`, one lemma each. */
  lemma {:induction false} UnfoldTidyDot(w: string)
    requires RunBeforeDot(w)
    ensures Tidy(w) == " ." + Tidy(w[LeadingSpaces(w) + 1..])
    ensures w == (w[..LeadingSpaces(w)] + ".") + w[LeadingSpaces(w) + 1..]
  {
    var n := LeadingSpaces(w);
    SplitAt(w, n);
  }

  lemma {:induction false} SplitAt(w: string, n: nat)
    requires n < |w| && w[n] == '.'
    ensures w == (w[..n] + ".") + w[n + 1..]
  {
    assert w == w[..n] + [w[n]] + w[n + 1..];
  }

  lemma {:induction false} UnfoldTidyCopy(w: string)
    requires w != [] && !RunBeforeDot(w)
    ensures Tidy(w) == [w[0]] + Tidy(w[1..])
    ensures w == [w[0]] + w[1..]
  {
  }

  /** The regex replace never creates two dots in a row. */
  lemma {:induction false} TidyNoDoubleDot(w: string)
    requires NoDoubleDot(w)
    ensures NoDoubleDot(Tidy(w))
    decreases |w|
  {
    if w != [] {
      var n := LeadingSpaces(w);
      if RunBeforeDot(w) {
        NoDoubleDotSuffix(w, n + 1);
        TidyNoDoubleDot(w[n + 1..]);
        assert n + 1 < |w| ==> w[n + 1] != '.';
        NoDoubleDotConcat(" .", Tidy(w[n + 1..]));
      } else {
        NoDoubleDotSuffix(w, 1);
        TidyNoDoubleDot(w[1..]);
        assert |w| > 1 && w[0] == '.' ==> w[1] != '.';
        NoDoubleDotConcat([w[0]], Tidy(w[1..]));
      }
    }
  }

  /** The regex `/\s+\./` matches at the start of `w`: a non-empty
      whitespace run followed by a dot. */
  predicate RunBeforeDot(w: string) {
    |w| > 0 && IsSpace(w[0]) && LeadingSpaces(w) < |w| && w[LeadingSpaces(w)] == '.'
  }

  /** Whitespace directly before a dot is one space that does not itself
      follow whitespace: the shape the replace leaves behind. */
  predicate DotsSpaced(w: string) {
    forall k :: 0 < k < |w| && w[k] == '.' && IsSpace(w[k - 1]) ==>
      w[k - 1] == ' ' && (k == 1 || !IsSpace(w[k - 2]))
  }

  /** After the replace, every whitespace run before a dot is exactly one
      space, and no match is left at the start unless there was one. */
  lemma {:induction false} TidySpaced(w: string)
    ensures DotsSpaced(Tidy(w))
    ensures !RunBeforeDot(w) ==> !RunBeforeDot(Tidy(w))
    decreases |w|
  {
    if w != [] {
      var r := Tidy(w);
      if RunBeforeDot(w) {
        var rest := Tidy(w[LeadingSpaces(w) + 1..]);
        TidySpaced(w[LeadingSpaces(w) + 1..]);
        assert r == " ." + rest;
        forall k | 0 < k < |r| && r[k] == '.' && IsSpace(r[k - 1])
          ensures r[k - 1] == ' ' && (k == 1 || !IsSpace(r[k - 2]))
        {
          if k >= 3 {
            assert r[k] == rest[k - 2] && r[k - 1] == rest[k - 3];
            if k > 3 {
              assert r[k - 2] == rest[k - 4];
            }
          }
        }
      } else {
        var rest := Tidy(w[1..]);
        TidySpaced(w[1..]);
        TidyCopyHead(w, rest);
        ConsSpaced(w[0], rest);
      }
    }
  }

  /** The copy branch of `Tidy`, for `TidySpaced`: when `w` has no match at
      its start, neither has its tail, and a whitespace head of `w` is
      followed by no dot. */
  lemma {:induction false} TidyCopyHead(w: string, rest: string)
    requires w != [] && !RunBeforeDot(w) && rest == Tidy(w[1..])
    requires !RunBeforeDot(w[1..]) ==> !RunBeforeDot(rest)
    ensures Tidy(w) == [w[0]] + rest
    ensures IsSpace(w[0]) ==> !RunBeforeDot(rest) && (|rest| > 0 ==> rest[0] != '.')
    ensures !RunBeforeDot([w[0]] + rest)
  {
    UnfoldTidyCopy(w);
    if IsSpace(w[0]) {
      if |w| > 1 && IsSpace(w[1]) {
        assert LeadingSpaces(w) == 1 + LeadingSpaces(w[1..]);
      }
      assert !RunBeforeDot(w[1..]);
      assert |w| > 1 ==> w[1] != '.';
      var r := [w[0]] + rest;
      assert r[1..] == rest;
      assert LeadingSpaces(r) == 1 + LeadingSpaces(rest);
    }
  }

  /** Prefixing a character keeps the tidied shape, unless it is whitespace
      that lands before a dot or before a match. */
  lemma {:induction false} ConsSpaced(c: char, rest: string)
    requires DotsSpaced(rest)
    requires IsSpace(c) ==> !RunBeforeDot(rest) && (|rest| > 0 ==> rest[0] != '.')
    ensures DotsSpaced([c] + rest)
  {
    var r := [c] + rest;
    if IsSpace(c) && |rest| > 1 && IsSpace(rest[0]) && rest[1] == '.' {
      assert rest[1..][0] == '.';
      assert LeadingSpaces(rest) == 1;
    }
    forall k | 0 < k < |r| && r[k] == '.' && IsSpace(r[k - 1])
      ensures r[k - 1] == ' ' && (k == 1 || !IsSpace(r[k - 2]))
    {
      if k >= 2 {
        assert r[k] == rest[k - 1] && r[k - 1] == rest[k - 2];
        if k > 2 {
          assert r[k - 2] == rest[k - 3];
        }
      }
    }
  }

  lemma {:induction false} SpacedAt(w: string, k: nat)
    requires DotsSpaced(w) && 0 < k < |w| && w[k] == '.' && IsSpace(w[k - 1])
    ensures w[k - 1] == ' ' && (k == 1 || !IsSpace(w[k - 2]))
  {
  }

  /** In the tidied shape, a match at the start is a single space and its
      dot. */
  lemma {:induction false} SpacedRun(w: string)
    requires DotsSpaced(w) && RunBeforeDot(w)
    ensures LeadingSpaces(w) == 1 && w[0] == ' ' && w[1] == '.'
  {
    var n := LeadingSpaces(w);
    forall j | 0 <= j < n
      ensures IsSpace(w[j])
    {
      assert w[..n][j] == w[j];
    }
    SpacedAt(w, n);
  }

  lemma {:induction false} DotsSpacedSuffix(w: string, m: nat)
    requires DotsSpaced(w) && m <= |w|
    ensures DotsSpaced(w[m..])
  {
    var p := w[m..];
    forall k | 0 < k < |p| && p[k] == '.' && IsSpace(p[k - 1])
      ensures p[k - 1] == ' ' && (k == 1 || !IsSpace(p[k - 2]))
    {
      assert w[m + k] == p[k] && w[m + k - 1] == p[k - 1];
      if k >= 2 {
        assert w[m + k - 2] == p[k - 2];
      }
    }
  }

  /** Text already in the tidied shape is left alone; in particular text
      with no whitespace before any dot. */
  lemma {:induction false} TidyKeepsSpaced(w: string)
    requires DotsSpaced(w)
    ensures Tidy(w) == w
    decreases |w|
  {
    if w != [] {
      if RunBeforeDot(w) {
        SpacedRun(w);
        UnfoldTidyDot(w);
        DotsSpacedSuffix(w, 2);
        TidyKeepsSpaced(w[2..]);
        assert w == " ." + w[2..];
      } else {
        DotsSpacedSuffix(w, 1);
        TidyKeepsSpaced(w[1..]);
        assert w == [w[0]] + w[1..];
      }
    }
  }

  /** The replace is idempotent. */
  lemma {:induction false} TidyIdempotent(w: string)
    ensures Tidy(Tidy(w)) == Tidy(w)
  {
    TidySpaced(w);
    TidyKeepsSpaced(Tidy(w));
  }

  lemma {:induction false} LeadingSpacesBefore(sp: string, x: string)
    requires AllSpace(sp) && |x| > 0 && !IsSpace(x[0])
    ensures LeadingSpaces(sp + x) == |sp|
    decreases |sp|
  {
    if sp == [] {
      assert sp + x == x;
    } else {
      assert (sp + x)[1..] == sp[1..] + x;
      LeadingSpacesBefore(sp[1..], x);
    }
  }

  /** A whitespace run of any length before a dot becomes one space. */
  lemma {:induction false} TidyRun(sp: string, rest: string)
    requires |sp| > 0 && AllSpace(sp)
    ensures Tidy(sp + "." + rest) == " ." + Tidy(rest)
  {
    var w := sp + "." + rest;
    assert w == sp + ("." + rest);
    LeadingSpacesBefore(sp, "." + rest);
    assert w[0] == sp[0] && w[|sp|] == '.';
    assert w[|sp| + 1..] == rest;
  }

  /** `a` ends in a character that is not whitespace. */
  predicate EndsVisible(a: string) {
    |a| > 0 && !IsSpace(a[|a| - 1])
  }

  lemma {:induction false} EndsVisibleSuffix(a: string, m: nat)
    requires EndsVisible(a) && m < |a|
    ensures EndsVisible(a[m..])
  {
    assert a[m..][|a| - m - 1] == a[|a| - 1];
  }

  lemma {:induction false} LeadingSpacesPrefix(a: string, b: string)
    requires EndsVisible(a)
    ensures LeadingSpaces(a + b) == LeadingSpaces(a) < |a|
    decreases |a|
  {
    if IsSpace(a[0]) {
      assert (a + b)[1..] == a[1..] + b;
      LeadingSpacesPrefix(a[1..], b);
    }
  }

  /** The replace works piece by piece: a cut after a non-whitespace
      character splits no match, because every match ends at its dot. */
  lemma {:induction false} TidyConcat(a: string, b: string)
    requires EndsVisible(a)
    ensures Tidy(a + b) == Tidy(a) + Tidy(b)
    decreases |a|, 1
  {
    LeadingSpacesPrefix(a, b);
    var n := LeadingSpaces(a);
    assert (a + b)[0] == a[0] && (a + b)[n] == a[n];
    if RunBeforeDot(a) {
      TidyConcatMatch(a, b);
    } else {
      TidyConcatCopy(a, b);
    }
  }

  lemma {:induction false} TidyConcatMatch(a: string, b: string)
    requires EndsVisible(a) && RunBeforeDot(a) && RunBeforeDot(a + b)
    requires LeadingSpaces(a + b) == LeadingSpaces(a)
    ensures Tidy(a + b) == Tidy(a) + Tidy(b)
    decreases |a|, 0
  {
    var w := a + b;
    var n := LeadingSpaces(a);
    UnfoldTidyDot(a);
    UnfoldTidyDot(w);
    SuffixOfConcat(a, b, n + 1);
    if n + 1 < |a| {
      EndsVisibleSuffix(a, n + 1);
      TidyConcat(a[n + 1..], b);
    } else {
      assert a[n + 1..] == [] && w[n + 1..] == b;
      assert Tidy(a[n + 1..]) == [];
    }
    JoinAfter(" .", Tidy(w), Tidy(a), Tidy(w[n + 1..]), Tidy(a[n + 1..]), Tidy(b));
  }

  lemma {:induction false} TidyConcatCopy(a: string, b: string)
    requires EndsVisible(a) && !RunBeforeDot(a) && !RunBeforeDot(a + b)
    ensures Tidy(a + b) == Tidy(a) + Tidy(b)
    decreases |a|, 0
  {
    var w := a + b;
    UnfoldTidyCopy(a);
    UnfoldTidyCopy(w);
    SuffixOfConcat(a, b, 1);
    if |a| > 1 {
      EndsVisibleSuffix(a, 1);
      TidyConcat(a[1..], b);
    } else {
      assert a[1..] == [] && w[1..] == b;
      assert Tidy(a[1..]) == [];
    }
    JoinAfter([a[0]], Tidy(w), Tidy(a), Tidy(w[1..]), Tidy(a[1..]), Tidy(b));
  }

  lemma {:induction false} SuffixOfConcat(a: string, b: string, m: nat)
    requires m <= |a|
    ensures (a + b)[m..] == a[m..] + b
  {
  }

  lemma {:induction false} JoinAfter(head: string, whole: string, left: string, tail: string, leftTail: string,
                   right: string)
    requires whole == head + tail && left == head + leftTail && tail == leftTail + right
    ensures whole == left + right
  {
  }
}
