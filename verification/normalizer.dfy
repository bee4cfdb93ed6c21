/** The normalizer `trimOuterParens`: strip whitespace, then strip one
    enclosing `(`…`)` layer at a time for as long as the whole string is a
    single bracket pair. */
module Normalizer {
  import opened Text
  import opened Brackets

  /** The whole of `t` is one bracket pair: it opens with `(` and the depth
      first returns to zero at the very end. */
  predicate WrappedWhole(t: string) {
    && |t| > 0 && t[0] == '('
    && Depth(t, |t|) == 0
    && forall k :: 0 < k < |t| ==> Depth(t, k) != 0
  }

  lemma {:induction false} WrappedPositive(t: string, k: nat)
    requires WrappedWhole(t) && 0 < k < |t|
    ensures Depth(t, k) > 0
    decreases k
  {
    if k > 1 {
      WrappedPositive(t, k - 1);
    }
  }

  /** A whole pair ends in `)`. */
  lemma {:induction false} WrappedEnds(t: string)
    requires WrappedWhole(t)
    ensures |t| >= 2 && t[|t| - 1] == ')'
  {
    assert Depth(t, 1) == 1;
    WrappedPositive(t, |t| - 1);
  }

  /** What a whole pair encloses is balanced. */
  lemma {:induction false} WrappedMidBalanced(t: string)
    requires WrappedWhole(t) && |t| >= 2
    ensures Balanced(t[1..|t| - 1])
  {
    var n := |t|;
    var mid := t[1..n - 1];
    forall k | 0 <= k <= |mid|
      ensures Depth(mid, k) == Depth(t, 1 + k) - 1
    {
      DepthSlice(t, 1, n - 1, k);
    }
    forall k | 0 <= k <= |mid|
      ensures Depth(mid, k) >= 0
    {
      if 1 + k < n {
        WrappedPositive(t, 1 + k);
      }
    }
    assert Depth(t, 1) == 1;
    assert Depth(mid, |mid|) == Depth(t, n - 1) - 1;
  }

  /** What a whole pair encloses has the pair's payload and characters. */
  lemma {:induction false} WrappedMidContent(t: string)
    requires |t| >= 2 && t[0] == '(' && t[|t| - 1] == ')'
    ensures Content(t[1..|t| - 1]) == Content(t)
    ensures forall c :: c in t[1..|t| - 1] ==> c in t
  {
    var n := |t|;
    var mid := t[1..n - 1];
    assert t == [t[0]] + mid + [t[n - 1]];
    StripConcat([t[0]] + mid, [t[n - 1]]);
    StripConcat([t[0]], mid);
  }

  /** A whole pair ends in `)`, and what it encloses is balanced and has the
      same payload. */
  lemma {:induction false} WrappedMiddle(t: string)
    requires WrappedWhole(t)
    ensures |t| >= 2 && t[|t| - 1] == ')'
    ensures Balanced(t[1..|t| - 1])
    ensures Content(t[1..|t| - 1]) == Content(t)
    ensures forall c :: c in t[1..|t| - 1] ==> c in t
  {
    WrappedEnds(t);
    WrappedMidBalanced(t);
    WrappedMidContent(t);
  }

  /** The loop of `trimOuterParens` on an already trimmed string: while the
      whole string is one pair, drop the pair and trim again. */
  function Peel(t: string): (r: string)
    requires NoEdgeSpace(t)
    ensures NoEdgeSpace(r) && !WrappedWhole(r)
    ensures |r| <= |t|
    ensures Content(r) == Content(t)
    ensures forall c :: c in r ==> c in t
    ensures Balanced(t) ==> Balanced(r)
    decreases |t|
  {
    if WrappedWhole(t) then
      WrappedMiddle(t);
      var mid := t[1..|t| - 1];
      StripTrim(mid);
      TrimChars(mid);
      BalancedSameStrip(mid, Trim(mid));
      Peel(Trim(mid))
    else t
  }

  /** `trimOuterParens`. */
  function TrimOuter(s: string): (r: string)
    ensures NoEdgeSpace(r) && !WrappedWhole(r)
    ensures Content(r) == Content(s)
    ensures forall c :: c in r ==> c in s
    ensures Balanced(s) ==> Balanced(r)
  {
    StripTrim(s);
    TrimChars(s);
    BalancedSameStrip(s, Trim(s));
    Peel(Trim(s))
  }

  /** Where the depth walk stops decides whether the string is one pair: it
      stops at the first return to depth zero or at the end. */
  lemma {:induction false} WalkDecides(s: string, i: nat)
    requires |s| > 0 && s[0] == '(' && i <= |s|
    requires forall k :: 0 < k < i ==> Depth(s, k) != 0
    requires i == |s| || (Depth(s, i) == 0 && i != 0)
    ensures WrappedWhole(s) <==> Depth(s, i) == 0 && i == |s|
  {
  }

  /** One turn of the outer loop on a whole pair. */
  lemma {:induction false} PeelStep(s: string)
    requires NoEdgeSpace(s) && WrappedWhole(s)
    ensures |s| >= 2
    ensures NoEdgeSpace(Trim(s[1..|s| - 1]))
    ensures Peel(Trim(s[1..|s| - 1])) == Peel(s)
  {
    WrappedMiddle(s);
  }

  /** The source's inner `for` loop: walk the depth counter from the start
      until it first returns to zero or the string ends. It reports a whole
      pair exactly when the walk ends at depth zero at the very end. */
  method DepthWalk(s: string) returns (depth: int, i: nat)
    requires |s| > 0 && s[0] == '('
    ensures i <= |s| && depth == Depth(s, i)
    ensures i == |s| || (depth == 0 && i != 0)
    ensures forall k :: 0 < k < i ==> Depth(s, k) != 0
    ensures WrappedWhole(s) <==> depth == 0 && i == |s|
  {
    depth := 0;
    i := 0;
    while i < |s| && !(depth == 0 && i != 0)
      invariant 0 <= i <= |s|
      invariant depth == Depth(s, i)
      invariant forall k :: 0 < k < i ==> Depth(s, k) != 0
    {
      if s[i] == '(' {
        depth := depth + 1;
      } else if s[i] == ')' {
        depth := depth - 1;
      }
      i := i + 1;
    }
    WalkDecides(s, i);
  }

  /** The source's loop: trim, then while the string starts with `(`, strip
      the outer pair as long as the depth walk says it spans the whole
      string. */
  method TrimOuterParens(s0: string) returns (s: string)
    ensures s == TrimOuter(s0)
  {
    s := Trim(s0);
    while |s| > 0 && s[0] == '('
      invariant NoEdgeSpace(s)
      invariant Peel(s) == TrimOuter(s0)
      decreases |s|
    {
      var depth, i := DepthWalk(s);
      if depth == 0 && i == |s| {
        PeelStep(s);
        s := Trim(s[1..|s| - 1]);
      } else {
        break;
      }
    }
  }

  /** Applying the normalizer twice changes nothing. */
  lemma {:induction false} TrimOuterIdempotent(s: string)
    ensures TrimOuter(TrimOuter(s)) == TrimOuter(s)
  {
    var r := TrimOuter(s);
    TrimOfNoEdgeSpace(r);
    assert Peel(r) == r;
  }

  /** Beyond whitespace, the normalizer changes its input exactly when the
      trimmed input is one whole bracket pair. */
  lemma {:induction false} TrimOuterChangesOnlyWhole(s: string)
    ensures TrimOuter(s) == Trim(s) <==> !WrappedWhole(Trim(s))
  {
    var t := Trim(s);
    if WrappedWhole(t) {
      WrappedMiddle(t);
      assert |Peel(Trim(t[1..|t| - 1]))| <= |t| - 2;
    }
  }

  /** For balanced text opening with `(`, being one whole pair means the first
      `(` is closed by the last character. */
  lemma {:induction false} WrappedWholeIsMate(t: string)
    requires Balanced(t) && |t| > 0 && t[0] == '('
    ensures WrappedWhole(t) <==> Mate(t, 0) == |t| - 1
  {
    var j := Mate(t, 0);
    if WrappedWhole(t) {
      forall q | 0 < q <= |t| - 1
        ensures Depth(t, q) > Depth(t, 0)
      {
        WrappedPositive(t, q);
      }
      MateUnique(t, 0, |t| - 1);
    }
  }

  /** Two pairs side by side are not one whole pair. */
  lemma {:induction false} TrimOuterKeepsSidePairs()
    ensures TrimOuter("(p)(q)") == "(p)(q)"
  {
    var pq := "(p)(q)";
    assert NoEdgeSpace(pq);
    TrimOfNoEdgeSpace(pq);
    assert Depth(pq, 1) == 1;
    assert Depth(pq, 2) == 1;
    assert Depth(pq, 3) == 0;
    assert !WrappedWhole(pq);
  }

  /** An unclosed `(` is left alone. */
  lemma {:induction false} TrimOuterKeepsUnclosed()
    ensures TrimOuter("(a") == "(a"
  {
    var a := "(a";
    assert NoEdgeSpace(a);
    TrimOfNoEdgeSpace(a);
    assert Depth(a, 2) == 1;
    assert !WrappedWhole(a);
  }
}
