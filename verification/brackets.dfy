/** Parenthesis depth, balance, and the pair matcher that sends each `(` to
    its `)`. */
module Brackets {
  import opened Text

  function Delta(c: char): int {
    if c == '(' then 1 else if c == ')' then -1 else 0
  }

  /** Nesting depth after the first `k` characters of `s`; every character
      other than a parenthesis leaves it unchanged. */
  function Depth(s: string, k: nat): int
    requires k <= |s|
  {
    if k == 0 then 0 else Depth(s, k - 1) + Delta(s[k - 1])
  }

  /** Every prefix has at least as many `(` as `)`, and the whole has as many. */
  predicate Balanced(s: string) {
    && Depth(s, |s|) == 0
    && forall k :: 0 <= k <= |s| ==> Depth(s, k) >= 0
  }

  /** Read from depth `d`, `s` never goes below depth 0 and ends at depth `e`.
      This is the front-to-back form of `Balanced` used for concatenations. */
  predicate BalTo(s: string, d: int, e: int)
    decreases |s|
  {
    if s == [] then d == e else d + Delta(s[0]) >= 0 && BalTo(s[1..], d + Delta(s[0]), e)
  }

  lemma {:induction false} BalToConcat(a: string, b: string, d: int, m: int, e: int)
    requires BalTo(a, d, m) && BalTo(b, m, e)
    ensures BalTo(a + b, d, e)
    decreases |a|
  {
    if a == [] {
      assert a + b == b;
    } else {
      assert (a + b)[0] == a[0];
      assert (a + b)[1..] == a[1..] + b;
      BalToConcat(a[1..], b, d + Delta(a[0]), m, e);
    }
  }

  lemma {:induction false} BalToShift(s: string, d: int, e: int)
    requires BalTo(s, d, e)
    ensures BalTo(s, d + 1, e + 1)
    decreases |s|
  {
    if s != [] {
      BalToShift(s[1..], d + Delta(s[0]), e);
    }
  }

  /** Deleting whitespace does not change balance. */
  lemma {:induction false} BalToStrip(s: string, d: int, e: int)
    requires d >= 0
    ensures BalTo(s, d, e) <==> BalTo(Strip(s), d, e)
    decreases |s|
  {
    if s != [] {
      if IsSpace(s[0]) {
        assert Strip(s) == Strip(s[1..]);
        BalToStrip(s[1..], d, e);
      } else {
        assert Strip(s) == [s[0]] + Strip(s[1..]);
        assert Strip(s)[0] == s[0];
        assert Strip(s)[1..] == Strip(s[1..]);
        if d + Delta(s[0]) >= 0 {
          BalToStrip(s[1..], d + Delta(s[0]), e);
        }
      }
    }
  }

  lemma {:induction false} DepthCons(s: string, k: nat)
    requires k < |s|
    ensures Depth(s, k + 1) == Delta(s[0]) + Depth(s[1..], k)
    decreases k
  {
    if k > 0 {
      DepthCons(s, k - 1);
      assert s[1..][k - 1] == s[k];
    }
  }

  /** Every prefix of `s` read from depth `d` stays at or above depth 0. */
  predicate NeverBelow(s: string, d: int) {
    forall k :: 0 <= k <= |s| ==> d + Depth(s, k) >= 0
  }

  lemma {:induction false} BalToDepth(s: string, d: int, e: int)
    requires d >= 0
    ensures BalTo(s, d, e) <==> NeverBelow(s, d) && d + Depth(s, |s|) == e
    decreases |s|
  {
    if s != [] {
      var d' := d + Delta(s[0]);
      var t := s[1..];
      forall k | 0 <= k < |s|
        ensures Depth(s, k + 1) == Delta(s[0]) + Depth(t, k)
      {
        DepthCons(s, k);
      }
      assert d + Depth(s, 1) == d';
      assert d + Depth(s, |s|) == d' + Depth(t, |t|);
      if d' >= 0 {
        BalToDepth(t, d', e);
        assert NeverBelow(t, d') ==> NeverBelow(s, d) by {
          if NeverBelow(t, d') {
            forall k | 0 <= k <= |s|
              ensures d + Depth(s, k) >= 0
            {
              if k > 0 {
                assert d + Depth(s, k) == d' + Depth(t, k - 1);
              }
            }
          }
        }
        assert NeverBelow(s, d) ==> NeverBelow(t, d') by {
          if NeverBelow(s, d) {
            forall k | 0 <= k <= |t|
              ensures d' + Depth(t, k) >= 0
            {
              assert d' + Depth(t, k) == d + Depth(s, k + 1);
            }
          }
        }
      } else {
        assert !NeverBelow(s, d);
      }
    }
  }

  lemma {:induction false} BalancedIsBalTo(s: string)
    ensures Balanced(s) <==> BalTo(s, 0, 0)
  {
    BalToDepth(s, 0, 0);
    forall k | 0 <= k <= |s|
      ensures 0 + Depth(s, k) == Depth(s, k)
    {
    }
  }

  /** Balance is a property of the non-whitespace characters alone. */
  lemma {:induction false} BalancedStrip(s: string)
    ensures Balanced(s) <==> Balanced(Strip(s))
  {
    BalancedIsBalTo(s);
    BalancedIsBalTo(Strip(s));
    BalToStrip(s, 0, 0);
  }

  /** Two strings with the same non-whitespace characters are balanced together. */
  lemma {:induction false} BalancedSameStrip(a: string, b: string)
    requires Strip(a) == Strip(b)
    ensures Balanced(a) <==> Balanced(b)
  {
    BalancedStrip(a);
    BalancedStrip(b);
  }

  lemma {:induction false} DepthSlice(s: string, a: nat, b: nat, k: nat)
    requires a <= b <= |s| && k <= b - a
    ensures Depth(s[a..b], k) == Depth(s, a + k) - Depth(s, a)
    decreases k
  {
    if k > 0 {
      DepthSlice(s, a, b, k - 1);
      assert s[a..b][k - 1] == s[a + k - 1];
    }
  }

  /** `[lo, hi]` is a balanced stretch of `s`: the depth never drops below its
      level at `lo` and is back at that level after `hi`. An empty span has
      `hi == lo - 1`. */
  predicate SpanOK(s: string, lo: int, hi: int) {
    && 0 <= lo <= hi + 1 <= |s|
    && Depth(s, hi + 1) == Depth(s, lo)
    && forall q :: lo <= q <= hi + 1 ==> Depth(s, q) >= Depth(s, lo)
  }

  lemma {:induction false} SpanIsBalanced(s: string, lo: int, hi: int)
    requires SpanOK(s, lo, hi)
    ensures Balanced(s[lo..hi + 1])
  {
    var t := s[lo..hi + 1];
    forall k | 0 <= k <= |t|
      ensures Depth(t, k) == Depth(s, lo + k) - Depth(s, lo)
    {
      DepthSlice(s, lo, hi + 1, k);
    }
  }

  /** Searches forward from `j` for the first index after `i` where the depth
      falls back to the level before `i`. */
  function MateFrom(s: string, i: nat, j: nat): (m: nat)
    requires Balanced(s) && i < j < |s| && s[i] == '('
    requires forall q :: i < q <= j ==> Depth(s, q) > Depth(s, i)
    ensures j <= m < |s| && Depth(s, m + 1) == Depth(s, i)
    ensures forall q :: i < q <= m ==> Depth(s, q) > Depth(s, i)
    decreases |s| - j
  {
    if Depth(s, j + 1) == Depth(s, i) then j
    else
      assert Depth(s, j + 1) > Depth(s, i);
      assert j + 1 < |s|;
      MateFrom(s, i, j + 1)
  }

  /** The index of the `)` that closes the `(` at `i`: the first later index
      after which the depth is back to its level before `i`. */
  function Mate(s: string, i: nat): (j: nat)
    requires Balanced(s) && i < |s| && s[i] == '('
    ensures i < j < |s| && s[j] == ')'
    ensures Depth(s, j + 1) == Depth(s, i)
    ensures forall q :: i < q <= j ==> Depth(s, q) > Depth(s, i)
  {
    assert Depth(s, i + 1) == Depth(s, i) + 1;
    var j := MateFrom(s, i, i + 1);
    assert Depth(s, j) > Depth(s, i);
    j
  }

  /** A close index with the mate's two defining facts is the mate. */
  lemma {:induction false} MateUnique(s: string, i: nat, j: nat)
    requires Balanced(s) && i < j < |s| && s[i] == '('
    requires Depth(s, j + 1) == Depth(s, i)
    requires forall q :: i < q <= j ==> Depth(s, q) > Depth(s, i)
    ensures Mate(s, i) == j
  {
    var m := Mate(s, i);
    assert Depth(s, m + 1) == Depth(s, i);
    assert Depth(s, j + 1) == Depth(s, i);
  }

  /** The text strictly between a pair is itself balanced. */
  lemma {:induction false} MateInteriorBalanced(s: string, i: nat)
    requires Balanced(s) && i < |s| && s[i] == '('
    ensures Balanced(s[i + 1..Mate(s, i)])
  {
    var j := Mate(s, i);
    assert Depth(s, j) == Depth(s, i) + 1;
    assert SpanOK(s, i + 1, j - 1);
    SpanIsBalanced(s, i + 1, j - 1);
  }

  /** A `(` at the start of a balanced span closes inside the span, and both
      its interior and what follows it are balanced spans again. */
  lemma {:induction false} MateInSpan(s: string, i: nat, hi: int)
    requires Balanced(s) && SpanOK(s, i, hi) && i <= hi && s[i] == '('
    ensures Mate(s, i) <= hi
    ensures SpanOK(s, i + 1, Mate(s, i) - 1)
    ensures SpanOK(s, Mate(s, i) + 1, hi)
  {
    var j := Mate(s, i);
    assert Depth(s, hi + 1) == Depth(s, i);
    assert Depth(s, i + 1) == Depth(s, i) + 1;
    assert Depth(s, j) == Depth(s, i) + 1;
  }

  /** The source's pair map: every `(` index mapped to its mate. */
  predicate PairsAreMates(s: string, pair: map<nat, nat>)
    requires Balanced(s)
  {
    && (forall i :: 0 <= i < |s| && s[i] == '(' ==> i in pair && pair[i] == Mate(s, i))
    && (forall i :: i in pair ==> i < |s| && s[i] == '(')
  }

  /** The pair map of balanced `s` as a value: each `(` index to its mate. */
  function Pairs(s: string): (pair: map<nat, nat>)
    requires Balanced(s)
    ensures PairsAreMates(s, pair)
  {
    map i: nat | i < |s| && s[i] == '(' :: Mate(s, i)
  }

  /** Only one map sends every `(` to its mate and has no other keys. */
  lemma {:induction false} PairsUnique(s: string, pair: map<nat, nat>)
    requires Balanced(s) && PairsAreMates(s, pair)
    ensures pair == Pairs(s)
  {
    var p := Pairs(s);
    assert pair.Keys == p.Keys;
    forall i | i in pair
      ensures pair[i] == p[i]
    {
    }
  }

  /** The stack of still-open positions after reading `s[..k]`: entry `m` is
      the `(` that opened depth `m + 1`, not yet closed. */
  predicate OpenStack(s: string, k: nat, stack: seq<nat>)
    requires k <= |s|
  {
    && |stack| == Depth(s, k)
    && forall m :: 0 <= m < |stack| ==>
      && stack[m] < k && s[stack[m]] == '(' && Depth(s, stack[m]) == m
      && forall q :: stack[m] < q <= k ==> Depth(s, q) > m
  }

  /** The map built so far holds exactly the closed pairs of `s[..k]`. */
  predicate ClosedPairs(s: string, k: nat, stack: seq<nat>, pair: map<nat, nat>)
    requires Balanced(s) && k <= |s|
  {
    && (forall p :: p in pair ==> p < k && s[p] == '(' && pair[p] == Mate(s, p))
    && (forall p :: 0 <= p < k && s[p] == '(' && p !in stack ==> p in pair)
  }

  lemma {:induction false} PushStep(s: string, k: nat, stack: seq<nat>, pair: map<nat, nat>)
    requires Balanced(s) && k < |s| && s[k] == '('
    requires OpenStack(s, k, stack) && ClosedPairs(s, k, stack, pair)
    ensures OpenStack(s, k + 1, stack + [k]) && ClosedPairs(s, k + 1, stack + [k], pair)
  {
    PushOpen(s, k, stack);
    PushClosed(s, k, stack, pair);
  }

  lemma {:induction false} PushOpen(s: string, k: nat, stack: seq<nat>)
    requires k < |s| && s[k] == '(' && OpenStack(s, k, stack)
    ensures OpenStack(s, k + 1, stack + [k])
  {
    assert Depth(s, k + 1) == Depth(s, k) + 1;
    var st := stack + [k];
    forall m | 0 <= m < |st|
      ensures st[m] < k + 1 && s[st[m]] == '(' && Depth(s, st[m]) == m
      ensures forall q :: st[m] < q <= k + 1 ==> Depth(s, q) > m
    {
      if m < |stack| {
        assert st[m] == stack[m];
        assert Depth(s, k + 1) > m;
      }
    }
  }

  lemma {:induction false} PushClosed(s: string, k: nat, stack: seq<nat>, pair: map<nat, nat>)
    requires Balanced(s) && k < |s| && s[k] == '(' && ClosedPairs(s, k, stack, pair)
    ensures ClosedPairs(s, k + 1, stack + [k], pair)
  {
    var st := stack + [k];
    forall p | 0 <= p < k + 1 && s[p] == '(' && p !in st
      ensures p in pair
    {
      assert p != k && p !in stack;
    }
  }

  /** Popping at a `)`: the top of the stack is the `(` it closes. */
  lemma {:induction false} PopMate(s: string, k: nat, stack: seq<nat>)
    requires Balanced(s) && k < |s| && s[k] == ')' && OpenStack(s, k, stack)
    ensures |stack| > 0 && Mate(s, stack[|stack| - 1]) == k
    ensures OpenStack(s, k + 1, stack[..|stack| - 1])
  {
    assert Depth(s, k + 1) == Depth(s, k) - 1;
    assert Depth(s, k + 1) >= 0;
    var top := |stack| - 1;
    var p := stack[top];
    assert Depth(s, p) == top;
    MateUnique(s, p, k);
    var st := stack[..top];
    forall m | 0 <= m < |st|
      ensures st[m] < k + 1 && s[st[m]] == '(' && Depth(s, st[m]) == m
      ensures forall q :: st[m] < q <= k + 1 ==> Depth(s, q) > m
    {
      assert st[m] == stack[m];
    }
  }

  lemma {:induction false} PopStep(s: string, k: nat, stack: seq<nat>, pair: map<nat, nat>)
    requires Balanced(s) && k < |s| && s[k] == ')'
    requires OpenStack(s, k, stack) && ClosedPairs(s, k, stack, pair)
    ensures |stack| > 0
    ensures var top := |stack| - 1;
      OpenStack(s, k + 1, stack[..top]) && ClosedPairs(s, k + 1, stack[..top], pair[stack[top] := k])
  {
    PopMate(s, k, stack);
    PopClosed(s, k, stack, pair);
  }

  lemma {:induction false} PopClosed(s: string, k: nat, stack: seq<nat>, pair: map<nat, nat>)
    requires Balanced(s) && k < |s| && s[k] == ')' && ClosedPairs(s, k, stack, pair)
    requires |stack| > 0 && stack[|stack| - 1] < k && s[stack[|stack| - 1]] == '('
    requires Mate(s, stack[|stack| - 1]) == k
    ensures var top := |stack| - 1;
      ClosedPairs(s, k + 1, stack[..top], pair[stack[top] := k])
  {
    var top := |stack| - 1;
    var p := stack[top];
    var st := stack[..top];
    assert stack == st + [p];
    var pr := pair[p := k];
    forall p' | p' in pr
      ensures p' < k + 1 && s[p'] == '(' && pr[p'] == Mate(s, p')
    {
      if p' != p {
        assert p' in pair;
      }
    }
    forall p' | 0 <= p' < k + 1 && s[p'] == '(' && p' !in st
      ensures p' in pr
    {
      if p' != p {
        assert p' < k && p' !in stack;
      }
    }
  }

  lemma {:induction false} SkipOpen(s: string, k: nat, stack: seq<nat>)
    requires k < |s| && s[k] != '(' && s[k] != ')' && OpenStack(s, k, stack)
    ensures OpenStack(s, k + 1, stack)
  {
    assert Depth(s, k + 1) == Depth(s, k);
    forall m | 0 <= m < |stack|
      ensures stack[m] < k + 1 && s[stack[m]] == '(' && Depth(s, stack[m]) == m
      ensures forall q :: stack[m] < q <= k + 1 ==> Depth(s, q) > m
    {
    }
  }

  lemma {:induction false} SkipStep(s: string, k: nat, stack: seq<nat>, pair: map<nat, nat>)
    requires Balanced(s) && k < |s| && s[k] != '(' && s[k] != ')'
    requires OpenStack(s, k, stack) && ClosedPairs(s, k, stack, pair)
    ensures OpenStack(s, k + 1, stack) && ClosedPairs(s, k + 1, stack, pair)
  {
    SkipOpen(s, k, stack);
  }

  /** One forward scan with a stack of open positions: `(` pushes its index,
      `)` pops the most recent one and maps it to the current index. */
  method PairMap(s: string) returns (pair: map<nat, nat>)
    requires Balanced(s)
    ensures PairsAreMates(s, pair)
    ensures pair == Pairs(s)
  {
    var stack: seq<nat> := [];
    pair := map[];
    var k := 0;
    while k < |s|
      invariant 0 <= k <= |s|
      invariant OpenStack(s, k, stack) && ClosedPairs(s, k, stack, pair)
    {
      if s[k] == '(' {
        PushStep(s, k, stack, pair);
        stack := stack + [k];
      } else if s[k] == ')' {
        PopStep(s, k, stack, pair);
        pair := pair[stack[|stack| - 1] := k];
        stack := stack[..|stack| - 1];
      } else {
        SkipStep(s, k, stack, pair);
      }
      k := k + 1;
    }
    PairsUnique(s, pair);
  }
}
