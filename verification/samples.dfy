/** Two worked compressions, each traced through the normaliser, the pair
    map, the span processor and the tidy-up. */
module Samples {
  import opened Text
  import opened Brackets
  import opened Normalizer
  import opened Compressor
  import opened RoundTrip

  /** Compression is the compression of the normalised text. */
  lemma {:induction false} CompressVia(b: string, t: string)
    requires Balanced(b) && TrimOuter(b) == t
    ensures Balanced(t) && Compress(b) == CompressTrimmed(t)
  {
  }

  /** Compression of normalised text through its stages: the pair map `m`,
      the span processor's output `w`, and the tidied result `r`. */
  lemma {:induction false} TrimmedVia(t: string, m: map<nat, nat>, w: string, r: string)
    requires Balanced(t) && Pairs(t) == m
    requires Nested(t, m, 0, |t| - 1) && Rec(t, m, 0, |t| - 1) == w && Tidy(w) == r
    ensures CompressTrimmed(t) == r
  {
    UnfoldTrimmed(t);
  }

  /** `"(a(bc))"` is one whole pair. */
  lemma {:induction false} NestedIsWhole()
    ensures WrappedWhole("(a(bc))")
  {
    var s := "(a(bc))";
    assert Depth(s, 1) == 1 && Depth(s, 2) == 1 && Depth(s, 3) == 2;
    assert Depth(s, 4) == 2 && Depth(s, 5) == 2 && Depth(s, 6) == 1 && Depth(s, 7) == 0;
    forall k | 0 < k < |s|
      ensures Depth(s, k) != 0
    {
      assert k == 1 || k == 2 || k == 3 || k == 4 || k == 5 || k == 6;
    }
  }

  /** The normaliser drops the outer pair of `"(a(bc))"` and stops. */
  lemma {:induction false} TrimOuterNested()
    ensures TrimOuter("(a(bc))") == "a(bc)"
  {
    var s := "(a(bc))";
    var t := "a(bc)";
    assert NoEdgeSpace(s);
    TrimOfNoEdgeSpace(s);
    NestedIsWhole();
    PeelStep(s);
    assert s[1..|s| - 1] == t;
    assert NoEdgeSpace(t);
    TrimOfNoEdgeSpace(t);
    assert !WrappedWhole(t);
  }

  /** `"a(bc)"` is balanced and its only pair is 1 to 4. */
  lemma {:induction false} PairsOfNested()
    ensures Balanced("a(bc)") && Pairs("a(bc)") == map[1 := 4]
  {
    var t := "a(bc)";
    assert Depth(t, 1) == 0 && Depth(t, 2) == 1 && Depth(t, 3) == 1;
    assert Depth(t, 4) == 1 && Depth(t, 5) == 0;
    forall k | 0 <= k <= |t|
      ensures Depth(t, k) >= 0
    {
      assert k == 0 || k == 1 || k == 2 || k == 3 || k == 4 || k == 5;
    }
    forall q | 1 < q <= 4
      ensures Depth(t, q) > Depth(t, 1)
    {
      assert q == 2 || q == 3 || q == 4;
    }
    MateUnique(t, 1, 4);
    forall i | 0 <= i < |t|
      ensures t[i] == '(' <==> i == 1
    {
      assert i == 0 || i == 1 || i == 2 || i == 3 || i == 4;
    }
    PairsUnique(t, map[1 := 4]);
  }

  /** The span processor on `"a(bc)"`: the pair ends the span, so it becomes
      a dot. */
  lemma {:induction false} RecNested()
    ensures Nested("a(bc)", map[1 := 4], 0, 4)
    ensures Rec("a(bc)", map[1 := 4], 0, 4) == "a. bc"
  {
    var t, m := "a(bc)", map[1 := 4];
    assert Nested(t, m, 4, 3) && Nested(t, m, 5, 4);
    assert Nested(t, m, 3, 3);
    assert Nested(t, m, 2, 3);
    assert Nested(t, m, 1, 4);
    assert Nested(t, m, 0, 4);
    assert Rec(t, m, 3, 3) == "c";
    assert Rec(t, m, 2, 3) == "bc";
    assert TrimEnd(". bc") == ". bc";
    assert Rec(t, m, 1, 4) == ". bc";
  }

  /** Tidying leaves a character in front of tidy text alone unless it is
      whitespace that, with what follows, runs into a dot. */
  lemma {:induction false} TidyKeeps(c: char, w: string)
    requires Tidy(w) == w
    requires !IsSpace(c) || (w != [] && !IsSpace(w[0]) && w[0] != '.')
    ensures Tidy([c] + w) == [c] + w
  {
    var v := [c] + w;
    assert v[1..] == w;
    if IsSpace(c) {
      assert LeadingSpaces(w) == 0;
      assert LeadingSpaces(v) == 1;
    }
    UnfoldTidyCopy(v);
  }

  /** The text after the dot of `"a. bc"` is tidy. */
  lemma {:induction false} TidyLetters()
    ensures Tidy(" bc") == " bc"
  {
    assert Tidy("") == "";
    TidyKeeps('c', "");
    TidyKeeps('b', "c");
    TidyKeeps(' ', "bc");
  }

  /** No whitespace stands before the dot of `"a. bc"`, so tidying keeps it. */
  lemma {:induction false} TidyNested()
    ensures Tidy("a. bc") == "a. bc"
  {
    TidyLetters();
    TidyKeeps('.', " bc");
    TidyKeeps('a', ". bc");
  }

  lemma {:induction false} BalancedNested()
    ensures Balanced("(a(bc))")
  {
    var s := "(a(bc))";
    assert Depth(s, 1) == 1 && Depth(s, 2) == 1 && Depth(s, 3) == 2;
    assert Depth(s, 4) == 2 && Depth(s, 5) == 2 && Depth(s, 6) == 1 && Depth(s, 7) == 0;
    forall k | 0 <= k <= |s|
      ensures Depth(s, k) >= 0
    {
      assert k == 0 || k == 1 || k == 2 || k == 3 || k == 4 || k == 5 || k == 6 || k == 7;
    }
  }

  /** The normalised text `"a(bc)"` compresses to `"a. bc"`. */
  lemma {:induction false} TrimmedNested()
    ensures Balanced("a(bc)") && CompressTrimmed("a(bc)") == "a. bc"
  {
    PairsOfNested();
    RecNested();
    TidyNested();
    TrimmedVia("a(bc)", map[1 := 4], "a. bc", "a. bc");
  }

  /** `churchCompress("(a(bc))")` is `"a. bc"`. */
  lemma {:induction false} CompressNested()
    ensures Balanced("(a(bc))") && Compress("(a(bc))") == "a. bc"
  {
    BalancedNested();
    TrimOuterNested();
    CompressVia("(a(bc))", "a(bc)");
    TrimmedNested();
  }

  /** `"((p)(q))"` is one whole pair. */
  lemma {:induction false} SidePairsIsWhole()
    ensures WrappedWhole("((p)(q))")
  {
    var s := "((p)(q))";
    assert Depth(s, 1) == 1 && Depth(s, 2) == 2 && Depth(s, 3) == 2 && Depth(s, 4) == 1;
    assert Depth(s, 5) == 2 && Depth(s, 6) == 2 && Depth(s, 7) == 1 && Depth(s, 8) == 0;
    forall k | 0 < k < |s|
      ensures Depth(s, k) != 0
    {
      assert k == 1 || k == 2 || k == 3 || k == 4 || k == 5 || k == 6 || k == 7;
    }
  }

  /** The normaliser drops the outer pair of `"((p)(q))"` and keeps the two
      pairs side by side. */
  lemma {:induction false} TrimOuterSidePairs()
    ensures TrimOuter("((p)(q))") == "(p)(q)"
  {
    var s := "((p)(q))";
    var t := "(p)(q)";
    assert NoEdgeSpace(s);
    TrimOfNoEdgeSpace(s);
    SidePairsIsWhole();
    PeelStep(s);
    assert s[1..|s| - 1] == t;
    TrimOuterKeepsSidePairs();
    assert NoEdgeSpace(t);
    TrimOfNoEdgeSpace(t);
  }

  /** `"(p)(q)"` is balanced, with pairs 0 to 2 and 3 to 5. */
  lemma {:induction false} PairsOfSidePairs()
    ensures Balanced("(p)(q)") && Pairs("(p)(q)") == map[0 := 2, 3 := 5]
  {
    var t := "(p)(q)";
    assert Depth(t, 1) == 1 && Depth(t, 2) == 1 && Depth(t, 3) == 0;
    assert Depth(t, 4) == 1 && Depth(t, 5) == 1 && Depth(t, 6) == 0;
    forall k | 0 <= k <= |t|
      ensures Depth(t, k) >= 0
    {
      assert k == 0 || k == 1 || k == 2 || k == 3 || k == 4 || k == 5 || k == 6;
    }
    forall q | 0 < q <= 2
      ensures Depth(t, q) > Depth(t, 0)
    {
      assert q == 1 || q == 2;
    }
    forall q | 3 < q <= 5
      ensures Depth(t, q) > Depth(t, 3)
    {
      assert q == 4 || q == 5;
    }
    MateUnique(t, 0, 2);
    MateUnique(t, 3, 5);
    forall i | 0 <= i < |t|
      ensures t[i] == '(' <==> i == 0 || i == 3
    {
      assert i == 0 || i == 1 || i == 2 || i == 3 || i == 4 || i == 5;
    }
    PairsUnique(t, map[0 := 2, 3 := 5]);
  }

  /** The span processor on `"(p)(q)"`: the first pair is kept, the second
      ends the span and becomes a dot. */
  lemma {:induction false} RecSidePairs()
    ensures Nested("(p)(q)", map[0 := 2, 3 := 5], 0, 5)
    ensures Rec("(p)(q)", map[0 := 2, 3 := 5], 0, 5) == "(p). q"
  {
    var t, m := "(p)(q)", map[0 := 2, 3 := 5];
    assert Nested(t, m, 2, 1) && Nested(t, m, 1, 1);
    assert Nested(t, m, 5, 4) && Nested(t, m, 4, 4);
    assert Nested(t, m, 6, 5) && Nested(t, m, 3, 5);
    assert Nested(t, m, 0, 5);
    assert Rec(t, m, 1, 1) == "p";
    assert Rec(t, m, 4, 4) == "q";
    assert TrimEnd(". q") == ". q";
    assert Rec(t, m, 3, 5) == ". q";
  }

  /** The text after the dot of `"(p). q"` is tidy. */
  lemma {:induction false} TidyLetter()
    ensures Tidy(" q") == " q"
  {
    assert Tidy("") == "";
    TidyKeeps('q', "");
    TidyKeeps(' ', "q");
  }

  /** No whitespace stands before the dot of `"(p). q"`, so tidying keeps it. */
  lemma {:induction false} TidySidePairs()
    ensures Tidy("(p). q") == "(p). q"
  {
    TidyLetter();
    TidyKeeps('.', " q");
    TidyKeeps(')', ". q");
    TidyKeeps('p', "). q");
    TidyKeeps('(', "p). q");
  }

  lemma {:induction false} BalancedSidePairs()
    ensures Balanced("((p)(q))")
  {
    var s := "((p)(q))";
    assert Depth(s, 1) == 1 && Depth(s, 2) == 2 && Depth(s, 3) == 2 && Depth(s, 4) == 1;
    assert Depth(s, 5) == 2 && Depth(s, 6) == 2 && Depth(s, 7) == 1 && Depth(s, 8) == 0;
    forall k | 0 <= k <= |s|
      ensures Depth(s, k) >= 0
    {
      assert k == 0 || k == 1 || k == 2 || k == 3 || k == 4 || k == 5 || k == 6 || k == 7 || k == 8;
    }
  }

  /** The normalised text `"(p)(q)"` compresses to `"(p). q"`. */
  lemma {:induction false} TrimmedSidePairs()
    ensures Balanced("(p)(q)") && CompressTrimmed("(p)(q)") == "(p). q"
  {
    PairsOfSidePairs();
    RecSidePairs();
    TidySidePairs();
    TrimmedVia("(p)(q)", map[0 := 2, 3 := 5], "(p). q", "(p). q");
  }

  /** `churchCompress("((p)(q))")` is `"(p). q"`. */
  lemma {:induction false} CompressSidePairs()
    ensures Balanced("((p)(q))") && Compress("((p)(q))") == "(p). q"
  {
    BalancedSidePairs();
    TrimOuterSidePairs();
    CompressVia("((p)(q))", "(p)(q)");
    TrimmedSidePairs();
  }
}
