/** Character classes and the string primitives the transcoder borrows from
    JavaScript: `trim`, `trimEnd`, and the whitespace class `\s`. */
module Text {

  /** The ECMAScript WhiteSpace and LineTerminator code points, which is the set
      that `String.prototype.trim`, `trimEnd` and the regex class `\s` share. */
  predicate IsSpace(c: char) {
    || c == ' ' || c == '\t' || c == '\n' || c == '\r'
    || c == '\U{000B}' || c == '\U{000C}' || c == '\U{00A0}' || c == '\U{1680}'
    || ('\U{2000}' <= c <= '\U{200A}')
    || c == '\U{2028}' || c == '\U{2029}' || c == '\U{202F}' || c == '\U{205F}'
    || c == '\U{3000}' || c == '\U{FEFF}'
  }

  /** Payload: everything except whitespace, parentheses and dots. */
  predicate IsPayload(c: char) {
    !IsSpace(c) && c != '(' && c != ')' && c != '.'
  }

  predicate AllSpace(s: string) {
    forall k :: 0 <= k < |s| ==> IsSpace(s[k])
  }

  /** Neither end of `s` is whitespace. */
  predicate NoEdgeSpace(s: string) {
    |s| > 0 ==> !IsSpace(s[0]) && !IsSpace(s[|s| - 1])
  }

  /** Length of the whitespace run at the start of `w`. */
  function LeadingSpaces(w: string): (n: nat)
    ensures n <= |w| && AllSpace(w[..n])
    ensures n < |w| ==> !IsSpace(w[n])
    decreases |w|
  {
    if |w| > 0 && IsSpace(w[0]) then
      var n := 1 + LeadingSpaces(w[1..]);
      assert w[..n] == [w[0]] + w[1..][..n - 1];
      n
    else 0
  }

  /** `String.prototype.trimStart`: `s` is whitespace followed by the result. */
  function TrimStart(s: string): (r: string)
    ensures |r| <= |s| && r == s[|s| - |r|..]
    ensures AllSpace(s[..|s| - |r|])
    ensures |r| > 0 ==> !IsSpace(r[0])
    decreases |s|
  {
    if |s| > 0 && IsSpace(s[0]) then
      var r := TrimStart(s[1..]);
      assert s[..|s| - |r|] == [s[0]] + s[1..][..|s| - 1 - |r|];
      r
    else s
  }

  /** `String.prototype.trimEnd`: the result followed by whitespace is `s`. */
  function TrimEnd(s: string): (r: string)
    ensures |r| <= |s| && r == s[..|r|]
    ensures AllSpace(s[|r|..])
    ensures |r| > 0 ==> !IsSpace(r[|r| - 1])
    decreases |s|
  {
    if |s| > 0 && IsSpace(s[|s| - 1]) then
      var r := TrimEnd(s[..|s| - 1]);
      assert s[|r|..] == s[..|s| - 1][|r|..] + [s[|s| - 1]];
      r
    else s
  }

  /** `String.prototype.trim`. */
  function Trim(s: string): (r: string)
    ensures |r| <= |s|
    ensures NoEdgeSpace(r)
  {
    var t := TrimStart(s);
    var r := TrimEnd(t);
    assert |r| > 0 ==> r[0] == t[0];
    r
  }

  /** `trimStart` cuts exactly the leading whitespace run. */
  lemma {:induction false} TrimStartLeading(s: string)
    ensures LeadingSpaces(s) <= |s| && TrimStart(s) == s[LeadingSpaces(s)..]
    decreases |s|
  {
    if |s| > 0 && IsSpace(s[0]) {
      TrimStartLeading(s[1..]);
      assert s[1..][LeadingSpaces(s[1..])..] == s[LeadingSpaces(s)..];
    }
  }

  /** What `trim` keeps: the slice of `s` that starts after its leading
      whitespace run and is followed by whitespace only. With `Trim`'s own
      contract (no whitespace at either end) this pins the result down. */
  lemma {:induction false} TrimSlice(s: string)
    ensures LeadingSpaces(s) + |Trim(s)| <= |s|
    ensures Trim(s) == s[LeadingSpaces(s)..LeadingSpaces(s) + |Trim(s)|]
    ensures AllSpace(s[LeadingSpaces(s) + |Trim(s)|..])
  {
    TrimStartLeading(s);
    UnfoldTrim(s);
    SliceAfter(s, LeadingSpaces(s), TrimStart(s), Trim(s));
  }

  lemma {:induction false} UnfoldTrim(s: string)
    ensures var t := TrimStart(s); var r := Trim(s);
      |r| <= |t| && r == t[..|r|] && AllSpace(t[|r|..])
  {
    assert Trim(s) == TrimEnd(TrimStart(s));
  }

  /** `r` followed by whitespace is `t`, and `t` is the suffix of `s` from
      `i`. */
  lemma {:induction false} SliceAfter(s: string, i: nat, t: string, r: string)
    requires i <= |s| && t == s[i..]
    requires |r| <= |t| && r == t[..|r|] && AllSpace(t[|r|..])
    ensures i + |r| <= |s| && r == s[i..i + |r|] && AllSpace(s[i + |r|..])
  {
    assert t[|r|..] == s[i + |r|..];
  }

  /** A string with no whitespace at either end is its own trim. */
  lemma {:induction false} TrimOfNoEdgeSpace(s: string)
    requires NoEdgeSpace(s)
    ensures Trim(s) == s
  {
    assert TrimStart(s) == s;
    assert TrimEnd(s) == s;
  }

  lemma {:induction false} TrimIdempotent(s: string)
    ensures Trim(Trim(s)) == Trim(s)
  {
    TrimOfNoEdgeSpace(Trim(s));
  }

  /** `s` with every whitespace character deleted. */
  function Strip(s: string): (r: string)
    ensures |r| <= |s|
    decreases |s|
  {
    if s == [] then [] else (if IsSpace(s[0]) then [] else [s[0]]) + Strip(s[1..])
  }

  /** The payload characters of `s`, in order. */
  function Payload(s: string): (r: string)
    ensures |r| <= |s|
    decreases |s|
  {
    if s == [] then [] else (if IsPayload(s[0]) then [s[0]] else []) + Payload(s[1..])
  }

  /** The payload of `s`: no whitespace, parentheses or dots. It depends on
      the non-whitespace characters alone. */
  function Content(s: string): string {
    Payload(Strip(s))
  }

  /** A single character keeps its payload, if it is payload. */
  lemma {:induction false} ContentChar(c: char)
    ensures Content([c]) == if IsPayload(c) then [c] else []
  {
    assert [c][1..] == [];
  }

  lemma {:induction false} StripAppend(a: string, b: string)
    ensures Strip(a + b) == Strip(a) + Strip(b)
    decreases |a|
  {
    if a == [] {
      assert a + b == b;
    } else {
      var head := if IsSpace(a[0]) then [] else [a[0]];
      assert (a + b)[0] == a[0];
      assert (a + b)[1..] == a[1..] + b;
      StripAppend(a[1..], b);
      calc {
        Strip(a + b);
        head + Strip(a[1..] + b);
        head + (Strip(a[1..]) + Strip(b));
        (head + Strip(a[1..])) + Strip(b);
      }
    }
  }

  lemma {:induction false} PayloadAppend(a: string, b: string)
    ensures Payload(a + b) == Payload(a) + Payload(b)
    decreases |a|
  {
    if a == [] {
      assert a + b == b;
    } else {
      var head := if IsPayload(a[0]) then [a[0]] else [];
      assert (a + b)[0] == a[0];
      assert (a + b)[1..] == a[1..] + b;
      PayloadAppend(a[1..], b);
      calc {
        Payload(a + b);
        head + Payload(a[1..] + b);
        head + (Payload(a[1..]) + Payload(b));
        (head + Payload(a[1..])) + Payload(b);
      }
    }
  }

  lemma {:induction false} StripConcat(a: string, b: string)
    ensures Strip(a + b) == Strip(a) + Strip(b)
    ensures Content(a + b) == Content(a) + Content(b)
  {
    StripAppend(a, b);
    PayloadAppend(Strip(a), Strip(b));
  }

  lemma {:induction false} StripAllSpace(w: string)
    requires AllSpace(w)
    ensures Strip(w) == []
    decreases |w|
  {
    if w != [] {
      StripAllSpace(w[1..]);
    }
  }

  /** Trimming changes whitespace only. */
  lemma {:induction false} StripTrimEnd(s: string)
    ensures Strip(TrimEnd(s)) == Strip(s)
    ensures Content(TrimEnd(s)) == Content(s)
  {
    var r := TrimEnd(s);
    assert s == r + s[|r|..];
    StripConcat(r, s[|r|..]);
    StripAllSpace(s[|r|..]);
  }

  lemma {:induction false} StripTrim(s: string)
    ensures Strip(Trim(s)) == Strip(s)
    ensures Content(Trim(s)) == Content(s)
  {
    var t := TrimStart(s);
    assert s == s[..|s| - |t|] + t;
    StripConcat(s[..|s| - |t|], t);
    StripAllSpace(s[..|s| - |t|]);
    StripTrimEnd(t);
  }

  /** Every character of `Trim(s)` occurs in `s`. */
  lemma {:induction false} TrimChars(s: string)
    ensures forall c :: c in Trim(s) ==> c in s
  {
    var t := TrimStart(s);
    var r := TrimEnd(t);
    forall c | c in r
      ensures c in s
    {
      assert c in t[..|r|];
      assert c in s[|s| - |t|..];
    }
  }

  /** No character of `s` is a dot. */
  predicate DotFree(s: string) {
    forall k :: 0 <= k < |s| ==> s[k] != '.'
  }

  /** No `.` is immediately followed by another `.`. */
  predicate NoDoubleDot(s: string) {
    forall i :: 0 <= i < |s| - 1 && s[i] == '.' ==> s[i + 1] != '.'
  }

  lemma {:induction false} NoDoubleDotConcat(a: string, b: string)
    requires NoDoubleDot(a) && NoDoubleDot(b)
    requires a == [] || b == [] || a[|a| - 1] != '.' || b[0] != '.'
    ensures NoDoubleDot(a + b)
  {
    var ab := a + b;
    forall i | 0 <= i < |ab| - 1 && ab[i] == '.'
      ensures ab[i + 1] != '.'
    {
      if i < |a| - 1 {
        assert ab[i] == a[i] && ab[i + 1] == a[i + 1];
      } else if i == |a| - 1 {
        assert ab[i + 1] == b[0];
      } else {
        assert ab[i] == b[i - |a|] && ab[i + 1] == b[i - |a| + 1];
      }
    }
  }

  lemma {:induction false} NoDoubleDotPrefix(s: string, n: nat)
    requires NoDoubleDot(s) && n <= |s|
    ensures NoDoubleDot(s[..n])
  {
    var p := s[..n];
    forall i | 0 <= i < |p| - 1 && p[i] == '.'
      ensures p[i + 1] != '.'
    {
      assert s[i] == p[i] && s[i + 1] == p[i + 1];
    }
  }

  lemma {:induction false} NoDoubleDotSuffix(s: string, n: nat)
    requires NoDoubleDot(s) && n <= |s|
    ensures NoDoubleDot(s[n..])
  {
    var p := s[n..];
    forall i | 0 <= i < |p| - 1 && p[i] == '.'
      ensures p[i + 1] != '.'
    {
      assert s[n + i] == p[i] && s[n + i + 1] == p[i + 1];
    }
  }

  /** Trailing whitespace never reaches back past a visible character. */
  lemma {:induction false} TrimEndAppend(a: string, b: string)
    requires |b| > 0 && !IsSpace(b[0])
    ensures TrimEnd(a + b) == a + TrimEnd(b)
    decreases |b|
  {
    var ab := a + b;
    assert ab[|ab| - 1] == b[|b| - 1];
    if IsSpace(b[|b| - 1]) {
      var b' := b[..|b| - 1];
      assert ab[..|ab| - 1] == a + b';
      TrimEndAppend(a, b');
    }
  }
}
