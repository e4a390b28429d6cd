/**
 * The pieces of Python's `str` that the preprocessing scripts rely on:
 * whitespace (`str.isspace`, the regular-expression class `\s`), `split()`,
 * `strip()`, `" ".join(...)`, per-character `lower()`, substring tests, and
 * the maximal runs of a character class that `re.findall` returns for
 * patterns such as `\b\w+\b`.
 */
module Text {

  /** A per-character case map, standing for Python's `str.lower`; the Unicode tables are not modelled. */
  type CharMap = char -> char

  /** A character class, standing for the regular-expression class `\w`; the Unicode tables are not modelled. */
  type CharClass = char -> bool

  /**
   * The characters Python treats as whitespace (`str.isspace`): the set used
   * by `str.split()`, `str.strip()` and, for `str` patterns, by `\s`.
   */
  predicate IsSpace(c: char) {
    || c == ' '
    || ('\t' <= c <= '\r')
    || ('\U{1c}' <= c <= '\U{1f}')
    || c == '\U{85}' || c == '\U{a0}' || c == '\U{1680}'
    || ('\U{2000}' <= c <= '\U{200a}')
    || c == '\U{2028}' || c == '\U{2029}' || c == '\U{202f}' || c == '\U{205f}' || c == '\U{3000}'
  }

  predicate NotSpace(c: char) {
    !IsSpace(c)
  }

  predicate AllSpace(s: string) {
    forall i :: 0 <= i < |s| ==> IsSpace(s[i])
  }

  /** A word as `str.split()` produces it: non-empty and free of whitespace. */
  predicate IsToken(w: string) {
    w != [] && forall i :: 0 <= i < |w| ==> NotSpace(w[i])
  }

  /**
   * Whitespace in normal form: no leading whitespace, and every whitespace
   * character is a plain space followed by a non-whitespace character (so no
   * trailing whitespace and no two whitespace characters in a row).
   */
  predicate Normalised(s: string) {
    && (s == [] || NotSpace(s[0]))
    && forall i :: 0 <= i < |s| && IsSpace(s[i]) ==> s[i] == ' ' && i + 1 < |s| && NotSpace(s[i + 1])
  }

  /** `s.lower()`, character by character. */
  function Lower(s: string, lower: CharMap): string {
    seq(|s|, i requires 0 <= i < |s| => lower(s[i]))
  }

  /** The characters of `s` that belong to class `p`, in order. */
  function Filter(s: string, p: CharClass): (r: string)
    ensures |r| <= |s|
    ensures forall i :: 0 <= i < |r| ==> p(r[i])
  {
    if s == [] then [] else (if p(s[0]) then [s[0]] else []) + Filter(s[1..], p)
  }

  lemma {:induction false} FilterAppend(a: string, b: string, p: CharClass)
    ensures Filter(a + b, p) == Filter(a, p) + Filter(b, p)
  {
    if a != [] {
      assert (a + b)[0] == a[0] && (a + b)[1..] == a[1..] + b;
      FilterAppend(a[1..], b, p);
    } else {
      assert a + b == b;
    }
  }

  /** A character survives the filter exactly when it occurs in `s` and belongs to `p`. */
  lemma {:induction false} FilterMember(s: string, p: CharClass, c: char)
    ensures c in Filter(s, p) <==> c in s && p(c)
  {
    if s != [] {
      FilterMember(s[1..], p, c);
      assert s == [s[0]] + s[1..];
    }
  }

  lemma {:induction false} FilterAllOf(s: string, p: CharClass)
    requires forall i :: 0 <= i < |s| ==> p(s[i])
    ensures Filter(s, p) == s
  {
    if s != [] {
      FilterAllOf(s[1..], p);
    }
  }

  lemma {:induction false} FilterNoneOf(s: string, p: CharClass)
    requires forall i :: 0 <= i < |s| ==> !p(s[i])
    ensures Filter(s, p) == []
  {
    if s != [] {
      FilterNoneOf(s[1..], p);
    }
  }

  /** The concatenation of a sequence of strings, `"".join(ws)`. */
  function Flatten(ws: seq<string>): string {
    if ws == [] then [] else ws[0] + Flatten(ws[1..])
  }

  /** The length of the longest prefix of `s` whose characters all belong to `p`. */
  function RunLength(s: string, p: CharClass): (k: nat)
    ensures k <= |s|
    ensures forall i :: 0 <= i < k ==> p(s[i])
    ensures k == |s| || !p(s[k])
  {
    if s != [] && p(s[0]) then 1 + RunLength(s[1..], p) else 0
  }

  /**
   * The maximal runs of characters of class `p`, left to right: what
   * `re.findall(r'\b\w+\b', s)` returns for `p` = `\w`, and what `s.split()`
   * returns for `p` = non-whitespace.
   */
  function Runs(s: string, p: CharClass): (rs: seq<string>)
    ensures forall i :: 0 <= i < |rs| ==> rs[i] != [] && forall j :: 0 <= j < |rs[i]| ==> p(rs[i][j])
    decreases |s|
  {
    if s == [] then []
    else if !p(s[0]) then Runs(s[1..], p)
    else
      var k := RunLength(s, p);
      [s[..k]] + Runs(s[k..], p)
  }

  /** The runs together hold exactly the characters of class `p`, in their order. */
  lemma {:induction false} RunsCover(s: string, p: CharClass)
    ensures Flatten(Runs(s, p)) == Filter(s, p)
    decreases |s|
  {
    if s == [] {
    } else if !p(s[0]) {
      RunsCover(s[1..], p);
    } else {
      var k := RunLength(s, p);
      RunsCover(s[k..], p);
      assert s == s[..k] + s[k..];
      FilterAppend(s[..k], s[k..], p);
      FilterAllOf(s[..k], p);
    }
  }

  /** Runs of `a + b` split at the boundary when `a` ends, or `b` starts, outside the class. */
  lemma {:induction false} RunsAppend(a: string, b: string, p: CharClass)
    requires a == [] || b == [] || !p(a[|a| - 1]) || !p(b[0])
    ensures Runs(a + b, p) == Runs(a, p) + Runs(b, p)
    decreases |a|
  {
    if a == [] {
      assert a + b == b;
    } else if !p(a[0]) {
      assert (a + b)[1..] == a[1..] + b;
      RunsAppend(a[1..], b, p);
    } else {
      var k := RunLength(a, p);
      var k' := RunLength(a + b, p);
      RunLengthAppend(a, b, p);
      assert k' == k;
      assert (a + b)[..k] == a[..k];
      assert (a + b)[k..] == a[k..] + b;
      RunsAppend(a[k..], b, p);
      assert Runs(a + b, p) == [a[..k]] + Runs(a[k..] + b, p);
      ConcatAssoc([a[..k]], Runs(a[k..], p), Runs(b, p));
    }
  }

  lemma {:induction false} RunLengthAppend(a: string, b: string, p: CharClass)
    requires a != []
    requires b == [] || !p(a[|a| - 1]) || !p(b[0])
    ensures RunLength(a + b, p) == RunLength(a, p)
    decreases |a|
  {
    if p(a[0]) && |a| > 1 {
      assert (a + b)[1..] == a[1..] + b;
      RunLengthAppend(a[1..], b, p);
    } else if p(a[0]) {
      assert (a + b)[1..] == b;
    }
  }

  /** A run that stops inside `a` is not lengthened by appending to `a`. */
  lemma {:induction false} RunLengthStops(a: string, b: string, p: CharClass)
    requires RunLength(a, p) < |a|
    ensures RunLength(a + b, p) == RunLength(a, p)
    decreases |a|
  {
    if p(a[0]) {
      assert (a + b)[0] == a[0] && (a + b)[1..] == a[1..] + b;
      RunLengthStops(a[1..], b, p);
    } else {
      assert (a + b)[0] == a[0];
    }
  }

  /** The run of a class over `a + b` is all of `a` when `a` lies in the class and `b` starts outside it. */
  lemma {:induction false} RunLengthPrefix(a: string, b: string, p: CharClass)
    requires forall i :: 0 <= i < |a| ==> p(a[i])
    requires b != [] && !p(b[0])
    ensures RunLength(a + b, p) == |a|
  {
    if a == [] {
      assert a + b == b;
    } else {
      assert (a + b)[0] == a[0] && (a + b)[1..] == a[1..] + b;
      RunLengthPrefix(a[1..], b, p);
    }
  }

  /** `s.split()`: the maximal runs of non-whitespace characters. */
  function Split(s: string): (ws: seq<string>)
    ensures forall i :: 0 <= i < |ws| ==> IsToken(ws[i])
  {
    Runs(s, NotSpace)
  }

  /** `" ".join(ws)`. */
  function Join(ws: seq<string>): (r: string)
    ensures ws != [] ==> |ws[0]| <= |r| && r[..|ws[0]|] == ws[0]
  {
    if ws == [] then "" else if |ws| == 1 then ws[0] else ws[0] + " " + Join(ws[1..])
  }

  /** Joining words with single spaces and splitting again gives the words back. */
  lemma {:induction false} SplitJoin(ws: seq<string>)
    requires forall i :: 0 <= i < |ws| ==> IsToken(ws[i])
    ensures Split(Join(ws)) == ws
  {
    if ws == [] {
    } else if |ws| == 1 {
      SplitToken(ws[0]);
    } else {
      SplitJoin(ws[1..]);
      SplitAfterWord(ws[0], Join(ws[1..]));
      assert [ws[0]] + ws[1..] == ws;
    }
  }

  lemma SplitToken(w: string)
    requires IsToken(w)
    ensures Split(w) == [w]
  {
    var k := RunLength(w, NotSpace);
    assert !(k < |w|);
    assert w[k..] == [] && w[..k] == w;
    assert Runs(w, NotSpace) == [w[..k]] + Runs(w[k..], NotSpace);
  }

  /** `" ".join` of split words has its whitespace in normal form. */
  lemma {:induction false} JoinNormalised(ws: seq<string>)
    requires forall i :: 0 <= i < |ws| ==> IsToken(ws[i])
    ensures Normalised(Join(ws))
  {
    if |ws| > 1 {
      JoinNormalised(ws[1..]);
      var w, rest := ws[0], Join(ws[1..]);
      var s := w + " " + rest;
      assert rest != [] by { JoinNonEmpty(ws[1..]); }
      forall i | 0 <= i < |s| && IsSpace(s[i])
        ensures s[i] == ' ' && i + 1 < |s| && NotSpace(s[i + 1])
      {
        if i > |w| {
          assert s[i] == rest[i - |w| - 1];
        }
      }
    }
  }

  lemma {:induction false} JoinNonEmpty(ws: seq<string>)
    requires ws != [] && IsToken(ws[0])
    ensures Join(ws) != [] && Join(ws)[0] == ws[0][0]
  {
  }

  /** A string with no character of the class has no runs. */
  lemma {:induction false} RunsNone(s: string, p: CharClass)
    requires forall i :: 0 <= i < |s| ==> !p(s[i])
    ensures Runs(s, p) == []
    decreases |s|
  {
    if s != [] {
      RunsNone(s[1..], p);
    }
  }

  /**
   * One more character of the class in front: it starts a run of its own
   * when `x` starts outside the class, and joins the first run of `x`
   * otherwise.
   */
  lemma RunsCons(c: char, x: string, p: CharClass)
    requires p(c)
    ensures x == [] || !p(x[0]) ==> Runs([c] + x, p) == [[c]] + Runs(x, p)
    ensures x != [] && p(x[0]) ==> Runs([c] + x, p) == [[c] + Runs(x, p)[0]] + Runs(x, p)[1..]
  {
    var s := [c] + x;
    assert s[1..] == x;
    var k := RunLength(x, p);
    assert RunLength(s, p) == k + 1;
    assert s[..k + 1] == [c] + x[..k] && s[k + 1..] == x[k..];
  }

  /** Two strings that split alike, both empty or both starting on the same side of the class, still do so after the same character of the class is put in front. */
  lemma RunsConsAlike(c: char, x: string, y: string, p: CharClass)
    requires p(c) && Runs(x, p) == Runs(y, p)
    requires (x == []) == (y == [])
    requires x != [] ==> (p(x[0]) <==> p(y[0]))
    ensures Runs([c] + x, p) == Runs([c] + y, p)
  {
    RunsCons(c, x, p);
    RunsCons(c, y, p);
  }

  /** Leading whitespace does not change the words. */
  lemma LeadingSpaces(s: string, k: nat)
    requires k <= |s| && forall i :: 0 <= i < k ==> IsSpace(s[i])
    ensures Split(s) == Split(s[k..])
  {
    assert s == s[..k] + s[k..];
    RunsNone(s[..k], NotSpace);
    RunsAppend(s[..k], s[k..], NotSpace);
  }

  /** A leading space does not change the words. */
  lemma SpaceCons(t: string)
    ensures Split([' '] + t) == Split(t)
  {
    assert ([' '] + t)[1..] == t;
  }

  /** A normalised string is the single-space join of its words. */
  lemma {:induction false} NormalisedJoinSplit(s: string)
    requires Normalised(s)
    ensures Join(Split(s)) == s
    decreases |s|
  {
    if s != [] {
      var k := RunLength(s, NotSpace);
      if k < |s| {
        var w, rest := s[..k], s[k + 1..];
        NormalisedSuffix(s, k);
        NormalisedJoinSplit(rest);
        SplitAfterWord(w, rest);
        SplitNonEmpty(rest);
        JoinCons(w, Split(rest));
      } else {
        assert s[..k] == s;
        SplitToken(s);
      }
    }
  }

  /** After the first word of a normalised string come one space and a normalised rest that starts a word. */
  lemma NormalisedSuffix(s: string, k: nat)
    requires Normalised(s) && k == RunLength(s, NotSpace) && k < |s|
    ensures IsToken(s[..k])
    ensures var rest := s[k + 1..]; Normalised(rest) && rest != [] && NotSpace(rest[0]) && s == s[..k] + " " + rest
  {
    var rest := s[k + 1..];
    forall i | 0 <= i < |rest| && IsSpace(rest[i])
      ensures rest[i] == ' ' && i + 1 < |rest| && NotSpace(rest[i + 1])
    {
      assert rest[i] == s[k + 1 + i];
    }
    assert s == s[..k] + [s[k]] + rest;
  }

  /** A word, a space and a rest split into the word followed by the words of the rest. */
  lemma SplitAfterWord(w: string, rest: string)
    requires IsToken(w)
    ensures Split(w + " " + rest) == [w] + Split(rest)
  {
    assert w + " " + rest == w + (" " + rest);
    RunsAppend(w, " " + rest, NotSpace);
    SplitToken(w);
    assert (" " + rest)[1..] == rest;
  }

  /** A string that starts with a non-whitespace character has a first word. */
  lemma SplitNonEmpty(s: string)
    requires s != [] && NotSpace(s[0])
    ensures Split(s) != []
  {
    var k := RunLength(s, NotSpace);
    assert Split(s) == [s[..k]] + Split(s[k..]);
  }

  /** Joining a word in front of some words. */
  lemma JoinCons(w: string, ws: seq<string>)
    requires ws != []
    ensures Join([w] + ws) == w + " " + Join(ws)
  {
    assert ([w] + ws)[1..] == ws;
  }

  /** Runs ignore a prefix and a suffix that have no character of the class. */
  lemma RunsAround(a: string, r: string, c: string, p: CharClass)
    requires forall i :: 0 <= i < |a| ==> !p(a[i])
    requires forall i :: 0 <= i < |c| ==> !p(c[i])
    ensures Runs(a + (r + c), p) == Runs(r, p)
  {
    RunsNone(a, p);
    RunsNone(c, p);
    RunsAppend(a, r + c, p);
    RunsAppend(r, c, p);
  }

  /** Stripping does not change the words. */
  lemma StripSplit(s: string)
    ensures Split(Strip(s)) == Split(s)
  {
    var before, after := StripParts(s);
    RunsAround(before, Strip(s), after, NotSpace);
  }

  /** `s` is its strip with whitespace before and after. */
  lemma StripParts(s: string) returns (before: string, after: string)
    ensures s == before + (Strip(s) + after)
    ensures forall i :: 0 <= i < |before| ==> IsSpace(before[i])
    ensures forall i :: 0 <= i < |after| ==> IsSpace(after[i])
  {
    var r := Strip(s);
    var i := RunLength(s, IsSpace);
    before, after := s[..i], s[i + |r|..];
    assert before + r == s[..i + |r|];
  }

  /** `s.rstrip()`: `s` without its trailing whitespace. */
  function RStrip(s: string): (r: string)
    ensures |r| <= |s| && r == s[..|r|]
    ensures AllSpace(s[|r|..])
    ensures r == [] || NotSpace(r[|r| - 1])
  {
    if s != [] && IsSpace(s[|s| - 1]) then
      var r := RStrip(s[..|s| - 1]);
      assert s[|r|..] == s[..|s| - 1][|r|..] + [s[|s| - 1]];
      r
    else s
  }

  /**
   * `s.strip()`: the part of `s` between its leading and its trailing
   * whitespace. With `i` the length of the leading whitespace, the result is
   * `s[i..i + |r|]` and everything after it is whitespace.
   */
  function Strip(s: string): (r: string)
    ensures r == [] || (NotSpace(r[0]) && NotSpace(r[|r| - 1]))
    ensures var i := RunLength(s, IsSpace); i + |r| <= |s| && r == s[i..i + |r|] && AllSpace(s[i + |r|..])
  {
    var i := RunLength(s, IsSpace);
    var r := RStrip(s[i..]);
    StripSlice(s, i, r);
    StripEnds(s, i, r);
    r
  }

  /** The stripped part is a slice of `s` followed by whitespace only. */
  lemma StripSlice(s: string, i: nat, r: string)
    requires i <= |s| && r == RStrip(s[i..])
    ensures i + |r| <= |s| && r == s[i..i + |r|] && AllSpace(s[i + |r|..])
  {
    assert s[i + |r|..] == s[i..][|r|..];
  }

  /** The stripped part starts and ends outside whitespace. */
  lemma StripEnds(s: string, i: nat, r: string)
    requires i == RunLength(s, IsSpace) && r == RStrip(s[i..])
    ensures r == [] || (NotSpace(r[0]) && NotSpace(r[|r| - 1]))
  {
    if r != [] {
      assert r[0] == s[i];
    }
  }

  /** Stripping removes nothing but whitespace: every non-whitespace character is kept, in order. */
  lemma StripKeepsText(s: string)
    ensures Filter(Strip(s), NotSpace) == Filter(s, NotSpace)
  {
    var before, after := StripParts(s);
    FilterAround(before, Strip(s), after, NotSpace);
  }

  /** Filtering drops a prefix and a suffix that have no character of the class. */
  lemma FilterAround(a: string, r: string, c: string, p: CharClass)
    requires forall i :: 0 <= i < |a| ==> !p(a[i])
    requires forall i :: 0 <= i < |c| ==> !p(c[i])
    ensures Filter(a + (r + c), p) == Filter(r, p)
  {
    FilterAppend(a, r + c, p);
    FilterAppend(r, c, p);
    FilterNoneOf(a, p);
    FilterNoneOf(c, p);
    assert [] + (Filter(r, p) + []) == Filter(r, p);
  }

  /** A string without whitespace at either end is its own strip. */
  lemma StripUnchanged(s: string)
    requires s == [] || (NotSpace(s[0]) && NotSpace(s[|s| - 1]))
    ensures Strip(s) == s
  {
    if s != [] {
      assert RunLength(s, IsSpace) == 0;
      assert s[0..] == s;
    }
  }

  /** Appending whitespace to a string does not change its strip. */
  lemma StripTrailingSpace(s: string, t: string)
    requires AllSpace(t)
    ensures Strip(s + t) == Strip(s)
  {
    var j := RunLength(s, IsSpace);
    if j < |s| {
      RunLengthStops(s, t, IsSpace);
      assert (s + t)[j..] == s[j..] + t;
      RStripAppendSpace(s[j..], t);
    } else {
      assert AllSpace(s + t);
      RunLengthAll(s + t, IsSpace);
      assert (s + t)[|s + t|..] == [] && s[|s|..] == [];
    }
  }

  lemma {:induction false} RStripAppendSpace(x: string, t: string)
    requires AllSpace(t)
    ensures RStrip(x + t) == RStrip(x)
    decreases |t|
  {
    if t != [] {
      var t' := t[..|t| - 1];
      assert (x + t)[..|x + t| - 1] == x + t';
      RStripAppendSpace(x, t');
    } else {
      assert x + t == x;
    }
  }

  lemma {:induction false} RunLengthAll(s: string, p: CharClass)
    requires forall i :: 0 <= i < |s| ==> p(s[i])
    ensures RunLength(s, p) == |s|
  {
    if s != [] {
      RunLengthAll(s[1..], p);
    }
  }

  /** `sub in s` for strings: `sub` occurs in `s` as a contiguous piece. */
  predicate Contains(s: string, sub: string)
    decreases |s|
  {
    (|sub| <= |s| && s[..|sub|] == sub) || (s != [] && Contains(s[1..], sub))
  }

  /** An occurrence in a suffix of `s` is an occurrence in `s`. */
  lemma {:induction false} ContainsInSuffix(s: string, n: nat, sub: string)
    requires n <= |s| && Contains(s[n..], sub)
    ensures Contains(s, sub)
    decreases n
  {
    if n > 0 {
      assert s[1..][n - 1..] == s[n..];
      ContainsInSuffix(s[1..], n - 1, sub);
    }
  }

  /** `xs` reversed. */
  function Reverse(xs: seq<string>): (r: seq<string>)
    ensures |r| == |xs|
    ensures forall i :: 0 <= i < |xs| ==> r[i] == xs[|xs| - 1 - i]
  {
    if xs == [] then [] else Reverse(xs[1..]) + [xs[0]]
  }

  /** `a` is `b` with some elements left out: an order-preserving subsequence. */
  predicate IsSubsequence(a: seq<string>, b: seq<string>)
    decreases |b|
  {
    a == [] || (b != [] && ((a[0] == b[0] && IsSubsequence(a[1..], b[1..])) || IsSubsequence(a, b[1..])))
  }

  lemma {:induction false} SubsequenceSnoc(a: seq<string>, b: seq<string>, x: string)
    requires IsSubsequence(a, b)
    ensures IsSubsequence(a, b + [x]) && IsSubsequence(a + [x], b + [x])
    decreases |b|
  {
    if b == [] {
      assert a == [];
      assert ([] + [x])[1..] == [];
      assert [x][1..] == [];
    } else {
      assert (b + [x])[0] == b[0] && (b + [x])[1..] == b[1..] + [x];
      if a == [] {
        SubsequenceSnoc(a, b[1..], x);
        assert a + [x] == [x];
      } else if a[0] == b[0] && IsSubsequence(a[1..], b[1..]) {
        SubsequenceSnoc(a[1..], b[1..], x);
        assert (a + [x])[0] == a[0] && (a + [x])[1..] == a[1..] + [x];
      } else {
        SubsequenceSnoc(a, b[1..], x);
      }
    }
  }

  lemma {:induction false} SubsequenceMember(a: seq<string>, b: seq<string>, x: string)
    requires IsSubsequence(a, b) && x in a
    ensures x in b
    decreases |b|
  {
    if a[0] == b[0] && IsSubsequence(a[1..], b[1..]) {
      if x != a[0] {
        SubsequenceMember(a[1..], b[1..], x);
      }
    } else {
      SubsequenceMember(a, b[1..], x);
    }
  }

  /** Concatenation regrouped. */
  lemma ConcatAssoc<T>(a: seq<T>, b: seq<T>, c: seq<T>)
    ensures (a + b) + c == a + (b + c)
  {
  }
}
