/**
 * The deduplication preprocessing of `preprocess/deduplication.py`: the
 * canonicalisation of a text and the 6-character shingles
 * (`Deduplication.get_features`) that are fed to MinHash, and the number of
 * worker processes `preprocess_files` settles on.
 */
module Dedup {
  import opened Text

  /** The width of a shingle: `ngrams(s, 6)`. */
  const ShingleWidth: nat := 6

  /** Python's `string.punctuation`: the 32 ASCII punctuation characters. */
  const AsciiPunctuation: string := "!\"#$%&'()*+,-./:;<=>?@[\\]^_`{|}~"

  /** ASCII punctuation: the four runs of printable ASCII that are neither letters, digits nor space. */
  predicate IsPunct(c: char) {
    ('!' <= c <= '/') || (':' <= c <= '@') || ('[' <= c <= '`') || ('{' <= c <= '~')
  }

  /** Not ASCII punctuation: what `c not in string.punctuation` keeps. */
  predicate NotPunct(c: char) {
    !IsPunct(c)
  }

  /** Every character of `string.punctuation` lies in one of the four runs. */
  lemma PunctuationInRuns()
    ensures forall i :: 0 <= i < |AsciiPunctuation| ==> IsPunct(AsciiPunctuation[i])
  {
  }

  /** Every character of the four runs is in `string.punctuation`. */
  lemma RunsInPunctuation(c: char)
    requires IsPunct(c)
    ensures c in AsciiPunctuation
  {
    var i := if c <= '/' then c as int - '!' as int
      else if c <= '@' then c as int - ':' as int + 15
      else if c <= '`' then c as int - '[' as int + 22
      else c as int - '{' as int + 28;
    assert AsciiPunctuation[i] == c;
  }

  /** The nine-character literal `":><؟!.،,?"` that the second replacement step deletes, as a whole. */
  const MarksLiteral: string := [':', '>', '<', '\U{61f}', '!', '.', '\U{60c}', ',', '?']

  /** The Arabic question mark and the Arabic comma, as Persian text writes them. */
  const ArabicQuestionMark: char := '\U{61f}'
  const ArabicComma: char := '\U{60c}'

  /**
   * `s.replace(pat, "")` for a non-empty `pat`: every occurrence of `pat`,
   * found left to right without overlap, deleted.
   */
  function DeleteAll(s: string, pat: string): (r: string)
    requires pat != []
    ensures |r| <= |s|
    ensures forall c :: c in r ==> c in s
    decreases |s|
  {
    if |s| < |pat| then s
    else if s[..|pat|] == pat then DeleteAll(s[|pat|..], pat)
    else [s[0]] + DeleteAll(s[1..], pat)
  }

  /** A string lacking some character of `pat` has no occurrence of `pat`, and `replace` leaves it as it is. */
  lemma {:induction false} DeleteAllAbsent(s: string, pat: string, c: char)
    requires pat != [] && c in pat && c !in s
    ensures DeleteAll(s, pat) == s
    decreases |s|
  {
    if |s| >= |pat| {
      assert s[..|pat|] != pat by {
        var j :| 0 <= j < |pat| && pat[j] == c;
        assert s[..|pat|][j] == s[j] != c;
      }
      assert c !in s[1..];
      DeleteAllAbsent(s[1..], pat, c);
      assert s == [s[0]] + s[1..];
    }
  }

  /** `re.sub(r"\s+", " ", s)`: every maximal run of whitespace replaced by one space. */
  function CollapseSpaces(s: string): (r: string)
    ensures |r| <= |s|
    decreases |s|
  {
    if s == [] then []
    else if IsSpace(s[0]) then [' '] + CollapseSpaces(s[RunLength(s, IsSpace)..])
    else [s[0]] + CollapseSpaces(s[1..])
  }

  /**
   * The layout `r` has after collapsing the whitespace of `s`: empty only for
   * empty `s`, starting and ending with whitespace exactly when `s` does, and
   * each whitespace character a plain space followed by a non-whitespace
   * character or by the end.
   */
  predicate CollapsedLayout(s: string, r: string) {
    && (r == [] <==> s == [])
    && (r != [] ==> (IsSpace(r[0]) <==> IsSpace(s[0])))
    && (r != [] ==> (IsSpace(r[|r| - 1]) <==> IsSpace(s[|s| - 1])))
    && forall i :: 0 <= i < |r| && IsSpace(r[i]) ==> r[i] == ' ' && (i + 1 == |r| || NotSpace(r[i + 1]))
  }

  /** Collapsing gives the collapsed layout. */
  lemma {:induction false} CollapseForm(s: string)
    ensures CollapsedLayout(s, CollapseSpaces(s))
    decreases |s|
  {
    if s != [] {
      var r := CollapseSpaces(s);
      if IsSpace(s[0]) {
        var k := RunLength(s, IsSpace);
        var rest := s[k..];
        CollapseForm(rest);
        var t := CollapseSpaces(rest);
        assert r == [' '] + t;
        if t == [] {
          assert k == |s|;
        } else {
          assert s[|s| - 1] == rest[|rest| - 1];
          assert NotSpace(t[0]);
          forall i | 0 <= i < |r| && IsSpace(r[i])
            ensures r[i] == ' ' && (i + 1 == |r| || NotSpace(r[i + 1]))
          {
            if i > 0 {
              assert r[i] == t[i - 1];
            }
          }
        }
      } else {
        CollapseForm(s[1..]);
        var t := CollapseSpaces(s[1..]);
        assert r == [s[0]] + t;
        if t != [] {
          assert s[|s| - 1] == s[1..][|s| - 2];
          forall i | 0 <= i < |r| && IsSpace(r[i])
            ensures r[i] == ' ' && (i + 1 == |r| || NotSpace(r[i + 1]))
          {
            assert r[i] == t[i - 1];
          }
        }
      }
    }
  }

  /** Collapsing keeps the words: every whitespace run still separates the words around it. */
  lemma {:induction false} CollapseWords(s: string)
    ensures Split(CollapseSpaces(s)) == Split(s)
    decreases |s|
  {
    if s != [] {
      if IsSpace(s[0]) {
        var k := RunLength(s, IsSpace);
        CollapseWords(s[k..]);
        LeadingSpaces(s, k);
        SpaceCons(CollapseSpaces(s[k..]));
      } else {
        var t := CollapseSpaces(s[1..]);
        CollapseWords(s[1..]);
        CollapseForm(s[1..]);
        RunsConsAlike(s[0], t, s[1..], NotSpace);
        assert s == [s[0]] + s[1..];
      }
    }
  }

  /**
   * `re.sub(r"\s+", " ", s)`: the collapsed layout, with the words of `s`
   * unchanged, so each maximal whitespace run became exactly one space.
   */
  lemma CollapseShape(s: string)
    ensures CollapsedLayout(s, CollapseSpaces(s))
    ensures Split(CollapseSpaces(s)) == Split(s)
  {
    CollapseForm(s);
    CollapseWords(s);
  }

  /** `re.sub(r"\s+", " ", s.strip())` is the single-space join of the words of `s`. */
  lemma CollapseIsJoinSplit(s: string)
    ensures CollapseSpaces(Strip(s)) == Join(Split(s))
  {
    var t := Strip(s);
    CollapseNormalised(t);
    CollapseWords(t);
    NormalisedJoinSplit(CollapseSpaces(t));
    StripSplit(s);
  }

  /** Collapsing keeps every non-whitespace character, in order. */
  lemma {:induction false} CollapseKeepsText(s: string)
    ensures Filter(CollapseSpaces(s), NotSpace) == Filter(s, NotSpace)
    decreases |s|
  {
    if s != [] {
      if IsSpace(s[0]) {
        var k := RunLength(s, IsSpace);
        CollapseKeepsText(s[k..]);
        assert s == s[..k] + s[k..];
        FilterAppend(s[..k], s[k..], NotSpace);
        FilterNoneOf(s[..k], NotSpace);
        assert ([' '] + CollapseSpaces(s[k..]))[1..] == CollapseSpaces(s[k..]);
      } else {
        CollapseKeepsText(s[1..]);
        assert ([s[0]] + CollapseSpaces(s[1..]))[1..] == CollapseSpaces(s[1..]);
      }
    }
  }

  /** Collapsing introduces no character but the plain space. */
  lemma {:induction false} CollapseChars(s: string)
    ensures forall c :: c in CollapseSpaces(s) ==> c == ' ' || c in s
    decreases |s|
  {
    if s != [] {
      if IsSpace(s[0]) {
        var k := RunLength(s, IsSpace);
        CollapseChars(s[k..]);
        forall c | c in s[k..] ensures c in s {
          var j :| 0 <= j < |s[k..]| && s[k..][j] == c;
          assert s[k + j] == c;
        }
      } else {
        CollapseChars(s[1..]);
        assert s == [s[0]] + s[1..];
      }
    }
  }

  /** The lower-cased text without its ASCII punctuation. */
  function Depunctuated(text: string, lower: CharMap): (r: string)
    ensures |r| <= |text|
    ensures forall i :: 0 <= i < |r| ==> NotPunct(r[i])
  {
    Filter(Lower(text, lower), NotPunct)
  }

  /** The canonical form of a text: lower-cased, punctuation removed, whitespace collapsed and trimmed. */
  function Canonical(text: string, lower: CharMap): (r: string)
    ensures |r| <= |text|
  {
    CollapseSpaces(Strip(DeleteAll(Depunctuated(text, lower), MarksLiteral)))
  }

  /**
   * The literal replacement is a no-op: it deletes the nine characters only
   * where they stand together, and the colon among them has already gone with
   * the ASCII punctuation.
   */
  lemma MarksLiteralIsNoOp(text: string, lower: CharMap)
    ensures DeleteAll(Depunctuated(text, lower), MarksLiteral) == Depunctuated(text, lower)
  {
    FilterMember(Lower(text, lower), NotPunct, ':');
    assert ':' in MarksLiteral;
    DeleteAllAbsent(Depunctuated(text, lower), MarksLiteral, ':');
  }

  /** Stripping and collapsing introduce no character but the plain space. */
  lemma StripCollapseChars(s: string)
    ensures forall c :: c in CollapseSpaces(Strip(s)) ==> c == ' ' || c in s
  {
    var t := Strip(s);
    CollapseChars(t);
    var i := RunLength(s, IsSpace);
    forall c | c in t ensures c in s {
      var k :| 0 <= k < |t| && t[k] == c;
      assert t[k] == s[i + k];
    }
  }

  /** Canonical text holds no ASCII punctuation: lower-casing comes first and cannot bring any back. */
  lemma CanonicalHasNoPunctuation(text: string, lower: CharMap)
    ensures forall i :: 0 <= i < |Canonical(text, lower)| ==> NotPunct(Canonical(text, lower)[i])
  {
    var s := Depunctuated(text, lower);
    MarksLiteralIsNoOp(text, lower);
    var c := Canonical(text, lower);
    assert c == CollapseSpaces(Strip(s));
    StripCollapseChars(s);
    assert NotPunct(' ');
    forall j | 0 <= j < |c| ensures NotPunct(c[j]) {
      assert c[j] in c;
      FilterMember(Lower(text, lower), NotPunct, c[j]);
    }
  }

  /** Collapsing the whitespace of a text with none at its ends puts it in normal form. */
  lemma CollapseNormalised(t: string)
    requires t == [] || (NotSpace(t[0]) && NotSpace(t[|t| - 1]))
    ensures Normalised(CollapseSpaces(t))
  {
    CollapseForm(t);
  }

  /**
   * Canonical text has single plain spaces between non-whitespace characters
   * and none at either end; it is the words of the lower-cased, depunctuated
   * text joined by single spaces.
   */
  lemma CanonicalIsNormalised(text: string, lower: CharMap)
    ensures Normalised(Canonical(text, lower))
    ensures Canonical(text, lower) == Join(Split(Depunctuated(text, lower)))
  {
    CollapseNormalised(Strip(DeleteAll(Depunctuated(text, lower), MarksLiteral)));
    MarksLiteralIsNoOp(text, lower);
    CollapseIsJoinSplit(Depunctuated(text, lower));
  }

  /**
   * The non-whitespace characters of the canonical text are exactly those of
   * the lower-cased text that are neither whitespace nor ASCII punctuation,
   * in order.
   */
  lemma CanonicalKeepsText(text: string, lower: CharMap)
    ensures Filter(Canonical(text, lower), NotSpace) == Filter(Depunctuated(text, lower), NotSpace)
  {
    var s := Depunctuated(text, lower);
    MarksLiteralIsNoOp(text, lower);
    CollapseKeepsText(Strip(s));
    StripKeepsText(s);
  }

  /** A character that is neither whitespace nor ASCII punctuation is in the canonical text exactly when it is in the lower-cased text. */
  lemma CanonicalKeepsChar(text: string, lower: CharMap, m: char)
    requires NotPunct(m) && NotSpace(m)
    ensures m in Canonical(text, lower) <==> m in Lower(text, lower)
  {
    var c := Canonical(text, lower);
    CanonicalKeepsText(text, lower);
    FilterMember(Lower(text, lower), NotPunct, m);
    FilterMember(Depunctuated(text, lower), NotSpace, m);
    FilterMember(c, NotSpace, m);
  }

  /** The Arabic question mark and comma are not ASCII punctuation, so they survive canonicalisation. */
  lemma ArabicMarksSurvive(text: string, lower: CharMap, m: char)
    requires m == ArabicQuestionMark || m == ArabicComma
    ensures m in Canonical(text, lower) <==> m in Lower(text, lower)
  {
    CanonicalKeepsChar(text, lower, m);
  }

  /**
   * `ngrams(s, 6)` joined back into strings: every window of six consecutive
   * characters, left to right.
   */
  function Shingles(s: string): (sh: seq<string>)
    ensures forall i :: 0 <= i < |sh| ==> |sh[i]| == ShingleWidth
    decreases |s|
  {
    if |s| < ShingleWidth then [] else [s[..ShingleWidth]] + Shingles(s[1..])
  }

  /**
   * There are `max(0, |s| - 5)` shingles, shingle `i` is `s[i..i + 6]`, and
   * repeated windows are all kept.
   */
  lemma {:induction false} ShinglesAre(s: string)
    ensures |Shingles(s)| == if |s| < ShingleWidth then 0 else |s| - ShingleWidth + 1
    ensures forall i :: 0 <= i < |Shingles(s)| ==> Shingles(s)[i] == s[i..i + ShingleWidth]
    decreases |s|
  {
    if |s| >= ShingleWidth {
      ShinglesAre(s[1..]);
      var sh := Shingles(s);
      forall i | 0 <= i < |sh| ensures sh[i] == s[i..i + ShingleWidth] {
        if i > 0 {
          assert sh[i] == Shingles(s[1..])[i - 1];
          assert s[1..][i - 1..i - 1 + ShingleWidth] == s[i..i + ShingleWidth];
        }
      }
    }
  }

  /** Consecutive shingles overlap in five characters. */
  lemma ShinglesOverlap(s: string)
    ensures forall i :: 0 <= i < |Shingles(s)| - 1 ==>
      |Shingles(s)[i]| == ShingleWidth && Shingles(s)[i][1..] == Shingles(s)[i + 1][..ShingleWidth - 1]
  {
    ShinglesAre(s);
    var sh := Shingles(s);
    forall i | 0 <= i < |sh| - 1
      ensures |sh[i]| == ShingleWidth && sh[i][1..] == sh[i + 1][..ShingleWidth - 1]
    {
      assert sh[i][1..] == s[i + 1..i + ShingleWidth];
      assert sh[i + 1][..ShingleWidth - 1] == s[i + 1..i + ShingleWidth];
    }
  }

  /** The last character of each string, concatenated. */
  function LastChars(ws: seq<string>): string {
    if ws == [] then [] else (if ws[0] == [] then [] else [ws[0][|ws[0]| - 1]]) + LastChars(ws[1..])
  }

  /** The text the shingles came from: the first shingle followed by the last character of every later one. */
  function Reassemble(sh: seq<string>): string {
    if sh == [] then [] else sh[0] + LastChars(sh[1..])
  }

  lemma {:induction false} LastCharsOfShingles(u: string)
    requires |u| >= ShingleWidth - 1
    ensures LastChars(Shingles(u)) == u[ShingleWidth - 1..]
    decreases |u|
  {
    if |u| >= ShingleWidth {
      LastCharsOfShingles(u[1..]);
      assert u[ShingleWidth - 1..] == [u[ShingleWidth - 1]] + u[1..][ShingleWidth - 1..];
    }
  }

  /** Round trip: a string of at least six characters is recovered from its shingles. */
  lemma ShinglesReassemble(s: string)
    requires |s| >= ShingleWidth
    ensures Reassemble(Shingles(s)) == s
  {
    LastCharsOfShingles(s[1..]);
    assert s == s[..ShingleWidth] + s[1..][ShingleWidth - 1..];
  }

  /** `get_features(text)`: the shingles of the canonical form. */
  function Features(text: string, lower: CharMap): (r: seq<string>)
    ensures forall i :: 0 <= i < |r| ==> |r[i]| == ShingleWidth
  {
    Shingles(Canonical(text, lower))
  }

  /**
   * Every feature is a six-character window of the canonical text; it holds
   * no ASCII punctuation, and its whitespace characters are plain spaces.
   * A text whose canonical form is shorter than six characters has no
   * features at all.
   */
  lemma FeaturesAreWindows(text: string, lower: CharMap)
    ensures var c := Canonical(text, lower);
      && |Features(text, lower)| == (if |c| < ShingleWidth then 0 else |c| - ShingleWidth + 1)
      && forall i :: 0 <= i < |Features(text, lower)| ==>
           var f := Features(text, lower)[i];
           && f == c[i..i + ShingleWidth]
           && |f| == ShingleWidth
           && forall j :: 0 <= j < |f| ==> NotPunct(f[j]) && (IsSpace(f[j]) ==> f[j] == ' ')
  {
    var c := Canonical(text, lower);
    ShinglesAre(c);
    CanonicalHasNoPunctuation(text, lower);
    CanonicalIsNormalised(text, lower);
    var fs := Features(text, lower);
    forall i, j | 0 <= i < |fs| && 0 <= j < ShingleWidth
      ensures NotPunct(fs[i][j]) && (IsSpace(fs[i][j]) ==> fs[i][j] == ' ')
    {
      assert fs[i][j] == c[i + j];
    }
  }

  /** `math.ceil(n / d)` for natural numbers. */
  function CeilDiv(n: nat, d: nat): nat
    requires d > 0
  {
    (n + d - 1) / d
  }

  /** There is exactly one chunk when there is at least one item and no more items than the divisor. */
  lemma CeilDivIsOne(n: nat, d: nat)
    requires d > 0
    ensures CeilDiv(n, d) == 1 <==> 0 < n <= d
  {
    var x := n + d - 1;
    var q, r := x / d, x % d;
    assert x == q * d + r && 0 <= r < d;
    if q >= 2 {
      AtLeastTwice(q, d);
    }
  }

  /** Two or more times a positive number is at least twice it. */
  lemma AtLeastTwice(q: int, d: nat)
    requires q >= 2
    ensures q * d >= 2 * d
  {
    assert q * d == (q - 2) * d + 2 * d;
  }

  /** The remainder of at most one divisor's worth of items: the items themselves, or none when they fill it. */
  lemma SmallRemainder(n: nat, d: nat)
    requires d > 0
    ensures 0 < n <= d ==> n % d == (if n == d then 0 else n)
  {
    if 0 < n < d {
      assert n == 0 * d + n;
    }
  }

  /**
   * The number of worker processes `preprocess_files` uses for `fileCount`
   * files on a machine with `cpuCount` processors: all processors, unless
   * there are fewer files than processors (and at least one), in which case
   * one process per file.
   */
  method AdjustProcessCount(fileCount: nat, cpuCount: nat) returns (nProc: nat)
    requires cpuCount >= 1
    ensures nProc == if 0 < fileCount < cpuCount then fileCount else cpuCount
    ensures 1 <= nProc <= cpuCount
  {
    nProc := cpuCount;
    var nChunks := CeilDiv(fileCount, nProc);
    var remain := fileCount % nProc;
    CeilDivIsOne(fileCount, nProc);
    SmallRemainder(fileCount, nProc);
    if nChunks == 1 && remain != 0 {
      nProc := remain;
    }
  }
}
