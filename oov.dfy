/**
 * The out-of-vocabulary filter of `preprocess/others/oov_creation.py`: a
 * corpus-wide word counter, the set of rare words, the share of a text's
 * words that are rare, and the split of a file's papers by that share.
 */
module Oov {
  import opened Wrappers
  import opened Text
  import opened Counting

  /** `re.findall(r'\b\w+\b', text.lower())`: the maximal runs of word characters of the lower-cased text. */
  function Tokens(text: string, lower: CharMap, isWord: CharClass): (r: seq<string>)
    ensures forall i :: 0 <= i < |r| ==> r[i] != [] && forall j :: 0 <= j < |r[i]| ==> isWord(r[i][j])
  {
    Runs(Lower(text, lower), isWord)
  }

  /** The tokens of the texts, text after text. */
  function AllTokens(texts: seq<string>, lower: CharMap, isWord: CharClass): seq<string> {
    if texts == [] then [] else AllTokens(texts[..|texts| - 1], lower, isWord) + Tokens(texts[|texts| - 1], lower, isWord)
  }

  /** The global `Counter` `cnt` of the script. */
  class WordCounter {
    var counts: map<string, nat>

    /** `cnt = Counter()`. */
    constructor ()
      ensures counts == map[]
    {
      counts := map[];
    }

    /**
     * `count_words(text)`: `cnt.update(words)` with the tokens of the text.
     * Every word gains its number of occurrences among the tokens, and the
     * total grows by the number of tokens.
     */
    method CountWords(text: string, lower: CharMap, isWord: CharClass)
      modifies this
      ensures counts == AddAll(old(counts), Tokens(text, lower, isWord))
      ensures forall w :: Get(counts, w) == Get(old(counts), w) + Count(Tokens(text, lower, isWord), w)
      ensures Mass(counts) == Mass(old(counts)) + |Tokens(text, lower, isWord)|
    {
      var words := Tokens(text, lower, isWord);
      ghost var start := counts;
      for i := 0 to |words|
        invariant counts == AddAll(start, words[..i])
      {
        assert words[..i + 1][..i] == words[..i] && words[..i + 1][i] == words[i];
        counts := counts[words[i] := Get(counts, words[i]) + 1];
      }
      assert words[..|words|] == words;
      AddAllCounts(start, words);
      AddAllMass(start, words);
    }

    /** `process_json_paper(path)`: `count_words` on the text of every paper of a file, in order. */
    method CountTexts(texts: seq<string>, lower: CharMap, isWord: CharClass)
      modifies this
      ensures counts == AddAll(old(counts), AllTokens(texts, lower, isWord))
    {
      ghost var start := counts;
      for i := 0 to |texts|
        invariant counts == AddAll(start, AllTokens(texts[..i], lower, isWord))
      {
        assert texts[..i + 1][..i] == texts[..i] && texts[..i + 1][i] == texts[i];
        CountWords(texts[i], lower, isWord);
        AddAllConcat(start, AllTokens(texts[..i], lower, isWord), Tokens(texts[i], lower, isWord));
      }
      assert texts[..|texts|] == texts;
    }
  }

  /** Counting two sequences one after the other is counting their concatenation. */
  lemma {:induction false} AddAllConcat(m: map<string, nat>, a: seq<string>, b: seq<string>)
    ensures AddAll(AddAll(m, a), b) == AddAll(m, a + b)
  {
    if b != [] {
      AddAllConcat(m, a, b[..|b| - 1]);
      assert (a + b)[..|a + b| - 1] == a + b[..|b| - 1];
    } else {
      assert a + b == a;
    }
  }

  /** Words seen at most this often in the corpus are out of vocabulary. */
  const RareCount := 5

  /** `set(key for key, value in cnt.items() if value <= 5)`. */
  function OovSet(counts: map<string, nat>): (r: set<string>)
    ensures r <= counts.Keys
  {
    set k | k in counts && counts[k] <= RareCount
  }

  /** The out-of-vocabulary words of a corpus are exactly its words that occur at most five times. */
  lemma OovSetOfCorpus(texts: seq<string>, lower: CharMap, isWord: CharClass, w: string)
    ensures var tokens := AllTokens(texts, lower, isWord);
      w in OovSet(Tally(tokens)) <==> 1 <= Count(tokens, w) <= RareCount
  {
    TallyCounts(AllTokens(texts, lower, isWord));
  }

  /** The number of `words`, with repetition, that lie in `s`. */
  function CountIn(words: seq<string>, s: set<string>): nat
  {
    if words == [] then 0 else CountIn(words[..|words| - 1], s) + (if words[|words| - 1] in s then 1 else 0)
  }

  /** The rare-word count is at most the token count; it is the token count exactly when every token is rare, and zero exactly when none is. */
  lemma {:induction false} CountInBounds(words: seq<string>, s: set<string>)
    ensures CountIn(words, s) <= |words|
    ensures CountIn(words, s) == |words| <==> forall i :: 0 <= i < |words| ==> words[i] in s
    ensures CountIn(words, s) == 0 <==> forall i :: 0 <= i < |words| ==> words[i] !in s
  {
    if words != [] {
      var p := words[..|words| - 1];
      CountInBounds(p, s);
      assert forall i :: 0 <= i < |p| ==> p[i] == words[i];
    }
  }

  /** The exception `count_words_in_text` raises. */
  datatype OovError = ZeroDivisionError

  /** `total_oov / len(words)`, kept as its numerator and denominator. */
  datatype Fraction = Fraction(oov: nat, words: nat)

  /** The value of the fraction: exact, where the script has a floating-point division. */
  function Value(f: Fraction): real
    requires f.words > 0
  {
    f.oov as real / f.words as real
  }

  /** What `count_words_in_text(text)` computes: the rare tokens over all tokens, or the division error for a text without tokens. */
  function OovFraction(text: string, oov: set<string>, lower: CharMap, isWord: CharClass): (r: Result<Fraction, OovError>)
    ensures r.Ok? ==> 0 < r.value.words && r.value.oov <= r.value.words
  {
    var words := Tokens(text, lower, isWord);
    CountInBounds(words, oov);
    if words == [] then Err(ZeroDivisionError) else Ok(Fraction(CountIn(words, oov), |words|))
  }

  /**
   * `count_words_in_text(text)`: the loop over the tokens counting those in
   * the out-of-vocabulary set, then the division by the number of tokens.
   */
  method CountWordsInText(text: string, oov: set<string>, lower: CharMap, isWord: CharClass) returns (r: Result<Fraction, OovError>)
    ensures r == OovFraction(text, oov, lower, isWord)
  {
    var words := Tokens(text, lower, isWord);
    var totalOov := 0;
    for i := 0 to |words|
      invariant totalOov == CountIn(words[..i], oov)
    {
      assert words[..i + 1][..i] == words[..i] && words[..i + 1][i] == words[i];
      if words[i] in oov {
        totalOov := totalOov + 1;
      }
    }
    assert words[..|words|] == words;
    if |words| == 0 {
      return Err(ZeroDivisionError);
    }
    r := Ok(Fraction(totalOov, |words|));
  }

  /** A share of at most all lies between 0 and 1, and is 1 exactly when it is all. */
  lemma ShareBounds(n: nat, d: nat)
    requires 0 < d && n <= d
    ensures 0.0 <= n as real / d as real <= 1.0
    ensures n as real / d as real == 1.0 <==> n == d
  {
    var q, nr, dr := n as real / d as real, n as real, d as real;
    assert q * dr == nr;
    SignOfFactor(q, dr);
    assert (1.0 - q) * dr == dr - nr;
    SignOfFactor(1.0 - q, dr);
  }

  /** A product with a positive factor has the sign of the other factor. */
  lemma SignOfFactor(x: real, y: real)
    requires y > 0.0
    ensures x * y >= 0.0 ==> x >= 0.0
    ensures x * y == 0.0 ==> x == 0.0
  {
  }

  /**
   * The share of rare words fails exactly for a text without word tokens;
   * otherwise it has every token in its denominator and the rare ones in its
   * numerator, so it lies between 0 and 1, and is 1 exactly when every token
   * is rare.
   */
  lemma OovFractionMeaning(text: string, oov: set<string>, lower: CharMap, isWord: CharClass)
    ensures var r := OovFraction(text, oov, lower, isWord);
      var words := Tokens(text, lower, isWord);
      && (r.Err? <==> words == [])
      && (r.Ok? ==> r.value.words == |words| && r.value.oov == CountIn(words, oov))
      && (r.Ok? ==> 0.0 <= Value(r.value) <= 1.0)
      && (r.Ok? ==> (Value(r.value) == 1.0 <==> forall i :: 0 <= i < |words| ==> words[i] in oov))
  {
    var words := Tokens(text, lower, isWord);
    CountInBounds(words, oov);
    if words != [] {
      ShareBounds(CountIn(words, oov), |words|);
    }
  }

  /** A row of a papers file; the columns written back out. */
  datatype Paper = Paper(text: string, id: string, source: string)

  /** `df['oov_ratio'] = df['text'].apply(count_words_in_text)`: the ratios of all rows, or the error of the first row without tokens. */
  function Ratios(papers: seq<Paper>, oov: set<string>, lower: CharMap, isWord: CharClass): (r: Result<seq<real>, OovError>)
    ensures r.Ok? ==> |r.value| == |papers|
  {
    if papers == [] then Ok([])
    else
      var f := OovFraction(papers[0].text, oov, lower, isWord);
      if f.Err? then Err(f.error)
      else
        var rest := Ratios(papers[1..], oov, lower, isWord);
        if rest.Err? then rest else Ok([Value(f.value)] + rest.value)
  }

  /** `len(df[df['oov_ratio'] >= oov_th])`. */
  function AtLeast(ratios: seq<real>, th: real): (n: nat)
    ensures n <= |ratios|
  {
    if ratios == [] then 0 else (if ratios[0] >= th then 1 else 0) + AtLeast(ratios[1..], th)
  }

  /** The number of ratios equal to the threshold. */
  function AtExactly(ratios: seq<real>, th: real): nat {
    if ratios == [] then 0 else (if ratios[0] == th then 1 else 0) + AtExactly(ratios[1..], th)
  }

  /** `df[df['oov_ratio'] <= oov_th]`: the rows at or below the threshold, in order. */
  function AtMost(papers: seq<Paper>, ratios: seq<real>, th: real): (kept: seq<Paper>)
    requires |ratios| == |papers|
    ensures |kept| <= |papers|
  {
    if papers == [] then []
    else (if ratios[0] <= th then [papers[0]] else []) + AtMost(papers[1..], ratios[1..], th)
  }

  /**
   * Every row is counted as filtered or kept, and a row exactly at the
   * threshold is both.
   */
  lemma {:induction false} PartitionSizes(papers: seq<Paper>, ratios: seq<real>, th: real)
    requires |ratios| == |papers|
    ensures AtLeast(ratios, th) + |AtMost(papers, ratios, th)| == |papers| + AtExactly(ratios, th)
  {
    if papers != [] {
      PartitionSizes(papers[1..], ratios[1..], th);
    }
  }

  /** A row is kept exactly when its ratio is at most the threshold, or when another such row has the same columns. */
  lemma {:induction false} AtMostMember(papers: seq<Paper>, ratios: seq<real>, th: real, p: Paper)
    requires |ratios| == |papers|
    ensures p in AtMost(papers, ratios, th) <==> exists i :: 0 <= i < |papers| && papers[i] == p && ratios[i] <= th
  {
    if papers != [] {
      AtMostMember(papers[1..], ratios[1..], th, p);
      if exists i :: 0 <= i < |papers| && papers[i] == p && ratios[i] <= th {
        var i :| 0 <= i < |papers| && papers[i] == p && ratios[i] <= th;
        if i > 0 {
          assert papers[1..][i - 1] == p && ratios[1..][i - 1] <= th;
        }
      }
      if exists i :: 0 <= i < |papers[1..]| && papers[1..][i] == p && ratios[1..][i] <= th {
        var i :| 0 <= i < |papers[1..]| && papers[1..][i] == p && ratios[1..][i] <= th;
        assert papers[i + 1] == p && ratios[i + 1] <= th;
      }
    }
  }

  /** What `process_json_paper_oov` returns and writes: `len_stat`, and the rows kept. */
  datatype FileOutcome = FileOutcome(lenStat: nat, kept: seq<Paper>)

  /** `process_json_paper_oov(path)` on the rows of the file. */
  function ProcessPapers(papers: seq<Paper>, oov: set<string>, th: real, lower: CharMap, isWord: CharClass): (r: Result<FileOutcome, OovError>)
    ensures r.Ok? ==> r.value.lenStat <= |papers| && |r.value.kept| <= |papers|
  {
    var ratios :- Ratios(papers, oov, lower, isWord);
    Ok(FileOutcome(AtLeast(ratios, th), AtMost(papers, ratios, th)))
  }

  /** Computing the ratios fails exactly when some row has no word tokens. */
  lemma RatiosFail(papers: seq<Paper>, oov: set<string>, lower: CharMap, isWord: CharClass)
    ensures Ratios(papers, oov, lower, isWord).Err? <==> exists i :: 0 <= i < |papers| && Tokens(papers[i].text, lower, isWord) == []
    ensures Ratios(papers, oov, lower, isWord).Ok? ==> forall i :: 0 <= i < |papers| ==>
      OovFraction(papers[i].text, oov, lower, isWord).Ok? && Ratios(papers, oov, lower, isWord).value[i] == Value(OovFraction(papers[i].text, oov, lower, isWord).value)
  {
    RatiosErr(papers, oov, lower, isWord);
    RatiosValues(papers, oov, lower, isWord);
  }

  /** The ratios fail exactly when some row has no word tokens. */
  lemma {:induction false} RatiosErr(papers: seq<Paper>, oov: set<string>, lower: CharMap, isWord: CharClass)
    ensures Ratios(papers, oov, lower, isWord).Err? <==> exists i :: 0 <= i < |papers| && Tokens(papers[i].text, lower, isWord) == []
  {
    if papers != [] {
      RatiosErr(papers[1..], oov, lower, isWord);
      if exists i :: 0 <= i < |papers| && Tokens(papers[i].text, lower, isWord) == [] {
        var i :| 0 <= i < |papers| && Tokens(papers[i].text, lower, isWord) == [];
        if i > 0 {
          assert papers[1..][i - 1] == papers[i];
        }
      }
      if exists i :: 0 <= i < |papers[1..]| && Tokens(papers[1..][i].text, lower, isWord) == [] {
        var i :| 0 <= i < |papers[1..]| && Tokens(papers[1..][i].text, lower, isWord) == [];
        assert papers[1..][i] == papers[i + 1];
      }
    }
  }

  /** Without failure, the ratio of row `i` is the share of out-of-vocabulary tokens of its text. */
  lemma {:induction false} RatiosValues(papers: seq<Paper>, oov: set<string>, lower: CharMap, isWord: CharClass)
    ensures Ratios(papers, oov, lower, isWord).Ok? ==> forall i :: 0 <= i < |papers| ==>
      OovFraction(papers[i].text, oov, lower, isWord).Ok? && Ratios(papers, oov, lower, isWord).value[i] == Value(OovFraction(papers[i].text, oov, lower, isWord).value)
  {
    if papers != [] {
      RatiosValues(papers[1..], oov, lower, isWord);
      assert forall i :: 0 < i < |papers| ==> papers[i] == papers[1..][i - 1];
    }
  }

  /**
   * One file of the filter: it fails when a row has no word tokens; otherwise
   * `len_stat` counts the rows at or above the threshold, the kept rows are
   * those at or below it, and together they account for every row, the rows
   * exactly at the threshold twice.
   */
  lemma ProcessPapersMeaning(papers: seq<Paper>, oov: set<string>, th: real, lower: CharMap, isWord: CharClass)
    ensures var r := ProcessPapers(papers, oov, th, lower, isWord);
      && (r.Err? <==> exists i :: 0 <= i < |papers| && Tokens(papers[i].text, lower, isWord) == [])
      && (r.Ok? ==>
           var ratios := Ratios(papers, oov, lower, isWord).value;
           && r.value.lenStat <= |papers|
           && r.value.lenStat + |r.value.kept| == |papers| + AtExactly(ratios, th)
           && forall p :: p in r.value.kept <==> exists i :: 0 <= i < |papers| && papers[i] == p && ratios[i] <= th)
  {
    RatiosFail(papers, oov, lower, isWord);
    var rs := Ratios(papers, oov, lower, isWord);
    if rs.Ok? {
      PartitionSizes(papers, rs.value, th);
      forall p ensures p in AtMost(papers, rs.value, th) <==> exists i :: 0 <= i < |papers| && papers[i] == p && rs.value[i] <= th {
        AtMostMember(papers, rs.value, th, p);
      }
    }
  }
}
