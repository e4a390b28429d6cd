/**
 * The hashtag pipeline of `preprocess/others/hashtags.py`: counting the
 * hashtags of a corpus and writing them, most frequent first, one
 * `hashtag: count` line each; reading that list back; gathering the
 * keywords of the tweets that mention each hashtag and keeping its 200 most
 * common; and dropping from the end of a tweet the hashtags that its words
 * do not support.
 */
module Hashtags {
  import opened Text
  import opened Counting

  /**
   * What this model needs of the class `\w`: it matches no whitespace, no
   * colon and no `#`.
   */
  predicate WordClass(isWord: CharClass) {
    forall c :: isWord(c) ==> NotSpace(c) && c != ':' && c != '#'
  }

  /**
   * `re.findall(r'#(\w+)', s)`: scanning left to right, each `#` followed by
   * a word character starts a match whose capture is the whole run of word
   * characters after it; scanning resumes after the run.
   */
  function HashtagNames(s: string, isWord: CharClass): (hs: seq<string>)
    ensures forall i :: 0 <= i < |hs| ==> hs[i] != [] && forall j :: 0 <= j < |hs[i]| ==> isWord(hs[i][j])
    decreases |s|
  {
    if |s| < 2 then []
    else if s[0] == '#' && isWord(s[1]) then
      var k := RunLength(s[1..], isWord);
      var name := s[1..1 + k];
      assert name != [] && forall j :: 0 <= j < |name| ==> isWord(name[j]) by {
        assert s[1..][0] == s[1];
        assert forall j :: 0 <= j < k ==> name[j] == s[1..][j];
      }
      [name] + HashtagNames(s[1 + k..], isWord)
    else HashtagNames(s[1..], isWord)
  }

  /** A `#` at the front followed by `k` more characters: the text starts with them. */
  lemma FirstNameOccurs(s: string, k: nat)
    requires 1 + k <= |s| && s[0] == '#'
    ensures Contains(s, "#" + s[1..1 + k])
  {
    assert s[..1 + k] == "#" + s[1..1 + k];
  }

  /** Every captured name stands in the text right after a `#`. */
  lemma {:induction false} HashtagNamesOccur(s: string, isWord: CharClass)
    ensures forall i :: 0 <= i < |HashtagNames(s, isWord)| ==> Contains(s, "#" + HashtagNames(s, isWord)[i])
    decreases |s|
  {
    if |s| >= 2 {
      var hs := HashtagNames(s, isWord);
      if s[0] == '#' && isWord(s[1]) {
        var k := RunLength(s[1..], isWord);
        HashtagNamesOccur(s[1 + k..], isWord);
        forall i | 0 <= i < |hs| ensures Contains(s, "#" + hs[i]) {
          if i == 0 {
            FirstNameOccurs(s, k);
          } else {
            assert hs[i] == HashtagNames(s[1 + k..], isWord)[i - 1];
            ContainsInSuffix(s, 1 + k, "#" + hs[i]);
          }
        }
      } else {
        HashtagNamesOccur(s[1..], isWord);
        forall i | 0 <= i < |hs| ensures Contains(s, "#" + hs[i]) {
          ContainsInSuffix(s, 1, "#" + hs[i]);
        }
      }
    }
  }

  /** The hashtag names of all the texts, in order. */
  function AllNames(texts: seq<string>, isWord: CharClass): seq<string> {
    if texts == [] then [] else AllNames(texts[..|texts| - 1], isWord) + HashtagNames(texts[|texts| - 1], isWord)
  }

  lemma {:induction false} AllNamesAreWords(texts: seq<string>, isWord: CharClass)
    ensures forall i :: 0 <= i < |AllNames(texts, isWord)| ==>
      var h := AllNames(texts, isWord)[i]; h != [] && forall j :: 0 <= j < |h| ==> isWord(h[j])
  {
    if texts != [] {
      AllNamesAreWords(texts[..|texts| - 1], isWord);
    }
  }

  /** The dictionary counted from `names`: its keys are the names, each with its count, and the key order lists each once. */
  lemma DictionaryOfCounts(names: seq<string>)
    ensures forall h :: h in Tally(names) <==> h in names
    ensures forall h :: h in Tally(names) ==> Tally(names)[h] == Count(names, h)
    ensures Distinct(InsertionOrder(names)) && forall h :: h in InsertionOrder(names) <==> h in Tally(names)
  {
    TallyCounts(names);
  }

  lemma AllNamesStep(texts: seq<string>, i: nat, isWord: CharClass)
    requires i < |texts|
    ensures AllNames(texts[..i + 1], isWord) == AllNames(texts[..i], isWord) + HashtagNames(texts[i], isWord)
  {
    assert texts[..i + 1][..i] == texts[..i] && texts[..i + 1][i] == texts[i];
  }

  /**
   * The inner loop of `get_hashtags` over the captures of one text: the
   * dictionary counted from `seen` becomes the one counted from `seen`
   * followed by `names`.
   */
  method CountNames(keys0: seq<string>, counts0: map<string, nat>, names: seq<string>, ghost seen: seq<string>)
    returns (keys: seq<string>, counts: map<string, nat>)
    requires keys0 == InsertionOrder(seen) && counts0 == Tally(seen)
    ensures keys == InsertionOrder(seen + names) && counts == Tally(seen + names)
  {
    keys, counts := keys0, counts0;
    ghost var done := seen;
    assert seen + names[..0] == seen;
    for j := 0 to |names|
      invariant done == seen + names[..j]
      invariant keys == InsertionOrder(done) && counts == Tally(done)
    {
      keys, counts := CountOne(keys, counts, names[j], done);
      PrefixSnoc(seen, names, j);
      done := done + [names[j]];
    }
    assert names[..|names|] == names;
  }

  /**
   * `hashtag_counts[h] = hashtag_counts.get(h, 0) + 1` on the dictionary
   * counted from `done`: a new key goes at the end of the key order.
   */
  method CountOne(keys: seq<string>, counts: map<string, nat>, h: string, ghost done: seq<string>)
    returns (keys': seq<string>, counts': map<string, nat>)
    requires keys == InsertionOrder(done) && counts == Tally(done)
    ensures keys' == InsertionOrder(done + [h]) && counts' == Tally(done + [h])
  {
    CountOneMore(done, h);
    keys' := if h in counts then keys else keys + [h];
    counts' := counts[h := Get(counts, h) + 1];
  }

  /** One more element of `names` taken after `seen`. */
  lemma PrefixSnoc(seen: seq<string>, names: seq<string>, j: nat)
    requires j < |names|
    ensures seen + names[..j + 1] == (seen + names[..j]) + [names[j]]
  {
    assert names[..j + 1] == names[..j] + [names[j]];
  }

  /**
   * The counting loop of `get_hashtags`: `hashtag_counts[h] =
   * hashtag_counts.get(h, 0) + 1` for every capture of every text. The
   * dictionary is returned as its keys in insertion order and its map of
   * counts: each key counts exactly the captures of that name, the keys are
   * exactly the distinct captured names, in order of first capture.
   */
  method CountHashtags(texts: seq<string>, isWord: CharClass) returns (keys: seq<string>, counts: map<string, nat>)
    ensures keys == InsertionOrder(AllNames(texts, isWord)) && counts == Tally(AllNames(texts, isWord))
    ensures forall h :: h in counts <==> h in AllNames(texts, isWord)
    ensures forall h :: h in counts ==> counts[h] == Count(AllNames(texts, isWord), h)
    ensures Distinct(keys) && forall h :: h in keys <==> h in counts
  {
    keys, counts := [], map[];
    for i := 0 to |texts|
      invariant keys == InsertionOrder(AllNames(texts[..i], isWord))
      invariant counts == Tally(AllNames(texts[..i], isWord))
    {
      AllNamesStep(texts, i, isWord);
      keys, counts := CountNames(keys, counts, HashtagNames(texts[i], isWord), AllNames(texts[..i], isWord));
    }
    assert texts[..|texts|] == texts;
    DictionaryOfCounts(AllNames(texts, isWord));
  }

  /** `sorted(hashtag_counts.items(), key=lambda x: -x[1])`. */
  function SortedCounts(keys: seq<string>, counts: map<string, nat>): seq<Entry>
    requires forall k :: k in keys ==> k in counts
  {
    SortByCountDesc(Items(keys, counts))
  }

  /** The character of a decimal digit. */
  function DigitChar(d: nat): char
    requires d < 10
  {
    ['0', '1', '2', '3', '4', '5', '6', '7', '8', '9'][d]
  }

  /** `str(n)`: the decimal numeral of `n`. */
  function Decimal(n: nat): (r: string)
    ensures r != [] && forall i :: 0 <= i < |r| ==> '0' <= r[i] <= '9'
  {
    if n < 10 then [DigitChar(n)] else Decimal(n / 10) + [DigitChar(n % 10)]
  }

  /** `int(s)` for a string of decimal digits. */
  function DecimalValue(s: string): nat
    requires forall i :: 0 <= i < |s| ==> '0' <= s[i] <= '9'
  {
    if s == [] then 0 else 10 * DecimalValue(s[..|s| - 1]) + (s[|s| - 1] as int - '0' as int)
  }

  /** The numeral written for a count reads back as that count. */
  lemma {:induction false} DecimalRoundTrip(n: nat)
    ensures DecimalValue(Decimal(n)) == n
  {
    if n >= 10 {
      DecimalRoundTrip(n / 10);
      var s := Decimal(n);
      assert s[..|s| - 1] == Decimal(n / 10);
    }
  }

  /** `f"{hashtag}: {count}\n"`. */
  function Line(e: Entry): (r: string)
    ensures r != [] && r[|r| - 1] == '\n'
  {
    e.key + ": " + Decimal(e.count) + "\n"
  }

  /** The hashtag file: one line per item, in order. */
  function FileText(es: seq<Entry>): (r: string)
    ensures es == [] <==> r == []
    ensures r != [] ==> r[|r| - 1] == '\n'
  {
    if es == [] then "" else Line(es[0]) + FileText(es[1..])
  }

  /** The hashtag file `get_hashtags` writes for a corpus. */
  function HashtagFile(texts: seq<string>, isWord: CharClass): string {
    var names := AllNames(texts, isWord);
    TallyCounts(names);
    FileText(SortedCounts(InsertionOrder(names), Tally(names)))
  }

  predicate NotNewline(c: char) {
    c != '\n'
  }

  predicate NotColon(c: char) {
    c != ':'
  }

  /** `file.readlines()`: the lines of a file, each with its terminating newline (the last one may lack it). */
  function ReadLines(s: string): (ls: seq<string>)
    ensures |ls| <= |s|
    decreases |s|
  {
    if s == [] then []
    else
      var k := RunLength(s, NotNewline);
      if k == |s| then [s] else [s[..k + 1]] + ReadLines(s[k + 1..])
  }

  /** The lines put together again are the file; no line is empty, and a newline only ever ends a line. */
  lemma ReadLinesCover(s: string)
    ensures Flatten(ReadLines(s)) == s
    ensures forall i :: 0 <= i < |ReadLines(s)| ==>
      var l := ReadLines(s)[i]; l != [] && forall j :: 0 <= j < |l| - 1 ==> l[j] != '\n'
  {
    ReadLinesFlatten(s);
    ReadLinesShape(s);
  }

  /** The lines put together again are the file. */
  lemma {:induction false} ReadLinesFlatten(s: string)
    ensures Flatten(ReadLines(s)) == s
    decreases |s|
  {
    if s != [] {
      var k := RunLength(s, NotNewline);
      if k < |s| {
        ReadLinesFlatten(s[k + 1..]);
        assert s == s[..k + 1] + s[k + 1..];
      } else {
        assert Flatten([s]) == s + Flatten([]);
      }
    }
  }

  /** No line is empty, and a newline only ever ends a line. */
  lemma {:induction false} ReadLinesShape(s: string)
    ensures forall i :: 0 <= i < |ReadLines(s)| ==>
      var l := ReadLines(s)[i]; l != [] && forall j :: 0 <= j < |l| - 1 ==> l[j] != '\n'
    decreases |s|
  {
    if s != [] {
      var k := RunLength(s, NotNewline);
      if k < |s| {
        ReadLinesShape(s[k + 1..]);
        var ls, rest := ReadLines(s), ReadLines(s[k + 1..]);
        assert ls == [s[..k + 1]] + rest;
        forall i | 0 <= i < |ls| ensures ls[i] != [] && forall j :: 0 <= j < |ls[i]| - 1 ==> ls[i][j] != '\n' {
          if i > 0 {
            assert ls[i] == rest[i - 1];
          }
        }
      }
    }
  }

  /** A line ending in its only newline is read as one line. */
  lemma ReadLinesFirst(line: string, rest: string)
    requires line != [] && line[|line| - 1] == '\n'
    requires forall j :: 0 <= j < |line| - 1 ==> line[j] != '\n'
    ensures ReadLines(line + rest) == [line] + ReadLines(rest)
  {
    var s := line + rest;
    var body := line[..|line| - 1];
    assert s == body + (['\n'] + rest);
    RunLengthPrefix(body, ['\n'] + rest, NotNewline);
    assert s[..|line|] == line && s[|line|..] == rest;
  }

  /** `s.split(':')[0]`: the part of `s` before its first colon. */
  function BeforeColon(s: string): string {
    s[..RunLength(s, NotColon)]
  }

  /** `'#' + line.strip().split(':')[0]`. */
  function ParseLine(line: string): (r: string)
    ensures r != [] && r[0] == '#'
  {
    "#" + BeforeColon(Strip(line))
  }

  /** `['#' + line.strip().split(':')[0] for line in lines]` over the lines of a file. */
  function ParseHashtags(file: string): (r: seq<string>)
    ensures |r| == |ReadLines(file)|
    ensures forall i :: 0 <= i < |r| ==> r[i] != [] && r[i][0] == '#'
  {
    ParseLines(ReadLines(file))
  }

  /** `ParseLine` applied to every line, in order. */
  function ParseLines(lines: seq<string>): (r: seq<string>)
    ensures |r| == |lines|
    ensures forall i :: 0 <= i < |r| ==> r[i] != [] && r[i][0] == '#'
  {
    if lines == [] then [] else [ParseLine(lines[0])] + ParseLines(lines[1..])
  }

  /** `'#' + h` for every key, in order. */
  function Hashed(ks: seq<string>): (r: seq<string>)
    ensures |r| == |ks|
    ensures forall i :: 0 <= i < |ks| ==> r[i] == "#" + ks[i]
  {
    if ks == [] then [] else ["#" + ks[0]] + Hashed(ks[1..])
  }

  /** A key fit to be written and read back: no whitespace and no colon. */
  predicate PlainKey(k: string) {
    forall i :: 0 <= i < |k| ==> NotSpace(k[i]) && k[i] != ':'
  }

  /** A written line without its newline begins with the key, or the colon when the key is empty, and ends in a digit. */
  lemma LineBody(e: Entry)
    ensures var body := e.key + ": " + Decimal(e.count);
      && Line(e) == body + "\n"
      && body[0] == (if e.key == [] then ':' else e.key[0])
      && '0' <= body[|body| - 1] <= '9'
  {
    var digits := Decimal(e.count);
    var body := e.key + ": " + digits;
    assert body[|body| - 1] == digits[|digits| - 1];
  }

  /** Stripping a text with no whitespace at its ends followed by a newline removes the newline. */
  lemma StripNewline(body: string)
    requires body != [] && NotSpace(body[0]) && NotSpace(body[|body| - 1])
    ensures Strip(body + "\n") == body
  {
    assert AllSpace("\n") by {
      assert IsSpace('\n');
    }
    StripTrailingSpace(body, "\n");
    StripUnchanged(body);
  }

  /** Stripping a written line leaves it without its newline. */
  lemma StripLine(e: Entry)
    requires PlainKey(e.key)
    ensures Strip(Line(e)) == e.key + ": " + Decimal(e.count)
  {
    var body := e.key + ": " + Decimal(e.count);
    LineBody(e);
    assert NotSpace(body[0]);
    assert NotSpace(body[|body| - 1]);
    StripNewline(body);
  }

  /** The part before the first colon of a key, a colon and more is the key. */
  lemma BeforeColonKey(k: string, rest: string)
    requires PlainKey(k)
    ensures BeforeColon(k + ":" + rest) == k
  {
    assert k + ":" + rest == k + (":" + rest);
    RunLengthPrefix(k, ":" + rest, NotColon);
    assert (k + (":" + rest))[..|k|] == k;
  }

  /** Reading one written line back gives `#` and the key. */
  lemma ParseWrittenLine(e: Entry)
    requires PlainKey(e.key)
    ensures ParseLine(Line(e)) == "#" + e.key
  {
    StripLine(e);
    BeforeColonKey(e.key, " " + Decimal(e.count));
    assert e.key + ": " + Decimal(e.count) == e.key + ":" + (" " + Decimal(e.count));
  }

  /** A written line holds its only newline at its end. */
  lemma LineNewline(e: Entry)
    ensures var line := Line(e);
      && line != [] && line[|line| - 1] == '\n'
      && forall j :: 0 <= j < |line| - 1 ==> line[j] != '\n'
    requires PlainKey(e.key)
  {
    var line := Line(e);
    var digits := Decimal(e.count);
    assert line == e.key + ": " + digits + "\n";
    forall j | 0 <= j < |line| - 1 ensures line[j] != '\n' {
      if j < |e.key| {
        assert line[j] == e.key[j];
        assert IsSpace('\n');
      } else if j >= |e.key| + 2 {
        assert line[j] == digits[j - |e.key| - 2];
      }
    }
  }

  /**
   * Round trip of the hashtag file: reading back what was written gives,
   * line by line, `#` followed by each key.
   */
  lemma {:induction false} FileRoundTrip(es: seq<Entry>)
    requires forall i :: 0 <= i < |es| ==> PlainKey(es[i].key)
    ensures ParseHashtags(FileText(es)) == Hashed(Keys(es))
  {
    if es != [] {
      FileRoundTrip(es[1..]);
      LineNewline(es[0]);
      ReadLinesFirst(Line(es[0]), FileText(es[1..]));
      ParseWrittenLine(es[0]);
      ParseFirstLine(Line(es[0]), FileText(es[1..]));
      assert Keys(es)[1..] == Keys(es[1..]);
    }
  }

  /** A first line read as one line is parsed first, before the rest of the file. */
  lemma ParseFirstLine(line: string, rest: string)
    requires ReadLines(line + rest) == [line] + ReadLines(rest)
    ensures ParseHashtags(line + rest) == [ParseLine(line)] + ParseHashtags(rest)
  {
    var lines := ReadLines(rest);
    assert ([line] + lines)[1..] == lines;
  }

  /** `#` followed by a key is in the hashed list exactly when the key is in the list. */
  lemma HashedMember(ks: seq<string>, h: string)
    ensures "#" + h in Hashed(ks) <==> h in ks
  {
    var r := Hashed(ks);
    if "#" + h in r {
      var i :| 0 <= i < |r| && r[i] == "#" + h;
      assert ("#" + h)[1..] == h && ("#" + ks[i])[1..] == ks[i];
    }
    if h in ks {
      var i :| 0 <= i < |ks| && ks[i] == h;
      assert r[i] == "#" + h;
    }
  }

  /** The keys of the counted names can be written and read back. */
  lemma NamesArePlain(texts: seq<string>, isWord: CharClass, es: seq<Entry>)
    requires WordClass(isWord)
    requires forall i :: 0 <= i < |es| ==> es[i].key in AllNames(texts, isWord)
    ensures forall i :: 0 <= i < |es| ==> PlainKey(es[i].key)
  {
    var names := AllNames(texts, isWord);
    AllNamesAreWords(texts, isWord);
    forall i | 0 <= i < |es| ensures PlainKey(es[i].key) {
      var n :| 0 <= n < |names| && names[n] == es[i].key;
    }
  }

  /**
   * The hashtag list that `get_keywords` reads from the file `get_hashtags`
   * writes: the captured names, each with `#` in front, most frequent first,
   * each name exactly once.
   */
  lemma HashtagFileRoundTrip(texts: seq<string>, isWord: CharClass)
    requires WordClass(isWord)
    ensures var names := AllNames(texts, isWord);
      && (TallyCounts(names);
          ParseHashtags(HashtagFile(texts, isWord)) == Hashed(Keys(SortedCounts(InsertionOrder(names), Tally(names)))))
      && forall h :: "#" + h in ParseHashtags(HashtagFile(texts, isWord)) <==> h in names
  {
    var names := AllNames(texts, isWord);
    TallyCounts(names);
    SortedFileRoundTrip(texts, isWord, InsertionOrder(names), Tally(names));
  }

  /** The round trip for any dictionary whose keys are the captured names. */
  lemma SortedFileRoundTrip(texts: seq<string>, isWord: CharClass, keys: seq<string>, counts: map<string, nat>)
    requires WordClass(isWord)
    requires forall k :: k in keys ==> k in counts
    requires forall k :: k in keys <==> k in AllNames(texts, isWord)
    ensures ParseHashtags(FileText(SortedCounts(keys, counts))) == Hashed(Keys(SortedCounts(keys, counts)))
    ensures forall h :: "#" + h in ParseHashtags(FileText(SortedCounts(keys, counts))) <==> h in keys
  {
    var sorted := SortedCounts(keys, counts);
    SortedItemKeys(keys, counts);
    var ks := Keys(sorted);
    assert forall i :: 0 <= i < |sorted| ==> sorted[i].key == ks[i];
    NamesArePlain(texts, isWord, sorted);
    FileRoundTrip(sorted);
    forall h ensures "#" + h in Hashed(ks) <==> h in keys {
      HashedMember(ks, h);
    }
  }

  /** `[w for w in ws if w.lower() not in stopwords]`. */
  function NonStop(ws: seq<string>, stopwords: seq<string>, lower: CharMap): (r: seq<string>)
    ensures |r| <= |ws|
  {
    if ws == [] then []
    else (if Lower(ws[0], lower) in stopwords then [] else [ws[0]]) + NonStop(ws[1..], stopwords, lower)
  }

  /** `extract_keywords(tweet, stopwords)`: the words of the tweet whose lower case is no stop word. */
  function ExtractKeywords(tweet: string, stopwords: seq<string>, lower: CharMap): (r: seq<string>)
    ensures |r| <= |Split(tweet)|
  {
    NonStop(Split(tweet), stopwords, lower)
  }

  /** The kept words are the words, in order, with some left out. */
  lemma {:induction false} NonStopSubsequence(ws: seq<string>, stopwords: seq<string>, lower: CharMap)
    ensures IsSubsequence(NonStop(ws, stopwords, lower), ws)
  {
    if ws != [] {
      NonStopSubsequence(ws[1..], stopwords, lower);
      var r := NonStop(ws, stopwords, lower);
      var rest := NonStop(ws[1..], stopwords, lower);
      if Lower(ws[0], lower) !in stopwords {
        assert r == [ws[0]] + rest;
        assert r[0] == ws[0] && r[1..] == rest;
        assert IsSubsequence(r[1..], ws[1..]);
      } else {
        assert r == rest;
        assert IsSubsequence(r, ws[1..]);
      }
    }
  }

  /** A word is kept as often as it occurs, unless its lower case is a stop word, when it is dropped entirely. */
  lemma {:induction false} NonStopCount(ws: seq<string>, stopwords: seq<string>, lower: CharMap, w: string)
    ensures Count(NonStop(ws, stopwords, lower), w) == if Lower(w, lower) in stopwords then 0 else Count(ws, w)
  {
    if ws != [] {
      NonStopCount(ws[1..], stopwords, lower, w);
      var head := if Lower(ws[0], lower) in stopwords then [] else [ws[0]];
      CountAppend(head, NonStop(ws[1..], stopwords, lower), w);
      assert Count([ws[0]], w) == if ws[0] == w then 1 else 0 by {
        assert [ws[0]][1..] == [];
      }
    }
  }

  /** The keywords of a tweet are some of its whitespace-separated words, in their order, and none of them is a stop word. */
  lemma ExtractKeywordsProperties(tweet: string, stopwords: seq<string>, lower: CharMap)
    ensures IsSubsequence(ExtractKeywords(tweet, stopwords, lower), Split(tweet))
    ensures forall w :: Count(ExtractKeywords(tweet, stopwords, lower), w) == (if Lower(w, lower) in stopwords then 0 else Count(Split(tweet), w))
  {
    NonStopSubsequence(Split(tweet), stopwords, lower);
    forall w ensures Count(ExtractKeywords(tweet, stopwords, lower), w) ==
      if Lower(w, lower) in stopwords then 0 else Count(Split(tweet), w)
    {
      NonStopCount(Split(tweet), stopwords, lower, w);
    }
  }

  /** `ws` repeated `n` times, one copy after the other. */
  function Repeat(ws: seq<string>, n: nat): (r: seq<string>)
    ensures |r| == n * |ws|
  {
    if n == 0 then [] else Repeat(ws, n - 1) + ws
  }

  /** `d[k]` of a `defaultdict(list)` read without inserting. */
  function GetList(m: map<string, seq<string>>, k: string): seq<string> {
    if k in m then m[k] else []
  }

  /**
   * The keyword dictionary after one tweet of `get_keywords`: for every
   * hashtag in the list, in list order, that occurs in the tweet as a
   * substring, `hashtags_keywords[hashtag].extend(keywords)`.
   */
  function GatherTweet(m: map<string, seq<string>>, tweet: string, hashtags: seq<string>, keywords: seq<string>): (r: map<string, seq<string>>)
    ensures forall h :: h in m ==> h in r
    ensures forall h :: h in r ==> h in m || h in hashtags
  {
    if hashtags == [] then m
    else
      var m' := GatherTweet(m, tweet, hashtags[..|hashtags| - 1], keywords);
      var h := hashtags[|hashtags| - 1];
      if Contains(tweet, h) then m'[h := GetList(m', h) + keywords] else m'
  }

  /** The keyword dictionary of `get_keywords` after all the tweets. */
  function Gathered(tweets: seq<string>, hashtags: seq<string>, stopwords: seq<string>, lower: CharMap): (r: map<string, seq<string>>)
    ensures forall h :: h in r ==> h in hashtags
  {
    if tweets == [] then map[]
    else
      var t := tweets[|tweets| - 1];
      GatherTweet(Gathered(tweets[..|tweets| - 1], hashtags, stopwords, lower), t, hashtags, ExtractKeywords(t, stopwords, lower))
  }

  /**
   * The keywords gathered for hashtag `h`, told tweet by tweet: each tweet
   * that contains `h` contributes its keywords once for every time `h` is in
   * the hashtag list.
   */
  function KeywordsFor(tweets: seq<string>, h: string, hashtags: seq<string>, stopwords: seq<string>, lower: CharMap): seq<string> {
    if tweets == [] then []
    else
      var t := tweets[|tweets| - 1];
      KeywordsFor(tweets[..|tweets| - 1], h, hashtags, stopwords, lower)
        + (if Contains(t, h) then Repeat(ExtractKeywords(t, stopwords, lower), Count(hashtags, h)) else [])
  }

  /** Some tweet contains `h`. */
  predicate Mentioned(tweets: seq<string>, h: string) {
    exists i :: 0 <= i < |tweets| && Contains(tweets[i], h)
  }

  lemma CountSnoc(p: seq<string>, x: string, h: string)
    ensures Count(p + [x], h) == Count(p, h) + (if h == x then 1 else 0)
  {
    CountAppend(p, [x], h);
    assert [x][1..] == [];
  }

  /** One tweet extends the list of every listed hashtag it contains, once per listing. */
  lemma {:induction false} GatherTweetLists(m: map<string, seq<string>>, tweet: string, hashtags: seq<string>, keywords: seq<string>, h: string)
    ensures GetList(GatherTweet(m, tweet, hashtags, keywords), h) ==
      GetList(m, h) + (if Contains(tweet, h) then Repeat(keywords, Count(hashtags, h)) else [])
  {
    if hashtags != [] {
      var p, x := hashtags[..|hashtags| - 1], hashtags[|hashtags| - 1];
      GatherTweetLists(m, tweet, p, keywords, h);
      GatherTweetLast(m, tweet, hashtags, keywords, h);
      assert hashtags == p + [x];
      ListsGrow(GetList(m, h), GetList(GatherTweet(m, tweet, p, keywords), h),
        GetList(GatherTweet(m, tweet, hashtags, keywords), h), keywords, p, x, h, Contains(tweet, h));
    }
  }

  /** The list of `h` after one more listed hashtag `x`: `keywords` once more when `x` is `h`. */
  lemma ListsGrow(base: seq<string>, before: seq<string>, after: seq<string>, keywords: seq<string>,
                  p: seq<string>, x: string, h: string, contained: bool)
    requires before == base + (if contained then Repeat(keywords, Count(p, h)) else [])
    requires after == before + (if contained && h == x then keywords else [])
    ensures after == base + (if contained then Repeat(keywords, Count(p + [x], h)) else [])
  {
    CountSnoc(p, x, h);
    if contained && h == x {
      ConcatAssoc(base, Repeat(keywords, Count(p, h)), keywords);
    } else {
      assert before + [] == before;
    }
  }

  /** The last hashtag of the list extends its own list, when the tweet contains it, and no other. */
  lemma GatherTweetLast(m: map<string, seq<string>>, tweet: string, hashtags: seq<string>, keywords: seq<string>, h: string)
    requires hashtags != []
    ensures GetList(GatherTweet(m, tweet, hashtags, keywords), h) ==
      GetList(GatherTweet(m, tweet, hashtags[..|hashtags| - 1], keywords), h)
        + (if Contains(tweet, h) && h == hashtags[|hashtags| - 1] then keywords else [])
  {
    assert GetList(GatherTweet(m, tweet, hashtags[..|hashtags| - 1], keywords), h) + [] ==
      GetList(GatherTweet(m, tweet, hashtags[..|hashtags| - 1], keywords), h);
  }

  /** One tweet creates the key of every listed hashtag it contains, and no other. */
  lemma {:induction false} GatherTweetKeys(m: map<string, seq<string>>, tweet: string, hashtags: seq<string>, keywords: seq<string>)
    ensures forall h :: h in GatherTweet(m, tweet, hashtags, keywords) <==> h in m || (h in hashtags && Contains(tweet, h))
  {
    if hashtags != [] {
      var p, x := hashtags[..|hashtags| - 1], hashtags[|hashtags| - 1];
      GatherTweetKeys(m, tweet, p, keywords);
      assert hashtags == p + [x];
    }
  }

  /**
   * The dictionary `get_keywords` builds: its keys are the listed hashtags
   * that occur in some tweet, and each holds the keywords of those tweets,
   * tweet by tweet.
   */
  lemma {:induction false} GatheredMeaning(tweets: seq<string>, hashtags: seq<string>, stopwords: seq<string>, lower: CharMap)
    ensures forall h :: GetList(Gathered(tweets, hashtags, stopwords, lower), h) == KeywordsFor(tweets, h, hashtags, stopwords, lower)
    ensures forall h :: h in Gathered(tweets, hashtags, stopwords, lower) <==> h in hashtags && Mentioned(tweets, h)
  {
    if tweets != [] {
      var p, t := tweets[..|tweets| - 1], tweets[|tweets| - 1];
      GatheredMeaning(p, hashtags, stopwords, lower);
      var m := Gathered(p, hashtags, stopwords, lower);
      var kws := ExtractKeywords(t, stopwords, lower);
      GatherTweetKeys(m, t, hashtags, kws);
      forall h ensures GetList(Gathered(tweets, hashtags, stopwords, lower), h) == KeywordsFor(tweets, h, hashtags, stopwords, lower) {
        GatherTweetLists(m, t, hashtags, kws, h);
      }
      forall h ensures Mentioned(tweets, h) <==> Mentioned(p, h) || Contains(t, h) {
        if Mentioned(tweets, h) {
          var i :| 0 <= i < |tweets| && Contains(tweets[i], h);
          if i < |p| {
            assert p[i] == tweets[i];
          }
        }
        if Mentioned(p, h) {
          var i :| 0 <= i < |p| && Contains(p[i], h);
          assert tweets[i] == p[i];
        }
        if Contains(t, h) {
          assert Contains(tweets[|tweets| - 1], h);
        }
      }
    }
  }

  /** The hashtags of the list, in list order, that occur in `tweet`: the ones whose list it extends. */
  function ListedIn(tweet: string, hashtags: seq<string>): (r: seq<string>)
    ensures forall h :: h in r <==> h in hashtags && Contains(tweet, h)
  {
    if hashtags == [] then []
    else
      var h := hashtags[|hashtags| - 1];
      assert hashtags == hashtags[..|hashtags| - 1] + [h];
      ListedIn(tweet, hashtags[..|hashtags| - 1]) + (if Contains(tweet, h) then [h] else [])
  }

  /** Every extension of the dictionary, tweet by tweet: the order in which keys are first used. */
  function Mentions(tweets: seq<string>, hashtags: seq<string>): (r: seq<string>)
    ensures forall h :: h in r ==> h in hashtags
  {
    if tweets == [] then []
    else Mentions(tweets[..|tweets| - 1], hashtags) + ListedIn(tweets[|tweets| - 1], hashtags)
  }

  /**
   * The tweet loop of `get_keywords`: for every tweet, for every hashtag of
   * the list that occurs in it, its keywords are appended to the hashtag's
   * list. The dictionary is returned with the order its keys were created
   * in: each hashtag at the first tweet, and first place in the list, where
   * its list was extended.
   */
  method CollectKeywords(tweets: seq<string>, hashtags: seq<string>, stopwords: seq<string>, lower: CharMap)
    returns (order: seq<string>, keywords: map<string, seq<string>>)
    ensures keywords == Gathered(tweets, hashtags, stopwords, lower)
    ensures order == InsertionOrder(Mentions(tweets, hashtags))
    ensures forall h :: h in order <==> h in keywords
    ensures Distinct(order)
  {
    order, keywords := [], map[];
    for i := 0 to |tweets|
      invariant keywords == Gathered(tweets[..i], hashtags, stopwords, lower)
      invariant order == InsertionOrder(Mentions(tweets[..i], hashtags))
      invariant forall h :: h in order <==> h in keywords
    {
      var tweet := tweets[i];
      ghost var before := keywords;
      ghost var created := Mentions(tweets[..i], hashtags);
      assert tweets[..i + 1][..i] == tweets[..i] && tweets[..i + 1][i] == tweet;
      assert created + ListedIn(tweet, hashtags[..0]) == created;
      for j := 0 to |hashtags|
        invariant keywords == GatherTweet(before, tweet, hashtags[..j], ExtractKeywords(tweet, stopwords, lower))
        invariant order == InsertionOrder(created + ListedIn(tweet, hashtags[..j]))
        invariant forall h :: h in order <==> h in keywords
      {
        order, keywords := ExtendList(order, keywords, tweet, hashtags, j, stopwords, lower, before, created);
      }
      assert hashtags[..|hashtags|] == hashtags;
    }
    assert tweets[..|tweets|] == tweets;
  }

  /**
   * The body of the hashtag loop: `if hashtag in tweet`, the tweet's
   * keywords extend the hashtag's list, creating its key (at the end of the
   * key order) when the hashtag has none yet.
   */
  method ExtendList(order: seq<string>, keywords: map<string, seq<string>>, tweet: string, hashtags: seq<string>, j: nat,
                    stopwords: seq<string>, lower: CharMap, ghost before: map<string, seq<string>>, ghost created: seq<string>)
    returns (order': seq<string>, keywords': map<string, seq<string>>)
    requires j < |hashtags|
    requires keywords == GatherTweet(before, tweet, hashtags[..j], ExtractKeywords(tweet, stopwords, lower))
    requires order == InsertionOrder(created + ListedIn(tweet, hashtags[..j]))
    requires forall h :: h in order <==> h in keywords
    ensures keywords' == GatherTweet(before, tweet, hashtags[..j + 1], ExtractKeywords(tweet, stopwords, lower))
    ensures order' == InsertionOrder(created + ListedIn(tweet, hashtags[..j + 1]))
    ensures forall h :: h in order' <==> h in keywords'
  {
    var hashtag := hashtags[j];
    ghost var listed := ListedIn(tweet, hashtags[..j]);
    PrefixStep(tweet, hashtags, j, before, ExtractKeywords(tweet, stopwords, lower));
    order', keywords' := order, keywords;
    if Contains(tweet, hashtag) {
      var kws := ExtractKeywords(tweet, stopwords, lower);
      CreateKey(order, created, listed, hashtag, ListedIn(tweet, hashtags[..j + 1]));
      if hashtag !in keywords {
        order' := order + [hashtag];
      }
      keywords' := keywords[hashtag := GetList(keywords, hashtag) + kws];
    }
  }

  /** One more hashtag of the list: the tweet extends its list, and it is listed, exactly when the tweet contains it. */
  lemma PrefixStep(tweet: string, hashtags: seq<string>, j: nat, m: map<string, seq<string>>, kws: seq<string>)
    requires j < |hashtags|
    ensures var h, m' := hashtags[j], GatherTweet(m, tweet, hashtags[..j], kws);
      GatherTweet(m, tweet, hashtags[..j + 1], kws) == if Contains(tweet, h) then m'[h := GetList(m', h) + kws] else m'
    ensures var listed := ListedIn(tweet, hashtags[..j]);
      ListedIn(tweet, hashtags[..j + 1]) == if Contains(tweet, hashtags[j]) then listed + [hashtags[j]] else listed
  {
    assert hashtags[..j + 1][..j] == hashtags[..j] && hashtags[..j + 1][j] == hashtags[j];
    assert ListedIn(tweet, hashtags[..j]) + [] == ListedIn(tweet, hashtags[..j]);
  }

  /** A hashtag that extends its list is put at the end of the key order when it is not a key yet. */
  lemma CreateKey(order: seq<string>, created: seq<string>, listed: seq<string>, h: string, listed': seq<string>)
    requires order == InsertionOrder(created + listed)
    requires listed' == listed + [h]
    ensures InsertionOrder(created + listed') == if h in order then order else order + [h]
  {
    ConcatAssoc(created, listed, [h]);
    InsertionOrderSnoc(created + listed, h);
  }

  /** Removes the items whose key is `k`, keeping the order of the rest. */
  function WithoutKey(es: seq<Entry>, k: string): (r: seq<Entry>)
    ensures |r| <= |es|
  {
    if es == [] then [] else (if es[0].key == k then [] else [es[0]]) + WithoutKey(es[1..], k)
  }

  /** `Counter(keywords).most_common(200)`. */
  function MostCommon(keywords: seq<string>, n: nat): (r: seq<Entry>)
    ensures |r| <= n
  {
    TallyCounts(keywords);
    Take(SortByCountDesc(Items(InsertionOrder(keywords), Tally(keywords))), n)
  }

  /** The number of keywords kept for each hashtag. */
  const TopCount := 200

  /**
   * The entry `get_keywords` writes for a hashtag:
   * `[{"keyword": key, "count": count} for key, count in top_keywords if key != hashtag]`.
   */
  function TopKeywords(hashtag: string, keywords: seq<string>): (r: seq<Entry>)
    ensures |r| <= TopCount
  {
    WithoutKey(MostCommon(keywords, TopCount), hashtag)
  }

  lemma {:induction false} WithoutKeyMember(es: seq<Entry>, k: string, e: Entry)
    ensures e in WithoutKey(es, k) <==> e in es && e.key != k
  {
    if es != [] {
      WithoutKeyMember(es[1..], k, e);
      assert es == [es[0]] + es[1..];
    }
  }

  lemma {:induction false} WithoutKeyNonIncreasing(es: seq<Entry>, k: string)
    requires NonIncreasing(es)
    ensures NonIncreasing(WithoutKey(es, k))
  {
    if es != [] {
      WithoutKeyNonIncreasing(es[1..], k);
      var rest := WithoutKey(es[1..], k);
      var r := WithoutKey(es, k);
      if es[0].key != k {
        assert r == [es[0]] + rest;
        forall i, j | 0 <= i < j < |r| ensures r[i].count >= r[j].count {
          if i == 0 {
            WithoutKeyMember(es[1..], k, r[j]);
            var n :| 0 <= n < |es[1..]| && es[1..][n] == r[j];
            assert es[n + 1] == r[j];
          } else {
            assert r[i] == rest[i - 1] && r[j] == rest[j - 1];
          }
        }
      }
    }
  }

  /** On items with distinct keys, the filter keeps the keys distinct and drops exactly one item when the key is present. */
  lemma {:induction false} WithoutKeyDistinct(es: seq<Entry>, k: string)
    requires Distinct(Keys(es))
    ensures Distinct(Keys(WithoutKey(es, k)))
    ensures |WithoutKey(es, k)| == |es| - (if k in Keys(es) then 1 else 0)
  {
    if es != [] {
      var rest := WithoutKey(es[1..], k);
      assert Keys(es) == [es[0].key] + Keys(es[1..]);
      WithoutKeyDistinct(es[1..], k);
      if es[0].key != k {
        assert WithoutKey(es, k) == [es[0]] + rest;
        forall e | e in rest ensures e.key != es[0].key {
          WithoutKeyMember(es[1..], k, e);
          var j :| 0 <= j < |es[1..]| && es[1..][j] == e;
          assert Keys(es)[j + 1] == e.key;
        }
        assert Keys(WithoutKey(es, k)) == [es[0].key] + Keys(rest);
      } else {
        assert WithoutKey(es, k) == rest;
      }
    }
  }

  /**
   * The keywords kept for a hashtag: most frequent first, each a keyword
   * other than the hashtag itself, with the number of times it was
   * gathered, and none twice. There are as many as `most_common(200)`
   * returns (200, or the number of distinct keywords when fewer), less one
   * when the hashtag is itself among them.
   */
  lemma TopKeywordsShape(hashtag: string, keywords: seq<string>)
    ensures var r := TopKeywords(hashtag, keywords);
      && |r| <= TopCount
      && NonIncreasing(r)
      && (forall e :: e in r ==> e.key != hashtag && e.key in keywords && e.count == Count(keywords, e.key))
      && Distinct(Keys(r))
      && var distinct := |InsertionOrder(keywords)|;
         |r| == (if distinct < TopCount then distinct else TopCount) - (if hashtag in Keys(MostCommon(keywords, TopCount)) then 1 else 0)
  {
    TallyCounts(keywords);
    var keys := InsertionOrder(keywords);
    var sorted := SortByCountDesc(Items(keys, Tally(keywords)));
    var top := Take(sorted, TopCount);
    SortedItemEntries(keys, Tally(keywords));
    TopDistinct(keys, Tally(keywords), hashtag);
    assert NonIncreasing(top);
    WithoutKeyNonIncreasing(top, hashtag);
    forall e | e in WithoutKey(top, hashtag)
      ensures e.key != hashtag && e.key in keywords && e.count == Count(keywords, e.key)
    {
      WithoutKeyMember(top, hashtag, e);
      assert e in sorted;
    }
  }

  /** A prefix of items with distinct keys has distinct keys. */
  lemma TakeDistinct(es: seq<Entry>, n: nat)
    requires Distinct(Keys(es))
    ensures Distinct(Keys(Take(es, n)))
  {
    var top := Take(es, n);
    forall i, j | 0 <= i < j < |top| ensures Keys(top)[i] != Keys(top)[j] {
      assert top[i] == es[i] && top[j] == es[j];
      assert Keys(es)[i] != Keys(es)[j];
    }
  }

  /** The first 200 sorted items keep distinct keys, and filtering out the hashtag leaves one fewer exactly when it was among them. */
  lemma TopDistinct(keys: seq<string>, m: map<string, nat>, hashtag: string)
    requires forall k :: k in keys ==> k in m
    requires Distinct(keys)
    ensures var top := Take(SortByCountDesc(Items(keys, m)), TopCount);
      && Distinct(Keys(WithoutKey(top, hashtag)))
      && |WithoutKey(top, hashtag)| == (if |keys| < TopCount then |keys| else TopCount) - (if hashtag in Keys(top) then 1 else 0)
  {
    var sorted := SortByCountDesc(Items(keys, m));
    SortedItemsDistinct(keys, m);
    TakeDistinct(sorted, TopCount);
    WithoutKeyDistinct(Take(sorted, TopCount), hashtag);
  }

  /**
   * `most_common(200)` keeps the most frequent keywords: a keyword other
   * than the hashtag that was left out was gathered no more often than any
   * that was kept.
   */
  lemma TopKeywordsAreMostCommon(hashtag: string, keywords: seq<string>, w: string)
    requires w in keywords && w != hashtag
    requires forall e :: e in TopKeywords(hashtag, keywords) ==> e.key != w
    ensures forall e :: e in TopKeywords(hashtag, keywords) ==> e.count >= Count(keywords, w)
  {
    TallyCounts(keywords);
    var sorted := SortByCountDesc(Items(InsertionOrder(keywords), Tally(keywords)));
    SortedItemEntries(InsertionOrder(keywords), Tally(keywords));
    var x := Entry(w, Count(keywords, w));
    assert x in sorted;
    LeftOutOfTop(sorted, TopCount, hashtag, x);
  }

  /** An item of a sorted list that is not among the kept first `n` has a count no larger than any of them. */
  lemma LeftOutOfTop(sorted: seq<Entry>, n: nat, hashtag: string, x: Entry)
    requires NonIncreasing(sorted) && x in sorted && x.key != hashtag
    requires forall e :: e in WithoutKey(Take(sorted, n), hashtag) ==> e.key != x.key
    ensures forall e :: e in WithoutKey(Take(sorted, n), hashtag) ==> e.count >= x.count
  {
    var top := Take(sorted, n);
    var j :| 0 <= j < |sorted| && sorted[j] == x;
    if j < |top| {
      assert top[j] == x;
      WithoutKeyMember(top, hashtag, x);
      assert false;
    }
    forall e | e in WithoutKey(top, hashtag) ensures e.count >= x.count {
      WithoutKeyMember(top, hashtag, e);
      var i :| 0 <= i < |top| && top[i] == e;
      assert sorted[i] == e;
    }
  }

  /** With no more than 200 distinct keywords, every keyword other than the hashtag is kept. */
  lemma TopKeywordsComplete(hashtag: string, keywords: seq<string>, w: string)
    requires |InsertionOrder(keywords)| <= TopCount
    requires w in keywords && w != hashtag
    ensures Entry(w, Count(keywords, w)) in TopKeywords(hashtag, keywords)
  {
    TallyCounts(keywords);
    var keys := InsertionOrder(keywords);
    var sorted := SortByCountDesc(Items(keys, Tally(keywords)));
    SortedItemEntries(keys, Tally(keywords));
    assert |sorted| == |keys| by {
      assert |multiset(sorted)| == |multiset(Items(keys, Tally(keywords)))|;
    }
    assert Take(sorted, TopCount) == sorted;
    WithoutKeyMember(sorted, hashtag, Entry(w, Count(keywords, w)));
  }

  /** `result_json`: the kept keywords of every gathered hashtag. */
  function KeywordTable(gathered: map<string, seq<string>>): (r: map<string, seq<Entry>>)
    ensures forall h :: h in r <==> h in gathered
  {
    map h | h in gathered :: TopKeywords(h, gathered[h])
  }

  /**
   * The `result_json` loop of `get_keywords`: for each hashtag of the
   * dictionary, in key order, the entry of its kept keywords.
   */
  method BuildTable(order: seq<string>, gathered: map<string, seq<string>>) returns (table: map<string, seq<Entry>>)
    requires forall h :: h in order <==> h in gathered
    ensures table == KeywordTable(gathered)
  {
    table := map[];
    for i := 0 to |order|
      invariant forall h :: h in table <==> h in order[..i]
      invariant forall h :: h in table ==> table[h] == TopKeywords(h, gathered[h])
    {
      var hashtag := order[i];
      assert order[..i + 1] == order[..i] + [hashtag];
      table := table[hashtag := TopKeywords(hashtag, gathered[hashtag])];
    }
    assert order[..|order|] == order;
  }

  /**
   * Every gathered hashtag, and no other, has an entry in `result_json`:
   * distinct keywords other than itself, most frequent first, each with the
   * number of times it was gathered for that hashtag.
   */
  lemma KeywordTableShape(gathered: map<string, seq<string>>, h: string)
    ensures h in KeywordTable(gathered) <==> h in gathered
    ensures h in gathered ==> var r := KeywordTable(gathered)[h];
      && |r| <= TopCount
      && NonIncreasing(r)
      && Distinct(Keys(r))
      && forall e :: e in r ==> e.key != h && e.key in gathered[h] && e.count == Count(gathered[h], e.key)
  {
    if h in gathered {
      TopKeywordsShape(h, gathered[h]);
    }
  }

  /** `word.startswith("#")`. */
  predicate StartsWithHash(w: string) {
    |w| > 0 && w[0] == '#'
  }

  /** The number of words left once the trailing words that start with `#` are taken off. */
  function BodyLength(ws: seq<string>): (k: nat)
    ensures k <= |ws|
    ensures forall i :: k <= i < |ws| ==> StartsWithHash(ws[i])
    ensures k == 0 || !StartsWithHash(ws[k - 1])
  {
    if ws == [] || !StartsWithHash(ws[|ws| - 1]) then |ws| else BodyLength(ws[..|ws| - 1])
  }

  /** The number of `keywords`, counted with repetition, that are among `words`. */
  function Support(keywords: seq<string>, words: seq<string>): (n: nat)
    ensures n <= |keywords|
  {
    if keywords == [] then 0
    else Support(keywords[..|keywords| - 1], words) + (if keywords[|keywords| - 1] in words then 1 else 0)
  }

  /** The number of keywords a hashtag needs among the words to be kept. */
  const MinSupport := 3

  /** One turn of the loop over the popped hashtags: `h` goes back at the end of the words when enough of its keywords are there. */
  function Readmit(words: seq<string>, h: string, table: map<string, seq<Entry>>): (r: seq<string>)
    ensures r == words || (r == words + [h] && h in table)
  {
    if h in table && Support(Keys(table[h]), words) >= MinSupport then words + [h] else words
  }

  /** The loop over the popped hashtags, in the order they were popped. */
  function ReadmitAll(words: seq<string>, hs: seq<string>, table: map<string, seq<Entry>>): (r: seq<string>)
    ensures |words| <= |r| <= |words| + |hs|
    ensures r[..|words|] == words
  {
    if hs == [] then words else Readmit(ReadmitAll(words, hs[..|hs| - 1], table), hs[|hs| - 1], table)
  }

  /** The words `remove_irrelevant_hashtags` keeps. */
  function KeptWords(tweet: string, table: map<string, seq<Entry>>): (r: seq<string>)
    ensures |r| <= |Split(tweet)|
  {
    var ws := Split(tweet);
    var k := BodyLength(ws);
    ReadmitAll(ws[..k], Reverse(ws[k..]), table)
  }

  /** The `while` loop of `remove_irrelevant_hashtags`: pops the trailing words that start with `#`, last word first. */
  method PopHashtags(ws: seq<string>) returns (words: seq<string>, hashtags: seq<string>)
    ensures words == ws[..BodyLength(ws)]
    ensures hashtags == Reverse(ws[BodyLength(ws)..])
  {
    words, hashtags := ws, [];
    while |words| > 0 && StartsWithHash(words[|words| - 1])
      invariant |words| <= |ws| && words == ws[..|words|]
      invariant hashtags == Reverse(ws[|words|..])
      invariant BodyLength(words) == BodyLength(ws)
      decreases |words|
    {
      assert ws[|words| - 1..][1..] == ws[|words|..];
      hashtags := hashtags + [words[|words| - 1]];
      words := words[..|words| - 1];
    }
  }

  /** The inner loop of `remove_irrelevant_hashtags`: how many of the keywords are among the words. */
  method CountSupport(keywords: seq<string>, words: seq<string>) returns (keywordCount: nat)
    ensures keywordCount == Support(keywords, words)
  {
    keywordCount := 0;
    for j := 0 to |keywords|
      invariant keywordCount == Support(keywords[..j], words)
    {
      assert keywords[..j + 1][..j] == keywords[..j] && keywords[..j + 1][j] == keywords[j];
      if keywords[j] in words {
        keywordCount := keywordCount + 1;
      }
    }
    assert keywords[..|keywords|] == keywords;
  }

  /** The loop over the popped hashtags, one turn further. */
  lemma ReadmitAllStep(body: seq<string>, hs: seq<string>, i: nat, table: map<string, seq<Entry>>)
    requires i < |hs|
    ensures ReadmitAll(body, hs[..i + 1], table) == Readmit(ReadmitAll(body, hs[..i], table), hs[i], table)
  {
    assert hs[..i + 1][..i] == hs[..i];
  }

  /** The body of the loop over the popped hashtags: `hashtag` goes back when at least three of its keywords are among the words. */
  method ReadmitOne(words: seq<string>, hashtag: string, table: map<string, seq<Entry>>) returns (words': seq<string>)
    ensures words' == Readmit(words, hashtag, table)
  {
    words' := words;
    if hashtag in table {
      var keywordCount := CountSupport(Keys(table[hashtag]), words);
      if keywordCount >= MinSupport {
        words' := words + [hashtag];
      }
    }
  }

  /**
   * `remove_irrelevant_hashtags(tweet, hashtag_keywords)`: the words of the
   * tweet are split off; the words that start with `#` are popped from the
   * end; each popped hashtag, last word first, is put back at the end when at
   * least three of its keywords are among the words at that moment (a
   * hashtag put back counts for the ones after it); the words are joined
   * with single spaces.
   */
  method RemoveIrrelevantHashtags(tweet: string, table: map<string, seq<Entry>>) returns (updated: string)
    ensures updated == Join(KeptWords(tweet, table))
  {
    var words, hashtags := PopHashtags(Split(tweet));
    ghost var body := words;
    assert hashtags[..0] == [];
    for i := 0 to |hashtags|
      invariant words == ReadmitAll(body, hashtags[..i], table)
    {
      ReadmitAllStep(body, hashtags, i, table);
      words := ReadmitOne(words, hashtags[i], table);
    }
    assert hashtags[..|hashtags|] == hashtags;
    updated := Join(words);
  }

  /**
   * The popped hashtags only ever go back at the end: the words before them
   * stay as they were, the ones put back keep the order they were popped in,
   * and each had, in the table, at least three keywords among the words in
   * front of it.
   */
  lemma {:induction false} ReadmitAllShape(body: seq<string>, hs: seq<string>, table: map<string, seq<Entry>>)
    ensures var r := ReadmitAll(body, hs, table);
      && |body| <= |r| && r[..|body|] == body
      && IsSubsequence(r[|body|..], hs)
      && forall i :: |body| <= i < |r| ==> r[i] in table && Support(Keys(table[r[i]]), r[..i]) >= MinSupport
  {
    if hs == [] {
      assert IsSubsequence([], hs);
    } else {
      var p, x := hs[..|hs| - 1], hs[|hs| - 1];
      ReadmitAllShape(body, p, table);
      assert hs == p + [x];
      ReadmitShapeStep(body, p, x, ReadmitAll(body, p, table), ReadmitAll(body, hs, table), table);
    }
  }

  /** Each word after the body is a hashtag of the table with enough support among the words in front of it. */
  predicate WellSupported(body: seq<string>, r: seq<string>, table: map<string, seq<Entry>>)
  {
    forall i :: |body| <= i < |r| ==> r[i] in table && Support(Keys(table[r[i]]), r[..i]) >= MinSupport
  }

  /** One more popped hashtag keeps the shape of `ReadmitAllShape`. */
  lemma ReadmitShapeStep(body: seq<string>, p: seq<string>, x: string, r': seq<string>, r: seq<string>, table: map<string, seq<Entry>>)
    requires |body| <= |r'| && r'[..|body|] == body
    requires IsSubsequence(r'[|body|..], p)
    requires WellSupported(body, r', table)
    requires r == Readmit(r', x, table)
    ensures |body| <= |r| && r[..|body|] == body
    ensures IsSubsequence(r[|body|..], p + [x])
    ensures WellSupported(body, r, table)
  {
    SubsequenceSnoc(r'[|body|..], p, x);
    if x in table && Support(Keys(table[x]), r') >= MinSupport {
      assert r == r' + [x];
      ReadmittedShape(body, r', x, table);
    } else {
      assert r == r';
    }
  }

  /** Putting a hashtag back keeps the shape of `ReadmitAllShape`. */
  lemma ReadmittedShape(body: seq<string>, r': seq<string>, x: string, table: map<string, seq<Entry>>)
    requires |body| <= |r'| && r'[..|body|] == body
    requires WellSupported(body, r', table)
    requires x in table && Support(Keys(table[x]), r') >= MinSupport
    ensures var r := r' + [x];
      && r[..|body|] == body && r[|body|..] == r'[|body|..] + [x]
      && WellSupported(body, r, table)
  {
    ReadmittedPrefix(body, r', x);
    ReadmittedSupport(body, r', x, table);
  }

  /** Appending after the body leaves the body in front. */
  lemma ReadmittedPrefix(body: seq<string>, r': seq<string>, x: string)
    requires |body| <= |r'| && r'[..|body|] == body
    ensures (r' + [x])[..|body|] == body && (r' + [x])[|body|..] == r'[|body|..] + [x]
  {
  }

  /** The hashtag put back had its support among the words in front of it, and so had the ones before it. */
  lemma ReadmittedSupport(body: seq<string>, r': seq<string>, x: string, table: map<string, seq<Entry>>)
    requires |body| <= |r'|
    requires WellSupported(body, r', table)
    requires x in table && Support(Keys(table[x]), r') >= MinSupport
    ensures WellSupported(body, r' + [x], table)
  {
    var r := r' + [x];
    forall i | |body| <= i < |r| ensures r[i] in table && Support(Keys(table[r[i]]), r[..i]) >= MinSupport {
      if i < |r'| {
        assert r[i] == r'[i] && r[..i] == r'[..i];
      } else {
        assert r[..i] == r';
      }
    }
  }

  /** The words of `Split(tweet)`, reversed or not, are whitespace-free and non-empty. */
  lemma ReverseTokens(ws: seq<string>)
    requires forall i :: 0 <= i < |ws| ==> IsToken(ws[i])
    ensures forall w :: w in Reverse(ws) ==> IsToken(w)
  {
    forall w | w in Reverse(ws) ensures IsToken(w) {
      var i :| 0 <= i < |Reverse(ws)| && Reverse(ws)[i] == w;
      assert w == ws[|ws| - 1 - i];
    }
  }

  /** A word put back after the body is one of the trailing hashtags of the words. */
  lemma PutBackHashtag(ws: seq<string>, r: seq<string>, i: nat)
    requires forall j :: 0 <= j < |ws| ==> IsToken(ws[j])
    requires BodyLength(ws) <= i < |r|
    requires IsSubsequence(r[BodyLength(ws)..], Reverse(ws[BodyLength(ws)..]))
    ensures StartsWithHash(r[i]) && IsToken(r[i])
  {
    var k := BodyLength(ws);
    assert r[i] == r[k..][i - k];
    SubsequenceMember(r[k..], Reverse(ws[k..]), r[i]);
    TrailingMember(ws, r[i]);
    var j :| 0 <= j < |ws| && ws[j] == r[i];
  }

  /** A word of the reversed trailing hashtags is a word of the list that starts with `#`. */
  lemma TrailingMember(ws: seq<string>, w: string)
    requires w in Reverse(ws[BodyLength(ws)..])
    ensures StartsWithHash(w) && w in ws
  {
    var i := ReversedSuffixIndex(ws, BodyLength(ws), w);
  }

  /** Where a word of a reversed suffix sits in the whole list. */
  lemma ReversedSuffixIndex(ws: seq<string>, k: nat, w: string) returns (i: nat)
    requires k <= |ws| && w in Reverse(ws[k..])
    ensures k <= i < |ws| && ws[i] == w
  {
    var tail := ws[k..];
    var j :| 0 <= j < |tail| && Reverse(tail)[j] == w;
    i := k + (|tail| - 1 - j);
    assert w == tail[i - k];
  }


  /**
   * What `remove_irrelevant_hashtags` returns: the words of the tweet before
   * its trailing hashtags, unchanged, followed by some of those hashtags in
   * reverse order of appearance, each of which has at least three keywords
   * among the words before it; joined with single spaces, so that splitting
   * the result gives these words back.
   */
  lemma KeptWordsShape(tweet: string, table: map<string, seq<Entry>>)
    ensures var ws := Split(tweet);
      var k := BodyLength(ws);
      var r := KeptWords(tweet, table);
      && k <= |r| && r[..k] == ws[..k]
      && IsSubsequence(r[k..], Reverse(ws[k..]))
      && (forall i :: k <= i < |r| ==> StartsWithHash(r[i]) && r[i] in table && |table[r[i]]| >= MinSupport)
      && (forall i :: k <= i < |r| ==> Support(Keys(table[r[i]]), r[..i]) >= MinSupport)
      && Split(Join(r)) == r
      && Normalised(Join(r))
  {
    var ws := Split(tweet);
    KeptShape(ws, BodyLength(ws), KeptWords(tweet, table), table);
  }

  /** `KeptWordsShape` for given words of a tweet. */
  lemma KeptShape(ws: seq<string>, k: nat, r: seq<string>, table: map<string, seq<Entry>>)
    requires forall j :: 0 <= j < |ws| ==> IsToken(ws[j])
    requires k == BodyLength(ws) && r == ReadmitAll(ws[..k], Reverse(ws[k..]), table)
    ensures k <= |r| && r[..k] == ws[..k]
    ensures IsSubsequence(r[k..], Reverse(ws[k..]))
    ensures forall i :: k <= i < |r| ==> StartsWithHash(r[i]) && r[i] in table && |table[r[i]]| >= MinSupport
    ensures forall i :: k <= i < |r| ==> Support(Keys(table[r[i]]), r[..i]) >= MinSupport
    ensures Split(Join(r)) == r && Normalised(Join(r))
  {
    ReadmitAllShape(ws[..k], Reverse(ws[k..]), table);
    KeptAreTokens(ws, r, table);
    SplitJoin(r);
    JoinNormalised(r);
  }

  /** The kept words are words of the tweet; the ones after the body are hashtags with at least three keywords. */
  lemma KeptAreTokens(ws: seq<string>, r: seq<string>, table: map<string, seq<Entry>>)
    requires forall j :: 0 <= j < |ws| ==> IsToken(ws[j])
    requires BodyLength(ws) <= |r| && r[..BodyLength(ws)] == ws[..BodyLength(ws)]
    requires IsSubsequence(r[BodyLength(ws)..], Reverse(ws[BodyLength(ws)..]))
    requires forall i :: BodyLength(ws) <= i < |r| ==> r[i] in table && Support(Keys(table[r[i]]), r[..i]) >= MinSupport
    ensures forall i :: 0 <= i < |r| ==> IsToken(r[i])
    ensures forall i :: BodyLength(ws) <= i < |r| ==> StartsWithHash(r[i]) && |table[r[i]]| >= MinSupport
  {
    var k := BodyLength(ws);
    forall i | k <= i < |r| ensures StartsWithHash(r[i]) && IsToken(r[i]) && |table[r[i]]| >= MinSupport {
      PutBackHashtag(ws, r, i);
      assert |Keys(table[r[i]])| == |table[r[i]]|;
    }
    forall i | 0 <= i < k ensures IsToken(r[i]) {
      assert r[i] == ws[..k][i];
    }
  }

  /** A tweet that does not end in a hashtag only has its whitespace normalised. */
  lemma NoTrailingHashtag(tweet: string, table: map<string, seq<Entry>>)
    requires Split(tweet) == [] || !StartsWithHash(Split(tweet)[|Split(tweet)| - 1])
    ensures Join(KeptWords(tweet, table)) == Join(Split(tweet))
  {
    var ws := Split(tweet);
    assert ws[..|ws|] == ws;
    assert ws[|ws|..] == [];
  }

  /** With an empty keyword table, every trailing hashtag is removed. */
  lemma EmptyTableRemovesAll(tweet: string)
    ensures var ws := Split(tweet); KeptWords(tweet, map[]) == ws[..BodyLength(ws)]
  {
    var ws := Split(tweet);
    var k := BodyLength(ws);
    ReadmitAllShape(ws[..k], Reverse(ws[k..]), map[]);
  }
}
