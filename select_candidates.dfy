/**
 * The candidate ranking batch: read the head of a word-frequency vocabulary,
 * score every word by how unsure the G2P engine is of its best transcription
 * weighted by how often the word occurs, sort by score, highest first, and
 * write one line per word.
 *
 * The engine, `float()` on its probability strings, `math.log10` and `str()`
 * on floats are parameters; the score is a `real`.
 */
module SelectCandidates {
  import opened Wrappers
  import opened PyStr
  import opened Sequitur

  const Cutoff := 1000
  const NumVariants := 3
  const SequiturModel := "dicts/de_g2p_model-6"

  /** One vocabulary line as read: the word, its count, and its position `num_read`. */
  datatype VocabEntry = VocabEntry(word: string, occs: int, index: nat)

  /** One result tuple `(word, score, proba, occs)`; a missing proba is NaN. */
  datatype Candidate = Candidate(word: string, score: real, proba: Option<real>, occs: int)

  /** What ends the run with an exception. */
  datatype RunError =
    | MalformedLine(lineNo: nat, line: string)  // `line.split()` unpacking or `int()` raises
    | ProcessFailed(word: string)               // `float()` or `log10` raises in `process_word`

  // ---------------------------------------------------------------------
  // Reading the vocabulary
  // ---------------------------------------------------------------------

  /** `word, occs = line.split(); occs = int(occs)`: exactly two tokens, the second an integer. */
  function ParseVocabLine(line: string, index: nat): (r: Option<VocabEntry>)
    ensures |Tokens(line)| != 2 ==> r.None?
    ensures r.Some? ==> r.value.index == index && r.value.word != []
    ensures r.Some? ==> forall c :: c in r.value.word ==> !IsPySpace(c)
  {
    var toks := Tokens(line);
    if |toks| != 2 then None
    else
      match ParseInt(toks[1])
      case None => None
      case Some(n) => Some(VocabEntry(toks[0], n, index))
  }

  /** A line `word count` as the vocabulary holds it parses to that word and count. */
  lemma VocabLineOfEntry(word: string, n: int, index: nat)
    requires word != [] && forall c :: c in word ==> !IsPySpace(c)
    ensures ParseVocabLine(word + " " + IntToString(n) + "\n", index) == Some(VocabEntry(word, n, index))
  {
    var num := IntToString(n);
    IntToStringNoSpace(n);
    TokensPair(word, num);
    ParseIntOfString(n);
  }

  /** How many lines the loop parses: it stops before line `num_read` once `num_read > cutoff`. */
  function ReadCount(n: nat, cutoff: int): (k: nat)
    ensures k <= n
    ensures cutoff >= 0 ==> k <= cutoff + 1
    ensures cutoff < 0 ==> k == 0
    ensures k < n && cutoff >= 0 ==> k == cutoff + 1
  {
    if cutoff < 0 then 0 else if n <= cutoff then n else cutoff + 1
  }

  /** The entries `parse` makes of the lines, each given its position; the first line it rejects ends it. */
  function ParseLines(parse: (string, nat) -> Option<VocabEntry>, lines: seq<string>): Result<seq<VocabEntry>, RunError>
    decreases |lines|
  {
    if lines == [] then Success([])
    else
      var n := |lines| - 1;
      match ParseLines(parse, lines[..n])
      case Failure(e) => Failure(e)
      case Success(es) =>
        match parse(lines[n], n)
        case None => Failure(MalformedLine(n, lines[n]))
        case Some(e) => Success(es + [e])
  }

  lemma {:induction false} ParseLinesSpec(parse: (string, nat) -> Option<VocabEntry>, lines: seq<string>)
    ensures ParseLines(parse, lines).Success? <==> forall k :: 0 <= k < |lines| ==> parse(lines[k], k).Some?
    ensures ParseLines(parse, lines).Success? ==>
      |ParseLines(parse, lines).value| == |lines| &&
      forall k :: 0 <= k < |lines| ==> Some(ParseLines(parse, lines).value[k]) == parse(lines[k], k)
    ensures ParseLines(parse, lines).Failure? ==>
      exists k :: 0 <= k < |lines| && ParseLines(parse, lines).error == MalformedLine(k, lines[k]) &&
        parse(lines[k], k).None? && forall j :: 0 <= j < k ==> parse(lines[j], j).Some?
    decreases |lines|
  {
    if lines != [] {
      var n := |lines| - 1;
      assert forall k :: 0 <= k < n ==> lines[..n][k] == lines[k];
      ParseLinesSpec(parse, lines[..n]);
    }
  }

  function VocabParser(): (string, nat) -> Option<VocabEntry> {
    (line: string, index: nat) => ParseVocabLine(line, index)
  }

  /** The entries of the vocabulary lines, each carrying its position; the first malformed line ends it. */
  function ParseEntries(lines: seq<string>): Result<seq<VocabEntry>, RunError> {
    ParseLines(VocabParser(), lines)
  }

  /** The entries read from a vocabulary file with content `text`. */
  function Vocabulary(text: string, cutoff: int): Result<seq<VocabEntry>, RunError> {
    var lines := ReadLines(text);
    ParseEntries(lines[..ReadCount(|lines|, cutoff)])
  }

  /**
   * Parsing succeeds exactly when every line parses; the entries are then
   * the lines' entries in file order, the k-th with index k; otherwise the
   * error names the first line that does not parse.
   */
  lemma ParseEntriesSpec(lines: seq<string>)
    ensures ParseEntries(lines).Success? <==> forall k :: 0 <= k < |lines| ==> ParseVocabLine(lines[k], k).Some?
    ensures ParseEntries(lines).Success? ==>
      |ParseEntries(lines).value| == |lines| &&
      forall k :: 0 <= k < |lines| ==> Some(ParseEntries(lines).value[k]) == ParseVocabLine(lines[k], k)
    ensures ParseEntries(lines).Failure? ==>
      exists k :: 0 <= k < |lines| && ParseEntries(lines).error == MalformedLine(k, lines[k]) &&
        ParseVocabLine(lines[k], k).None? && forall j :: 0 <= j < k ==> ParseVocabLine(lines[j], j).Some?
  {
    ParseLinesSpec(VocabParser(), lines);
  }

  lemma ParseLinesStopsAt(parse: (string, nat) -> Option<VocabEntry>, lines: seq<string>, m: nat, len: nat)
    requires m < len <= |lines|
    requires ParseLines(parse, lines[..m]).Success? && parse(lines[m], m).None?
    ensures ParseLines(parse, lines[..len]) == Failure(MalformedLine(m, lines[m]))
  {
    var pre, all := lines[..m], lines[..len];
    assert forall k :: 0 <= k < m ==> pre[k] == lines[k];
    assert forall k :: 0 <= k < len ==> all[k] == lines[k];
    ParseLinesSpec(parse, pre);
    ParseLinesSpec(parse, all);
    assert parse(all[m], m).None?;
  }

  lemma ParseLinesStep(parse: (string, nat) -> Option<VocabEntry>, lines: seq<string>, m: nat, es: seq<VocabEntry>)
    requires m < |lines| && ParseLines(parse, lines[..m]) == Success(es) && parse(lines[m], m).Some?
    ensures ParseLines(parse, lines[..m + 1]) == Success(es + [parse(lines[m], m).value])
  {
    var next := lines[..m + 1];
    assert next[..m] == lines[..m] && next[m] == lines[m];
  }

  /** One more line that parses extends the entries read so far by its entry, which carries index `m`. */
  lemma ParseEntriesStep(lines: seq<string>, m: nat, es: seq<VocabEntry>)
    requires m < |lines| && ParseEntries(lines[..m]) == Success(es) && ParseVocabLine(lines[m], m).Some?
    ensures ParseVocabLine(lines[m], m).value.index == m
    ensures ParseEntries(lines[..m + 1]) == Success(es + [ParseVocabLine(lines[m], m).value])
  {
    ParseLinesStep(VocabParser(), lines, m, es);
  }

  /** When the first `m` lines parse and line `m` does not, reading any longer prefix fails at line `m`. */
  lemma ParseEntriesStopsAt(lines: seq<string>, m: nat, len: nat)
    requires m < len <= |lines|
    requires ParseEntries(lines[..m]).Success? && ParseVocabLine(lines[m], m).None?
    ensures ParseEntries(lines[..len]) == Failure(MalformedLine(m, lines[m]))
  {
    ParseLinesStopsAt(VocabParser(), lines, m, len);
  }

  /** Each parsed entry carries its own position as index, and its word and count come from that line. */
  lemma ParseEntriesIndices(lines: seq<string>)
    requires ParseEntries(lines).Success?
    ensures |ParseEntries(lines).value| == |lines|
    ensures forall k :: 0 <= k < |lines| ==>
      ParseEntries(lines).value[k].index == k &&
      |Tokens(lines[k])| == 2 && Tokens(lines[k])[0] == ParseEntries(lines).value[k].word &&
      ParseInt(Tokens(lines[k])[1]) == Some(ParseEntries(lines).value[k].occs)
  {
    ParseEntriesSpec(lines);
    var es := ParseEntries(lines).value;
    forall k | 0 <= k < |lines|
      ensures es[k].index == k && |Tokens(lines[k])| == 2 && Tokens(lines[k])[0] == es[k].word
      ensures ParseInt(Tokens(lines[k])[1]) == Some(es[k].occs)
    {
      assert Some(es[k]) == ParseVocabLine(lines[k], k);
    }
  }

  /** At most `cutoff + 1` entries are read, and all of the file when it is shorter. */
  lemma VocabularyBounded(text: string, cutoff: int)
    requires Vocabulary(text, cutoff).Success?
    ensures cutoff >= 0 ==> |Vocabulary(text, cutoff).value| <= cutoff + 1
    ensures |ReadLines(text)| <= cutoff ==> |Vocabulary(text, cutoff).value| == |ReadLines(text)|
  {
    var lines := ReadLines(text);
    ParseEntriesSpec(lines[..ReadCount(|lines|, cutoff)]);
  }

  /** The reading loop of the script, on a vocabulary file with content `text`. */
  method ReadVocabulary(text: string, cutoff: int) returns (r: Result<seq<VocabEntry>, RunError>)
    ensures r == Vocabulary(text, cutoff)
  {
    var lines := ReadLines(text);
    var inputs: seq<VocabEntry> := [];
    var numRead: nat := 0;
    while numRead < |lines|
      invariant numRead <= |lines| && numRead <= ReadCount(|lines|, cutoff)
      invariant ParseEntries(lines[..numRead]) == Success(inputs)
    {
      if numRead > cutoff {
        break;
      }
      var line := lines[numRead];
      var e := ParseVocabLine(line, numRead);
      if e.None? {
        ParseEntriesStopsAt(lines, numRead, ReadCount(|lines|, cutoff));
        return Failure(MalformedLine(numRead, line));
      }
      ParseEntriesStep(lines, numRead, inputs);
      inputs := inputs + [VocabEntry(e.value.word, e.value.occs, numRead)];
      numRead := numRead + 1;
    }
    assert numRead == ReadCount(|lines|, cutoff);
    r := Success(inputs);
  }

  // ---------------------------------------------------------------------
  // Scoring one word
  // ---------------------------------------------------------------------

  /**
   * `process_word`: the engine's best variant gives the score
   * `(1 - p) * log10(occs)`; if the engine cannot be started or returns no
   * variant the word gets `occs * -10` and a NaN probability. A probability
   * that `float()` rejects, or a count that `log10` rejects, raises outside the
   * handler and ends the run.
   */
  function ProcessWord(e: VocabEntry, engine: Engine, parseFloat: string -> Option<real>, log10: real -> real)
    : (r: Result<Candidate, RunError>)
    ensures r.Success? ==> r.value.word == e.word && r.value.occs == e.occs
    ensures r.Failure? ==> r.error == ProcessFailed(e.word)
  {
    var phns := VariantsResult(engine, SequiturModel, e.word, NumVariants, true);
    if phns.None? || phns.value == [] then
      Success(Candidate(e.word, e.occs as real * -10.0, None, e.occs))
    else
      Score(e, parseFloat(phns.value[0].proba), log10)
  }

  /** The scored result for the parsed probability of the best variant. */
  function Score(e: VocabEntry, proba: Option<real>, log10: real -> real): Result<Candidate, RunError> {
    match proba
    case None => Failure(ProcessFailed(e.word))
    case Some(p) =>
      if e.occs <= 0 then Failure(ProcessFailed(e.word))
      else Success(Candidate(e.word, (1.0 - p) * log10(e.occs as real), Some(p), e.occs))
  }

  /** When the engine fails or offers no variant, the word gets the fallback score and no probability. */
  lemma ProcessWordFallback(e: VocabEntry, engine: Engine, parseFloat: string -> Option<real>, log10: real -> real)
    requires VariantsResult(engine, SequiturModel, e.word, NumVariants, true) in {None, Some([])}
    ensures ProcessWord(e, engine, parseFloat, log10) == Success(Candidate(e.word, e.occs as real * -10.0, None, e.occs))
  {
  }

  /**
   * Otherwise the best variant's probability `p` is kept and the score is
   * `(1 - p) * log10(occs)`; the run fails when `p` does not parse or `occs`
   * is not positive.
   */
  lemma ProcessWordScored(e: VocabEntry, engine: Engine, parseFloat: string -> Option<real>, log10: real -> real,
                          vs: seq<Variant>)
    requires VariantsResult(engine, SequiturModel, e.word, NumVariants, true) == Some(vs) && vs != []
    ensures ProcessWord(e, engine, parseFloat, log10).Success? <==> parseFloat(vs[0].proba).Some? && e.occs > 0
    ensures ProcessWord(e, engine, parseFloat, log10).Success? ==>
      var p := parseFloat(vs[0].proba).value;
      ProcessWord(e, engine, parseFloat, log10).value == Candidate(e.word, (1.0 - p) * log10(e.occs as real), Some(p), e.occs)
  {
    var phns := VariantsResult(engine, SequiturModel, e.word, NumVariants, true);
    assert phns.value[0] == vs[0];
    var proba := parseFloat(vs[0].proba);
    assert ProcessWord(e, engine, parseFloat, log10) == Score(e, proba, log10);
    ScoreSpec(e, proba, log10);
  }

  lemma ScoreSpec(e: VocabEntry, proba: Option<real>, log10: real -> real)
    ensures Score(e, proba, log10).Success? <==> proba.Some? && e.occs > 0
    ensures Score(e, proba, log10).Success? ==>
      Score(e, proba, log10).value == Candidate(e.word, (1.0 - proba.value) * log10(e.occs as real), proba, e.occs)
  {
  }

  /** `Parallel(...)(delayed(process_word)(elem) for elem in inputs)`: results in input order, or the first failure. */
  function ProcessAll(es: seq<VocabEntry>, engine: Engine, parseFloat: string -> Option<real>, log10: real -> real)
    : (r: Result<seq<Candidate>, RunError>)
    ensures r.Success? ==> |r.value| == |es|
    ensures r.Failure? ==> exists k :: 0 <= k < |es| && r.error == ProcessFailed(es[k].word)
    decreases |es|
  {
    if es == [] then Success([])
    else
      match ProcessWord(es[0], engine, parseFloat, log10)
      case Failure(err) => Failure(err)
      case Success(c) =>
        match ProcessAll(es[1..], engine, parseFloat, log10)
        case Failure(err) => Failure(err)
        case Success(cs) => Success([c] + cs)
  }

  /** Every word is processed on its own: the k-th result is the k-th entry's. */
  lemma {:induction false} ProcessAllPointwise(es: seq<VocabEntry>, engine: Engine,
                                               parseFloat: string -> Option<real>, log10: real -> real)
    ensures ProcessAll(es, engine, parseFloat, log10).Success? <==>
      forall k :: 0 <= k < |es| ==> ProcessWord(es[k], engine, parseFloat, log10).Success?
    ensures ProcessAll(es, engine, parseFloat, log10).Success? ==>
      |ProcessAll(es, engine, parseFloat, log10).value| == |es| &&
      forall k :: 0 <= k < |es| ==>
        ProcessWord(es[k], engine, parseFloat, log10) == Success(ProcessAll(es, engine, parseFloat, log10).value[k])
    decreases |es|
  {
    if es != [] {
      ProcessAllPointwise(es[1..], engine, parseFloat, log10);
      assert forall k :: 1 <= k < |es| ==> es[1..][k - 1] == es[k];
    }
  }

  // ---------------------------------------------------------------------
  // sorted(candidate_dict, key=lambda kv: kv[1], reverse=True)
  // ---------------------------------------------------------------------

  /** `x` placed in front of the first element whose score is not above its own. */
  function InsertByScore(x: Candidate, t: seq<Candidate>): (r: seq<Candidate>)
    ensures |r| == |t| + 1
    decreases |t|
  {
    if t == [] || t[0].score <= x.score then [x] + t else [t[0]] + InsertByScore(x, t[1..])
  }

  /** A stable sort by descending score. */
  function SortDesc(s: seq<Candidate>): (r: seq<Candidate>)
    ensures |r| == |s|
    decreases |s|
  {
    if s == [] then [] else InsertByScore(s[0], SortDesc(s[1..]))
  }

  predicate SortedDesc(s: seq<Candidate>) {
    forall i, j :: 0 <= i < j < |s| ==> s[i].score >= s[j].score
  }

  /** The candidates with score exactly `k`, in order. */
  function WithScore(s: seq<Candidate>, k: real): seq<Candidate>
    decreases |s|
  {
    if s == [] then [] else (if s[0].score == k then [s[0]] else []) + WithScore(s[1..], k)
  }

  /** Inserting keeps every score at or below a bound that `x` and all of `t` respect. */
  lemma {:induction false} InsertBounded(x: Candidate, t: seq<Candidate>, b: real)
    requires x.score <= b && forall j :: 0 <= j < |t| ==> t[j].score <= b
    ensures forall j :: 0 <= j < |InsertByScore(x, t)| ==> InsertByScore(x, t)[j].score <= b
    decreases |t|
  {
    if t != [] && t[0].score > x.score {
      InsertBounded(x, t[1..], b);
    }
  }

  lemma {:induction false} InsertKeepsSorted(x: Candidate, t: seq<Candidate>)
    requires SortedDesc(t)
    ensures SortedDesc(InsertByScore(x, t))
    decreases |t|
  {
    if t != [] && t[0].score > x.score {
      var tail := t[1..];
      assert SortedDesc(tail);
      InsertKeepsSorted(x, tail);
      InsertBounded(x, tail, t[0].score);
    }
  }

  lemma {:induction false} InsertPermutes(x: Candidate, t: seq<Candidate>)
    ensures multiset(InsertByScore(x, t)) == multiset(t) + multiset{x}
    decreases |t|
  {
    if t != [] && t[0].score > x.score {
      InsertPermutes(x, t[1..]);
      assert t == [t[0]] + t[1..];
    }
  }

  /** Inserting `x` puts it in front of the candidates of equal score and moves no other. */
  lemma {:induction false} InsertStable(x: Candidate, t: seq<Candidate>, k: real)
    ensures WithScore(InsertByScore(x, t), k) == (if x.score == k then [x] else []) + WithScore(t, k)
    decreases |t|
  {
    if t == [] || t[0].score <= x.score {
      WithScoreCons(x, t, k);
    } else {
      var rest := InsertByScore(x, t[1..]);
      var own: seq<Candidate> := if x.score == k then [x] else [];
      var head: seq<Candidate> := if t[0].score == k then [t[0]] else [];
      assert WithScore(rest, k) == own + WithScore(t[1..], k) by {
        InsertStable(x, t[1..], k);
      }
      assert WithScore(InsertByScore(x, t), k) == head + WithScore(rest, k) by {
        WithScoreCons(t[0], rest, k);
      }
      assert WithScore(t, k) == head + WithScore(t[1..], k) by {
        WithScoreCons(t[0], t[1..], k);
        assert t == [t[0]] + t[1..];
      }
      if x.score == k {
        assert head == [] && head + WithScore(rest, k) == own + WithScore(t[1..], k);
      } else {
        assert own == [] && WithScore(rest, k) == WithScore(t[1..], k);
      }
    }
  }

  lemma WithScoreCons(c: Candidate, s: seq<Candidate>, k: real)
    ensures WithScore([c] + s, k) == (if c.score == k then [c] else []) + WithScore(s, k)
  {
    assert ([c] + s)[1..] == s;
  }

  /** The output is sorted by score, highest first, and holds exactly the input candidates. */
  lemma {:induction false} SortDescSorts(s: seq<Candidate>)
    ensures SortedDesc(SortDesc(s))
    ensures multiset(SortDesc(s)) == multiset(s)
    decreases |s|
  {
    if s != [] {
      SortDescSorts(s[1..]);
      InsertKeepsSorted(s[0], SortDesc(s[1..]));
      InsertPermutes(s[0], SortDesc(s[1..]));
      assert s == [s[0]] + s[1..];
    }
  }

  /** Candidates of equal score keep their input order. */
  lemma {:induction false} SortDescStable(s: seq<Candidate>, k: real)
    ensures WithScore(SortDesc(s), k) == WithScore(s, k)
    decreases |s|
  {
    if s != [] {
      SortDescStable(s[1..], k);
      InsertStable(s[0], SortDesc(s[1..]), k);
    }
  }

  /** A fallback result ranks below zero, a transcribed one at or above it. */
  predicate Ranked(c: Candidate) {
    (c.proba.None? && c.score < 0.0) || (c.proba.Some? && c.score >= 0.0)
  }

  /** The probability of the engine's best variant for `e`, when it parses, lies in [0, 1]. */
  predicate BestProbaInUnit(e: VocabEntry, engine: Engine, parseFloat: string -> Option<real>) {
    var phns := VariantsResult(engine, SequiturModel, e.word, NumVariants, true);
    phns.Some? && phns.value != [] && parseFloat(phns.value[0].proba).Some? ==>
      0.0 <= parseFloat(phns.value[0].proba).value <= 1.0
  }

  lemma ProcessWordRanked(e: VocabEntry, engine: Engine, parseFloat: string -> Option<real>, log10: real -> real)
    requires BestProbaInUnit(e, engine, parseFloat)
    requires forall x: real :: x >= 1.0 ==> log10(x) >= 0.0
    requires e.occs > 0 && ProcessWord(e, engine, parseFloat, log10).Success?
    ensures Ranked(ProcessWord(e, engine, parseFloat, log10).value)
  {
    var phns := VariantsResult(engine, SequiturModel, e.word, NumVariants, true);
    if !(phns.None? || phns.value == []) {
      var pr := parseFloat(phns.value[0].proba);
      assert ProcessWord(e, engine, parseFloat, log10) == Score(e, pr, log10);
      var p := pr.value;
      var l := log10(e.occs as real);
      assert 0.0 <= 1.0 - p && 0.0 <= l;
      assert ProcessWord(e, engine, parseFloat, log10).value.score == (1.0 - p) * l;
    }
  }

  /** In a descending order, nothing below zero comes before something at or above it. */
  lemma SortedRankedFirst(cs: seq<Candidate>)
    requires forall k :: 0 <= k < |cs| ==> Ranked(cs[k])
    ensures var out := SortDesc(cs);
      forall i, j :: 0 <= i < j < |out| && out[j].proba.Some? ==> out[i].proba.Some?
  {
    var out := SortDesc(cs);
    SortDescSorts(cs);
    forall c | c in multiset(out) ensures Ranked(c) {
      assert c in cs;
    }
    forall i, j | 0 <= i < j < |out| && out[j].proba.Some? ensures out[i].proba.Some? {
      assert out[i] in multiset(out) && out[j] in multiset(out);
    }
  }

  /**
   * With the engine's best probabilities in [0, 1] and `log10` non-negative from 1 on, no word
   * that fell back to `occs * -10` is ranked above a word the engine
   * transcribed, as long as every count is positive.
   */
  lemma FallbacksSink(es: seq<VocabEntry>, engine: Engine, parseFloat: string -> Option<real>, log10: real -> real)
    requires forall k :: 0 <= k < |es| ==> BestProbaInUnit(es[k], engine, parseFloat)
    requires forall x: real :: x >= 1.0 ==> log10(x) >= 0.0
    requires forall k :: 0 <= k < |es| ==> es[k].occs > 0
    requires ProcessAll(es, engine, parseFloat, log10).Success?
    ensures var out := SortDesc(ProcessAll(es, engine, parseFloat, log10).value);
      forall i, j :: 0 <= i < j < |out| && out[j].proba.Some? ==> out[i].proba.Some?
  {
    var cs := ProcessAll(es, engine, parseFloat, log10).value;
    ProcessAllPointwise(es, engine, parseFloat, log10);
    forall k | 0 <= k < |cs| ensures Ranked(cs[k]) {
      ProcessWordRanked(es[k], engine, parseFloat, log10);
    }
    SortedRankedFirst(cs);
  }

  // ---------------------------------------------------------------------
  // Writing voc_todo.txt
  // ---------------------------------------------------------------------

  /** `str()` of the probability: NaN prints as `nan`. */
  function ProbaText(p: Option<real>, render: real -> string): string {
    match p
    case None => "nan"
    case Some(x) => render(x)
  }

  /** One output line: word, score, probability and count, separated by single spaces. */
  function FormatLine(c: Candidate, render: real -> string): (line: string)
    ensures |line| > |c.word| && line[..|c.word| + 1] == c.word + " "
    ensures line[|line| - 1] == '\n'
  {
    c.word + " " + render(c.score) + " " + ProbaText(c.proba, render) + " " + IntToString(c.occs) + "\n"
  }

  /**
   * When neither the word nor a rendered number holds a space, splitting the
   * line on spaces gives back the four fields, and the last parses back to the count.
   */
  lemma FormatLineFields(c: Candidate, render: real -> string)
    requires ' ' !in c.word && ' ' !in render(c.score) && ' ' !in ProbaText(c.proba, render)
    ensures var line := FormatLine(c, render);
      |line| > 0 && line[|line| - 1] == '\n' &&
      Split(line[..|line| - 1], " ") ==
        [c.word, render(c.score), ProbaText(c.proba, render), IntToString(c.occs)] &&
      ParseInt(Split(line[..|line| - 1], " ")[3]) == Some(c.occs)
  {
    var line := FormatLine(c, render);
    var body := c.word + " " + render(c.score) + " " + ProbaText(c.proba, render) + " " + IntToString(c.occs);
    assert line == body + "\n";
    assert line[..|line| - 1] == body;
    IntToStringNoSpace(c.occs);
    SplitFour(c.word, render(c.score), ProbaText(c.proba, render), IntToString(c.occs), ' ');
    ParseIntOfString(c.occs);
  }

  function FormatLines(cs: seq<Candidate>, render: real -> string): (ls: seq<string>)
    ensures |ls| == |cs| && forall k :: 0 <= k < |cs| ==> ls[k] == FormatLine(cs[k], render)
  {
    seq(|cs|, k requires 0 <= k < |cs| => FormatLine(cs[k], render))
  }

  lemma FormatLinesSnoc(cs: seq<Candidate>, i: nat, render: real -> string)
    requires i < |cs|
    ensures FormatLines(cs[..i + 1], render) == FormatLines(cs[..i], render) + [FormatLine(cs[i], render)]
  {
    var pre, next := cs[..i], cs[..i + 1];
    assert forall k :: 0 <= k < i ==> next[k] == pre[k];
    assert next[i] == cs[i];
  }

  /** The output loop: one line per candidate, in order. */
  method WriteOutput(cs: seq<Candidate>, render: real -> string) returns (text: string)
    ensures text == Concat(FormatLines(cs, render))
  {
    text := "";
    var i := 0;
    while i < |cs|
      invariant 0 <= i <= |cs|
      invariant text == Concat(FormatLines(cs[..i], render))
    {
      assert Concat(FormatLines(cs[..i + 1], render)) == text + FormatLine(cs[i], render) by {
        FormatLinesSnoc(cs, i, render);
        ConcatSnoc(FormatLines(cs[..i], render), FormatLine(cs[i], render));
      }
      text := text + FormatLine(cs[i], render);
      i := i + 1;
    }
    assert cs[..|cs|] == cs;
  }

  /** What the script writes to voc_todo.txt for a vocabulary with content `text`, or why it stops. */
  function Pipeline(text: string, engine: Engine, parseFloat: string -> Option<real>, log10: real -> real,
                    render: real -> string): Result<string, RunError>
  {
    match Vocabulary(text, Cutoff)
    case Failure(err) => Failure(err)
    case Success(es) =>
      match ProcessAll(es, engine, parseFloat, log10)
      case Failure(err) => Failure(err)
      case Success(cs) => Success(Concat(FormatLines(SortDesc(cs), render)))
  }

  /** The whole script: read, score, sort, write. */
  method RunPipeline(text: string, engine: Engine, parseFloat: string -> Option<real>, log10: real -> real,
                     render: real -> string) returns (r: Result<string, RunError>)
    ensures r == Pipeline(text, engine, parseFloat, log10, render)
  {
    var inputs := ReadVocabulary(text, Cutoff);
    if inputs.Failure? {
      return Failure(inputs.error);
    }
    var candidates := ProcessAll(inputs.value, engine, parseFloat, log10);
    if candidates.Failure? {
      return Failure(candidates.error);
    }
    var sorted := SortDesc(candidates.value);
    var out := WriteOutput(sorted, render);
    r := Success(out);
  }
}
