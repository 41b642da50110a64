/**
 * The client of the Sequitur G2P engine (`g2p.py --apply`): the word list it
 * writes to the engine's scratch input, and the three loops that filter and
 * split the engine's output lines into pronunciation variants, a single
 * transcription, or a word-to-transcription map.
 *
 * The engine itself is a parameter: given an invocation it yields the lines it
 * prints, or `None` when it cannot be started.
 */
module Sequitur {
  import opened Wrappers
  import opened PyStr

  /** The marker of the engine's diagnostic lines; any line holding it is skipped. */
  const StackUsage := "stack usage:"

  const Tab := "\t"

  /**
   * One run of the engine: the model file, the `--variants-number` option if
   * given, the content of the scratch input file, and whether the engine's
   * stderr is merged into the stdout lines read back.
   */
  datatype Invocation = Invocation(model: string, variants: Option<int>, input: string, mergeStderr: bool)

  /** The engine's output for an invocation, line by line as read, or `None` if it cannot be started. */
  type Engine = Invocation -> Option<seq<string>>

  /** One pronunciation variant: its probability and its phoneme string, both as printed. */
  datatype Variant = Variant(proba: string, phn: string)

  /** The word as it is written to the scratch input and matched against the output. */
  function SubmittedWord(word: string, replaceDash: bool): (w: string)
    ensures replaceDash ==> '-' !in w && |w| == |word| - multiset(word)['-']
    ensures !replaceDash ==> w == word
  {
    if replaceDash then RemoveChar(word, '-') else word
  }

  /**
   * With dash replacement, the word is submitted piece by piece: a dash is
   * dropped, any other character is kept, and the order is unchanged.
   */
  lemma SubmittedWordKeepsOrder(a: string, b: string, x: char)
    ensures SubmittedWord(a + b, true) == SubmittedWord(a, true) + SubmittedWord(b, true)
    ensures SubmittedWord([x], true) == if x == '-' then "" else [x]
  {
    RemoveCharConcat(a, b, '-');
    RemoveCharOne(x, '-');
  }

  // ---------------------------------------------------------------------
  // What a loop over the output lines keeps
  // ---------------------------------------------------------------------

  /**
   * The values `f` accepts, in the order of the lines: what a loop appending
   * each accepted line's value builds.
   */
  function Kept<A, T>(f: A -> Option<T>, xs: seq<A>): seq<T>
    decreases |xs|
  {
    if xs == [] then []
    else
      var n := |xs| - 1;
      if f(xs[n]).Some? then Kept(f, xs[..n]) + [f(xs[n]).value] else Kept(f, xs[..n])
  }

  lemma {:induction false} KeptAppend<A, T>(f: A -> Option<T>, a: seq<A>, b: seq<A>)
    ensures Kept(f, a + b) == Kept(f, a) + Kept(f, b)
    decreases |b|
  {
    if b == [] {
      assert a + b == a;
    } else {
      var n := |b| - 1;
      assert (a + b)[..|a| + n] == a + b[..n];
      assert (a + b)[|a| + n] == b[n];
      KeptAppend(f, a, b[..n]);
    }
  }

  lemma {:induction false} KeptMembers<A, T>(f: A -> Option<T>, xs: seq<A>)
    ensures forall v :: v in Kept(f, xs) <==> exists i :: 0 <= i < |xs| && f(xs[i]) == Some(v)
    decreases |xs|
  {
    if xs != [] {
      var n := |xs| - 1;
      KeptMembers(f, xs[..n]);
      assert forall i :: 0 <= i < n ==> xs[..n][i] == xs[i];
    }
  }

  lemma {:induction false} KeptAll<A, T>(f: A -> Option<T>, xs: seq<A>)
    requires forall i :: 0 <= i < |xs| ==> f(xs[i]).Some?
    ensures |Kept(f, xs)| == |xs|
    ensures forall i :: 0 <= i < |xs| ==> Kept(f, xs)[i] == f(xs[i]).value
    decreases |xs|
  {
    if xs != [] {
      var n := |xs| - 1;
      assert forall i :: 0 <= i < n ==> xs[..n][i] == xs[i];
      KeptAll(f, xs[..n]);
    }
  }

  /** The value of the last line `f` accepts, `d` if there is none: what a loop overwriting a variable builds. */
  function LastKept<A, T>(f: A -> Option<T>, xs: seq<A>, d: T): T
    decreases |xs|
  {
    if xs == [] then d
    else
      var n := |xs| - 1;
      if f(xs[n]).Some? then f(xs[n]).value else LastKept(f, xs[..n], d)
  }

  lemma {:induction false} LastKeptNone<A, T>(f: A -> Option<T>, xs: seq<A>, d: T)
    requires forall i :: 0 <= i < |xs| ==> f(xs[i]).None?
    ensures LastKept(f, xs, d) == d
    decreases |xs|
  {
    if xs != [] {
      var n := |xs| - 1;
      var ys := xs[..n];
      assert f(xs[n]).None?;
      assert forall i :: 0 <= i < |ys| ==> f(ys[i]).None? by {
        assert forall i :: 0 <= i < n ==> ys[i] == xs[i];
      }
      LastKeptNone(f, ys, d);
    }
  }

  lemma {:induction false} LastKeptAt<A, T>(f: A -> Option<T>, xs: seq<A>, d: T, j: nat)
    requires j < |xs| && f(xs[j]).Some?
    requires forall i :: j < i < |xs| ==> f(xs[i]).None?
    ensures LastKept(f, xs, d) == f(xs[j]).value
    decreases |xs|
  {
    var n := |xs| - 1;
    if j < n {
      var ys := xs[..n];
      assert f(xs[n]).None?;
      assert ys[j] == xs[j];
      assert forall i :: j < i < |ys| ==> f(ys[i]).None? by {
        assert forall i :: j < i < n ==> ys[i] == xs[i];
      }
      LastKeptAt(f, ys, d, j);
    }
  }

  lemma LastKeptIsLast<A, T>(f: A -> Option<T>, xs: seq<A>, d: T)
    ensures (forall i :: 0 <= i < |xs| ==> f(xs[i]).None?) ==> LastKept(f, xs, d) == d
    ensures forall j ::
      (0 <= j < |xs| && f(xs[j]).Some? && (forall i :: j < i < |xs| ==> f(xs[i]).None?)) ==>
        LastKept(f, xs, d) == f(xs[j]).value
  {
    if forall i :: 0 <= i < |xs| ==> f(xs[i]).None? {
      LastKeptNone(f, xs, d);
    }
    forall j | 0 <= j < |xs| && f(xs[j]).Some? && (forall i :: j < i < |xs| ==> f(xs[i]).None?)
      ensures LastKept(f, xs, d) == f(xs[j]).value
    {
      LastKeptAt(f, xs, d, j);
    }
  }

  /**
   * The map of the entries `f` accepts, a later key overwriting an earlier
   * one: what a loop updating a dict builds.
   */
  function MapKept<A, K, V>(f: A -> Option<(K, V)>, xs: seq<A>): map<K, V>
    decreases |xs|
  {
    if xs == [] then map[]
    else
      var n := |xs| - 1;
      if f(xs[n]).Some? then MapKept(f, xs[..n])[f(xs[n]).value.0 := f(xs[n]).value.1] else MapKept(f, xs[..n])
  }

  lemma {:induction false} MapKeptKeys<A, K, V>(f: A -> Option<(K, V)>, xs: seq<A>)
    ensures forall k :: k in MapKept(f, xs) <==> exists i :: 0 <= i < |xs| && f(xs[i]).Some? && f(xs[i]).value.0 == k
    decreases |xs|
  {
    if xs != [] {
      var n := |xs| - 1;
      assert forall i :: 0 <= i < n ==> xs[..n][i] == xs[i];
      MapKeptKeys(f, xs[..n]);
    }
  }

  lemma {:induction false} MapKeptLastWins<A, K, V>(f: A -> Option<(K, V)>, xs: seq<A>)
    ensures forall j ::
      (0 <= j < |xs| && f(xs[j]).Some? &&
       (forall i :: j < i < |xs| && f(xs[i]).Some? ==> f(xs[i]).value.0 != f(xs[j]).value.0)) ==>
        f(xs[j]).value.0 in MapKept(f, xs) && MapKept(f, xs)[f(xs[j]).value.0] == f(xs[j]).value.1
    decreases |xs|
  {
    if xs != [] {
      var n := |xs| - 1;
      var ys := xs[..n];
      assert forall i :: 0 <= i < n ==> ys[i] == xs[i];
      MapKeptLastWins(f, ys);
      forall j |
        (0 <= j < |xs| && f(xs[j]).Some? &&
         (forall i :: j < i < |xs| && f(xs[i]).Some? ==> f(xs[i]).value.0 != f(xs[j]).value.0))
        ensures f(xs[j]).value.0 in MapKept(f, xs) && MapKept(f, xs)[f(xs[j]).value.0] == f(xs[j]).value.1
      {
        if j < n {
          assert forall i :: j < i < |ys| && f(ys[i]).Some? ==> f(ys[i]).value.0 != f(ys[j]).value.0;
        }
      }
    }
  }

  // ---------------------------------------------------------------------
  // sequitur_gen_phn_variants
  // ---------------------------------------------------------------------

  /** The variant one output line contributes: fields 2 and 3 of a matching line with four fields. */
  function VariantOf(raw: string, word: string): (r: Option<Variant>)
    ensures r.Some? ==> Contains(Strip(raw), word) && !Contains(Strip(raw), StackUsage)
    ensures Contains(Strip(raw), word) && !Contains(Strip(raw), StackUsage) && |Split(Strip(raw), Tab)| >= 4 ==> r.Some?
    ensures r.Some? ==> var parts := Split(Strip(raw), Tab);
      |parts| >= 4 && r.value == Variant(parts[2], parts[3])
  {
    var line := Strip(raw);
    if Contains(line, StackUsage) || !Contains(line, word) then None
    else
      var parts := Split(line, Tab);
      if |parts| < 4 then None else Some(Variant(parts[2], parts[3]))
  }

  /** The acceptance test of `sequitur_gen_phn_variants`'s loop, for one word. */
  function VariantParser(word: string): string -> Option<Variant> {
    raw => VariantOf(raw, word)
  }

  /** The variants of the output lines, in the order of the lines that give one. */
  function Variants(lines: seq<string>, word: string): seq<Variant> {
    Kept(VariantParser(word), lines)
  }

  function VariantsInvocation(model: string, word: string, variants: int, replaceDash: bool): Invocation {
    Invocation(model, Some(variants), SubmittedWord(word, replaceDash) + "\n", true)
  }

  /** What `sequitur_gen_phn_variants` returns, `None` standing for the exception of a failed start. */
  function VariantsResult(engine: Engine, model: string, word: string, variants: int, replaceDash: bool)
    : Option<seq<Variant>>
  {
    match engine(VariantsInvocation(model, word, variants, replaceDash))
    case None => None
    case Some(lines) => Some(Variants(lines, SubmittedWord(word, replaceDash)))
  }

  /** `sequitur_gen_phn_variants(modelfn, word, variants, quiet, replaceDash)`. */
  method GenPhnVariants(engine: Engine, model: string, word: string, variants: int, replaceDash: bool)
    returns (xs: Option<seq<Variant>>)
    ensures xs == VariantsResult(engine, model, word, variants, replaceDash)
  {
    var w := SubmittedWord(word, replaceDash);
    var res := engine(Invocation(model, Some(variants), w + "\n", true));
    if res.None? {
      return None;
    }
    var lines := res.value;
    var acc: seq<Variant> := [];
    var i := 0;
    while i < |lines|
      invariant 0 <= i <= |lines|
      invariant acc == Variants(lines[..i], w)
    {
      var v := VariantOf(lines[i], w);
      assert lines[..i + 1][..i] == lines[..i];
      if v.Some? {
        acc := acc + [v.value];
      }
      i := i + 1;
    }
    assert lines[..|lines|] == lines;
    xs := Some(acc);
  }

  /** Two runs of output lines, one after the other, give the variants of both in order. */
  lemma VariantsAppend(a: seq<string>, b: seq<string>, word: string)
    ensures Variants(a + b, word) == Variants(a, word) + Variants(b, word)
  {
    KeptAppend(VariantParser(word), a, b);
  }

  /** A variant is in the result exactly when some output line gives it. */
  lemma VariantsMembers(lines: seq<string>, word: string)
    ensures forall v :: v in Variants(lines, word) <==>
      exists i :: 0 <= i < |lines| && VariantOf(lines[i], word) == Some(v)
  {
    KeptMembers(VariantParser(word), lines);
  }

  /** The list is empty exactly when no output line is accepted. */
  lemma VariantsEmpty(lines: seq<string>, word: string)
    ensures Variants(lines, word) == [] <==> forall i :: 0 <= i < |lines| ==> VariantOf(lines[i], word).None?
  {
    VariantsMembers(lines, word);
    if Variants(lines, word) != [] {
      assert Variants(lines, word)[0] in Variants(lines, word);
    }
  }

  /**
   * No variant is dropped: when every line is accepted the result is those
   * lines' variants one for one, however many were asked for.
   */
  lemma VariantsNotTruncated(lines: seq<string>, word: string)
    requires forall i :: 0 <= i < |lines| ==> VariantOf(lines[i], word).Some?
    ensures |Variants(lines, word)| == |lines|
    ensures forall i :: 0 <= i < |lines| ==> Variants(lines, word)[i] == VariantOf(lines[i], word).value
  {
    KeptAll(VariantParser(word), lines);
  }

  /**
   * A record line `word TAB rank TAB proba TAB phn` as the engine prints it
   * gives the variant `(proba, phn)`.
   */
  lemma VariantOfRecord(word: string, rank: string, proba: string, phn: string)
    requires word != [] && !IsAsciiSpace(word[0])
    requires phn != [] && !IsAsciiSpace(phn[|phn| - 1])
    requires '\t' !in word && '\t' !in rank && '\t' !in proba && '\t' !in phn
    requires !Contains(word + Tab + rank + Tab + proba + Tab + phn, StackUsage)
    ensures VariantOf(word + Tab + rank + Tab + proba + Tab + phn, word) == Some(Variant(proba, phn))
  {
    var line := word + Tab + rank + Tab + proba + Tab + phn;
    StripTrimmed(line);
    assert line[0..|word|] == word;
    assert OccursAt(line, word, 0);
    SplitFour(word, rank, proba, phn, '\t');
  }

  /** With dash replacement on, no dash reaches the engine's input. */
  lemma DashesNotSubmitted(model: string, word: string, variants: int)
    ensures '-' !in VariantsInvocation(model, word, variants, true).input
    ensures VariantsInvocation(model, word, variants, true).input == RemoveChar(word, '-') + "\n"
  {
  }

  // ---------------------------------------------------------------------
  // sequitur_gen_phn
  // ---------------------------------------------------------------------

  /** The transcription one output line offers: field 1 of a matching line with two fields. */
  function PhnOf(raw: string, word: string): (r: Option<string>)
    ensures r.Some? ==> Contains(Strip(raw), word) && !Contains(Strip(raw), StackUsage)
    ensures Contains(Strip(raw), word) && !Contains(Strip(raw), StackUsage) && |Split(Strip(raw), Tab)| >= 2 ==> r.Some?
    ensures r.Some? ==> var parts := Split(Strip(raw), Tab);
      |parts| >= 2 && r.value == parts[1]
  {
    var line := Strip(raw);
    if Contains(line, StackUsage) || !Contains(line, word) then None
    else
      var parts := Split(line, Tab);
      if |parts| < 2 then None else Some(parts[1])
  }

  /** The acceptance test of `sequitur_gen_phn`'s loop, for one word. */
  function PhnParser(word: string): string -> Option<string> {
    raw => PhnOf(raw, word)
  }

  /** The transcription of the latest line that offers one, `""` if none does. */
  function LastPhn(lines: seq<string>, word: string): string {
    LastKept(PhnParser(word), lines, "")
  }

  /** `LastPhn` is field 1 of the last accepted line, and empty when no line is accepted. */
  lemma LastPhnIsLastAccepted(lines: seq<string>, word: string)
    ensures (forall i :: 0 <= i < |lines| ==> PhnOf(lines[i], word).None?) ==> LastPhn(lines, word) == ""
    ensures forall j ::
      (0 <= j < |lines| && PhnOf(lines[j], word).Some? &&
       (forall i :: j < i < |lines| ==> PhnOf(lines[i], word).None?)) ==>
        LastPhn(lines, word) == PhnOf(lines[j], word).value
  {
    LastKeptIsLast(PhnParser(word), lines, "");
  }

  /** `sequitur_gen_phn(modelfn, word)`; `None` stands for the exception of a failed start. */
  method GenPhn(engine: Engine, model: string, word: string) returns (xs: Option<string>)
    ensures engine(Invocation(model, None, word + "\n", true)).None? ==> xs.None?
    ensures engine(Invocation(model, None, word + "\n", true)).Some? ==>
      xs == Some(LastPhn(engine(Invocation(model, None, word + "\n", true)).value, word))
  {
    var res := engine(Invocation(model, None, word + "\n", true));
    if res.None? {
      return None;
    }
    var lines := res.value;
    var acc := "";
    var i := 0;
    while i < |lines|
      invariant 0 <= i <= |lines|
      invariant acc == LastPhn(lines[..i], word)
    {
      var p := PhnOf(lines[i], word);
      assert lines[..i + 1][..i] == lines[..i];
      if p.Some? {
        acc := p.value;
      }
      i := i + 1;
    }
    assert lines[..|lines|] == lines;
    xs := Some(acc);
  }

  // ---------------------------------------------------------------------
  // sequitur_gen_phn_multi
  // ---------------------------------------------------------------------

  /** The scratch input for several words: one per line. */
  function WordLines(words: seq<string>): string
    decreases |words|
  {
    if words == [] then "" else WordLines(words[..|words| - 1]) + words[|words| - 1] + "\n"
  }

  lemma {:induction false} WordLinesConcat(words: seq<string>)
    ensures WordLines(words) == Concat(seq(|words|, k requires 0 <= k < |words| => words[k] + "\n"))
    decreases |words|
  {
    if words != [] {
      var n := |words| - 1;
      var ls := seq(|words|, k requires 0 <= k < |words| => words[k] + "\n");
      WordLinesConcat(words[..n]);
      assert ls[..n] == seq(n, k requires 0 <= k < n => words[..n][k] + "\n");
      assert ls == ls[..n] + [words[n] + "\n"];
      ConcatSnoc(ls[..n], words[n] + "\n");
    }
  }

  /** A word list without line breaks is written as exactly one input line per word. */
  lemma WordLinesRead(words: seq<string>)
    requires forall k :: 0 <= k < |words| ==> '\n' !in words[k] && '\r' !in words[k]
    ensures ReadLines(WordLines(words)) == seq(|words|, k requires 0 <= k < |words| => words[k] + "\n")
  {
    var ls := seq(|words|, k requires 0 <= k < |words| => words[k] + "\n");
    WordLinesConcat(words);
    forall k | 0 <= k < |ls|
      ensures |ls[k]| > 0 && ls[k][|ls[k]| - 1] == '\n'
      ensures '\n' !in ls[k][..|ls[k]| - 1] && '\r' !in ls[k]
    {
      assert ls[k] == words[k] + "\n";
      assert ls[k][..|ls[k]| - 1] == words[k];
    }
    var text := Concat(ls);
    ConcatFree(ls, '\r');
    TranslateNoCarriageReturn(text);
    assert ReadLines(text) == SplitLines(text);
    SplitLinesOfTerminated(ls);
  }

  /** The map entry one output line offers: fields 0 and 1, when field 0 is one of the words. */
  function EntryOf(raw: string, words: seq<string>): (e: Option<(string, string)>)
    ensures e.Some? ==> e.value.0 in words
    ensures e.Some? ==> var parts := Split(Strip(raw), Tab);
      !Contains(Strip(raw), StackUsage) && |parts| >= 2 && e.value == (parts[0], parts[1])
    ensures var parts := Split(Strip(raw), Tab);
      !Contains(Strip(raw), StackUsage) && |parts| >= 2 && parts[0] in words ==> e.Some?
  {
    var line := Strip(raw);
    if Contains(line, StackUsage) then None
    else
      var parts := Split(line, Tab);
      if |parts| < 2 || parts[0] !in words then None else Some((parts[0], parts[1]))
  }

  /** A line `word TAB phn` for one of the words offers the entry `(word, phn)`. */
  lemma EntryOfRecord(word: string, phn: string, words: seq<string>)
    requires word != [] && !IsAsciiSpace(word[0])
    requires phn != [] && !IsAsciiSpace(phn[|phn| - 1])
    requires '\t' !in word && '\t' !in phn && word in words
    requires !Contains(word + Tab + phn, StackUsage)
    ensures EntryOf(word + Tab + phn, words) == Some((word, phn))
  {
    StripTrimmed(word + Tab + phn);
    SplitTwo(word, phn, '\t');
  }

  /** The acceptance test of `sequitur_gen_phn_multi`'s loop, for one word list. */
  function EntryParser(words: seq<string>): string -> Option<(string, string)> {
    raw => EntryOf(raw, words)
  }

  /** The map built from the output lines, a later line overwriting an earlier one's entry. */
  function PhnMap(lines: seq<string>, words: seq<string>): map<string, string> {
    MapKept(EntryParser(words), lines)
  }

  /** The keys are exactly the field-0 values of accepted lines, and all of them are among the words. */
  lemma PhnMapKeys(lines: seq<string>, words: seq<string>)
    ensures forall k :: k in PhnMap(lines, words) <==>
      exists i :: 0 <= i < |lines| && EntryOf(lines[i], words).Some? && EntryOf(lines[i], words).value.0 == k
    ensures forall k :: k in PhnMap(lines, words) ==> k in words
  {
    MapKeptKeys(EntryParser(words), lines);
  }

  /** Each value is field 1 of the last accepted line carrying its key. */
  lemma PhnMapLastWins(lines: seq<string>, words: seq<string>)
    ensures forall j ::
      (0 <= j < |lines| && EntryOf(lines[j], words).Some? &&
       (forall i :: j < i < |lines| && EntryOf(lines[i], words).Some? ==>
          EntryOf(lines[i], words).value.0 != EntryOf(lines[j], words).value.0)) ==>
        EntryOf(lines[j], words).value.0 in PhnMap(lines, words) &&
        PhnMap(lines, words)[EntryOf(lines[j], words).value.0] == EntryOf(lines[j], words).value.1
  {
    MapKeptLastWins(EntryParser(words), lines);
  }

  /** `sequitur_gen_phn_multi(modelfn, words)`; `None` stands for the exception of a failed start. */
  method GenPhnMulti(engine: Engine, model: string, words: seq<string>)
    returns (phnMap: Option<map<string, string>>)
    ensures engine(Invocation(model, None, WordLines(words), false)).None? ==> phnMap.None?
    ensures engine(Invocation(model, None, WordLines(words), false)).Some? ==>
      phnMap == Some(PhnMap(engine(Invocation(model, None, WordLines(words), false)).value, words))
  {
    var input := "";
    var k := 0;
    while k < |words|
      invariant 0 <= k <= |words|
      invariant input == WordLines(words[..k])
    {
      assert words[..k + 1][..k] == words[..k];
      input := input + words[k] + "\n";
      k := k + 1;
    }
    assert words[..|words|] == words;
    var res := engine(Invocation(model, None, input, false));
    if res.None? {
      return None;
    }
    var lines := res.value;
    var m: map<string, string> := map[];
    var i := 0;
    while i < |lines|
      invariant 0 <= i <= |lines|
      invariant m == PhnMap(lines[..i], words)
    {
      var e := EntryOf(lines[i], words);
      assert lines[..i + 1][..i] == lines[..i];
      if e.Some? {
        m := m[e.value.0 := e.value.1];
      }
      i := i + 1;
    }
    assert lines[..|lines|] == lines;
    phnMap := Some(m);
  }

  /** A diagnostic line contributes to none of the three results, whatever else it holds. */
  lemma DiagnosticsSkipped(raw: string, word: string, words: seq<string>)
    requires Contains(Strip(raw), StackUsage)
    ensures VariantOf(raw, word).None? && PhnOf(raw, word).None? && EntryOf(raw, words).None?
  {
  }
}
