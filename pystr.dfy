/**
 * The parts of Python's `str` and text-file semantics that the editor, the
 * G2P client and the ranking script rely on: substring search, `split` with
 * a separator, `join`, `strip`, `lower`, `replace`, whitespace `split()`,
 * `int()` and `str()` on integers, and iteration over the lines of a file
 * opened in text mode.
 */
module PyStr {
  import opened Wrappers

  // ---------------------------------------------------------------------
  // Substring search
  // ---------------------------------------------------------------------

  /** `n` occurs in `s` starting at index `i`. */
  predicate OccursAt(s: string, n: string, i: int) {
    0 <= i && i + |n| <= |s| && s[i..i + |n|] == n
  }

  /** The first index at or after `i` where `n` occurs in `s` (Python's `s.find(n, i)`). */
  function FindFrom(s: string, n: string, i: nat): (r: Option<nat>)
    requires i <= |s|
    ensures r.Some? ==> i <= r.value <= |s| && OccursAt(s, n, r.value)
    ensures r.Some? ==> forall j :: i <= j < r.value ==> !OccursAt(s, n, j)
    ensures r.None? ==> forall j :: i <= j ==> !OccursAt(s, n, j)
    decreases |s| - i
  {
    if OccursAt(s, n, i) then Some(i)
    else if i == |s| then None
    else FindFrom(s, n, i + 1)
  }

  /** The first occurrence of `n` in `s`. */
  function Find(s: string, n: string): (r: Option<nat>)
    ensures r.Some? ==> r.value <= |s| && OccursAt(s, n, r.value)
    ensures r.Some? ==> forall j :: 0 <= j < r.value ==> !OccursAt(s, n, j)
    ensures r.None? ==> forall j :: !OccursAt(s, n, j)
  {
    FindFrom(s, n, 0)
  }

  /** Python's `n in s` on strings: the empty string is contained in every string. */
  function Contains(s: string, n: string): (r: bool)
    ensures r <==> exists i :: OccursAt(s, n, i)
  {
    Find(s, n).Some?
  }

  /** A single-character pattern occurs exactly where that character stands. */
  lemma OccursAtChar(s: string, c: char, j: int)
    ensures OccursAt(s, [c], j) <==> 0 <= j < |s| && s[j] == c
  {
    if 0 <= j < |s| && s[j] == c {
      assert s[j..j + 1] == [c];
    }
    if OccursAt(s, [c], j) {
      assert s[j..j + 1][0] == s[j];
    }
  }

  /** Searching for one character finds its first position. */
  lemma FindChar(s: string, c: char)
    ensures Find(s, [c]).None? ==> c !in s
    ensures Find(s, [c]).Some? ==>
      Find(s, [c]).value < |s| && s[Find(s, [c]).value] == c && c !in s[..Find(s, [c]).value]
  {
    match Find(s, [c])
    case None =>
      forall j | 0 <= j < |s| ensures s[j] != c {
        OccursAtChar(s, c, j);
      }
    case Some(i) =>
      OccursAtChar(s, c, i);
      forall j | 0 <= j < i ensures s[j] != c {
        OccursAtChar(s, c, j);
      }
  }

  /**
   * When no character of `a` can start the separator, the first occurrence of
   * `sep` in `a + sep + b` is the one right after `a`.
   */
  lemma FindAfterPrefix(a: string, sep: string, b: string)
    requires |sep| > 0
    requires forall k :: 0 <= k < |a| ==> a[k] != sep[0]
    ensures Find(a + sep + b, sep) == Some(|a|)
  {
    var s := a + sep + b;
    assert s[|a|..|a| + |sep|] == sep;
    assert OccursAt(s, sep, |a|);
    forall j | 0 <= j < |a| ensures !OccursAt(s, sep, j) {
      assert s[j] == a[j];
      assert s[j..j + |sep|][0] == s[j];
    }
  }

  // ---------------------------------------------------------------------
  // split(sep) and join
  // ---------------------------------------------------------------------

  /** Python's `s.split(sep)` for a non-empty separator: never an empty list. */
  function Split(s: string, sep: string): (r: seq<string>)
    requires |sep| > 0
    ensures |r| >= 1
    decreases |s|
  {
    match Find(s, sep)
    case None => [s]
    case Some(i) => [s[..i]] + Split(s[i + |sep|..], sep)
  }

  /** Python's `sep.join(xs)`. */
  function Join(xs: seq<string>, sep: string): string
    decreases |xs|
  {
    if |xs| == 0 then ""
    else if |xs| == 1 then xs[0]
    else xs[0] + sep + Join(xs[1..], sep)
  }

  /** Joining the pieces of a split with the same separator gives the string back. */
  lemma {:induction false} JoinSplit(s: string, sep: string)
    requires |sep| > 0
    ensures Join(Split(s, sep), sep) == s
    decreases |s|
  {
    var f := Find(s, sep);
    if f.Some? {
      var i := f.value;
      var a, rest := s[..i], s[i + |sep|..];
      var tail := Split(rest, sep);
      assert Split(s, sep) == [a] + tail;
      JoinSplit(rest, sep);
      assert ([a] + tail)[1..] == tail;
      assert Join([a] + tail, sep) == a + sep + Join(tail, sep);
      assert s[i..i + |sep|] == sep;
      assert s == a + s[i..i + |sep|] + rest;
    }
  }

  /** The text before the first `sep` (all of `s` when there is none). */
  function Before(s: string, sep: string): string {
    match Find(s, sep)
    case None => s
    case Some(i) => s[..i]
  }

  /** The text after the first `sep` (empty when there is none). */
  function After(s: string, sep: string): string {
    match Find(s, sep)
    case None => ""
    case Some(i) => s[i + |sep|..]
  }

  /**
   * The first piece of a split is the text before the first separator, and the
   * remaining pieces joined again are exactly the text after it.
   */
  lemma SplitHeadTail(s: string, sep: string)
    requires |sep| > 0
    ensures Split(s, sep)[0] == Before(s, sep)
    ensures Join(Split(s, sep)[1..], sep) == After(s, sep)
  {
    var f := Find(s, sep);
    if f.None? {
      assert Split(s, sep) == [s] && Before(s, sep) == s && After(s, sep) == "";
      assert Split(s, sep)[1..] == [];
    } else {
      var i := f.value;
      var rest := s[i + |sep|..];
      var tail := Split(rest, sep);
      assert Split(s, sep) == [s[..i]] + tail;
      assert Before(s, sep) == s[..i] && After(s, sep) == rest;
      assert Split(s, sep)[1..] == tail;
      JoinSplit(rest, sep);
    }
  }

  /** Splitting `a + sep + b` when `a` holds no character that starts `sep`. */
  lemma SplitAfterPrefix(a: string, sep: string, b: string)
    requires |sep| > 0
    requires forall k :: 0 <= k < |a| ==> a[k] != sep[0]
    ensures Split(a + sep + b, sep) == [a] + Split(b, sep)
    ensures Before(a + sep + b, sep) == a && After(a + sep + b, sep) == b
  {
    var s := a + sep + b;
    FindAfterPrefix(a, sep, b);
    assert s[..|a|] == a;
    assert s[|a| + |sep|..] == b;
  }

  /** A string without the separator's character splits into itself alone. */
  lemma SplitWithoutSep(s: string, c: char)
    requires c !in s
    ensures Split(s, [c]) == [s]
  {
    FindChar(s, c);
  }

  /** A field free of the separator character splits off as one piece. */
  lemma SplitField(f: string, c: char, rest: string)
    requires c !in f
    ensures Split(f + [c] + rest, [c]) == [f] + Split(rest, [c])
  {
    assert forall k :: 0 <= k < |f| ==> f[k] in f;
    SplitAfterPrefix(f, [c], rest);
  }

  lemma SplitTwo(f0: string, f1: string, c: char)
    requires c !in f0 && c !in f1
    ensures Split(f0 + [c] + f1, [c]) == [f0, f1]
  {
    SplitWithoutSep(f1, c);
    SplitField(f0, c, f1);
  }

  lemma SplitThree(f0: string, f1: string, f2: string, c: char)
    requires c !in f0 && c !in f1 && c !in f2
    ensures Split(f0 + [c] + f1 + [c] + f2, [c]) == [f0, f1, f2]
  {
    var t := f1 + [c] + f2;
    assert f0 + [c] + f1 + [c] + f2 == f0 + [c] + t;
    SplitTwo(f1, f2, c);
    SplitField(f0, c, t);
  }

  /** Four fields free of the separator, joined by it, split back into those four fields. */
  lemma SplitFour(f0: string, f1: string, f2: string, f3: string, c: char)
    requires c !in f0 && c !in f1 && c !in f2 && c !in f3
    ensures Split(f0 + [c] + f1 + [c] + f2 + [c] + f3, [c]) == [f0, f1, f2, f3]
  {
    var t := f1 + [c] + f2 + [c] + f3;
    assert f0 + [c] + f1 + [c] + f2 + [c] + f3 == f0 + [c] + t;
    SplitThree(f1, f2, f3, c);
    SplitField(f0, c, t);
  }

  // ---------------------------------------------------------------------
  // Concatenation of a list of strings
  // ---------------------------------------------------------------------

  /** `''.join(ss)`. */
  function Concat(ss: seq<string>): string
    decreases |ss|
  {
    if ss == [] then "" else ss[0] + Concat(ss[1..])
  }

  lemma {:induction false} ConcatSnoc(ss: seq<string>, x: string)
    ensures Concat(ss + [x]) == Concat(ss) + x
    decreases |ss|
  {
    if ss == [] {
      assert [] + [x] == [x];
    } else {
      assert (ss + [x])[1..] == ss[1..] + [x];
      ConcatSnoc(ss[1..], x);
    }
  }

  lemma {:induction false} ConcatFree(ss: seq<string>, c: char)
    requires forall k :: 0 <= k < |ss| ==> c !in ss[k]
    ensures c !in Concat(ss)
    decreases |ss|
  {
    if ss != [] {
      ConcatFree(ss[1..], c);
    }
  }

  /** Every character of a part is a character of the concatenation. */
  lemma {:induction false} ConcatHoldsParts(ss: seq<string>)
    ensures forall k, c :: 0 <= k < |ss| && c in ss[k] ==> c in Concat(ss)
    decreases |ss|
  {
    if ss != [] {
      ConcatHoldsParts(ss[1..]);
      assert forall k :: 1 <= k < |ss| ==> ss[k] == ss[1..][k - 1];
    }
  }

  // ---------------------------------------------------------------------
  // replace, lower, strip
  // ---------------------------------------------------------------------

  /** Python's `s.replace(c, "")` for a one-character `c`. */
  function RemoveChar(s: string, c: char): (r: string)
    ensures c !in r
    ensures forall x :: x in r ==> x in s
    ensures c !in s ==> r == s
    ensures |r| == |s| - multiset(s)[c]
    decreases |s|
  {
    if s == [] then ""
    else
      assert s == [s[0]] + s[1..];
      if s[0] == c then RemoveChar(s[1..], c) else [s[0]] + RemoveChar(s[1..], c)
  }

  /** `replace(c, "")` works piecewise: the rest of the string keeps its order. */
  lemma {:induction false} RemoveCharConcat(a: string, b: string, c: char)
    ensures RemoveChar(a + b, c) == RemoveChar(a, c) + RemoveChar(b, c)
    decreases |a|
  {
    if a == [] {
      assert a + b == b;
    } else {
      var s := a + b;
      assert s[0] == a[0] && s[1..] == a[1..] + b;
      RemoveCharConcat(a[1..], b, c);
    }
  }

  /** On one character, `replace(c, "")` drops `c` and keeps anything else. */
  lemma RemoveCharOne(x: char, c: char)
    ensures RemoveChar([x], c) == if x == c then "" else [x]
  {
    assert [x][1..] == [];
  }

  /** Python's `lower()` on one character, for the ASCII letters. */
  function LowerChar(c: char): char {
    if 'A' <= c <= 'Z' then (c as int + 32) as char else c
  }

  /** Python's `s.lower()`, for the ASCII letters. */
  function Lower(s: string): string {
    seq(|s|, i requires 0 <= i < |s| => LowerChar(s[i]))
  }

  /** Lowering twice is lowering once. */
  lemma LowerIdempotent(s: string)
    ensures Lower(Lower(s)) == Lower(s)
  {
    forall i | 0 <= i < |s| ensures LowerChar(LowerChar(s[i])) == LowerChar(s[i]) {
      if 'A' <= s[i] <= 'Z' {
        assert 'a' <= LowerChar(s[i]) <= 'z';
      }
    }
  }

  /** The ASCII whitespace that `bytes.strip()` removes. */
  predicate IsAsciiSpace(c: char) {
    c == ' ' || c == '\t' || c == '\n' || c == '\r' || c == '\U{0B}' || c == '\U{0C}'
  }

  /** How many whitespace characters `strip()` removes at the front of `s`. */
  function LeadingSpace(s: string): (n: nat)
    ensures n <= |s|
    ensures forall k :: 0 <= k < n ==> IsAsciiSpace(s[k])
    ensures n < |s| ==> !IsAsciiSpace(s[n])
    decreases |s|
  {
    if s != [] && IsAsciiSpace(s[0]) then
      var n := LeadingSpace(s[1..]);
      assert forall k :: 1 <= k < |s| ==> s[k] == s[1..][k - 1];
      1 + n
    else 0
  }

  /** How many whitespace characters `strip()` removes at the end of `s`. */
  function TrailingSpace(s: string): (n: nat)
    ensures n <= |s|
    ensures forall k :: |s| - n <= k < |s| ==> IsAsciiSpace(s[k])
    ensures n < |s| ==> !IsAsciiSpace(s[|s| - n - 1])
    decreases |s|
  {
    if s != [] && IsAsciiSpace(s[|s| - 1]) then
      var n := TrailingSpace(s[..|s| - 1]);
      assert forall k :: 0 <= k < |s| - 1 ==> s[k] == s[..|s| - 1][k];
      1 + n
    else 0
  }

  /** `line.strip()`: leading and trailing ASCII whitespace dropped. */
  function Strip(s: string): (r: string)
    ensures |r| <= |s|
  {
    var a := LeadingSpace(s);
    s[a..|s| - TrailingSpace(s[a..])]
  }

  /**
   * `strip()` keeps the middle part of `s` that neither starts nor ends with
   * whitespace, and everything it cuts off on either side is whitespace.
   */
  lemma StripSpec(s: string)
    ensures LeadingSpace(s) + |Strip(s)| <= |s|
    ensures Strip(s) == s[LeadingSpace(s)..LeadingSpace(s) + |Strip(s)|]
    ensures forall k :: 0 <= k < LeadingSpace(s) ==> IsAsciiSpace(s[k])
    ensures forall k :: LeadingSpace(s) + |Strip(s)| <= k < |s| ==> IsAsciiSpace(s[k])
    ensures Strip(s) != [] ==> !IsAsciiSpace(Strip(s)[0]) && !IsAsciiSpace(Strip(s)[|Strip(s)| - 1])
  {
    StripTrailing(s);
    StripEnds(s);
  }

  lemma StripTrailing(s: string)
    ensures forall k :: LeadingSpace(s) + |Strip(s)| <= k < |s| ==> IsAsciiSpace(s[k])
  {
    var a := LeadingSpace(s);
    var rest := s[a..];
    var t := TrailingSpace(rest);
    assert |Strip(s)| == |rest| - t;
    forall k | a + |rest| - t <= k < |s| ensures IsAsciiSpace(s[k]) {
      assert s[k] == rest[k - a];
    }
  }

  lemma StripEnds(s: string)
    ensures Strip(s) != [] ==> !IsAsciiSpace(Strip(s)[0]) && !IsAsciiSpace(Strip(s)[|Strip(s)| - 1])
  {
    var a := LeadingSpace(s);
    var rest := s[a..];
    var t := TrailingSpace(rest);
    var r := Strip(s);
    assert r == rest[..|rest| - t];
    if r != [] {
      assert r[0] == s[a];
      assert r[|r| - 1] == rest[|rest| - t - 1];
    }
  }

  /** A string that neither starts nor ends with whitespace is its own `strip()`. */
  lemma StripTrimmed(s: string)
    requires s != [] ==> !IsAsciiSpace(s[0]) && !IsAsciiSpace(s[|s| - 1])
    ensures Strip(s) == s
  {
    assert LeadingSpace(s) == 0;
    assert s[0..] == s;
    assert TrailingSpace(s) == 0;
  }

  // ---------------------------------------------------------------------
  // Iterating over the lines of a text-mode file
  // ---------------------------------------------------------------------

  /** Universal-newline translation on reading: `\r\n` and `\r` both become `\n`. */
  function TranslateNewlines(t: string): (r: string)
    ensures '\r' !in r
    ensures |r| <= |t|
    decreases |t|
  {
    if t == [] then ""
    else if t[0] == '\r' then
      if |t| > 1 && t[1] == '\n' then "\n" + TranslateNewlines(t[2..])
      else "\n" + TranslateNewlines(t[1..])
    else [t[0]] + TranslateNewlines(t[1..])
  }

  lemma {:induction false} TranslateNoCarriageReturn(t: string)
    requires '\r' !in t
    ensures TranslateNewlines(t) == t
    decreases |t|
  {
    if t != [] {
      TranslateNoCarriageReturn(t[1..]);
      assert t == [t[0]] + t[1..];
    }
  }

  /**
   * The lines of a text: each line is non-empty, holds a newline only as its
   * last character, every line but the last ends in one, and together they
   * make up the text.
   */
  function SplitLines(t: string): (r: seq<string>)
    ensures Concat(r) == t
    ensures forall k :: 0 <= k < |r| ==> r[k] != [] && '\n' !in r[k][..|r[k]| - 1]
    ensures forall k :: 0 <= k < |r| - 1 ==> r[k][|r[k]| - 1] == '\n'
    decreases |t|
  {
    if t == [] then []
    else
      FindChar(t, '\n');
      match Find(t, "\n")
      case None =>
        assert t[..|t| - 1] <= t;
        [t]
      case Some(i) =>
        var line := t[..i + 1];
        assert line[..|line| - 1] == t[..i];
        assert t == line + t[i + 1..];
        [line] + SplitLines(t[i + 1..])
  }

  /** The lines Python yields when iterating over a file whose content is `text`. */
  function ReadLines(text: string): (r: seq<string>)
    ensures Concat(r) == TranslateNewlines(text)
    ensures forall k :: 0 <= k < |r| ==> '\r' !in r[k]
  {
    var ls := SplitLines(TranslateNewlines(text));
    ConcatHoldsParts(ls);
    ls
  }

  /** `if line[-1] == '\n': line = line[:-1]` on a non-empty line. */
  function DropNewline(line: string): string {
    if |line| > 0 && line[|line| - 1] == '\n' then line[..|line| - 1] else line
  }

  /** A file made of newline-terminated lines reads back as exactly those lines. */
  lemma {:induction false} SplitLinesOfTerminated(ls: seq<string>)
    requires forall k :: 0 <= k < |ls| ==> |ls[k]| > 0 && ls[k][|ls[k]| - 1] == '\n'
    requires forall k :: 0 <= k < |ls| ==> '\n' !in ls[k][..|ls[k]| - 1]
    ensures SplitLines(Concat(ls)) == ls
    decreases |ls|
  {
    if ls != [] {
      var l := ls[0];
      var x := l[..|l| - 1];
      assert l == x + "\n";
      var rest := Concat(ls[1..]);
      forall k | 0 <= k < |x| ensures x[k] != "\n"[0] {
        assert x[k] in x;
      }
      FindAfterPrefix(x, "\n", rest);
      assert Concat(ls) == x + "\n" + rest;
      var t := Concat(ls);
      assert t[..|x| + 1] == l;
      assert t[|x| + 1..] == rest;
      SplitLinesOfTerminated(ls[1..]);
    }
  }

  // ---------------------------------------------------------------------
  // str.split() without a separator
  // ---------------------------------------------------------------------

  /** The characters for which Python's `str.isspace()` holds. */
  predicate IsPySpace(c: char) {
    ('\U{09}' <= c <= '\U{0D}') || ('\U{1C}' <= c <= '\U{20}') || c == '\U{85}' || c == '\U{A0}'
    || c == '\U{1680}' || ('\U{2000}' <= c <= '\U{200A}') || c == '\U{2028}' || c == '\U{2029}'
    || c == '\U{202F}' || c == '\U{205F}' || c == '\U{3000}'
  }

  /** The end of the run of non-space characters starting at `i`. */
  function WordEnd(s: string, i: nat): (k: nat)
    requires i <= |s|
    ensures i <= k <= |s|
    ensures forall j :: i <= j < k ==> !IsPySpace(s[j])
    ensures k < |s| ==> IsPySpace(s[k])
    decreases |s| - i
  {
    if i == |s| || IsPySpace(s[i]) then i else WordEnd(s, i + 1)
  }

  /** Python's `s.split()`: the maximal runs of non-whitespace, in order. */
  function Tokens(s: string): (r: seq<string>)
    ensures forall k :: 0 <= k < |r| ==> r[k] != [] && forall c :: c in r[k] ==> !IsPySpace(c)
    decreases |s|
  {
    if s == [] then []
    else if IsPySpace(s[0]) then Tokens(s[1..])
    else
      var k := WordEnd(s, 0);
      [s[..k]] + Tokens(s[k..])
  }

  /** A non-empty word without whitespace followed by whitespace or nothing is one token. */
  lemma TokensWord(w: string, rest: string)
    requires w != [] && forall c :: c in w ==> !IsPySpace(c)
    requires rest == [] || IsPySpace(rest[0])
    ensures Tokens(w + rest) == [w] + Tokens(rest)
  {
    var s := w + rest;
    var k := WordEnd(s, 0);
    assert forall j :: 0 <= j < |w| ==> s[j] == w[j] && w[j] in w;
    assert |w| < |s| ==> s[|w|] == rest[0];
    assert k == |w|;
    assert s[..k] == w && s[k..] == rest;
  }

  /** Leading whitespace produces no token. */
  lemma TokensSpace(c: char, rest: string)
    requires IsPySpace(c)
    ensures Tokens([c] + rest) == Tokens(rest)
  {
    assert ([c] + rest)[1..] == rest;
  }

  /** A word of non-whitespace characters is the one token of itself. */
  lemma TokensOfWord(w: string)
    requires w != [] && forall c :: c in w ==> !IsPySpace(c)
    ensures Tokens(w) == [w]
  {
    TokensWord(w, []);
    assert w + [] == w;
  }

  /** A word run ends at the same place when whitespace follows the string. */
  lemma {:induction false} WordEndBeforeSpace(a: string, rest: string, i: nat)
    requires i <= |a| && (rest == [] || IsPySpace(rest[0]))
    ensures WordEnd(a + rest, i) == WordEnd(a, i)
    decreases |a| - i
  {
    var s := a + rest;
    if i < |a| {
      assert s[i] == a[i];
      if !IsPySpace(a[i]) {
        WordEndBeforeSpace(a, rest, i + 1);
      }
    } else if rest != [] {
      assert s[i] == rest[0];
    }
  }

  /** `split()` on whitespace-separated parts is the concatenation of their tokens. */
  lemma {:induction false} TokensSplitAtSpace(a: string, c: char, b: string)
    requires IsPySpace(c)
    ensures Tokens(a + [c] + b) == Tokens(a) + Tokens(b)
    decreases |a|
  {
    var s := a + [c] + b;
    if a == [] {
      assert s == [c] + b;
      TokensSpace(c, b);
    } else if IsPySpace(a[0]) {
      assert s[0] == a[0] && s[1..] == a[1..] + [c] + b;
      TokensSplitAtSpace(a[1..], c, b);
    } else {
      var k := WordEnd(a, 0);
      assert s == a + ([c] + b);
      WordEndBeforeSpace(a, [c] + b, 0);
      assert k > 0;
      assert s[0] == a[0];
      assert s[..k] == a[..k];
      assert s[k..] == a[k..] + [c] + b;
      TokensSplitAtSpace(a[k..], c, b);
    }
  }

  /** `"b\n".split()` is `[b]` for a word without whitespace. */
  lemma TokensLast(b: string)
    requires b != [] && forall c :: c in b ==> !IsPySpace(c)
    ensures Tokens(b + "\n") == [b]
  {
    assert "\n" == ['\n'] + "";
    TokensSpace('\n', "");
    TokensWord(b, "\n");
  }

  /** `"a b\n".split()` is `[a, b]` for two words without whitespace. */
  lemma TokensPair(a: string, b: string)
    requires a != [] && forall c :: c in a ==> !IsPySpace(c)
    requires b != [] && forall c :: c in b ==> !IsPySpace(c)
    ensures Tokens(a + " " + b + "\n") == [a, b]
  {
    var t1 := b + "\n";
    var tail := [' '] + t1;
    assert Tokens(tail) == [b] by {
      TokensLast(b);
      TokensSpace(' ', t1);
    }
    assert a + " " + b + "\n" == a + tail;
    TokensWord(a, tail);
  }

  // ---------------------------------------------------------------------
  // int() and str() on integers
  // ---------------------------------------------------------------------

  predicate IsDigit(c: char) {
    '0' <= c <= '9'
  }

  function DigitChar(d: nat): (c: char)
    requires d < 10
    ensures IsDigit(c)
  {
    ('0' as int + d) as char
  }

  function DigitValue(c: char): nat
    requires IsDigit(c)
  {
    c as int - '0' as int
  }

  /** The value of a string of decimal digits, most significant first. */
  function DigitsValue(ds: string): nat
    requires forall c :: c in ds ==> IsDigit(c)
    decreases |ds|
  {
    if |ds| == 0 then 0
    else
      assert ds[|ds| - 1] in ds;
      DigitsValue(ds[..|ds| - 1]) * 10 + DigitValue(ds[|ds| - 1])
  }

  /** Digits with single underscores between them, as `int()` accepts them. */
  predicate DigitGroups(b: string) {
    && |b| > 0
    && IsDigit(b[0])
    && IsDigit(b[|b| - 1])
    && (forall k :: 0 <= k < |b| ==> IsDigit(b[k]) || b[k] == '_')
    && (forall k :: 0 <= k < |b| - 1 ==> b[k] != '_' || b[k + 1] != '_')
  }

  /** The body of a numeral after its optional sign. */
  function NumeralBody(tok: string): string {
    if |tok| > 0 && (tok[0] == '-' || tok[0] == '+') then tok[1..] else tok
  }

  /**
   * Python's `int(tok)` on a token without surrounding whitespace: an optional
   * sign, then decimal digits (leading zeros allowed) with single underscores
   * between digits; anything else raises `ValueError`, modelled by `None`.
   */
  function ParseInt(tok: string): Option<int> {
    var body := NumeralBody(tok);
    if !DigitGroups(body) then None
    else
      var v: int := DigitsValue(GroupDigits(body));
      Some(if |tok| > 0 && tok[0] == '-' then -v else v)
  }

  /** The digits of a numeral body, underscores removed. */
  function GroupDigits(body: string): (ds: string)
    requires DigitGroups(body)
    ensures forall c :: c in ds ==> IsDigit(c)
  {
    var ds := RemoveChar(body, '_');
    assert forall c :: c in ds ==> IsDigit(c) by {
      forall c | c in ds ensures IsDigit(c) {
        var k :| 0 <= k < |body| && body[k] == c;
      }
    }
    ds
  }

  /** Python's `str(n)` for a natural number. */
  function NatToString(n: nat): (s: string)
    ensures |s| > 0 && forall c :: c in s ==> IsDigit(c)
    decreases n
  {
    if n < 10 then [DigitChar(n)] else NatToString(n / 10) + [DigitChar(n % 10)]
  }

  /** Python's `str(n)` for an integer. */
  function IntToString(n: int): string {
    if n < 0 then "-" + NatToString(-n) else NatToString(n)
  }

  lemma {:induction false} DigitsValueOfNat(n: nat)
    ensures DigitsValue(NatToString(n)) == n
    decreases n
  {
    var s := NatToString(n);
    if n >= 10 {
      DigitsValueOfNat(n / 10);
      assert s[..|s| - 1] == NatToString(n / 10);
    }
  }

  /** A non-empty string of digits is a valid numeral body without underscores. */
  lemma DigitsAreGroups(ds: string)
    requires |ds| > 0 && forall c :: c in ds ==> IsDigit(c)
    ensures DigitGroups(ds) && GroupDigits(ds) == ds
  {
    assert ds[0] in ds && ds[|ds| - 1] in ds;
    assert forall k :: 0 <= k < |ds| ==> ds[k] in ds;
    assert !IsDigit('_');
  }

  /** `int(str(n)) == n`: the numeral written for an integer parses back to it. */
  lemma ParseIntOfString(n: int)
    ensures ParseInt(IntToString(n)) == Some(n)
  {
    if n < 0 {
      ParseNegative(n);
    } else {
      ParseNatural(n);
    }
  }

  /** `int()` on a signed numeral: the sign applied to the value of the body. */
  lemma ParseIntSigned(tok: string)
    requires |tok| > 0 && tok[0] == '-' && DigitGroups(tok[1..])
    ensures ParseInt(tok) == Some(-(DigitsValue(GroupDigits(tok[1..])) as int))
  {
    assert NumeralBody(tok) == tok[1..];
  }

  /** `int()` on a numeral without a sign. */
  lemma ParseIntUnsigned(tok: string)
    requires DigitGroups(tok)
    ensures ParseInt(tok) == Some(DigitsValue(GroupDigits(tok)))
  {
    assert IsDigit(tok[0]);
    assert NumeralBody(tok) == tok;
  }

  lemma ParseNatural(n: int)
    requires n >= 0
    ensures ParseInt(IntToString(n)) == Some(n)
  {
    var ds := NatToString(n);
    DigitsAreGroups(ds);
    ParseIntUnsigned(ds);
    DigitsValueOfNat(n);
  }

  lemma ParseNegative(n: int)
    requires n < 0
    ensures ParseInt(IntToString(n)) == Some(n)
  {
    var m: nat := -n;
    var ds := NatToString(m);
    var tok := "-" + ds;
    assert IntToString(n) == tok;
    assert tok[0] == '-' && tok[1..] == ds;
    DigitsAreGroups(ds);
    ParseIntSigned(tok);
    DigitsValueOfNat(m);
    assert DigitsValue(GroupDigits(tok[1..])) == m;
  }

  /** No numeral written by `str()` holds whitespace. */
  lemma IntToStringNoSpace(n: int)
    ensures IntToString(n) != [] && forall c :: c in IntToString(n) ==> !IsPySpace(c) && c != ' '
  {
    var m: nat := if n < 0 then -n else n;
    assert forall c :: c in NatToString(m) ==> IsDigit(c);
  }
}
