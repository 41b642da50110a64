/**
 * The list logic of the lexicon editor: the two Tk list boxes (the word list to
 * work through and the lexicon being built), the lexicon file format written by
 * `save` and read by `load`, the word-list reader, search, moving the selection
 * on, adding and deleting entries, and the numbers of the copy hot keys.
 */
module LexEdit {
  import opened Wrappers
  import opened PyStr

  /** One lexicon entry: a word and its phoneme transcription. */
  datatype LexiconEntry = LexiconEntry(word: string, phonemes: string)

  /** The separator between word and transcription in the lexicon list box. */
  const Bar := " | "

  /** The display string the lexicon list box holds for an entry. */
  function Display(e: LexiconEntry): string {
    e.word + Bar + e.phonemes
  }

  function Displays(es: seq<LexiconEntry>): seq<string> {
    seq(|es|, k requires 0 <= k < |es| => Display(es[k]))
  }

  // ---------------------------------------------------------------------
  // The Tk list box
  // ---------------------------------------------------------------------

  predicate Increasing(s: seq<int>) {
    forall k, l :: 0 <= k < l < |s| ==> s[k] < s[l]
  }

  /** Tk's clamping of an index given to `activate`. */
  function Clamp(i: int, size: nat): (r: nat)
    ensures size > 0 ==> r < size
    ensures size == 0 ==> r == 0
    ensures 0 <= i < size ==> r == i
  {
    if i >= size then (if size == 0 then 0 else size - 1) else if i < 0 then 0 else i
  }

  /** `s` without the element at index `k`. */
  function RemoveAt(s: seq<string>, k: nat): (r: seq<string>)
    requires k < |s|
    ensures |r| == |s| - 1
    ensures forall j :: 0 <= j < k ==> r[j] == s[j]
    ensures forall j :: k <= j < |r| ==> r[j] == s[j + 1]
  {
    s[..k] + s[k + 1..]
  }

  /** Where a selected index `v` other than `a` moves when the item at `a` is deleted. */
  function Shifted(v: int, a: int): int {
    if v < a then v else v - 1
  }

  /** The selected indices after the item at `a` is deleted: `a` goes, later ones move down. */
  function ShiftOut(sel: seq<int>, a: int): (r: seq<int>)
    ensures |r| <= |sel|
    decreases |sel|
  {
    if sel == [] then []
    else
      var tail := ShiftOut(sel[1..], a);
      if sel[0] == a then tail else [Shifted(sel[0], a)] + tail
  }

  /** Bounds on the selection survive a deletion, shifted as the indices are. */
  lemma {:induction false} ShiftOutBounds(sel: seq<int>, a: int, b: int, n: int)
    requires a < n
    requires forall k :: 0 <= k < |sel| ==> b < sel[k] < n
    ensures forall k :: 0 <= k < |ShiftOut(sel, a)| ==>
      Shifted(b, a) < ShiftOut(sel, a)[k] < n - 1
    decreases |sel|
  {
    if sel != [] {
      ShiftOutBounds(sel[1..], a, b, n);
    }
  }

  /**
   * After a deletion exactly the other selected indices are selected, each at
   * its shifted position: the deleted index leaves and no new one appears.
   */
  lemma {:induction false} ShiftOutMembers(sel: seq<int>, a: int)
    ensures forall x :: x in ShiftOut(sel, a) <==>
      exists k :: 0 <= k < |sel| && sel[k] != a && x == Shifted(sel[k], a)
    decreases |sel|
  {
    if sel != [] {
      var tail := sel[1..];
      ShiftOutMembers(tail, a);
      forall x
        ensures x in ShiftOut(sel, a) <==> exists k :: 0 <= k < |sel| && sel[k] != a && x == Shifted(sel[k], a)
      {
        if x in ShiftOut(sel, a) {
          if sel[0] != a && x == Shifted(sel[0], a) {
            assert 0 < |sel| && sel[0] != a && x == Shifted(sel[0], a);
          } else {
            assert x in ShiftOut(tail, a);
            var j :| 0 <= j < |tail| && tail[j] != a && x == Shifted(tail[j], a);
            assert sel[j + 1] == tail[j];
          }
        }
        if exists k :: 0 <= k < |sel| && sel[k] != a && x == Shifted(sel[k], a) {
          var k :| 0 <= k < |sel| && sel[k] != a && x == Shifted(sel[k], a);
          if k > 0 {
            assert tail[k - 1] == sel[k];
            assert x in ShiftOut(tail, a);
          }
        }
      }
    }
  }

  /** Deleting an item keeps the selection increasing. */
  lemma {:induction false} ShiftOutIncreasing(sel: seq<int>, a: int, n: int)
    requires a < n && Increasing(sel)
    requires forall k :: 0 <= k < |sel| ==> sel[k] < n
    ensures Increasing(ShiftOut(sel, a))
    decreases |sel|
  {
    if sel != [] {
      var h := sel[0];
      ShiftOutIncreasing(sel[1..], a, n);
      ShiftOutBounds(sel[1..], a, h, n);
    }
  }

  /** The selected indices after `i` is selected as well. */
  function InsertSorted(sel: seq<int>, i: int): (r: seq<int>)
    ensures |r| <= |sel| + 1
    decreases |sel|
  {
    if sel == [] then [i]
    else if i < sel[0] then [i] + sel
    else if i == sel[0] then sel
    else [sel[0]] + InsertSorted(sel[1..], i)
  }

  /** Selecting `i` adds `i` and keeps every index already selected. */
  lemma {:induction false} InsertSortedMembers(sel: seq<int>, i: int)
    ensures forall x :: x in InsertSorted(sel, i) <==> x in sel || x == i
    decreases |sel|
  {
    if sel != [] && i > sel[0] {
      InsertSortedMembers(sel[1..], i);
      assert sel == [sel[0]] + sel[1..];
    }
  }

  lemma {:induction false} InsertSortedAbove(sel: seq<int>, i: int, b: int)
    requires b < i && forall k :: 0 <= k < |sel| ==> b < sel[k]
    ensures forall k :: 0 <= k < |InsertSorted(sel, i)| ==> b < InsertSorted(sel, i)[k]
    decreases |sel|
  {
    if sel != [] && i > sel[0] {
      InsertSortedAbove(sel[1..], i, b);
    }
  }

  lemma {:induction false} InsertSortedBelow(sel: seq<int>, i: int, n: int)
    requires i < n && forall k :: 0 <= k < |sel| ==> sel[k] < n
    ensures forall k :: 0 <= k < |InsertSorted(sel, i)| ==> InsertSorted(sel, i)[k] < n
    decreases |sel|
  {
    if sel != [] && i > sel[0] {
      InsertSortedBelow(sel[1..], i, n);
    }
  }

  /** Selecting an index keeps the selection increasing. */
  lemma {:induction false} InsertSortedIncreasing(sel: seq<int>, i: int)
    requires Increasing(sel)
    ensures Increasing(InsertSorted(sel, i))
    decreases |sel|
  {
    if sel != [] && i > sel[0] {
      var tail := sel[1..];
      assert Increasing(tail);
      InsertSortedIncreasing(tail, i);
      InsertSortedAbove(tail, i, sel[0]);
    }
  }

  /**
   * A Tk list box: its items, its selection as `curselection()` reports it
   * (increasing indices) and its active index.
   */
  class ListBox {
    var items: seq<string>
    var selection: seq<int>
    var active: int

    ghost predicate Valid()
      reads this
    {
      && Increasing(selection)
      && (forall k :: 0 <= k < |selection| ==> 0 <= selection[k] < |items|)
      && 0 <= active
      && (active < |items| || active == 0)
    }

    constructor ()
      ensures Valid() && items == [] && selection == [] && active == 0
    {
      items, selection, active := [], [], 0;
    }

    /** `insert(END, entry)`: appending leaves the selection and the active index alone. */
    method Insert(entry: string)
      requires Valid()
      modifies this
      ensures Valid()
      ensures items == old(items) + [entry]
      ensures selection == old(selection) && active == old(active)
    {
      items := items + [entry];
    }

    /**
     * `delete(ACTIVE)`: removes the active item, if there is one; later
     * selected indices move down and the active index stays in range.
     */
    method DeleteActive()
      requires Valid()
      modifies this
      ensures Valid()
      ensures old(active) < |old(items)| ==> items == RemoveAt(old(items), old(active))
      ensures old(active) < |old(items)| ==> selection == ShiftOut(old(selection), old(active))
      ensures old(active) >= |old(items)| ==> items == old(items) && selection == old(selection)
      ensures active == Clamp(old(active), |items|)
    {
      if active < |items| {
        var a := active;
        items := RemoveAt(items, a);
        ghost var before := selection;
        selection := ShiftOut(selection, a);
        ShiftOutIncreasing(before, a, |items| + 1);
        ShiftOutBounds(before, a, -1, |items| + 1);
        active := Clamp(a, |items|);
      }
    }

    /** `activate(i)`. */
    method Activate(i: int)
      requires Valid()
      modifies this
      ensures Valid()
      ensures items == old(items) && selection == old(selection)
      ensures active == Clamp(i, |items|)
    {
      active := Clamp(i, |items|);
    }

    /** `selection_clear(curselection())`: deselects every selected item. */
    method ClearSelection()
      requires Valid()
      modifies this
      ensures Valid()
      ensures items == old(items) && active == old(active) && selection == []
    {
      selection := [];
    }

    /**
     * `selection_set(i)`: an index outside the items is ignored. Both list
     * boxes export their selection (Tk's `exportselection`, on by default), so
     * a selection that goes from empty to non-empty takes the selection away
     * from `peer`, whose selection Tk then clears.
     */
    method SelectionSet(i: int, peer: ListBox)
      requires Valid() && peer.Valid() && peer != this
      modifies this, peer
      ensures Valid() && peer.Valid()
      ensures items == old(items) && active == old(active)
      ensures selection == if 0 <= i < |items| then InsertSorted(old(selection), i) else old(selection)
      ensures peer.items == old(peer.items) && peer.active == old(peer.active)
      ensures peer.selection == if old(selection) == [] && selection != [] then [] else old(peer.selection)
      ensures old(OneSelection(this, peer)) ==> OneSelection(this, peer)
    {
      if 0 <= i < |items| {
        ghost var before := selection;
        var acquired := selection == [];
        selection := InsertSorted(selection, i);
        InsertSortedIncreasing(before, i);
        InsertSortedAbove(before, i, -1);
        InsertSortedBelow(before, i, |items|);
        InsertSortedMembers(before, i);
        assert i in selection;
        if acquired {
          peer.selection := [];
        }
      }
    }
  }

  /** At most one of two exporting list boxes has a selection. */
  ghost predicate OneSelection(a: ListBox, b: ListBox)
    reads a, b
  {
    a.selection == [] || b.selection == []
  }

  // ---------------------------------------------------------------------
  // The lexicon file format
  // ---------------------------------------------------------------------

  /** The file line `save` writes for one list-box item. */
  function SaveLine(item: string): string {
    var parts := Split(item, Bar);
    parts[0] + " " + Join(parts[1..], Bar) + "\n"
  }

  function SaveLines(items: seq<string>): seq<string> {
    seq(|items|, k requires 0 <= k < |items| => SaveLine(items[k]))
  }

  /** The whole file `save` writes. */
  function SaveText(items: seq<string>): string {
    Concat(SaveLines(items))
  }

  /** `save` turns `w | p1 | ... | pk` into `w p1 | ... | pk`: only the first bar becomes a space. */
  lemma SaveLineSplitsAtFirstBar(item: string)
    ensures SaveLine(item) == Before(item, Bar) + " " + After(item, Bar) + "\n"
  {
    SplitHeadTail(item, Bar);
  }

  /** `save` writes the contents of the lexicon list box, one line per item, in order. */
  method Save(dict: ListBox) returns (text: string)
    ensures text == SaveText(dict.items)
  {
    var items := dict.items;
    text := "";
    var i := 0;
    while i < |items|
      invariant 0 <= i <= |items|
      invariant text == Concat(SaveLines(items[..i]))
    {
      assert SaveLines(items[..i + 1]) == SaveLines(items[..i]) + [SaveLine(items[i])];
      ConcatSnoc(SaveLines(items[..i]), SaveLine(items[i]));
      text := text + SaveLine(items[i]);
      i := i + 1;
    }
    assert items[..i] == items;
  }

  /** The list-box item `load` makes of one file line. */
  function LoadEntry(line: string): string {
    var l := DropNewline(line);
    var parts := Split(l, " ");
    parts[0] + Bar + Join(parts[1..], " ")
  }

  /** `load` takes the word up to the first space and keeps the rest of the line verbatim. */
  lemma LoadEntryAtFirstSpace(line: string)
    ensures LoadEntry(line) == Before(DropNewline(line), " ") + Bar + After(DropNewline(line), " ")
  {
    SplitHeadTail(DropNewline(line), " ");
  }

  /** The items `load` appends for a file whose content is `text`. */
  function LoadedEntries(text: string): seq<string> {
    LoadedOf(ReadLines(text))
  }

  /** The items `load` makes of a run of file lines, one per line in order. */
  function LoadedOf(lines: seq<string>): seq<string> {
    seq(|lines|, k requires 0 <= k < |lines| => LoadEntry(lines[k]))
  }

  /**
   * `load`: appends one item per file line after the items already there; a
   * missing file leaves the list box as it was.
   */
  method Load(dict: ListBox, file: Option<string>)
    requires dict.Valid()
    modifies dict
    ensures dict.Valid()
    ensures dict.items == old(dict.items) + (if file.Some? then LoadedEntries(file.value) else [])
    ensures dict.selection == old(dict.selection) && dict.active == old(dict.active)
  {
    if file.Some? {
      LoadLines(dict, ReadLines(file.value));
    }
  }

  /** The `for line in in_file` loop of `load`. */
  method LoadLines(dict: ListBox, lines: seq<string>)
    requires dict.Valid()
    modifies dict
    ensures dict.Valid()
    ensures dict.items == old(dict.items) + LoadedOf(lines)
    ensures dict.selection == old(dict.selection) && dict.active == old(dict.active)
  {
    ghost var entries := LoadedOf(lines);
    var i := 0;
    while i < |lines|
      invariant 0 <= i <= |lines|
      invariant dict.Valid()
      invariant dict.items == old(dict.items) + entries[..i]
      invariant dict.selection == old(dict.selection) && dict.active == old(dict.active)
    {
      dict.Insert(LoadEntry(lines[i]));
      assert entries[..i + 1] == entries[..i] + [entries[i]];
      i := i + 1;
    }
    assert entries[..i] == entries;
  }

  /** An entry whose word holds no space or line break and whose transcription holds no line break. */
  predicate Storable(e: LexiconEntry) {
    && ' ' !in e.word && '\n' !in e.word && '\r' !in e.word
    && '\n' !in e.phonemes && '\r' !in e.phonemes
  }

  lemma SaveLineOfDisplay(e: LexiconEntry)
    requires ' ' !in e.word
    ensures SaveLine(Display(e)) == e.word + " " + e.phonemes + "\n"
  {
    forall k | 0 <= k < |e.word| ensures e.word[k] != Bar[0] {
      assert e.word[k] in e.word;
    }
    SplitAfterPrefix(e.word, Bar, e.phonemes);
    JoinSplit(e.phonemes, Bar);
  }

  lemma LoadEntryOfLine(e: LexiconEntry)
    requires ' ' !in e.word
    ensures LoadEntry(e.word + " " + e.phonemes + "\n") == Display(e)
  {
    var l := e.word + " " + e.phonemes;
    assert (l + "\n")[..|l|] == l;
    forall k | 0 <= k < |e.word| ensures e.word[k] != " "[0] {
      assert e.word[k] in e.word;
    }
    SplitAfterPrefix(e.word, " ", e.phonemes);
    JoinSplit(e.phonemes, " ");
  }

  /** A file written by `save` and read back by concatenated lines without carriage returns. */
  lemma ReadTerminatedLines(ls: seq<string>)
    requires forall k :: 0 <= k < |ls| ==> |ls[k]| > 0 && ls[k][|ls[k]| - 1] == '\n'
    requires forall k :: 0 <= k < |ls| ==> '\n' !in ls[k][..|ls[k]| - 1] && '\r' !in ls[k]
    ensures ReadLines(Concat(ls)) == ls
  {
    ConcatFree(ls, '\r');
    TranslateNoCarriageReturn(Concat(ls));
    SplitLinesOfTerminated(ls);
  }

  /**
   * Round trip of the lexicon file: loading what `save` wrote reproduces the
   * list box, for entries whose word has no space or line break and whose
   * transcription has no line break (it may contain further bars).
   */
  lemma LoadAfterSave(es: seq<LexiconEntry>)
    requires forall k :: 0 <= k < |es| ==> Storable(es[k])
    ensures LoadedEntries(SaveText(Displays(es))) == Displays(es)
  {
    var ds := Displays(es);
    var ls := SaveLines(ds);
    forall k | 0 <= k < |ls|
      ensures ls[k] == es[k].word + " " + es[k].phonemes + "\n"
      ensures |ls[k]| > 0 && ls[k][|ls[k]| - 1] == '\n'
      ensures '\n' !in ls[k][..|ls[k]| - 1] && '\r' !in ls[k]
    {
      SaveLineOfDisplay(es[k]);
      assert ls[k][..|ls[k]| - 1] == es[k].word + " " + es[k].phonemes;
    }
    ReadTerminatedLines(ls);
    forall k | 0 <= k < |ls| ensures LoadEntry(ls[k]) == ds[k] {
      LoadEntryOfLine(es[k]);
    }
  }

  // ---------------------------------------------------------------------
  // The word list
  // ---------------------------------------------------------------------

  /** The words `load_wordlist` returns: the file's lines without their line breaks. */
  function Wordlist(text: string): (ws: seq<string>)
    ensures forall k :: 0 <= k < |ws| ==> '\n' !in ws[k] && '\r' !in ws[k]
  {
    var lines := ReadLines(text);
    forall k | 0 <= k < |lines| ensures '\n' !in DropNewline(lines[k]) && '\r' !in DropNewline(lines[k]) {
      assert '\r' !in lines[k] by {
        ConcatHoldsParts(lines);
      }
      var l := lines[k];
      assert DropNewline(l) <= l;
      assert l[|l| - 1] != '\n' ==> l == l[..|l| - 1] + [l[|l| - 1]];
    }
    seq(|lines|, k requires 0 <= k < |lines| => DropNewline(lines[k]))
  }

  /** `load_wordlist`: a missing file makes `open` raise, modelled by `None`. */
  method LoadWordlist(file: Option<string>) returns (words: Option<seq<string>>)
    ensures file.None? ==> words.None?
    ensures file.Some? ==> words == Some(Wordlist(file.value))
  {
    if file.None? {
      return None;
    }
    var lines := ReadLines(file.value);
    var ws: seq<string> := [];
    var i := 0;
    while i < |lines|
      invariant 0 <= i <= |lines|
      invariant ws == seq(i, k requires 0 <= k < i => DropNewline(lines[k]))
    {
      ws := ws + [DropNewline(lines[i])];
      i := i + 1;
    }
    words := Some(ws);
  }

  /** A word list written one word per line reads back as the same words. */
  lemma WordlistRoundTrip(ws: seq<string>)
    requires forall k :: 0 <= k < |ws| ==> '\n' !in ws[k] && '\r' !in ws[k]
    ensures Wordlist(Concat(seq(|ws|, k requires 0 <= k < |ws| => ws[k] + "\n"))) == ws
  {
    var ls := seq(|ws|, k requires 0 <= k < |ws| => ws[k] + "\n");
    forall k | 0 <= k < |ls|
      ensures |ls[k]| > 0 && ls[k][|ls[k]| - 1] == '\n'
      ensures '\n' !in ls[k][..|ls[k]| - 1] && '\r' !in ls[k]
    {
      assert ls[k][..|ls[k]| - 1] == ws[k];
    }
    ReadTerminatedLines(ls);
  }

  // ---------------------------------------------------------------------
  // Search
  // ---------------------------------------------------------------------

  /** Case-insensitive match: equality in exact mode, containment otherwise. */
  predicate Matches(query: string, item: string, exact: bool) {
    if exact then Lower(item) == Lower(query) else Contains(Lower(item), Lower(query))
  }

  /**
   * An exact match is also a containment match, and, as with Python's `in`,
   * the empty query is contained in every item.
   */
  lemma MatchesRules(query: string, item: string)
    ensures Matches(query, item, true) ==> Matches(query, item, false)
    ensures Matches("", item, false)
  {
    assert OccursAt(Lower(item), Lower(item), 0);
    assert OccursAt(Lower(item), Lower(""), 0);
  }

  /** Matching ignores case: lowering the query or the item first changes nothing. */
  lemma MatchesIgnoresCase(query: string, item: string, exact: bool)
    ensures Matches(query, item, exact) == Matches(Lower(query), Lower(item), exact)
  {
    LowerIdempotent(query);
    LowerIdempotent(item);
  }

  /** The first index whose element passes `p`, -1 when none does. */
  function FirstIndex<T>(p: T -> bool, xs: seq<T>): (r: int)
    ensures -1 <= r < |xs|
    ensures r == -1 <==> forall k :: 0 <= k < |xs| ==> !p(xs[k])
    ensures r >= 0 ==> p(xs[r]) && forall k :: 0 <= k < r ==> !p(xs[k])
    decreases |xs|
  {
    if xs == [] then -1
    else if p(xs[0]) then 0
    else
      var tail := xs[1..];
      var r := FirstIndex(p, tail);
      assert forall k :: 0 <= k < |tail| ==> tail[k] == xs[k + 1];
      if r == -1 then -1 else r + 1
  }

  /** The first index whose item matches the query, -1 when none does. */
  function FirstMatch(query: string, items: seq<string>, exact: bool): (r: int)
    ensures -1 <= r < |items|
    ensures r == -1 <==> forall k :: 0 <= k < |items| ==> !Matches(query, items[k], exact)
    ensures r >= 0 ==> Matches(query, items[r], exact)
    ensures r >= 0 ==> forall k :: 0 <= k < r ==> !Matches(query, items[k], exact)
  {
    FirstIndex(item => Matches(query, item, exact), items)
  }

  /** `search_listdict`: scans the items in order and returns at the first match. */
  method SearchListDict(query: string, items: seq<string>, exact: bool) returns (index: int)
    ensures index == FirstMatch(query, items, exact)
  {
    var q := Lower(query);
    var i := 0;
    while i < |items|
      invariant 0 <= i <= |items|
      invariant forall k :: 0 <= k < i ==> !Matches(query, items[k], exact)
    {
      var elem := Lower(items[i]);
      if exact {
        if elem == q {
          return i;
        }
      } else {
        if Contains(elem, q) {
          return i;
        }
      }
      i := i + 1;
    }
    return -1;
  }

  /** A query with a leading `^` asks for an exact match. */
  function ExactMode(query: string): (r: bool)
    requires |query| > 0
    ensures r <==> "^" <= query
    ensures r ==> "^" <= Lower(query)
  {
    query[0] == '^'
  }

  /** The words of the lexicon list box that search looks at: each item up to its first bar. */
  function DictWords(items: seq<string>): (ws: seq<string>)
    ensures |ws| == |items|
    ensures forall k :: 0 <= k < |items| ==> ws[k] == Before(items[k], Bar)
  {
    forall k | 0 <= k < |items| ensures Split(items[k], Bar)[0] == Before(items[k], Bar) {
      SplitHeadTail(items[k], Bar);
    }
    seq(|items|, k requires 0 <= k < |items| => Split(items[k], Bar)[0])
  }

  /**
   * The `^` that selects exact mode stays in the query, so an exact search
   * only ever finds an item that itself starts with `^`.
   */
  lemma CaretQueryFindsOnlyCaretItems(query: string, items: seq<string>)
    requires |query| > 0 && ExactMode(query)
    ensures FirstMatch(query, items, true) >= 0 ==>
      |items[FirstMatch(query, items, true)]| > 0 && items[FirstMatch(query, items, true)][0] == '^'
  {
    var r := FirstMatch(query, items, true);
    if r >= 0 {
      var item := items[r];
      assert Lower(item) == Lower(query);
      assert |item| == |query|;
      assert Lower(item)[0] == LowerChar(item[0]);
      assert Lower(query)[0] == LowerChar('^') == '^';
    }
  }

  /**
   * `setSelection`: clears the selection, then activates and selects index
   * `i`; selecting a valid index clears the selection of the other list box.
   */
  method SetSelection(box: ListBox, peer: ListBox, i: int)
    requires box != peer && box.Valid() && peer.Valid()
    modifies box, peer
    ensures box.Valid() && peer.Valid()
    ensures box.items == old(box.items)
    ensures box.active == Clamp(i, |box.items|)
    ensures box.selection == if 0 <= i < |box.items| then [i] else []
    ensures peer.items == old(peer.items) && peer.active == old(peer.active)
    ensures peer.selection == if 0 <= i < |box.items| then [] else old(peer.selection)
    ensures OneSelection(box, peer)
  {
    if |box.selection| > 0 {
      box.ClearSelection();
    }
    box.Activate(i);
    box.SelectionSet(i, peer);
  }

  /**
   * `search_listboxes` once the dialog has returned `query` (an empty string
   * also stands for a cancelled dialog): both lists are searched with the same
   * mode and a found item is selected in the word list, then in the lexicon.
   * A hit in the lexicon takes the selection away from the word list again.
   */
  method SearchListboxes(query: string, dict: ListBox, nodes: ListBox)
    returns (dictIndex: int, nodesIndex: int)
    requires dict != nodes && dict.Valid() && nodes.Valid()
    modifies dict, nodes
    ensures dict.Valid() && nodes.Valid()
    ensures dict.items == old(dict.items) && nodes.items == old(nodes.items)
    ensures |query| == 0 ==> dictIndex == -1 && nodesIndex == -1
    ensures |query| > 0 ==> dictIndex == FirstMatch(query, DictWords(old(dict.items)), ExactMode(query))
    ensures |query| > 0 ==> nodesIndex == FirstMatch(query, old(nodes.items), ExactMode(query))
    ensures nodes.active == if nodesIndex != -1 then nodesIndex else old(nodes.active)
    ensures nodes.selection ==
      if dictIndex != -1 then [] else if nodesIndex != -1 then [nodesIndex] else old(nodes.selection)
    ensures dict.active == if dictIndex != -1 then dictIndex else old(dict.active)
    ensures dict.selection ==
      if dictIndex != -1 then [dictIndex] else if nodesIndex != -1 then [] else old(dict.selection)
    ensures old(OneSelection(dict, nodes)) ==> OneSelection(dict, nodes)
  {
    if |query| == 0 {
      return -1, -1;
    }
    var exact := query[0] == '^';
    var dictItems := DictWords(dict.items);
    dictIndex := SearchListDict(query, dictItems, exact);
    nodesIndex := SearchListDict(query, nodes.items, exact);
    if nodesIndex != -1 {
      SetSelection(nodes, dict, nodesIndex);
    }
    if dictIndex != -1 {
      SetSelection(dict, nodes, dictIndex);
    }
  }

  // ---------------------------------------------------------------------
  // Moving the selection on, adding and deleting entries
  // ---------------------------------------------------------------------

  /** The index `next_selection` moves to. */
  function NextIndex(selection: seq<int>, size: int): (r: int)
    ensures r == 0 || (|selection| > 0 && r == selection[|selection| - 1] + 1 && r < size)
    ensures size > 0 && (forall k :: 0 <= k < |selection| ==> selection[k] >= 0) ==> 0 <= r < size
  {
    if |selection| > 0 && selection[|selection| - 1] < size - 1 then selection[|selection| - 1] + 1 else 0
  }

  /**
   * From a single selected item the selection moves one step forward and
   * wraps from the last item to the first; with nothing selected it goes to
   * the first item.
   */
  lemma NextIndexWrapsAround(i: int, size: int)
    requires 0 <= i < size
    ensures NextIndex([i], size) == (i + 1) % size
    ensures NextIndex([], size) == 0
  {
    if i < size - 1 {
      assert (i + 1) % size == i + 1;
    } else {
      assert i + 1 == size;
    }
  }

  /**
   * `next_selection`: afterwards the returned index is the only selected item
   * and the active one; the items do not change. Selecting it takes the
   * selection away from the lexicon list box.
   */
  method NextSelection(nodes: ListBox, dict: ListBox) returns (next: int)
    requires nodes != dict && nodes.Valid() && dict.Valid()
    modifies nodes, dict
    ensures nodes.Valid() && dict.Valid()
    ensures next == NextIndex(old(nodes.selection), |old(nodes.items)|)
    ensures nodes.items == old(nodes.items) && nodes.active == next
    ensures nodes.selection == if |nodes.items| > 0 then [next] else []
    ensures dict.items == old(dict.items) && dict.active == old(dict.active)
    ensures dict.selection == if |nodes.items| > 0 then [] else old(dict.selection)
    ensures OneSelection(nodes, dict)
  {
    var indices := nodes.selection;
    next := 0;
    if |indices| > 0 {
      var last := indices[|indices| - 1];
      nodes.ClearSelection();
      if last < |nodes.items| - 1 {
        next := last + 1;
      }
    }
    nodes.Activate(next);
    nodes.SelectionSet(next, dict);
  }

  /**
   * `add_and_next`: appends the entry `word | phn` to the lexicon list box,
   * saves the lexicon (auto-save is on) and moves the word list on, which
   * clears the lexicon's selection whenever the word list has items.
   */
  method AddAndNext(dict: ListBox, nodes: ListBox, word: string, phn: string)
    returns (saved: string, next: int)
    requires dict != nodes && dict.Valid() && nodes.Valid()
    modifies dict, nodes
    ensures dict.Valid() && nodes.Valid()
    ensures dict.items == old(dict.items) + [Display(LexiconEntry(word, phn))]
    ensures dict.active == old(dict.active)
    ensures dict.selection == if |nodes.items| > 0 then [] else old(dict.selection)
    ensures saved == SaveText(dict.items)
    ensures next == NextIndex(old(nodes.selection), |old(nodes.items)|)
    ensures nodes.items == old(nodes.items) && nodes.active == next
    ensures nodes.selection == if |nodes.items| > 0 then [next] else []
    ensures OneSelection(dict, nodes)
  {
    var entry := word + Bar + phn;
    dict.Insert(entry);
    saved := Save(dict);
    next := NextSelection(nodes, dict);
  }

  /**
   * `delete_entry`: removes the active item of the lexicon list box, as
   * `delete(ACTIVE)` does, and saves the lexicon.
   */
  method DeleteEntry(dict: ListBox) returns (saved: string)
    requires dict.Valid()
    modifies dict
    ensures dict.Valid()
    ensures old(dict.active) < |old(dict.items)| ==>
      dict.items == RemoveAt(old(dict.items), old(dict.active)) &&
      dict.selection == ShiftOut(old(dict.selection), old(dict.active))
    ensures old(dict.active) >= |old(dict.items)| ==>
      dict.items == old(dict.items) && dict.selection == old(dict.selection)
    ensures dict.active == Clamp(old(dict.active), |dict.items|)
    ensures saved == SaveText(dict.items)
  {
    dict.DeleteActive();
    saved := Save(dict);
  }

  // ---------------------------------------------------------------------
  // Hot keys for the G2P variants
  // ---------------------------------------------------------------------

  /** The number key that plays variant `row`. */
  function PlayKeyNumber(row: int): int {
    row + 1
  }

  /**
   * The number key that copies variant `row` when `numVariants` are shown: the
   * rows take the last keys up to 10, and on Darwin key 10 is Cmd+0.
   */
  function CopyKeyNumber(numVariants: int, row: int, darwin: bool): (k: int)
    ensures 1 <= numVariants <= 10 && 0 <= row < numVariants ==>
      0 <= k <= 10 && (k == 0 <==> darwin && row == numVariants - 1)
  {
    var n := 10 - numVariants + row + 1;
    if darwin && n == 10 then 0 else n
  }

  lemma CopyKeysOfFiveVariants()
    ensures [CopyKeyNumber(5, 0, false), CopyKeyNumber(5, 1, false), CopyKeyNumber(5, 2, false),
             CopyKeyNumber(5, 3, false), CopyKeyNumber(5, 4, false)] == [6, 7, 8, 9, 10]
    ensures [CopyKeyNumber(5, 0, true), CopyKeyNumber(5, 1, true), CopyKeyNumber(5, 2, true),
             CopyKeyNumber(5, 3, true), CopyKeyNumber(5, 4, true)] == [6, 7, 8, 9, 0]
  {
  }

  /** Different rows get different copy keys. */
  lemma CopyKeysDistinct(numVariants: int, r1: int, r2: int, darwin: bool)
    requires 1 <= numVariants <= 10 && 0 <= r1 < r2 < numVariants
    ensures CopyKeyNumber(numVariants, r1, darwin) != CopyKeyNumber(numVariants, r2, darwin)
  {
  }

  /** The play keys and the copy keys stay apart exactly when at most five variants are shown. */
  lemma PlayAndCopyKeysApart(numVariants: int, darwin: bool)
    requires 1 <= numVariants <= 10
    ensures (forall r1, r2 :: 0 <= r1 < numVariants && 0 <= r2 < numVariants ==>
               PlayKeyNumber(r1) != CopyKeyNumber(numVariants, r2, darwin))
            <==> numVariants <= 5
  {
    if numVariants > 5 {
      var r1 := 10 - numVariants;
      assert PlayKeyNumber(r1) == CopyKeyNumber(numVariants, 0, darwin);
    }
  }
}
