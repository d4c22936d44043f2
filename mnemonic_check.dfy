/**
  The recovery-phrase check shown after a new wallet's mnemonic: the mnemonic's words,
  sorted, are offered as badges; the user taps them in order to rebuild the phrase.
  The selection is a sequence of word indices driven by three handlers (select,
  deselect, clear); the phrase is complete when as many indices as words are
  selected, and valid when the selected words joined by single spaces are the mnemonic.
*/
module MnemonicCheck {
  import opened Wrappers

  // ---------------------------------------------------------------------------
  // JavaScript's `split(' ')` and `join(' ')`

  /** `s.split(' ')`: the pieces between single spaces; the empty string splits into one empty piece. */
  function Split(s: string): (r: seq<string>)
    ensures |r| >= 1
    ensures forall k :: 0 <= k < |r| ==> ' ' !in r[k]
    decreases |s|
  {
    if s == [] then [""]
    else
      var rest := Split(s[1..]);
      if s[0] == ' ' then [""] + rest
      else [[s[0]] + rest[0]] + rest[1..]
  }

  /** `ws.join(' ')`. */
  function Join(ws: seq<string>): string
    decreases |ws|
  {
    if ws == [] then ""
    else if |ws| == 1 then ws[0]
    else ws[0] + " " + Join(ws[1..])
  }

  /** No piece holds a space. */
  predicate SpaceFree(ws: seq<string>) {
    forall k :: 0 <= k < |ws| ==> ' ' !in ws[k]
  }

  /** Joining the pieces of a split gives the string back. */
  lemma {:induction false} JoinSplit(s: string)
    ensures Join(Split(s)) == s
    decreases |s|
  {
    if s != [] {
      var rest := Split(s[1..]);
      JoinSplit(s[1..]);
      if s[0] == ' ' {
        assert Split(s) == [""] + rest;
        assert (["" ] + rest)[1..] == rest;
        assert Join(Split(s)) == "" + " " + Join(rest);
        assert s == [' '] + s[1..];
      } else if |rest| == 1 {
        assert Split(s) == [[s[0]] + rest[0]];
        assert s == [s[0]] + s[1..];
      } else {
        var head := [s[0]] + rest[0];
        assert Split(s) == [head] + rest[1..];
        assert ([head] + rest[1..])[1..] == rest[1..];
        assert Join(Split(s)) == head + " " + Join(rest[1..]);
        assert Join(rest) == rest[0] + " " + Join(rest[1..]);
        assert s == [s[0]] + s[1..];
      }
    }
  }

  /** Splitting a string that starts with a space-free word glues that word to the first piece of the rest. */
  lemma {:induction false} SplitSpaceFreePrefix(w: string, t: string)
    requires ' ' !in w
    ensures Split(w + t) == [w + Split(t)[0]] + Split(t)[1..]
    decreases |w|
  {
    if w == [] {
      assert w + t == t;
      assert w + Split(t)[0] == Split(t)[0];
      assert Split(t) == [Split(t)[0]] + Split(t)[1..];
    } else {
      assert (w + t)[1..] == w[1..] + t;
      assert (w + t)[0] == w[0];
      SplitSpaceFreePrefix(w[1..], t);
      assert [w[0]] + (w[1..] + Split(t)[0]) == w + Split(t)[0];
    }
  }

  /** Splitting the join of space-free words (at least one) gives the words back. */
  lemma {:induction false} SplitJoin(ws: seq<string>)
    requires |ws| >= 1 && SpaceFree(ws)
    ensures Split(Join(ws)) == ws
    decreases |ws|
  {
    if |ws| == 1 {
      SplitSpaceFreePrefix(ws[0], "");
      assert ws[0] + "" == ws[0];
    } else {
      var tail := Join(ws[1..]);
      SplitJoin(ws[1..]);
      assert Join(ws) == ws[0] + (" " + tail);
      SplitSpaceFreePrefix(ws[0], " " + tail);
      assert (" " + tail)[1..] == tail;
      assert Split(" " + tail) == [""] + ws[1..];
      assert ws[0] + "" == ws[0];
      assert ws == [ws[0]] + ws[1..];
    }
  }

  // ---------------------------------------------------------------------------
  // JavaScript's default `sort()`: lexicographic order of the characters

  /** `a` sorts before or equal to `b`: `a` is a prefix of `b`, or smaller at the first difference. */
  predicate LexLe(a: string, b: string)
    decreases |a|
  {
    a == [] || (b != [] && (a[0] < b[0] || (a[0] == b[0] && LexLe(a[1..], b[1..]))))
  }

  lemma {:induction false} LexLeTotal(a: string, b: string)
    ensures LexLe(a, b) || LexLe(b, a)
    decreases |a|
  {
    if a != [] && b != [] && a[0] == b[0] {
      LexLeTotal(a[1..], b[1..]);
    }
  }

  lemma {:induction false} LexLeAntisymmetric(a: string, b: string)
    requires LexLe(a, b) && LexLe(b, a)
    ensures a == b
    decreases |a|
  {
    if a != [] {
      LexLeAntisymmetric(a[1..], b[1..]);
      assert a == [a[0]] + a[1..] && b == [b[0]] + b[1..];
    }
  }

  lemma {:induction false} LexLeTransitive(a: string, b: string, c: string)
    requires LexLe(a, b) && LexLe(b, c)
    ensures LexLe(a, c)
    decreases |a|
  {
    if a != [] && a[0] == b[0] && b[0] == c[0] {
      LexLeTransitive(a[1..], b[1..], c[1..]);
    }
  }

  /** The words are in ascending order. */
  predicate Sorted(ws: seq<string>) {
    forall i, j :: 0 <= i < j < |ws| ==> LexLe(ws[i], ws[j])
  }

  /** Inserts `x` before the first word it sorts before or equal to. */
  function Insert(x: string, ws: seq<string>): seq<string>
    decreases |ws|
  {
    if ws == [] then [x]
    else if LexLe(x, ws[0]) then [x] + ws
    else [ws[0]] + Insert(x, ws[1..])
  }

  lemma {:induction false} InsertPermutes(x: string, ws: seq<string>)
    ensures multiset(Insert(x, ws)) == multiset(ws) + multiset{x}
    decreases |ws|
  {
    if ws != [] && !LexLe(x, ws[0]) {
      InsertPermutes(x, ws[1..]);
      assert ws == [ws[0]] + ws[1..];
    }
  }

  /** Inserting adds `x` and nothing but the words already there. */
  lemma {:induction false} InsertMembers(x: string, ws: seq<string>)
    ensures forall y :: y in Insert(x, ws) ==> y == x || y in ws
    decreases |ws|
  {
    if ws != [] && !LexLe(x, ws[0]) {
      InsertMembers(x, ws[1..]);
    }
  }

  lemma SortedTail(ws: seq<string>)
    requires Sorted(ws) && ws != []
    ensures Sorted(ws[1..])
  {
    var tail := ws[1..];
    forall i, j | 0 <= i < j < |tail| ensures LexLe(tail[i], tail[j]) {
      assert tail[i] == ws[i + 1] && tail[j] == ws[j + 1];
    }
  }

  /** A word that sorts before or equal to every word of a sorted list can go in front of it. */
  lemma SortedCons(h: string, ws: seq<string>)
    requires Sorted(ws) && forall y :: y in ws ==> LexLe(h, y)
    ensures Sorted([h] + ws)
  {
    var r := [h] + ws;
    forall i, j | 0 <= i < j < |r| ensures LexLe(r[i], r[j]) {
      if i == 0 {
        assert r[j] == ws[j - 1];
      } else {
        assert r[i] == ws[i - 1] && r[j] == ws[j - 1];
      }
    }
  }

  lemma {:induction false} InsertSorted(x: string, ws: seq<string>)
    requires Sorted(ws)
    ensures Sorted(Insert(x, ws))
    decreases |ws|
  {
    if ws == [] {
    } else if LexLe(x, ws[0]) {
      forall y | y in ws ensures LexLe(x, y) {
        var k :| 0 <= k < |ws| && ws[k] == y;
        if k > 0 {
          LexLeTransitive(x, ws[0], y);
        }
      }
      SortedCons(x, ws);
    } else {
      LexLeTotal(x, ws[0]);
      SortedTail(ws);
      InsertSorted(x, ws[1..]);
      InsertMembers(x, ws[1..]);
      var rest := Insert(x, ws[1..]);
      forall y | y in rest ensures LexLe(ws[0], y) {
        if y != x {
          var k :| 0 <= k < |ws| - 1 && ws[1..][k] == y;
          assert ws[k + 1] == y;
        }
      }
      SortedCons(ws[0], rest);
    }
  }

  /** The words in ascending order (the model of the engine's sort, an insertion sort). */
  function SortWords(ws: seq<string>): (r: seq<string>)
    ensures Sorted(r)
    ensures multiset(r) == multiset(ws)
    decreases |ws|
  {
    if ws == [] then []
    else
      var sorted := SortWords(ws[1..]);
      InsertSorted(ws[0], sorted);
      InsertPermutes(ws[0], sorted);
      MultisetTail(ws);
      Insert(ws[0], sorted)
  }

  lemma {:induction false} LexLeReflexive(a: string)
    ensures LexLe(a, a)
    decreases |a|
  {
    if a != [] {
      LexLeReflexive(a[1..]);
    }
  }

  /** The first word of a sorted list sorts before or equal to every word of the list. */
  lemma SortedHeadLeast(ws: seq<string>, x: string)
    requires Sorted(ws) && x in multiset(ws)
    ensures LexLe(ws[0], x)
  {
    var i :| 0 <= i < |ws| && ws[i] == x;
    if i == 0 {
      LexLeReflexive(x);
    }
  }

  lemma MultisetTail<T>(s: seq<T>)
    requires s != []
    ensures multiset(s[1..]) == multiset(s) - multiset{s[0]}
  {
    assert s == [s[0]] + s[1..];
  }

  /** Two sorted arrangements of the same words start with the same word. */
  lemma SortedSameHead(a: seq<string>, b: seq<string>)
    requires Sorted(a) && Sorted(b) && multiset(a) == multiset(b) && a != []
    ensures b != [] && a[0] == b[0]
  {
    assert a[0] in multiset(a);
    assert b != [];
    assert b[0] in multiset(b);
    SortedHeadLeast(a, b[0]);
    SortedHeadLeast(b, a[0]);
    LexLeAntisymmetric(a[0], b[0]);
  }

  /**
    Any two sorted arrangements of the same words are equal, so the badges' order does
    not depend on the sort algorithm the engine uses.
  */
  lemma {:induction false} SortedPermutationUnique(a: seq<string>, b: seq<string>)
    requires Sorted(a) && Sorted(b) && multiset(a) == multiset(b)
    ensures a == b
    decreases |a|
  {
    if a == [] {
      assert |multiset(b)| == 0;
    } else {
      SortedSameHead(a, b);
      MultisetTail(a);
      MultisetTail(b);
      SortedTail(a);
      SortedTail(b);
      SortedPermutationUnique(a[1..], b[1..]);
      assert a == [a[0]] + a[1..] && b == [b[0]] + b[1..];
    }
  }

  // ---------------------------------------------------------------------------
  // The screen's state

  /** The badges: the mnemonic split on single spaces, then sorted. */
  function Words(mnemonic: string): seq<string> {
    SortWords(Split(mnemonic))
  }

  /** The badges are exactly the mnemonic's words in ascending order, none containing a space. */
  lemma WordsAreSortedMnemonicWords(mnemonic: string)
    ensures Sorted(Words(mnemonic)) && multiset(Words(mnemonic)) == multiset(Split(mnemonic))
    ensures SpaceFree(Words(mnemonic))
    ensures forall ws :: Sorted(ws) && multiset(ws) == multiset(Split(mnemonic)) ==> ws == Words(mnemonic)
  {
    var words := Words(mnemonic);
    forall k | 0 <= k < |words| ensures ' ' !in words[k] {
      assert words[k] in multiset(Split(mnemonic));
    }
    forall ws | Sorted(ws) && multiset(ws) == multiset(Split(mnemonic)) ensures ws == words {
      SortedPermutationUnique(ws, words);
    }
  }

  /** The word of index `i`; an index outside the list renders as the empty string in a join. */
  function WordAt(words: seq<string>, i: nat): string {
    if i < |words| then words[i] else ""
  }

  /** The selected words in selection order. */
  function SelectedWords(words: seq<string>, phrase: seq<nat>): (r: seq<string>)
    ensures |r| == |phrase| && forall k :: 0 <= k < |phrase| ==> r[k] == WordAt(words, phrase[k])
  {
    seq(|phrase|, k requires 0 <= k < |phrase| => WordAt(words, phrase[k]))
  }

  /** `validatePhrase`: the selected words joined by single spaces are the mnemonic. */
  function ValidatePhrase(mnemonic: string, words: seq<string>, phrase: seq<nat>): bool {
    Join(SelectedWords(words, phrase)) == mnemonic
  }

  /** A nonempty selection is valid exactly when it spells the mnemonic's words in order. */
  lemma ValidIffSpellsMnemonic(mnemonic: string, words: seq<string>, phrase: seq<nat>)
    requires SpaceFree(words)
    ensures phrase == [] ==> (ValidatePhrase(mnemonic, words, phrase) <==> mnemonic == "")
    ensures phrase != [] ==> (ValidatePhrase(mnemonic, words, phrase) <==> SelectedWords(words, phrase) == Split(mnemonic))
  {
    var sel := SelectedWords(words, phrase);
    if phrase != [] {
      assert SpaceFree(sel);
      if ValidatePhrase(mnemonic, words, phrase) {
        SplitJoin(sel);
      }
      if sel == Split(mnemonic) {
        JoinSplit(mnemonic);
      }
    }
  }

  /** `isPhraseComplete`: as many indices selected as there are words. */
  predicate IsPhraseComplete(words: seq<string>, phrase: seq<nat>) {
    |phrase| == |words|
  }

  /** The confirm button is enabled: neither incomplete nor invalid. */
  predicate IsConfirmEnabled(mnemonic: string, words: seq<string>, phrase: seq<nat>) {
    !(!IsPhraseComplete(words, phrase) || !ValidatePhrase(mnemonic, words, phrase))
  }

  /** The phrase box is styled as an error: invalid and complete. */
  predicate IsPhraseBoxError(mnemonic: string, words: seq<string>, phrase: seq<nat>) {
    !ValidatePhrase(mnemonic, words, phrase) && IsPhraseComplete(words, phrase)
  }

  /** The error message is shown: not (valid or incomplete). */
  predicate IsErrorMessageShown(mnemonic: string, words: seq<string>, phrase: seq<nat>) {
    !(ValidatePhrase(mnemonic, words, phrase) || !IsPhraseComplete(words, phrase))
  }

  /**
    The three rules agree: confirm is enabled exactly when the phrase is complete and
    valid, and the error box and the error message appear together, exactly when the
    phrase is complete and not valid; so a complete phrase shows one or the other.
  */
  lemma ScreenRules(mnemonic: string, words: seq<string>, phrase: seq<nat>)
    ensures IsConfirmEnabled(mnemonic, words, phrase) <==> IsPhraseComplete(words, phrase) && ValidatePhrase(mnemonic, words, phrase)
    ensures IsPhraseBoxError(mnemonic, words, phrase) <==> IsErrorMessageShown(mnemonic, words, phrase)
    ensures IsErrorMessageShown(mnemonic, words, phrase) <==> IsPhraseComplete(words, phrase) && !ValidatePhrase(mnemonic, words, phrase)
    ensures IsPhraseComplete(words, phrase) ==> (IsConfirmEnabled(mnemonic, words, phrase) != IsErrorMessageShown(mnemonic, words, phrase))
  {
  }

  /** A word badge is shown as selected (and is disabled) exactly when its index is selected. */
  predicate IsBadgeSelected(phrase: seq<nat>, index: nat) {
    index in phrase
  }

  // ---------------------------------------------------------------------------
  // The state handlers

  /** `selectWord`: appends the index. */
  function SelectWord(phrase: seq<nat>, index: nat): (r: seq<nat>)
    ensures |r| == |phrase| + 1 && r[..|phrase|] == phrase && r[|phrase|] == index
  {
    phrase + [index]
  }

  /** `deselectWord`: drops every occurrence of the index, keeping the others in order (JavaScript's `filter`). */
  function DeselectWord(phrase: seq<nat>, index: nat): (r: seq<nat>)
    ensures index !in r
    decreases |phrase|
  {
    if phrase == [] then []
    else (if phrase[0] == index then [] else [phrase[0]]) + DeselectWord(phrase[1..], index)
  }

  /** Deselecting removes every occurrence of the index and keeps every other index as often as it was selected. */
  lemma {:induction false} DeselectCounts(phrase: seq<nat>, index: nat)
    ensures forall x :: x != index ==> multiset(DeselectWord(phrase, index))[x] == multiset(phrase)[x]
    ensures |DeselectWord(phrase, index)| == |phrase| - multiset(phrase)[index]
    decreases |phrase|
  {
    if phrase != [] {
      DeselectCounts(phrase[1..], index);
      assert phrase == [phrase[0]] + phrase[1..];
    }
  }

  /** `handleClear`: the empty selection. */
  function HandleClear(phrase: seq<nat>): (r: seq<nat>)
    ensures r == []
  {
    []
  }

  /** Deselecting works piecewise, so the kept indices stay in their relative order. */
  lemma {:induction false} DeselectConcat(p: seq<nat>, q: seq<nat>, index: nat)
    ensures DeselectWord(p + q, index) == DeselectWord(p, index) + DeselectWord(q, index)
    decreases |p|
  {
    if p == [] {
      assert p + q == q;
    } else {
      assert (p + q)[0] == p[0];
      assert (p + q)[1..] == p[1..] + q;
      DeselectConcat(p[1..], q, index);
    }
  }

  /** Deselecting an index that is not selected changes nothing. */
  lemma {:induction false} DeselectAbsent(p: seq<nat>, index: nat)
    requires index !in p
    ensures DeselectWord(p, index) == p
    decreases |p|
  {
    if p != [] {
      DeselectAbsent(p[1..], index);
      assert p == [p[0]] + p[1..];
    }
  }

  /** Deselecting a freshly selected index undoes the selection. */
  lemma DeselectUndoesSelect(p: seq<nat>, index: nat)
    requires index !in p
    ensures DeselectWord(SelectWord(p, index), index) == p
  {
    DeselectConcat(p, [index], index);
    DeselectAbsent(p, index);
    assert DeselectWord([index], index) == [] + DeselectWord([], index);
  }

  /** Without repeated indices, deselecting the last selected word drops exactly the last entry. */
  lemma DeselectLast(p: seq<nat>)
    requires p != [] && Distinct(p)
    ensures DeselectWord(p, p[|p| - 1]) == p[..|p| - 1]
  {
    var last := p[|p| - 1];
    var init := p[..|p| - 1];
    assert p == init + [last];
    forall k | 0 <= k < |init| ensures init[k] != last {
      assert init[k] == p[k];
    }
    DeselectUndoesSelect(init, last);
  }

  /** No index is selected twice. */
  predicate Distinct(p: seq<nat>) {
    forall i, j :: 0 <= i < j < |p| ==> p[i] != p[j]
  }

  // ---------------------------------------------------------------------------
  // What the user can do

  /** A tap: a word badge (select), the last selected badge (deselect), or the clear button. */
  datatype Action = Select(index: nat) | Deselect(index: nat) | Clear

  /** Whether the screen offers the action: unselected badges of existing words, and only the last selected word. */
  predicate Offered(words: seq<string>, phrase: seq<nat>, a: Action) {
    match a
    case Select(i) => i < |words| && !IsBadgeSelected(phrase, i)
    case Deselect(i) => phrase != [] && i == phrase[|phrase| - 1]
    case Clear => true
  }

  /** The handler the action triggers. */
  function Step(phrase: seq<nat>, a: Action): seq<nat> {
    match a
    case Select(i) => SelectWord(phrase, i)
    case Deselect(i) => DeselectWord(phrase, i)
    case Clear => HandleClear(phrase)
  }

  /** The selection after a run of taps from the empty selection, or `None` if some tap was not offered. */
  function Reach(words: seq<string>, actions: seq<Action>): Option<seq<nat>>
    decreases |actions|
  {
    if actions == [] then Some([])
    else
      match Reach(words, actions[..|actions| - 1])
      case None => None
      case Some(p) =>
        var a := actions[|actions| - 1];
        if Offered(words, p, a) then Some(Step(p, a)) else None
  }

  /** A selection the screen can hold: distinct indices of existing words. */
  predicate WellFormed(words: seq<string>, phrase: seq<nat>) {
    Distinct(phrase) && forall k :: 0 <= k < |phrase| ==> phrase[k] < |words|
  }

  /** Every offered tap keeps the selection well formed. */
  lemma StepKeepsWellFormed(words: seq<string>, phrase: seq<nat>, a: Action)
    requires WellFormed(words, phrase) && Offered(words, phrase, a)
    ensures WellFormed(words, Step(phrase, a))
  {
    match a
    case Select(i) =>
      var r := SelectWord(phrase, i);
      forall x, y | 0 <= x < y < |r| ensures r[x] != r[y] {
        if y == |phrase| { assert r[x] == phrase[x]; }
      }
    case Deselect(i) =>
      DeselectLast(phrase);
    case Clear =>
  }

  /** The indices of a well-formed selection are distinct and below the word count, so they are at most that many. */
  lemma {:induction false} WellFormedBounded(words: seq<string>, phrase: seq<nat>)
    requires WellFormed(words, phrase)
    ensures |phrase| <= |words|
    ensures |phrase| == |words| ==> forall i :: 0 <= i < |words| ==> i in phrase
  {
    var s := set k | 0 <= k < |phrase| :: phrase[k];
    var all := set i | 0 <= i < |words| && Below(i, |words|);
    DistinctCard(phrase);
    RangeCard(|words|);
    assert s <= all;
    assert all * s == s;
    assert |all - s| + |s| == |all|;
    if |phrase| == |words| {
      assert all - s == {};
      forall i | 0 <= i < |words| ensures i in phrase {
        assert i in all;
        assert i !in all - s;
        var k :| 0 <= k < |phrase| && phrase[k] == i;
      }
    }
  }

  lemma {:induction false} DistinctCard(p: seq<nat>)
    requires Distinct(p)
    ensures |set k | 0 <= k < |p| :: p[k]| == |p|
    decreases |p|
  {
    if p != [] {
      var init := p[..|p| - 1];
      assert Distinct(init);
      DistinctCard(init);
      var s := set k | 0 <= k < |p| :: p[k];
      var t := set k | 0 <= k < |init| :: init[k];
      assert s == t + {p[|p| - 1]} by {
        forall x | x in s ensures x in t + {p[|p| - 1]} {
          var k :| 0 <= k < |p| && p[k] == x;
          if k < |p| - 1 { assert init[k] == x; }
        }
      }
      assert p[|p| - 1] !in t;
    }
  }

  /** `i` is an index of a list of length `n`. */
  predicate Below(i: int, n: nat) {
    0 <= i < n
  }

  lemma {:induction false} RangeCard(n: nat)
    ensures |set i | 0 <= i < n && Below(i, n)| == n
    decreases n
  {
    if n > 0 {
      var m := n - 1;
      RangeCard(m);
      var smaller := set i | 0 <= i < m && Below(i, m);
      assert (set i | 0 <= i < n && Below(i, n)) == smaller + {m};
    }
  }

  /**
    Whatever the user taps, the selection holds distinct indices of existing words and
    never more indices than words; once complete, every word is selected.
  */
  lemma {:induction false} ReachableWellFormed(words: seq<string>, actions: seq<Action>)
    requires Reach(words, actions).Some?
    ensures WellFormed(words, Reach(words, actions).value)
    ensures |Reach(words, actions).value| <= |words|
    ensures IsPhraseComplete(words, Reach(words, actions).value) ==>
      forall i :: 0 <= i < |words| ==> IsBadgeSelected(Reach(words, actions).value, i)
    decreases |actions|
  {
    if actions != [] {
      var prefix := actions[..|actions| - 1];
      ReachableWellFormed(words, prefix);
      StepKeepsWellFormed(words, Reach(words, prefix).value, actions[|actions| - 1]);
    }
    WellFormedBounded(words, Reach(words, actions).value);
  }

  /** The taps that select the indices of `p` one after the other. */
  function SelectAll(p: seq<nat>): (r: seq<Action>)
    ensures |r| == |p| && forall k :: 0 <= k < |p| ==> r[k] == Select(p[k])
  {
    seq(|p|, k requires 0 <= k < |p| => Select(p[k]))
  }

  /** Any well-formed selection is reached by tapping its words in order. */
  lemma {:induction false} SelectingReaches(words: seq<string>, p: seq<nat>)
    requires WellFormed(words, p)
    ensures Reach(words, SelectAll(p)) == Some(p)
    decreases |p|
  {
    if p != [] {
      var init := p[..|p| - 1];
      assert WellFormed(words, init);
      SelectingReaches(words, init);
      assert SelectAll(p)[..|p| - 1] == SelectAll(init);
      assert p[|p| - 1] !in init;
      assert init + [p[|p| - 1]] == p;
    }
  }

  /** The indices `q` into `b` with position `j` removed, shifted back to indices into `b`. */
  function Lift(q: seq<nat>, j: nat): (r: seq<nat>)
    ensures |r| == |q|
    ensures forall k :: 0 <= k < |q| ==> r[k] == if q[k] < j then q[k] else q[k] + 1
  {
    seq(|q|, k requires 0 <= k < |q| => if q[k] < j then q[k] else q[k] + 1)
  }

  lemma RemoveAtMultiset<T>(b: seq<T>, j: nat)
    requires j < |b|
    ensures multiset(b[..j] + b[j + 1..]) == multiset(b) - multiset{b[j]}
  {
    assert b == b[..j] + [b[j]] + b[j + 1..];
  }

  /** Lifting a well-formed selection of the shortened list and appending `j` gives a well-formed selection of `b`. */
  lemma LiftWellFormed(b: seq<string>, j: nat, q: seq<nat>)
    requires j < |b| && WellFormed(b[..j] + b[j + 1..], q)
    ensures WellFormed(b, Lift(q, j) + [j])
    ensures forall k :: 0 <= k < |q| ==> b[Lift(q, j)[k]] == (b[..j] + b[j + 1..])[q[k]]
  {
    var rest := b[..j] + b[j + 1..];
    var p := Lift(q, j) + [j];
    forall u, v | 0 <= u < v < |p| ensures p[u] != p[v] {
      if v < |q| {
        assert q[u] != q[v];
      }
    }
    forall k | 0 <= k < |q| ensures b[Lift(q, j)[k]] == rest[q[k]] {
      if q[k] < j {
        assert rest[q[k]] == b[q[k]];
      } else {
        assert rest[q[k]] == b[q[k] + 1];
      }
    }
  }

  /** The step of `PermutationIndices`: indices for all of `a` but its last word, lifted, then `j`. */
  lemma PermutationStep(a: seq<string>, b: seq<string>, j: nat, q: seq<nat>) returns (p: seq<nat>)
    requires a != [] && j < |b| && b[j] == a[|a| - 1]
    requires |q| == |a| - 1 && WellFormed(b[..j] + b[j + 1..], q)
    requires forall k :: 0 <= k < |q| ==> (b[..j] + b[j + 1..])[q[k]] == a[k]
    ensures |p| == |a| && WellFormed(b, p)
    ensures forall k :: 0 <= k < |a| ==> b[p[k]] == a[k]
  {
    LiftWellFormed(b, j, q);
    p := Lift(q, j) + [j];
    forall k | 0 <= k < |a| ensures b[p[k]] == a[k] {
      if k < |q| {
        assert p[k] == Lift(q, j)[k];
      }
    }
  }

  /**
    Selection indices for `a` into `b` when `b` is a rearrangement of `a`: distinct
    positions of `b` holding `a`'s words in `a`'s order.
  */
  lemma {:induction false} PermutationIndices(a: seq<string>, b: seq<string>) returns (p: seq<nat>)
    requires multiset(a) == multiset(b)
    ensures |p| == |a| && WellFormed(b, p)
    ensures forall k :: 0 <= k < |a| ==> b[p[k]] == a[k]
    decreases |a|
  {
    if a == [] {
      p := [];
    } else {
      var j := MatchLast(a, b);
      var q := PermutationIndices(a[..|a| - 1], b[..j] + b[j + 1..]);
      p := PermutationStep(a, b, j, q);
    }
  }

  /** A position of `b` holding the last word of `a`; the rest of `b` then rearranges the rest of `a`. */
  lemma MatchLast(a: seq<string>, b: seq<string>) returns (j: nat)
    requires multiset(a) == multiset(b) && a != []
    ensures j < |b| && b[j] == a[|a| - 1]
    ensures multiset(a[..|a| - 1]) == multiset(b[..j] + b[j + 1..])
  {
    assert a[|a| - 1] in multiset(a);
    j :| 0 <= j < |b| && b[j] == a[|a| - 1];
    RemoveAtMultiset(b, j);
    RemoveAtMultiset(a, |a| - 1);
    assert a[..|a| - 1] + a[|a|..] == a[..|a| - 1];
  }

  /** A complete, valid selection of the badges `words` when they rearrange the mnemonic's words. */
  lemma CorrectSelection(mnemonic: string, words: seq<string>) returns (p: seq<nat>)
    requires multiset(words) == multiset(Split(mnemonic))
    ensures WellFormed(words, p) && IsPhraseComplete(words, p) && ValidatePhrase(mnemonic, words, p)
  {
    var parts := Split(mnemonic);
    p := PermutationIndices(parts, words);
    assert |multiset(words)| == |words| && |multiset(parts)| == |parts|;
    var sel := SelectedWords(words, p);
    forall k | 0 <= k < |parts| ensures sel[k] == parts[k] {
      assert WordAt(words, p[k]) == words[p[k]];
    }
    assert sel == parts;
    JoinSplit(mnemonic);
  }

  /**
    The check can always be passed: some well-formed selection, reachable by tapping
    badges, is complete and valid, so the confirm button can be enabled.
  */
  lemma CorrectSelectionExists(mnemonic: string)
    ensures exists p ::
      && WellFormed(Words(mnemonic), p)
      && Reach(Words(mnemonic), SelectAll(p)) == Some(p)
      && IsConfirmEnabled(mnemonic, Words(mnemonic), p)
  {
    var words := Words(mnemonic);
    var p := CorrectSelection(mnemonic, words);
    SelectingReaches(words, p);
    assert IsConfirmEnabled(mnemonic, words, p);
  }
}
