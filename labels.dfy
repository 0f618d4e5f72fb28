/** Labels: a role attached to a set of word indices of one text, with the
    text and character range recorded when the label is saved, and the rules
    that keep one text's labels from sharing a word. */
module Labels {
  import opened Strings
  import opened Optional
  import opened Selection
  import opened Tokens

  /** The fixed role enumeration offered by the role selector. */
  datatype Role = ASPECT | OPINION | HOLDER | TARGET | NEGATION | TIME | MODALITY | EMOTION

  /** A label; `start` and `end` are optional in the page's type. */
  datatype Label = Label(wordIndices: seq<int>, text: string, role: Role, start: Option<int>, end: Option<int>)

  /** The label the save handler builds from the sorted selection over the
      current text's words. */
  function NewLabel(words: seq<string>, sorted: seq<int>, role: Role): Label {
    var r := CharRange(words, sorted);
    Label(sorted, SelectedText(words, sorted), role, Some(r.start), Some(r.end))
  }

  predicate Disjoint(a: seq<int>, b: seq<int>) {
    forall i :: i in a ==> i !in b
  }

  /** `labels.some((l) => l.wordIndices.some((i) => sorted.includes(i)))`. */
  predicate Overlaps(ls: seq<Label>, idxs: seq<int>) {
    exists k :: 0 <= k < |ls| && !Disjoint(ls[k].wordIndices, idxs)
  }

  /** A label as the save handler leaves it on `text`: non-empty ascending
      duplicate-free indices, and the text and range derived from them. */
  ghost predicate IsSaved(text: string, l: Label) {
    |l.wordIndices| > 0 && StrictlyIncreasing(l.wordIndices) &&
    l == NewLabel(Words(text), l.wordIndices, l.role)
  }

  /** The invariant of one text's label list: every label is a saved one and
      no two labels share a word index. */
  ghost predicate WellFormed(text: string, ls: seq<Label>) {
    AllSaved(text, ls) && PairwiseDisjoint(ls)
  }

  /** `arr.filter((_, idx) => idx !== k)`: deletes exactly the `k`-th label
      and keeps the others in order; an out-of-range `k` changes nothing. */
  function RemoveAt(ls: seq<Label>, k: int): (r: seq<Label>)
    ensures 0 <= k < |ls| ==> |r| == |ls| - 1
    ensures 0 <= k < |ls| ==> forall j :: 0 <= j < |r| ==> r[j] == (if j < k then ls[j] else ls[j + 1])
    ensures !(0 <= k < |ls|) ==> r == ls
  {
    if 0 <= k < |ls| then ls[..k] + ls[k + 1..] else ls
  }

  /** Appending a freshly saved label that overlaps none of the existing ones
      keeps the list well formed. */
  lemma AppendKeepsWellFormed(text: string, ls: seq<Label>, sel: seq<int>, role: Role)
    requires WellFormed(text, ls)
    requires |sel| > 0 && StrictlyIncreasing(sel)
    requires !Overlaps(ls, sel)
    ensures WellFormed(text, ls + [NewLabel(Words(text), sel, role)])
  {
    var l := NewLabel(Words(text), sel, role);
    var ls' := ls + [l];
    forall a, b | 0 <= a < b < |ls'|
      ensures Disjoint(ls'[a].wordIndices, ls'[b].wordIndices)
    {
      if b == |ls| {
        assert Disjoint(ls[a].wordIndices, sel);
      }
    }
  }

  /** Every label of the list is a saved one. */
  ghost predicate AllSaved(text: string, ls: seq<Label>) {
    forall k :: 0 <= k < |ls| ==> IsSaved(text, ls[k])
  }

  /** No two labels of the list share a word index. */
  predicate PairwiseDisjoint(ls: seq<Label>) {
    forall a, b :: 0 <= a < b < |ls| ==> Disjoint(ls[a].wordIndices, ls[b].wordIndices)
  }

  lemma RemoveKeepsSaved(text: string, ls: seq<Label>, k: int)
    requires AllSaved(text, ls)
    ensures AllSaved(text, RemoveAt(ls, k))
  {
    var r := RemoveAt(ls, k);
    if 0 <= k < |ls| {
      forall j | 0 <= j < |r|
        ensures IsSaved(text, r[j])
      {
        var j' := if j < k then j else j + 1;
        assert r[j] == ls[j'];
      }
    }
  }

  lemma RemoveKeepsDisjoint(ls: seq<Label>, k: int)
    requires PairwiseDisjoint(ls)
    ensures PairwiseDisjoint(RemoveAt(ls, k))
  {
    var r := RemoveAt(ls, k);
    if 0 <= k < |ls| {
      forall a, b | 0 <= a < b < |r|
        ensures Disjoint(r[a].wordIndices, r[b].wordIndices)
      {
        var a', b' := if a < k then a else a + 1, if b < k then b else b + 1;
        assert r[a] == ls[a'] && r[b] == ls[b'];
      }
    }
  }

  /** Removing a label keeps the list well formed. */
  lemma RemoveKeepsWellFormed(text: string, ls: seq<Label>, k: int)
    requires WellFormed(text, ls)
    ensures WellFormed(text, RemoveAt(ls, k))
  {
    RemoveKeepsSaved(text, ls, k);
    RemoveKeepsDisjoint(ls, k);
  }

  /** `lists.map((arr, i) => i === c ? ls : arr)`: list `c` replaced, the
      others kept. */
  function ReplaceAt(lists: seq<seq<Label>>, c: int, ls: seq<Label>): (r: seq<seq<Label>>)
    ensures |r| == |lists|
    ensures forall i :: 0 <= i < |r| && i != c ==> r[i] == lists[i]
    ensures 0 <= c < |r| ==> r[c] == ls
  {
    if 0 <= c < |lists| then lists[c := ls] else lists
  }

  /** Every text's label list is well formed. */
  ghost predicate AllWellFormed(texts: seq<string>, lists: seq<seq<Label>>) {
    |lists| == |texts| && forall i :: 0 <= i < |texts| ==> WellFormed(texts[i], lists[i])
  }

  /** Replacing one list by a well-formed one keeps every list well formed. */
  lemma ReplaceKeepsWellFormed(texts: seq<string>, lists: seq<seq<Label>>, c: int, ls: seq<Label>)
    requires AllWellFormed(texts, lists)
    requires 0 <= c < |texts| ==> WellFormed(texts[c], ls)
    ensures AllWellFormed(texts, ReplaceAt(lists, c, ls))
  {
  }

  /** A text whose words are separated by exactly one space, the layout the
      offset arithmetic assumes. */
  predicate SingleSpaced(text: string) {
    JoinWith(Words(text), ' ') == text
  }

  /** On a single-spaced text, a saved label over consecutive words records a
      range that cuts exactly the label's text out of the text. */
  lemma SavedSpanMatchesText(text: string, l: Label)
    requires IsSaved(text, l) && SingleSpaced(text)
    requires Contiguous(l.wordIndices, |Words(text)|)
    ensures 0 <= l.start.value < l.end.value <= |text|
    ensures text[l.start.value..l.end.value] == l.text
  {
    var words := Words(text);
    SpanRoundTrip(words, l.wordIndices);
    CharRangeBounds(words, l.wordIndices);
    assert l.wordIndices[0] in l.wordIndices;
  }

  /** The offsets count one character per gap, so two spaces before the
      selected word shift the range: on `a  b`, the label on `b` records
      [2, 3), which holds the second space. */
  lemma DoubleSpaceShiftsRange()
    ensures var l := NewLabel(Words("a  b"), [1], OPINION);
      l.text == "b" && l.start == Some(2) && l.end == Some(3) && "a  b"[2..3] == " "
  {
    DoubleSpaceWords();
    SecondWordLabel();
    assert "a  b"[2..3] == [' '];
  }

  lemma SecondWordLabel()
    ensures NewLabel(["a", "b"], [1], OPINION) == Label([1], "b", OPINION, Some(2), Some(3))
  {
    var words := ["a", "b"];
    assert Offset(words, 1) == 2;
    assert Hits(1, [1]) == [];
    assert Hits(2, [1]) == [1];
    assert CharRange(words, [1]) == Range(2, 3);
    assert Pick(words, [1]) == ["b"];
  }

  lemma DoubleSpaceWords()
    ensures Words("a  b") == ["a", "b"]
  {
    assert NoSpace("a") && NoSpace("b");
    TwoWordsTwoSpaces("a", "b", ' ', ' ');
    assert "a" + [' ', ' '] + "b" == "a  b";
  }

  /** Two words separated by two white-space characters. */
  lemma TwoWordsTwoSpaces(w1: string, w2: string, c1: char, c2: char)
    requires |w1| > 0 && NoSpace(w1) && |w2| > 0 && NoSpace(w2)
    requires IsSpace(c1) && IsSpace(c2)
    ensures Words(w1 + [c1, c2] + w2) == [w1, w2]
  {
    var rest := [c2] + w2;
    assert AllSpace([c2]);
    WordsOfWord(w2);
    WordsSkipSpace([c2], w2);
    assert Words(rest) == [w2];
    WordsWordThenSpace(w1, c1, rest);
    var t := w1 + [c1, c2] + w2;
    assert t == w1 + [c1] + rest;
    assert Words(t) == [w1] + [w2];
  }
}
