/** The annotation session behind the labelling page: the texts, the cursor
    into them, one label list per text, the pending word selection and the
    pending role. Every handler of the page is one method. */
module Annotation {
  import opened Strings
  import opened Optional
  import opened Selection
  import opened Tokens
  import opened Labels
  import opened CsvImport

  /** The texts the session starts with. */
  const SampleTexts: seq<string> := [
    "Tôi rất thích diễn xuất của diễn viên chính trong bộ phim này, nhưng cốt truyện thì khá nhàm chán.",
    "Bộ phim này không thực sự hấp dẫn như tôi mong đợi.",
    "Âm nhạc trong phim làm tôi cảm thấy rất xúc động."
  ]

  /** Why a save did or did not add a label; the page shows none of this. */
  datatype SaveOutcome = Saved | RejectedEmptySelection | RejectedOverlap

  class Session {
    var texts: seq<string>
    var labels: seq<seq<Label>>
    var cur: int
    var selected: seq<int>
    var role: Role

    /** One label list per text; the cursor on a text when there is one (an
        empty session lets `Next` move it to -1); the selection ascending and
        duplicate-free; every list well formed. */
    ghost predicate Valid()
      reads this
    {
      (if |texts| > 0 then 0 <= cur < |texts| else -1 <= cur <= 0) &&
      StrictlyIncreasing(selected) &&
      AllWellFormed(texts, labels)
    }

    /** The words of the current text, none when the cursor is off the list. */
    function CurrentWords(): seq<string>
      reads this
    {
      if 0 <= cur < |texts| then Words(texts[cur]) else []
    }

    /** `labels[currentIdx] || []`. */
    function CurrentLabels(): seq<Label>
      reads this
    {
      if 0 <= cur < |labels| then labels[cur] else []
    }

    constructor ()
      ensures Valid()
      ensures texts == SampleTexts && labels == [[], [], []]
      ensures cur == 0 && selected == [] && role == ASPECT
    {
      texts := SampleTexts;
      labels := [[], [], []];
      cur := 0;
      selected := [];
      role := ASPECT;
    }

    /** `handleWordClick`: flips the word's membership in the selection. */
    method ToggleWord(idx: int)
      requires Valid()
      modifies this`selected
      ensures Valid()
      ensures selected == Toggle(old(selected), idx)
      ensures forall y :: y in selected <==> (if y == idx then idx !in old(selected) else y in old(selected))
    {
      ToggleSpec(selected, idx);
      selected := Toggle(selected, idx);
    }

    /** `setSelectedRole`. */
    method SetRole(r: Role)
      requires Valid()
      modifies this`role
      ensures Valid() && role == r
    {
      role := r;
    }

    /** `handleSaveLabel`: rejected without any change when nothing is
        selected or a selected word already belongs to a label of the current
        text; otherwise appends the new label to the current text's list only
        and clears the selection. */
    method SaveLabel() returns (outcome: SaveOutcome)
      requires Valid()
      modifies this`labels, this`selected
      ensures Valid()
      ensures outcome == RejectedEmptySelection <==> old(selected) == []
      ensures outcome == RejectedOverlap <==> old(selected) != [] && Overlaps(old(CurrentLabels()), old(selected))
      ensures outcome != Saved ==> labels == old(labels) && selected == old(selected)
      ensures outcome == Saved ==> selected == []
      ensures outcome == Saved ==> |labels| == |old(labels)|
      ensures outcome == Saved ==> forall i :: 0 <= i < |labels| && i != cur ==> labels[i] == old(labels[i])
      ensures outcome == Saved && 0 <= cur < |labels| ==>
        labels[cur] == old(labels[cur]) + [NewLabel(CurrentWords(), old(selected), role)]
    {
      if |selected| == 0 {
        outcome := RejectedEmptySelection;
      } else {
        var sorted := SortedCopy(selected);
        var words := CurrentWords();
        var text := SelectedText(words, sorted);
        if Overlaps(CurrentLabels(), sorted) {
          outcome := RejectedOverlap;
        } else {
          var start, end := GetWordCharRange(words, sorted);
          var newLabel := Label(sorted, text, role, Some(start), Some(end));
          assert newLabel == NewLabel(words, selected, role);
          if 0 <= cur < |labels| {
            AppendKeepsWellFormed(texts[cur], labels[cur], sorted, role);
          }
          ReplaceKeepsWellFormed(texts, labels, cur, CurrentLabels() + [newLabel]);
          labels := ReplaceAt(labels, cur, CurrentLabels() + [newLabel]);
          selected := [];
          outcome := Saved;
        }
      }
    }

    /** `handleRemoveLabel`: deletes the `labelIdx`-th label of the current text. */
    method RemoveLabel(labelIdx: int)
      requires Valid()
      modifies this`labels
      ensures Valid()
      ensures |labels| == |old(labels)|
      ensures forall i :: 0 <= i < |labels| && i != cur ==> labels[i] == old(labels[i])
      ensures 0 <= cur < |labels| ==> labels[cur] == RemoveAt(old(labels[cur]), labelIdx)
    {
      if 0 <= cur < |labels| {
        RemoveKeepsWellFormed(texts[cur], labels[cur], labelIdx);
      }
      ReplaceKeepsWellFormed(texts, labels, cur, RemoveAt(CurrentLabels(), labelIdx));
      labels := ReplaceAt(labels, cur, RemoveAt(CurrentLabels(), labelIdx));
    }

    /** `handleResetLabels`: empties the current text's list and the
        selection. The new state does not depend on the old list or
        selection, so a second call changes nothing. */
    method ResetLabels()
      requires Valid()
      modifies this`labels, this`selected
      ensures Valid()
      ensures selected == []
      ensures |labels| == |old(labels)|
      ensures forall i :: 0 <= i < |labels| && i != cur ==> labels[i] == old(labels[i])
      ensures 0 <= cur < |labels| ==> labels[cur] == []
    {
      ReplaceKeepsWellFormed(texts, labels, cur, []);
      labels := ReplaceAt(labels, cur, []);
      selected := [];
    }

    /** `handleSeparate`: clears the selection. */
    method Separate()
      requires Valid()
      modifies this`selected
      ensures Valid() && selected == []
    {
      selected := [];
    }

    /** `handlePrev`: one text back, never below 0; clears the selection. */
    method Prev()
      requires Valid()
      modifies this`cur, this`selected
      ensures Valid() && selected == []
      ensures cur == if old(cur) >= 1 then old(cur) - 1 else 0
    {
      cur := if 0 > cur - 1 then 0 else cur - 1;
      selected := [];
    }

    /** `handleNext`: one text on, never past the last; clears the selection.
        On an empty session the bound `|texts| - 1` is -1. */
    method Next()
      requires Valid()
      modifies this`cur, this`selected
      ensures Valid() && selected == []
      ensures cur == if old(cur) + 1 <= |texts| - 1 then old(cur) + 1 else |texts| - 1
    {
      cur := if |texts| - 1 < cur + 1 then |texts| - 1 else cur + 1;
      selected := [];
    }

    /** The `onload` callback of `handleUpload` on the file's content: with no
        non-empty line nothing changes; otherwise the imported texts replace
        the session's, each with an empty label list, and the cursor returns
        to 0. The selection is left as it was. */
    method Upload(content: string)
      requires Valid()
      modifies this`texts, this`labels, this`cur
      ensures Valid()
      ensures ParseTexts(content).None? ==> texts == old(texts) && labels == old(labels) && cur == old(cur)
      ensures ParseTexts(content).Some? ==>
        texts == ParseTexts(content).value && cur == 0 &&
        |labels| == |texts| && forall i :: 0 <= i < |labels| ==> labels[i] == []
    {
      var lines := Lines(content);
      if |lines| == 0 {
        return;
      }
      var textColIdx, startIdx := 0, 0;
      var header := Split(lines[0], ',');
      var found := FindTextColumn(header);
      if found.Some? {
        textColIdx, startIdx := found.value, 1;
      }
      var imported := ExtractTexts(lines, textColIdx, startIdx);
      texts := imported;
      labels := seq(|imported|, _ => []);
      cur := 0;
    }
  }
}
