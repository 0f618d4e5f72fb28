/** The export mapping: one entry per text, holding the text and its labels
    as `{role, text, start, end}`, with the range recomputed from the
    re-tokenized text when a label lacks one. Serialisation is not modelled. */
module Export {
  import opened Strings
  import opened Optional
  import opened Tokens
  import opened Labels

  datatype LabelOut = LabelOut(role: Role, text: string, start: int, end: int)

  datatype Entry = Entry(text: string, labels: seq<LabelOut>)

  /** `labels[idx] || []`. */
  function LabelsAt(labels: seq<seq<Label>>, i: nat): seq<Label> {
    if i < |labels| then labels[i] else []
  }

  /** One exported label: stored range when both ends are present, otherwise
      the range recomputed from the words of `text`. */
  function ExportLabel(text: string, l: Label): (o: LabelOut)
    ensures o.role == l.role && o.text == l.text
    ensures l.start.Some? && l.end.Some? ==> o.start == l.start.value && o.end == l.end.value
    ensures l.start.None? || l.end.None? ==> Range(o.start, o.end) == CharRange(Words(text), l.wordIndices)
  {
    if l.start.Some? && l.end.Some? then LabelOut(l.role, l.text, l.start.value, l.end.value)
    else
      var r := CharRange(Words(text), l.wordIndices);
      LabelOut(l.role, l.text, r.start, r.end)
  }

  /** `exportData`: exactly one entry per text, in order, each holding its
      labels in order. */
  function ExportData(texts: seq<string>, labels: seq<seq<Label>>): (r: seq<Entry>)
    ensures |r| == |texts|
    ensures forall i :: 0 <= i < |texts| ==>
      r[i].text == texts[i] && |r[i].labels| == |LabelsAt(labels, i)|
    ensures forall i, k :: 0 <= i < |texts| && 0 <= k < |LabelsAt(labels, i)| ==>
      r[i].labels[k] == ExportLabel(texts[i], LabelsAt(labels, i)[k])
  {
    seq(|texts|, i requires 0 <= i < |texts| =>
      Entry(texts[i], seq(|LabelsAt(labels, i)|, k requires 0 <= k < |LabelsAt(labels, i)| =>
        ExportLabel(texts[i], LabelsAt(labels, i)[k]))))
  }

  /** A label with its stored range dropped. */
  function WithoutRange(l: Label): Label {
    l.(start := None, end := None)
  }

  function WithoutRanges(labels: seq<seq<Label>>): seq<seq<Label>> {
    seq(|labels|, i requires 0 <= i < |labels| =>
      seq(|labels[i]|, k requires 0 <= k < |labels[i]| => WithoutRange(labels[i][k])))
  }

  /** The stored ranges of well-formed labels are the ones the fallback would
      recompute: exporting with every range dropped gives the same data. */
  lemma FallbackAgrees(texts: seq<string>, labels: seq<seq<Label>>)
    requires |labels| == |texts|
    requires forall i :: 0 <= i < |texts| ==> WellFormed(texts[i], labels[i])
    ensures ExportData(texts, WithoutRanges(labels)) == ExportData(texts, labels)
  {
    var a, b := ExportData(texts, WithoutRanges(labels)), ExportData(texts, labels);
    forall i | 0 <= i < |texts|
      ensures a[i] == b[i]
    {
      forall k | 0 <= k < |labels[i]|
        ensures a[i].labels[k] == b[i].labels[k]
      {
        assert IsSaved(texts[i], labels[i][k]);
      }
    }
  }

  /** On a single-spaced text, every exported label over consecutive words
      carries a range that cuts its own text out of the entry's text. */
  lemma ExportedSpansMatch(texts: seq<string>, labels: seq<seq<Label>>, i: nat, k: nat)
    requires |labels| == |texts|
    requires forall j :: 0 <= j < |texts| ==> WellFormed(texts[j], labels[j])
    requires i < |texts| && k < |labels[i]|
    requires SingleSpaced(texts[i])
    requires Contiguous(labels[i][k].wordIndices, |Words(texts[i])|)
    ensures var o := ExportData(texts, labels)[i].labels[k];
      0 <= o.start < o.end <= |texts[i]| && texts[i][o.start..o.end] == o.text
  {
    assert WellFormed(texts[i], labels[i]);
    SavedSpanMatchesText(texts[i], labels[i][k]);
  }

  lemma PhimWords()
    ensures Words("Phim rất hay") == ["Phim", "rất", "hay"]
  {
    var words := ["Phim", "rất", "hay"];
    assert NoSpace(words[0]) && NoSpace(words[1]) && NoSpace(words[2]);
    assert words[1..] == ["rất", "hay"] && words[1..][1..] == ["hay"];
    assert JoinWith(words, ' ') == "Phim rất hay";
    WordsOfJoin(words);
  }

  /** Word 0 of `Phim rất hay` as an opinion is the label `Phim` over [0, 4). */
  lemma PhimLabel()
    ensures NewLabel(["Phim", "rất", "hay"], [0], OPINION) == Label([0], "Phim", OPINION, Some(0), Some(4))
  {
    var words := ["Phim", "rất", "hay"];
    assert Hits(1, [0]) == [0];
    assert Hits(2, [0]) == [0];
    assert Hits(3, [0]) == [0];
    assert CharRange(words, [0]) == Range(0, 4);
    assert Pick(words, [0]) == ["Phim"];
  }

  /** The first text labelled on word 0 as an opinion exports that word with
      the range [0, 4); the second text exports with no labels. */
  lemma ExportExample()
    ensures ExportData(["Phim rất hay", "Tôi không thích"], [[NewLabel(Words("Phim rất hay"), [0], OPINION)], []])
      == [Entry("Phim rất hay", [LabelOut(OPINION, "Phim", 0, 4)]), Entry("Tôi không thích", [])]
  {
    PhimWords();
    PhimLabel();
    ExportTwo("Phim rất hay", "Tôi không thích", Label([0], "Phim", OPINION, Some(0), Some(4)));
  }

  lemma ExportTwo(t0: string, t1: string, l: Label)
    ensures ExportData([t0, t1], [[l], []]) == [Entry(t0, [ExportLabel(t0, l)]), Entry(t1, [])]
  {
    var labels := [[l], []];
    var r := ExportData([t0, t1], labels);
    assert LabelsAt(labels, 0) == [l] && LabelsAt(labels, 1) == [];
    assert r[0].labels == [ExportLabel(t0, l)];
  }
}
