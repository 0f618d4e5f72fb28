/** The tokenizer and span calculator: a text's words are its maximal runs of
    non-white-space characters, and a set of word indices is mapped to a
    half-open character range by summing word lengths plus one separator per
    gap, as `getWordCharRange` does. */
module Tokens {
  import opened Strings

  /** Length of the run of non-white-space characters at the start of `s`. */
  function LeadingRun(s: string): (n: nat)
    ensures n <= |s|
    ensures forall i :: 0 <= i < n ==> !IsSpace(s[i])
    ensures n < |s| ==> IsSpace(s[n])
  {
    if s == [] || IsSpace(s[0]) then 0 else 1 + LeadingRun(s[1..])
  }

  /** `s.match(/[^\s]+/g) || []`: the maximal runs of non-white-space characters, in order. */
  function Words(s: string): (ws: seq<string>)
    ensures forall i :: 0 <= i < |ws| ==> |ws[i]| > 0 && NoSpace(ws[i])
    decreases |s|
  {
    if s == [] then []
    else if IsSpace(s[0]) then Words(s[1..])
    else
      var n := LeadingRun(s);
      [s[..n]] + Words(s[n..])
  }

  /** Leading white space produces no word. */
  lemma {:induction false} WordsSkipSpace(sp: string, s: string)
    requires AllSpace(sp)
    ensures Words(sp + s) == Words(s)
    decreases |sp|
  {
    if sp == [] {
      assert sp + s == s;
    } else {
      assert (sp + s)[0] == sp[0];
      assert (sp + s)[1..] == sp[1..] + s;
      WordsSkipSpace(sp[1..], s);
    }
  }

  /** A run of non-white-space characters ended by a white-space character
      is one word, and tokenizing goes on after that character. */
  lemma WordsWordThenSpace(w: string, c: char, s: string)
    requires |w| > 0 && NoSpace(w) && IsSpace(c)
    ensures Words(w + [c] + s) == [w] + Words(s)
  {
    var t := w + [c] + s;
    assert t[0] == w[0];
    assert t[|w|] == c;
    assert forall i :: 0 <= i < |w| ==> t[i] == w[i];
    assert LeadingRun(t) == |w|;
    assert t[..|w|] == w;
    assert t[|w|..] == [c] + s;
    assert ([c] + s)[1..] == s;
  }

  /** A run of non-white-space characters that ends the text is its last word. */
  lemma WordsOfWord(w: string)
    requires |w| > 0 && NoSpace(w)
    ensures Words(w) == [w]
  {
    assert LeadingRun(w) == |w|;
    assert w[..|w|] == w && w[|w|..] == [];
  }

  /** Words that are non-empty and free of white space, joined by single
      spaces, tokenize back to themselves. */
  lemma {:induction false} WordsOfJoin(ws: seq<string>)
    requires forall i :: 0 <= i < |ws| ==> |ws[i]| > 0 && NoSpace(ws[i])
    ensures Words(JoinWith(ws, ' ')) == ws
  {
    if |ws| == 1 {
      var w := ws[0];
      assert LeadingRun(w) == |w|;
      assert w[..|w|] == w && w[|w|..] == [];
      assert Words(w) == [w] + Words([]);
      assert [w] == ws;
    } else if |ws| > 1 {
      var w, rest := ws[0], JoinWith(ws[1..], ' ');
      var s := w + [' '] + rest;
      assert s[|w|] == ' ';
      assert forall i :: 0 <= i < |w| ==> s[i] == w[i];
      assert LeadingRun(s) == |w|;
      assert s[..|w|] == w;
      assert s[|w|..][1..] == rest;
      WordsOfJoin(ws[1..]);
      assert [w] + ws[1..] == ws;
    }
  }

  /** The character offset of word `k` when words are separated by exactly
      one character: the sum of `|words[j]| + 1` over `j < k`. */
  function Offset(words: seq<string>, k: nat): nat
    requires k <= |words|
  {
    if k == 0 then 0 else Offset(words, k - 1) + |words[k - 1]| + 1
  }

  lemma {:induction false} OffsetMono(words: seq<string>, i: nat, j: nat)
    requires i <= j <= |words|
    ensures Offset(words, i) + (j - i) <= Offset(words, j)
    decreases j
  {
    if i < j {
      OffsetMono(words, i, j - 1);
    }
  }

  /** The indices below `n` that occur in `idxs`, ascending: the words the
      scan of `getWordCharRange` finds selected. */
  function Hits(n: nat, idxs: seq<int>): (h: seq<int>)
    ensures forall k :: 0 <= k < |h| ==> 0 <= h[k] < n
  {
    if n == 0 then [] else Hits(n - 1, idxs) + (if n - 1 in idxs then [n - 1] else [])
  }

  /** The hits are exactly the selected indices below `n`, strictly ascending. */
  lemma {:induction false} HitsSpec(n: nat, idxs: seq<int>)
    ensures forall x :: x in Hits(n, idxs) <==> 0 <= x < n && x in idxs
    ensures forall i, j :: 0 <= i < j < |Hits(n, idxs)| ==> Hits(n, idxs)[i] < Hits(n, idxs)[j]
  {
    if n > 0 {
      HitsSpec(n - 1, idxs);
    }
  }

  /** A half-open character range; `Range(-1, -1)` is the "no word selected" sentinel. */
  datatype Range = Range(start: int, end: int)

  const NoRange := Range(-1, -1)

  /** The range from the first selected word's start to the last one's end. */
  function RangeOf(words: seq<string>, h: seq<int>): Range
    requires forall k :: 0 <= k < |h| ==> 0 <= h[k] < |words|
  {
    if h == [] then NoRange
    else
      var last := h[|h| - 1];
      Range(Offset(words, h[0]), Offset(words, last) + |words[last]|)
  }

  /** What `getWordCharRange(words, idxs)` returns. Indices outside the word
      list, duplicates and order of `idxs` play no part. */
  function CharRange(words: seq<string>, idxs: seq<int>): (r: Range)
    ensures r == NoRange <==> forall i :: 0 <= i < |words| ==> i !in idxs
  {
    var h := Hits(|words|, idxs);
    HitsSpec(|words|, idxs);
    assert h != [] ==> h[0] in h;
    RangeOf(words, h)
  }

  lemma {:induction false} HitsSameMembers(n: nat, a: seq<int>, b: seq<int>)
    requires forall i :: 0 <= i < n ==> (i in a <==> i in b)
    ensures Hits(n, a) == Hits(n, b)
  {
    if n > 0 {
      HitsSameMembers(n - 1, a, b);
    }
  }

  /** Only which in-range indices are selected matters: order, duplicates and
      out-of-range indices do not change the range. */
  lemma CharRangeIgnoresOrder(words: seq<string>, a: seq<int>, b: seq<int>)
    requires forall i :: 0 <= i < |words| ==> (i in a <==> i in b)
    ensures CharRange(words, a) == CharRange(words, b)
  {
    HitsSameMembers(|words|, a, b);
  }

  /** The range after the scan has looked at the first `i` words: the start
      is set at the first selected word and the end moved at every one. */
  function Scan(words: seq<string>, idxs: seq<int>, i: nat): Range
    requires i <= |words|
  {
    if i == 0 then NoRange
    else
      var r := Scan(words, idxs, i - 1);
      if i - 1 !in idxs then r
      else Range(if r.start == -1 then Offset(words, i - 1) else r.start, Offset(words, i - 1) + |words[i - 1]|)
  }

  /** The scan over the first `i` words spans the selected words among them. */
  lemma {:induction false} ScanHits(words: seq<string>, idxs: seq<int>, i: nat)
    requires i <= |words|
    ensures Scan(words, idxs, i) == RangeOf(words, Hits(i, idxs))
  {
    if i > 0 {
      ScanHits(words, idxs, i - 1);
      var h := Hits(i - 1, idxs);
      if i - 1 in idxs {
        assert Hits(i, idxs) == h + [i - 1];
        if h != [] {
          assert (h + [i - 1])[0] == h[0];
        }
      }
    }
  }

  /** `getWordCharRange`: one pass over the words, accumulating the offset. */
  method GetWordCharRange(words: seq<string>, wordIndices: seq<int>) returns (start: int, end: int)
    ensures Range(start, end) == CharRange(words, wordIndices)
  {
    var idx := 0;
    start, end := -1, -1;
    for i := 0 to |words|
      invariant idx == Offset(words, i)
      invariant Range(start, end) == Scan(words, wordIndices, i)
    {
      if i in wordIndices {
        if start == -1 {
          start := idx;
        }
        end := idx + |words[i]|;
      }
      idx := idx + |words[i]| + 1;
    }
    ScanHits(words, wordIndices, |words|);
  }

  /** The range is the tightest one covering every selected word: it starts
      where some selected word starts and no later than any, and ends where
      some selected word ends and no earlier than any. */
  lemma CharRangeSpan(words: seq<string>, idxs: seq<int>)
    ensures var r := CharRange(words, idxs);
      forall i :: 0 <= i < |words| && i in idxs ==>
        r.start <= Offset(words, i) && Offset(words, i) + |words[i]| <= r.end
    ensures var r := CharRange(words, idxs);
      r != NoRange ==>
        (exists i :: 0 <= i < |words| && i in idxs && r.start == Offset(words, i)) &&
        (exists j :: 0 <= j < |words| && j in idxs && r.end == Offset(words, j) + |words[j]|)
  {
    var h := Hits(|words|, idxs);
    HitsSpec(|words|, idxs);
    var r := CharRange(words, idxs);
    forall i | 0 <= i < |words| && i in idxs
      ensures r.start <= Offset(words, i) && Offset(words, i) + |words[i]| <= r.end
    {
      assert i in h;
      var last := h[|h| - 1];
      assert h[0] <= i <= last;
      OffsetMono(words, h[0], i);
      if i < last {
        OffsetMono(words, i + 1, last);
      }
    }
    if r != NoRange {
      assert h[0] in h && h[|h| - 1] in h;
    }
  }

  /** When every word is non-empty and some word is selected, the range is a
      non-empty span inside the single-space-joined text. */
  lemma CharRangeBounds(words: seq<string>, idxs: seq<int>)
    requires forall i :: 0 <= i < |words| ==> |words[i]| > 0
    ensures var r := CharRange(words, idxs);
      r != NoRange ==> 0 <= r.start < r.end <= |JoinWith(words, ' ')|
  {
    var h := Hits(|words|, idxs);
    if h != [] {
      HitsSpec(|words|, idxs);
      OffsetTotal(words);
      var last := h[|h| - 1];
      assert h[0] <= last;
      OffsetMono(words, h[0], last);
      OffsetMono(words, last + 1, |words|);
    }
  }

  /** `sorted.map((i) => words[i])`, where a missing word reads as `undefined`,
      which `join` renders as the empty string. */
  function Pick(words: seq<string>, idxs: seq<int>): (r: seq<string>)
    ensures |r| == |idxs|
    ensures forall k :: 0 <= k < |idxs| && 0 <= idxs[k] < |words| ==> r[k] == words[idxs[k]]
    ensures forall k :: 0 <= k < |idxs| && !(0 <= idxs[k] < |words|) ==> r[k] == []
  {
    seq(|idxs|, k requires 0 <= k < |idxs| => if 0 <= idxs[k] < |words| then words[idxs[k]] else [])
  }

  /** The text a label records: the selected words joined by single spaces. */
  function SelectedText(words: seq<string>, idxs: seq<int>): string {
    JoinWith(Pick(words, idxs), ' ')
  }

  /** Consecutive in-range word indices `lo, lo + 1, ..., lo + |idxs| - 1`. */
  predicate Contiguous(idxs: seq<int>, n: nat) {
    |idxs| > 0 && 0 <= idxs[0] && idxs[|idxs| - 1] < n &&
    forall k :: 0 <= k < |idxs| ==> idxs[k] == idxs[0] + k
  }

  lemma {:induction false} JoinSplitAt(ws: seq<string>, k: nat, sep: char)
    requires 0 < k < |ws|
    ensures JoinWith(ws, sep) == JoinWith(ws[..k], sep) + [sep] + JoinWith(ws[k..], sep)
  {
    if k > 1 {
      JoinSplitAt(ws[1..], k - 1, sep);
      assert ws[1..][..k - 1] == ws[..k][1..];
      assert ws[1..][k - 1..] == ws[k..];
    }
  }

  lemma {:induction false} OffsetJoin(ws: seq<string>, k: nat)
    requires 0 < k <= |ws|
    ensures Offset(ws, k) == |JoinWith(ws[..k], ' ')| + 1
  {
    if k > 1 {
      OffsetJoin(ws, k - 1);
      JoinSplitAt(ws[..k], k - 1, ' ');
      assert ws[..k][..k - 1] == ws[..k - 1];
      assert ws[..k][k - 1..] == [ws[k - 1]];
    }
  }

  /** The offset one past the last word is one more than the joined length. */
  lemma OffsetTotal(ws: seq<string>)
    requires |ws| > 0
    ensures Offset(ws, |ws|) == |JoinWith(ws, ' ')| + 1
  {
    OffsetJoin(ws, |ws|);
    assert ws[..|ws|] == ws;
  }

  /** For consecutive indices the range runs from the first word's offset
      to the end of the last word. */
  lemma CharRangeOfContiguous(words: seq<string>, idxs: seq<int>)
    requires Contiguous(idxs, |words|)
    ensures CharRange(words, idxs) == Range(Offset(words, idxs[0]), Offset(words, idxs[0] + |idxs|) - 1)
  {
    var lo, hi := idxs[0], idxs[0] + |idxs|;
    var h := Hits(|words|, idxs);
    HitsSpec(|words|, idxs);
    assert idxs[|idxs| - 1] == hi - 1;
    assert idxs[0] in idxs && idxs[|idxs| - 1] in idxs;
    assert lo in h && hi - 1 in h;
    var m :| 0 <= m < |h| && h[m] == lo;
    var n :| 0 <= n < |h| && h[n] == hi - 1;
    assert h[0] <= h[m] && h[n] <= h[|h| - 1];
    assert h[0] in idxs && h[|h| - 1] in idxs;
    var a :| 0 <= a < |idxs| && idxs[a] == h[0];
    var b :| 0 <= b < |idxs| && idxs[b] == h[|h| - 1];
    assert idxs[a] == lo + a && idxs[b] == lo + b;
  }

  /** The text between word `lo`'s offset and the end of word `hi - 1` is
      those words joined by single spaces. */
  lemma JoinSlice(words: seq<string>, lo: nat, hi: nat)
    requires lo < hi <= |words|
    ensures Offset(words, lo) <= Offset(words, hi) - 1 <= |JoinWith(words, ' ')|
    ensures JoinWith(words, ' ')[Offset(words, lo)..Offset(words, hi) - 1] == JoinWith(words[lo..hi], ' ')
  {
    var s := JoinWith(words, ' ');
    var t := JoinWith(words[..hi], ' ');
    var m := JoinWith(words[lo..hi], ' ');
    var start, end := Offset(words, lo), Offset(words, hi) - 1;
    OffsetJoin(words, hi);
    assert |t| == end;
    assert end <= |s| && s[..end] == t by {
      if hi < |words| {
        JoinSplitAt(words, hi, ' ');
      } else {
        assert words[..hi] == words;
      }
    }
    assert start <= end && t[start..] == m by {
      if lo == 0 {
        assert words[..hi] == words[lo..hi];
      } else {
        JoinSplitAt(words[..hi], lo, ' ');
        OffsetJoin(words, lo);
        assert words[..hi][..lo] == words[..lo];
        assert words[..hi][lo..] == words[lo..hi];
      }
    }
  }

  /** The span round trip: for consecutive word indices, the computed range
      cuts out of the single-space-joined text exactly the label's text. */
  lemma SpanRoundTrip(words: seq<string>, idxs: seq<int>)
    requires Contiguous(idxs, |words|)
    ensures var r := CharRange(words, idxs);
      0 <= r.start <= r.end <= |JoinWith(words, ' ')| &&
      JoinWith(words, ' ')[r.start..r.end] == SelectedText(words, idxs)
  {
    var lo, hi := idxs[0], idxs[0] + |idxs|;
    var r, s := CharRange(words, idxs), JoinWith(words, ' ');
    CharRangeOfContiguous(words, idxs);
    assert r.start == Offset(words, lo) && r.end == Offset(words, hi) - 1;
    JoinSlice(words, lo, hi);
    assert s[r.start..r.end] == JoinWith(words[lo..hi], ' ');
    PickContiguous(words, idxs);
    assert SelectedText(words, idxs) == JoinWith(words[lo..hi], ' ');
  }

  lemma PickContiguous(words: seq<string>, idxs: seq<int>)
    requires Contiguous(idxs, |words|)
    ensures Pick(words, idxs) == words[idxs[0]..idxs[0] + |idxs|]
  {
    var p := Pick(words, idxs);
    forall k | 0 <= k < |idxs|
      ensures p[k] == words[idxs[0] + k]
    {
      assert idxs[k] == idxs[0] + k;
    }
  }
}
