/**
 * Positional paragraph comparison. Two documents, given by their paragraph
 * texts, are walked pairwise by index; equal pairs become one plain paragraph
 * of the report, differing pairs two coloured paragraphs (the first
 * document's text in red, then the second's in green). Paragraphs past the
 * end of the shorter document are never looked at.
 */
module Comparison {

  datatype Option<T> = None | Some(value: T)

  /** One colour channel, 0 to 255. */
  type Channel = x: int | 0 <= x < 256

  datatype Rgb = Rgb(red: Channel, green: Channel, blue: Channel)

  const Red: Rgb := Rgb(255, 0, 0)
  const Green: Rgb := Rgb(0, 255, 0)

  const FirstLabel: string := "Document 1: "
  const SecondLabel: string := "Document 2: "

  /** A paragraph of the report: its text and its font colour, if one is set. */
  datatype OutParagraph = OutParagraph(text: string, color: Option<Rgb>)

  /** The report document being built; paragraphs are only ever appended. */
  class OutputDocument {
    var paragraphs: seq<OutParagraph>

    /** A new, empty document. */
    constructor ()
      ensures paragraphs == []
    {
      paragraphs := [];
    }

    /** Appends a paragraph with text `text` and the given font colour. */
    method AddParagraph(text: string, color: Option<Rgb>)
      modifies this
      ensures paragraphs == old(paragraphs) + [OutParagraph(text, color)]
    {
      paragraphs := paragraphs + [OutParagraph(text, color)];
    }
  }

  function Min(x: int, y: int): int
  {
    if x <= y then x else y
  }

  /** The pairs of paragraphs at equal indices, as far as the shorter document goes. */
  function Zip(a: seq<string>, b: seq<string>): (pairs: seq<(string, string)>)
    ensures |pairs| == Min(|a|, |b|)
    ensures forall i :: 0 <= i < |pairs| ==> pairs[i] == (a[i], b[i])
  {
    if a == [] || b == [] then [] else [(a[0], b[0])] + Zip(a[1..], b[1..])
  }

  /** What one pair contributes to the report. */
  function PairReport(p1: string, p2: string): seq<OutParagraph>
  {
    if p1 != p2 then
      [OutParagraph(FirstLabel + p1, Some(Red)), OutParagraph(SecondLabel + p2, Some(Green))]
    else
      [OutParagraph(p1, None)]
  }

  /** The report for a sequence of pairs, pair by pair in order. */
  function Report(pairs: seq<(string, string)>): seq<OutParagraph>
  {
    if pairs == [] then []
    else
      var last := pairs[|pairs| - 1];
      Report(pairs[..|pairs| - 1]) + PairReport(last.0, last.1)
  }

  /** The report produced for two documents. */
  function Compare(a: seq<string>, b: seq<string>): seq<OutParagraph>
  {
    Report(Zip(a, b))
  }

  /** Number of pairs whose two texts differ. */
  function Differing(pairs: seq<(string, string)>): nat
  {
    if pairs == [] then 0
    else
      var last := pairs[|pairs| - 1];
      Differing(pairs[..|pairs| - 1]) + (if last.0 != last.1 then 1 else 0)
  }

  /** Adds one coloured paragraph holding `text` to the report. */
  method MarkDifference(doc: OutputDocument, text: string, color: Rgb)
    modifies doc
    ensures doc.paragraphs == old(doc.paragraphs) + [OutParagraph(text, Some(color))]
  {
    doc.AddParagraph(text, Some(color));
  }

  /** Appends to `doc` the report for the two paragraph lists. */
  method CompareParagraphs(doc: OutputDocument, paras1: seq<string>, paras2: seq<string>)
    modifies doc
    ensures doc.paragraphs == old(doc.paragraphs) + Compare(paras1, paras2)
  {
    var pairs := Zip(paras1, paras2);
    for i := 0 to |pairs|
      invariant doc.paragraphs == old(doc.paragraphs) + Report(pairs[..i])
    {
      var (p1, p2) := pairs[i];
      if p1 != p2 {
        MarkDifference(doc, FirstLabel + p1, Red);
        MarkDifference(doc, SecondLabel + p2, Green);
      } else {
        doc.AddParagraph(p1, None);
      }
      assert pairs[..i + 1][..i] == pairs[..i];
    }
    assert pairs[..|pairs|] == pairs;
  }

  /** Compares two documents into a fresh report and yields the paragraphs that are saved. */
  method CompareDocuments(paras1: seq<string>, paras2: seq<string>) returns (saved: seq<OutParagraph>)
    ensures saved == Compare(paras1, paras2)
  {
    var outputDoc := new OutputDocument();
    CompareParagraphs(outputDoc, paras1, paras2);
    saved := outputDoc.paragraphs;
  }

  // ---------------------------------------------------------------------------
  // Properties of the report

  lemma {:induction false} ReportAppend(p: seq<(string, string)>, q: seq<(string, string)>)
    ensures Report(p + q) == Report(p) + Report(q)
    decreases |q|
  {
    if q == [] {
      assert p + q == p;
    } else {
      var q' := q[..|q| - 1];
      assert (p + q)[..|p + q| - 1] == p + q';
      ReportAppend(p, q');
    }
  }

  lemma {:induction false} ReportLength(pairs: seq<(string, string)>)
    ensures |Report(pairs)| == |pairs| + Differing(pairs)
    ensures Differing(pairs) <= |pairs|
  {
    if pairs != [] {
      ReportLength(pairs[..|pairs| - 1]);
    }
  }

  /** The report holds one paragraph per compared pair plus one more per differing pair. */
  lemma CompareLength(a: seq<string>, b: seq<string>)
    ensures |Compare(a, b)| == Min(|a|, |b|) + Differing(Zip(a, b))
  {
    ReportLength(Zip(a, b));
  }

  /** So the report is at least as long as the shorter document and at most twice as long. */
  lemma CompareBounds(a: seq<string>, b: seq<string>)
    ensures Min(|a|, |b|) <= |Compare(a, b)| <= 2 * Min(|a|, |b|)
  {
    ReportLength(Zip(a, b));
  }

  /** When either document is empty the report is empty. */
  lemma CompareEmpty(a: seq<string>, b: seq<string>)
    requires a == [] || b == []
    ensures Compare(a, b) == []
  {
  }

  lemma {:induction false} DifferingZero(pairs: seq<(string, string)>)
    ensures Differing(pairs) == 0 <==> forall i :: 0 <= i < |pairs| ==> pairs[i].0 == pairs[i].1
  {
    if pairs != [] {
      DifferingZero(pairs[..|pairs| - 1]);
      assert forall i :: 0 <= i < |pairs| - 1 ==> pairs[..|pairs| - 1][i] == pairs[i];
    }
  }

  /** The report is exactly as long as the shorter document iff the documents agree up to that length. */
  lemma CompareShortestIff(a: seq<string>, b: seq<string>)
    ensures |Compare(a, b)| == Min(|a|, |b|) <==> a[..Min(|a|, |b|)] == b[..Min(|a|, |b|)]
  {
    var m := Min(|a|, |b|);
    CompareLength(a, b);
    DifferingZero(Zip(a, b));
    if a[..m] == b[..m] {
      forall i | 0 <= i < m ensures a[i] == b[i] {
        assert a[..m][i] == b[..m][i];
      }
    }
  }

  /** Paragraphs past the shorter document's end do not affect the report. */
  lemma CompareTruncates(a: seq<string>, b: seq<string>)
    ensures Compare(a, b) == Compare(a[..Min(|a|, |b|)], b[..Min(|a|, |b|)])
  {
    var m := Min(|a|, |b|);
    assert Zip(a, b) == Zip(a[..m], b[..m]);
  }

  /**
   * Index i's contribution sits between everything emitted for the earlier
   * indices and everything emitted for the later ones: the exact text for an
   * equal pair, uncoloured; for a differing pair, the labelled first text in
   * red immediately followed by the labelled second text in green.
   */
  lemma CompareAt(a: seq<string>, b: seq<string>, i: nat)
    requires i < |a| && i < |b|
    ensures Compare(a, b) == Compare(a[..i], b[..i]) + PairReport(a[i], b[i]) + Compare(a[i + 1..], b[i + 1..])
    ensures a[i] == b[i] ==> PairReport(a[i], b[i]) == [OutParagraph(a[i], None)]
    ensures a[i] != b[i] ==>
      (PairReport(a[i], b[i]) ==
        [OutParagraph("Document 1: " + a[i], Some(Rgb(255, 0, 0))),
         OutParagraph("Document 2: " + b[i], Some(Rgb(0, 255, 0)))])
  {
    var z := Zip(a, b);
    assert z == Zip(a[..i], b[..i]) + [(a[i], b[i])] + Zip(a[i + 1..], b[i + 1..]);
    ReportAppend(Zip(a[..i], b[..i]) + [(a[i], b[i])], Zip(a[i + 1..], b[i + 1..]));
    ReportAppend(Zip(a[..i], b[..i]), [(a[i], b[i])]);
    assert Report([(a[i], b[i])]) == PairReport(a[i], b[i]) by {
      assert [(a[i], b[i])][..0] == [];
    }
  }

  lemma {:induction false} ReportOfEqualPairs(pairs: seq<(string, string)>)
    requires forall i :: 0 <= i < |pairs| ==> pairs[i].0 == pairs[i].1
    ensures |Report(pairs)| == |pairs|
    ensures forall i :: 0 <= i < |pairs| ==> Report(pairs)[i] == OutParagraph(pairs[i].0, None)
  {
    if pairs != [] {
      var init := pairs[..|pairs| - 1];
      ReportOfEqualPairs(init);
      assert forall i :: 0 <= i < |init| ==> init[i] == pairs[i];
    }
  }

  /** Comparing a document with itself reproduces its texts, uncoloured and in order. */
  lemma CompareIdentical(a: seq<string>)
    ensures |Compare(a, a)| == |a|
    ensures forall i :: 0 <= i < |a| ==> Compare(a, a)[i] == OutParagraph(a[i], None)
  {
    ReportOfEqualPairs(Zip(a, a));
  }

  lemma LabelledText(prefix: string, text: string, whole: string)
    requires |whole| == |prefix| + |text|
    requires forall k :: 0 <= k < |prefix| ==> whole[k] == prefix[k]
    requires forall k :: 0 <= k < |text| ==> whole[|prefix| + k] == text[k]
    ensures prefix + text == whole
  {
  }

  /** Two paragraphs each, the second pair differing. */
  lemma HelloWorldExample()
    ensures Compare(["Hello", "World"], ["Hello", "Earth"]) ==
      [OutParagraph("Hello", None),
       OutParagraph("Document 1: World", Some(Red)),
       OutParagraph("Document 2: Earth", Some(Green))]
  {
    var a, b := ["Hello", "World"], ["Hello", "Earth"];
    CompareAt(a, b, 1);
    var a0, b0 := a[..1], b[..1];
    assert a0 == ["Hello"] && b0 == ["Hello"];
    CompareIdentical(a0);
    var head := Compare(a0, b0);
    assert head == [OutParagraph("Hello", None)];
    CompareLength(a[2..], b[2..]);
    assert a[1] != b[1] by { assert a[1][0] != b[1][0]; }
    LabelledText(FirstLabel, "World", "Document 1: World");
    LabelledText(SecondLabel, "Earth", "Document 2: Earth");
    assert PairReport(a[1], b[1]) ==
      [OutParagraph("Document 1: World", Some(Red)), OutParagraph("Document 2: Earth", Some(Green))];
  }

  /** With an empty first document nothing is compared, whatever the second holds. */
  lemma EmptyFirstExample()
    ensures Compare([], ["X"]) == []
  {
  }

  /** A three-paragraph and a five-paragraph document: the last two of the longer never matter. */
  lemma TailIgnoredExample(a: seq<string>, b: seq<string>, b': seq<string>)
    requires |a| == 3 && |b| == 5 && |b'| == 5 && b[..3] == b'[..3]
    ensures Compare(a, b) == Compare(a, b')
  {
    CompareTruncates(a, b);
    CompareTruncates(a, b');
  }
}
