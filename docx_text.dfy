/**
 * Plain-text extraction of a document: the texts of its paragraphs, in order,
 * joined with newline characters. The document parser itself is outside the
 * model; a document is given by the sequence of its paragraph texts.
 */
module DocxText {

  /** The texts joined with one "\n" between neighbours (Python's `'\n'.join`). */
  function Join(parts: seq<string>): string
  {
    if |parts| == 0 then ""
    else if |parts| == 1 then parts[0]
    else parts[0] + "\n" + Join(parts[1..])
  }

  /** Index of the first occurrence of `c` in `s`, or |s| when `c` does not occur. */
  function IndexOf(s: string, c: char): (r: nat)
    ensures r <= |s|
    ensures r < |s| ==> s[r] == c
    ensures forall j :: 0 <= j < r ==> s[j] != c
    ensures r == |s| <==> c !in s
  {
    if s == [] then 0
    else if s[0] == c then 0
    else 1 + IndexOf(s[1..], c)
  }

  /** The string cut at every "\n" (the inverse of Join, as a string split on newlines). */
  function Split(s: string): (parts: seq<string>)
    ensures |parts| >= 1
    decreases |s|
  {
    var i := IndexOf(s, '\n');
    if i == |s| then [s] else [s[..i]] + Split(s[i + 1..])
  }

  /** Number of occurrences of `c` in `s`. */
  function Count(s: string, c: char): nat
  {
    if s == [] then 0 else (if s[0] == c then 1 else 0) + Count(s[1..], c)
  }

  /** Total number of newline characters inside the given texts. */
  function InnerNewlines(parts: seq<string>): nat
  {
    if parts == [] then 0 else Count(parts[0], '\n') + InnerNewlines(parts[1..])
  }

  /** The paragraph texts of a document joined as one text: the list is built in a loop, then joined. */
  method ReadDocx(paragraphs: seq<string>) returns (text: string)
    ensures text == Join(paragraphs)
  {
    var fullText: seq<string> := [];
    for i := 0 to |paragraphs|
      invariant fullText == paragraphs[..i]
    {
      fullText := fullText + [paragraphs[i]];
    }
    assert fullText == paragraphs;
    text := Join(fullText);
  }

  lemma {:induction false} CountAppend(a: string, b: string, c: char)
    ensures Count(a + b, c) == Count(a, c) + Count(b, c)
  {
    if a != [] {
      assert (a + b)[1..] == a[1..] + b;
      CountAppend(a[1..], b, c);
    } else {
      assert a + b == b;
    }
  }

  /** An empty document yields the empty text, a single paragraph yields its own text. */
  lemma JoinSmall(p: string)
    ensures Join([]) == ""
    ensures Join([p]) == p
  {
  }

  /** The newlines of the text are those inside the paragraphs plus one separator per neighbouring pair. */
  lemma {:induction false} JoinNewlines(parts: seq<string>)
    requires |parts| >= 1
    ensures Count(Join(parts), '\n') == InnerNewlines(parts) + |parts| - 1
  {
    if |parts| == 1 {
      assert parts[1..] == [];
    } else {
      JoinNewlines(parts[1..]);
      CountAppend(parts[0], "\n", '\n');
      CountAppend(parts[0] + "\n", Join(parts[1..]), '\n');
    }
  }

  /** n paragraphs free of line breaks yield a text with exactly n - 1 line breaks. */
  lemma JoinSeparators(parts: seq<string>)
    requires |parts| >= 1
    requires forall k :: 0 <= k < |parts| ==> '\n' !in parts[k]
    ensures Count(Join(parts), '\n') == |parts| - 1
  {
    JoinNewlines(parts);
    NoInnerNewlines(parts);
  }

  lemma {:induction false} NoInnerNewlines(parts: seq<string>)
    requires forall k :: 0 <= k < |parts| ==> '\n' !in parts[k]
    ensures InnerNewlines(parts) == 0
  {
    if parts != [] {
      assert Count(parts[0], '\n') == 0 by { CountAbsent(parts[0], '\n'); }
      NoInnerNewlines(parts[1..]);
    }
  }

  lemma {:induction false} CountAbsent(s: string, c: char)
    requires c !in s
    ensures Count(s, c) == 0
  {
    if s != [] {
      CountAbsent(s[1..], c);
    }
  }

  /** Splitting the joined text on newlines gives back the paragraphs when none holds a line break. */
  lemma {:induction false} SplitJoin(parts: seq<string>)
    requires |parts| >= 1
    requires forall k :: 0 <= k < |parts| ==> '\n' !in parts[k]
    ensures Split(Join(parts)) == parts
  {
    if |parts| == 1 {
      assert IndexOf(parts[0], '\n') == |parts[0]|;
    } else {
      var s := Join(parts);
      var p := parts[0];
      assert s == p + "\n" + Join(parts[1..]);
      assert s[|p|] == '\n';
      assert forall j :: 0 <= j < |p| ==> s[j] == p[j];
      assert IndexOf(s, '\n') == |p|;
      assert s[..|p|] == p;
      assert s[|p| + 1..] == Join(parts[1..]);
      SplitJoin(parts[1..]);
      assert [p] + parts[1..] == parts;
    }
  }

  lemma JoinCons(p: string, rest: seq<string>)
    requires |rest| >= 1
    ensures Join([p] + rest) == p + "\n" + Join(rest)
  {
    assert ([p] + rest)[1..] == rest;
  }

  /** Joining the pieces of a split restores the text: the two are inverse on any text. */
  lemma {:induction false} JoinSplit(s: string)
    ensures Join(Split(s)) == s
    decreases |s|
  {
    var i := IndexOf(s, '\n');
    if i == |s| {
      assert Split(s) == [s];
    } else {
      var head, rest := s[..i], s[i + 1..];
      var tail := Split(rest);
      assert Split(s) == [head] + tail;
      JoinSplit(rest);
      JoinCons(head, tail);
      assert s == head + "\n" + rest;
    }
  }
}
