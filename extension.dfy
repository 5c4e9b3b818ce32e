/**
 * The upload filter: a file name is accepted when its extension, the text
 * after its last dot, is an allowed extension once lower-cased.
 */
module Extension {
  import Config

  /** ASCII lower-casing of one character. */
  function LowerChar(c: char): char
  {
    if 'A' <= c <= 'Z' then (c as int - 'A' as int + 'a' as int) as char else c
  }

  /** Lower-casing of a whole string, character by character. */
  function Lower(s: string): (r: string)
    ensures |r| == |s|
    ensures forall i :: 0 <= i < |s| ==> r[i] == LowerChar(s[i])
  {
    if s == [] then [] else [LowerChar(s[0])] + Lower(s[1..])
  }

  /** Index of the last occurrence of `c` in `s`, or -1 when `c` does not occur. */
  function LastIndexOf(s: string, c: char): (r: int)
    ensures -1 <= r < |s|
    ensures r >= 0 ==> s[r] == c
    ensures forall j :: r < j < |s| ==> s[j] != c
  {
    if s == [] then -1
    else if s[|s| - 1] == c then |s| - 1
    else LastIndexOf(s[..|s| - 1], c)
  }

  /** The part of `name` after its last dot (the second half of a one-split from the right). */
  function Suffix(name: string): (ext: string)
    requires '.' in name
    ensures |ext| < |name| && name[|name| - |ext| - 1] == '.'
    ensures name[|name| - |ext|..] == ext && '.' !in ext
  {
    name[LastIndexOf(name, '.') + 1..]
  }

  /** Whether an uploaded file name carries an allowed extension. */
  predicate AllowedFile(name: string)
  {
    '.' in name && Lower(Suffix(name)) in Config.AllowedExtensions
  }

  /** `name` is `stem`, a dot, then `ext`, where `ext` holds no dot and lower-cases to "docx". */
  ghost predicate DocxSplit(name: string, stem: string, ext: string)
  {
    name == stem + "." + ext && '.' !in ext && Lower(ext) == "docx"
  }

  /** The suffix after the last dot is exactly the dot-free tail that follows some dot. */
  lemma {:induction false} SuffixIsLastPart(name: string, stem: string, ext: string)
    requires name == stem + "." + ext && '.' !in ext
    ensures '.' in name && Suffix(name) == ext
  {
    var k := |stem|;
    assert name[k] == '.';
    assert forall j :: k < j < |name| ==> name[j] == ext[j - k - 1];
    assert LastIndexOf(name, '.') == k;
    assert name[k + 1..] == ext;
  }

  /**
   * A name is accepted exactly when it splits as stem, dot, dot-free extension
   * with the extension "docx" in any letter case.
   */
  lemma AllowedFileIff(name: string)
    ensures AllowedFile(name) <==> exists stem, ext :: DocxSplit(name, stem, ext)
  {
    if AllowedFile(name) {
      var r := LastIndexOf(name, '.');
      var stem, ext := name[..r], name[r + 1..];
      assert name == stem + "." + ext;
      assert '.' !in ext by {
        forall j | 0 <= j < |ext| ensures ext[j] != '.' {
          assert ext[j] == name[r + 1 + j];
        }
      }
      assert DocxSplit(name, stem, ext);
    }
    if exists stem, ext :: DocxSplit(name, stem, ext) {
      var stem, ext :| DocxSplit(name, stem, ext);
      SuffixIsLastPart(name, stem, ext);
    }
  }

  /** Upper-case extensions are accepted. */
  lemma UpperCaseAccepted()
    ensures AllowedFile("a.DOCX")
  {
    SuffixIsLastPart("a.DOCX", "a", "DOCX");
    assert Lower("DOCX") == "docx";
  }

  /** A name with several dots is accepted when its last extension is "docx", even with an empty stem. */
  lemma LastExtensionAccepted()
    ensures AllowedFile("report.v2.docx")
    ensures AllowedFile(".docx")
  {
    SuffixIsLastPart("report.v2.docx", "report.v2", "docx");
    SuffixIsLastPart(".docx", "", "docx");
    assert Lower("docx") == "docx";
  }

  /** Only the last extension counts; a name without a dot, or with another extension, is refused. */
  lemma RejectedExamples()
    ensures !AllowedFile("a.docx.txt")
    ensures !AllowedFile("docx")
    ensures !AllowedFile("a.doc")
  {
    SuffixIsLastPart("a.docx.txt", "a.docx", "txt");
    SuffixIsLastPart("a.doc", "a", "doc");
    assert "docx"[0] != '.' && "docx"[1] != '.' && "docx"[2] != '.' && "docx"[3] != '.';
  }
}
