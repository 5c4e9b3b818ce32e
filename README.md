# Word-document comparison service: a verified model of its core

The service takes two `.docx` documents and produces a third, a difference
report, that walks the two documents paragraph by paragraph: a paragraph whose
text is the same in both is copied as it is, and a paragraph whose text differs
is written twice, once as `Document 1: <text>` in red and once as
`Document 2: <text>` in green. Uploads and reports live in one upload folder,
which a background job sweeps, deleting every regular file older than 24 hours.
Uploads are accepted only when the name ends in the extension `docx`, in any
letter case.

This project models, in Dafny, the four pieces of logic in `app.py`:

- `extension.dfy`, module `Extension`: the upload filter `allowed_file`;
- `docx_text.dfy`, module `DocxText`: `read_docx`, which collects the paragraph
  texts in a list and joins them with newlines;
- `comparison.dfy`, module `Comparison`: `compare_documents` with its inner
  `compare_paragraphs` and `mark_difference`, writing into an output document;
- `upload_sweep.dfy`, module `UploadSweep`: `clean_upload_folder`;
- `config.dfy`, module `Config`: the constants `FILE_LIFETIME` and
  `ALLOWED_EXTENSIONS`.

A document is given by the sequence of its paragraph texts. The report document
is a class `OutputDocument` whose `paragraphs` field grows by appends. Each
paragraph holds a text and an optional font colour, an `(r, g, b)` triple.
`CompareParagraphs` loops over the zipped pairs and appends. It is proved
against the specification function `Compare`, and the properties of the report
are lemmas about `Compare`. The upload folder is a class `UploadFolder` whose
`entries` field maps names to entries (regular file or not, and a modification
time in whole seconds). `Clean` loops over a snapshot of the names and removes
entries. It is proved against the function `Swept`.

Two points about `app.py` that shape the model:

- `app.py` sets only the font colour on differing paragraphs, so the model has
  colour only (no bold, italic or other styling).
- `app.py` has no error handling around `os.remove` in the sweep. In the model
  a deletion of a file that was just seen cannot fail.

## Model

| member | source | states |
|---|---|---|
| `Config.FileLifetime` | app.py:34 | a file may stay 60 * 60 * 24 seconds |
| `Config.AllowedExtensions` | app.py:28 | the only accepted extension is `docx` |
| `Extension.AllowedFile` | app.py:53-57 | a name is accepted when it holds a dot and the text after its last dot, lower-cased, is an allowed extension; characterised by `AllowedFileIff` |
| `Extension.Suffix` | app.py:57 | the suffix is the dot-free tail of the name that directly follows a dot, which is the text after the last dot |
| `Extension.Lower` | app.py:57 | lower-casing keeps the length and maps each character to its lower-case form |
| `Extension.LastIndexOf` | app.py:57 | the result is -1 or an index holding the character, and no later index holds it (the cut point of a one-split from the right) |
| `Extension.SuffixIsLastPart` | app.py:57 | for a name of the form stem, dot, dot-free tail, the text after the last dot is exactly that tail |
| `Extension.AllowedFileIff` | app.py:53-57 | a name is accepted if and only if it is some stem, a dot, and a dot-free extension that lower-cases to `docx` |
| `Extension.UpperCaseAccepted` | app.py:57 | `a.DOCX` is accepted |
| `Extension.LastExtensionAccepted` | app.py:57 | `report.v2.docx` and `.docx` are accepted |
| `Extension.RejectedExamples` | app.py:57 | `a.docx.txt`, `docx` and `a.doc` are refused |
| `DocxText.Join` | app.py:71 | the texts with one newline between neighbours; its properties are `JoinSmall`, `JoinNewlines`, `SplitJoin` and `JoinSplit` |
| `DocxText.ReadDocx` | app.py:67-71 | the returned text is the paragraph texts, in order, joined with `\n` |
| `DocxText.JoinSmall` | app.py:71 | no paragraphs give the empty text; a single paragraph gives its own text |
| `DocxText.JoinNewlines` | app.py:71 | the newlines of the joined text are the newlines inside the paragraphs plus one separator between each neighbouring pair |
| `DocxText.JoinSeparators` | app.py:67-71 | n paragraphs without line breaks give a text with exactly n - 1 newlines |
| `DocxText.SplitJoin` | app.py:71 | splitting the joined text at newlines gives back the paragraphs, when none holds a line break |
| `DocxText.JoinSplit` | app.py:71 | joining the pieces of a split at newlines gives back any text |
| `Comparison.OutputDocument.constructor` | app.py:76 | a new report document has no paragraphs |
| `Comparison.OutputDocument.AddParagraph` | app.py:88 | appends one paragraph with the given text and colour and changes nothing else |
| `Comparison.MarkDifference` | app.py:78-80 | appends one paragraph with the given text in the given colour |
| `Comparison.CompareParagraphs` | app.py:82-88 | after the loop the document holds its old paragraphs followed by the report `Compare` of the two lists |
| `Comparison.CompareDocuments` | app.py:73-92 | the saved report of a fresh document is exactly `Compare` of the two documents |
| `Comparison.PairReport` | app.py:84-88 | a differing pair gives the two labelled, coloured paragraphs; an equal pair gives the first text uncoloured; stated in `CompareAt` |
| `Comparison.Compare` | app.py:82-88 | the report for two documents, pair by pair; its properties are the `Compare*` lemmas below |
| `Comparison.Zip` | app.py:83 | the pairs are the paragraphs at equal indices, as many as the shorter document has |
| `Comparison.CompareLength` | app.py:83-88 | the report has one paragraph per compared pair plus one per differing pair |
| `Comparison.CompareBounds` | app.py:83-88 | the report's length lies between min(len1, len2) and 2 * min(len1, len2) |
| `Comparison.CompareEmpty` | app.py:83 | the report is empty when either document is |
| `Comparison.CompareShortestIff` | app.py:83-88 | the report has exactly min(len1, len2) paragraphs if and only if the documents agree on every compared index |
| `Comparison.CompareTruncates` | app.py:83 | the report depends only on the first min(len1, len2) paragraphs of each document |
| `Comparison.CompareAt` | app.py:82-88 | for each compared index, its paragraphs come after those of all earlier indices and before those of all later ones; an equal pair contributes its text uncoloured, a differing pair `Document 1: ` + first text in (255, 0, 0) immediately followed by `Document 2: ` + second text in (0, 255, 0) |
| `Comparison.CompareIdentical` | app.py:83-88 | comparing a document with itself gives its texts, uncoloured, in order |
| `Comparison.HelloWorldExample` | app.py:83-88 | `[Hello, World]` against `[Hello, Earth]` gives `Hello`, then `Document 1: World` in red, then `Document 2: Earth` in green |
| `Comparison.EmptyFirstExample` | app.py:83 | an empty first document gives an empty report |
| `Comparison.TailIgnoredExample` | app.py:83 | a 3-paragraph document against a 5-paragraph one: the last two paragraphs of the longer never change the report |
| `UploadSweep.UploadFolder.constructor` | app.py:96 | the folder holds the given entries |
| `UploadSweep.UploadFolder.IsFile` | app.py:98 | `os.path.isfile` on the modelled folder: the name is present and its entry is a regular file |
| `UploadSweep.UploadFolder.Remove` | app.py:101 | deleting a regular file removes exactly that entry |
| `UploadSweep.UploadFolder.Clean` | app.py:94-101 | after one sweep at time `now` the folder is `Swept` of what it held before |
| `UploadSweep.Expired` | app.py:98-100 | an entry is expired when it is a regular file and now - mtime > `FileLifetime` |
| `UploadSweep.Swept` | app.py:96-101 | the folder without its expired entries; its properties are the `Swept*` lemmas below |
| `UploadSweep.SweptExactly` | app.py:98-100 | an entry is gone after the sweep if and only if it is a regular file with now - mtime > 86400; every survivor is unchanged |
| `UploadSweep.SweptSubset` | app.py:96-101 | the sweep adds no entry |
| `UploadSweep.SweptIdempotent` | app.py:96-101 | a second sweep at the same time removes nothing more |
| `UploadSweep.SweptLater` | app.py:96-101 | a later sweep removes at least what an earlier one would, and an earlier sweep followed by a later one equals the later sweep alone |
| `UploadSweep.SweepExamples` | app.py:34 | a file 25 hours old is removed; files 23 or exactly 24 hours old stay; a directory stays whatever its age |

## Left out

- HTTP routing and request handling (`upload_files`, `result`, `uploaded_file`, `shutdown_server`): request plumbing around the calls to `allowed_file` and `compare_documents`. It covers the checks that both files are present, named and non-empty; the flash messages and redirects; the fixed report name `relatorio_diferencas.docx`; the form-field branches of the result page; and the shutdown hook, which raises `RuntimeError` when it is missing.
- `secure_filename`, `send_from_directory` and the `print` after each deletion: foreign library calls and output.
- Parsing and saving `.docx` files (`Document(...)`, `output_doc.save`): a document is its sequence of paragraph texts, and `CompareDocuments` returns the paragraphs that would be saved.
- The background scheduler that runs the sweep every 24 hours, and process start-up: timer and concurrency machinery. One sweep pass is modelled, and the current time is a parameter.
- Floating-point clock and modification times: timestamps are whole seconds.
- Failures of `os.remove` and concurrent changes to the folder during a sweep: the code does not handle them, and in the model a file that was just listed is still present.
- `Extension.Lower`: lower-cases ASCII letters only, where Python's `str.lower` covers all of Unicode. No non-ASCII character lower-cases to `d`, `o`, `c` or `x`, so the set of accepted names is the same.
- Styles other than the font colour, and page layout: the code sets none of them.
- `MAX_CONTENT_LENGTH` and the upload folder's name: they only configure the web framework and the file paths.
