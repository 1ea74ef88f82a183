# EPUB structure resolution in Dafny

This project models how the EPUB reader in `src/epub_reader.ts` turns an
opened EPUB archive into a record of title, author, language and a text
preview:

- the **container locator** reads `META-INF/container.xml` and takes the
  `full-path` of its first `rootfile` element as the package document (OPF)
  path;
- **metadata extraction** takes the text of the first `dc:title`,
  `dc:creator` and `dc:language` elements of the package document, with a
  fixed placeholder for each one that is missing or empty;
- **reference resolution** follows the first `itemref` of the first `spine`
  to the first manifest `item` with the same `id`, and resolves its `href`
  against the package document's folder with POSIX `path.dirname` and
  `path.join`, then turns every `\` into `/`;
- the **sanitiser** removes, left to right, every match of `<[^>]+>` and
  keeps the first 5000 characters;
- the **orchestrator** `extractEPUB` chains these steps, and any exception
  caught by its `try` block becomes a null result.

The Open Container Format and Open Packaging Format give the layout: the
`rootfile@full-path` of `container.xml`, and the OPF `manifest`/`item` and
`spine`/`itemref` elements.

The modules are:

- `Dom` (`dom.dfy`) is the parsed XML. A document is a sequence of element
  trees, each with a tag, an attribute map and its text content.
  `getElementsByTagName` is the pre-order walk of the descendants.
  `getAttribute` gives `""` for a missing attribute, as xmldom does.
- `PosixPath` (`posix_path.dfy`) holds Node's POSIX `dirname`, `normalize`
  and `join`.
- `Sanitizer` (`sanitizer.dfy`) holds the tag strip and the truncation.
- `EpubReader` (`epub_reader.dfy`) holds the locator, the metadata, the
  reference resolution, and the manifest scan as a method with the source's
  `for` loop and `break`. It also holds the orchestrator as a pipeline over
  `Option`.

The archive is a map from entry path to entry text. The XML parser is the
function parameter `parse`. `None` stands for every exception the
orchestrator catches. Three cases are modelled:

- a missing `META-INF/container.xml` entry;
- a package path that is not an archive entry;
- a first `idref` to look up when there is no `manifest`, where
  `items.length` throws at :76.

Three outcomes of the code are worth spelling out:

- an idref that no manifest item carries leaves `firstFilePath` null, so
  :83 returns "Text file not found in EPUB.";
- with no `manifest`, `items` is undefined, `items.length` throws at :76,
  and :35-37 turn the whole result into null;
- the preview keeps 5000 characters (:94), although the comment at :31
  says 500.

The source functions map to these members:

- `extractEPUB` (:12-39) is `EpubReader.Extract`; its locator step
  (:19-26) is `EpubReader.LocatePackage`;
- `parseContainerXML` (:42-46) is `EpubReader.ParseContainer`;
- `extractMetadata` (:49-59) is `EpubReader.ExtractMetadata`, one
  `EpubReader.Field` per tag;
- `extractPreviewText` (:61-95) is the method
  `EpubReader.ExtractPreviewText`, proved equal to the function
  `EpubReader.PreviewText`; its spine and manifest steps are
  `EpubReader.FirstItemRef`, `EpubReader.ManifestItems`,
  `EpubReader.LookupHref` and `EpubReader.ResolveFirstChapter`;
- the path resolution of :86-87 is `EpubReader.ResolveHref`, built from
  `PosixPath.Dirname`, `PosixPath.Join` (with `PosixPath.Normalize`) and
  `EpubReader.ReplaceBackslashes`;
- the tag strip of :93 is `Sanitizer.StripTags` (one match at a time by
  `Sanitizer.TagLength`), and the cut of :94 is `Sanitizer.Truncate`,
  both together `Sanitizer.Sanitize`;
- `getElementsByTagName(tag)` is `Dom.ElementsByTag`, and its `[0]` is
  `Dom.FirstByTag`.

## Model

| member | source | states |
|---|---|---|
| Dom.ElementsByTagInDocumentOrder | src/epub_reader.ts:73 | `getElementsByTagName` over a tree lists exactly the descendants carrying the tag, in document (pre-order) order |
| Dom.FirstByTagIsEarliest | src/epub_reader.ts:44 | `getElementsByTagName(tag)[0]` is the earliest descendant in document order that carries the tag |
| Dom.FirstByTagAbsent | src/epub_reader.ts:44-45 | `getElementsByTagName(tag)[0]` is undefined exactly when no descendant carries the tag |
| EpubReader.ParseContainer | src/epub_reader.ts:42-46 | the container yields no path exactly when it has no `rootfile` element at all |
| EpubReader.ParseContainerFirstRootfile | src/epub_reader.ts:42-46 | the located path is the `full-path` of the first `rootfile` in document order |
| EpubReader.LocatePackage | src/epub_reader.ts:19-26 | a package path is accepted exactly when the container entry exists and its first `rootfile` names a non-empty `full-path`, and the accepted path is that one |
| EpubReader.ExtractRecordWhenPackageFound | src/epub_reader.ts:19-34 | a container naming a non-empty package path that is an archive entry yields a record unless the manifest loop throws |
| EpubReader.ExtractNullWithoutPackagePath | src/epub_reader.ts:19-26 | with no container entry, no `rootfile`, or an empty or missing `full-path`, extraction returns null |
| EpubReader.Field | src/epub_reader.ts:55-57 | a field defaulted with a non-empty placeholder is never empty |
| EpubReader.ExtractMetadata | src/epub_reader.ts:54-58 | title, author and language are all non-empty |
| EpubReader.FieldIsFirstText | src/epub_reader.ts:55-57 | a field is the text of the first element with its tag when that text is non-empty, else its placeholder |
| EpubReader.FieldAbsent | src/epub_reader.ts:55-57 | a field whose tag occurs nowhere is its placeholder ("Unknown Title", "Unknown Author", "Unknown Language") |
| EpubReader.FieldDependsOnlyOnItsTag | src/epub_reader.ts:54-58 | two documents with the same elements of a tag give the same field for that tag, whatever else they hold |
| EpubReader.FirstItemRefAbsent | src/epub_reader.ts:66-67 | the first itemref is missing exactly when there is no `spine`, or the first `spine` holds no `itemref` |
| EpubReader.PreviewWithoutChapters | src/epub_reader.ts:66-70 | no spine, no itemref in it, or an empty idref gives "No valid chapters found." |
| EpubReader.LookupHref | src/epub_reader.ts:74-81 | the manifest lookup finds nothing exactly when no item carries the idref as its `id` |
| EpubReader.LookupHrefFirstMatch | src/epub_reader.ts:76-81 | the lookup answers with the href of the first item in order whose id matches; later items with the same id are never consulted |
| EpubReader.ExtractPreviewText | src/epub_reader.ts:61-94 | the statement-by-statement preview step, with the manifest `for` loop and its `break`, computes exactly the preview of the reference-resolution model |
| EpubReader.PreviewWithoutManifestMatch | src/epub_reader.ts:74-83 | an idref no manifest item carries gives "Text file not found in EPUB." |
| EpubReader.PreviewFollowsFirstMatch | src/epub_reader.ts:76-94 | with the first matching item known: an empty href or a resolved path outside the archive gives "Text file not found in EPUB.", otherwise the preview is the sanitised text of that entry |
| EpubReader.PreviewNullExactlyWhen | src/epub_reader.ts:73-76 | the preview step throws exactly when there is an idref to look up and no `manifest` |
| EpubReader.ReplaceBackslashes | src/epub_reader.ts:87 | replacing backslashes keeps the length, turns every `\` into `/`, and keeps every other character in place |
| EpubReader.ResolvedPathHasNoBackslash | src/epub_reader.ts:87 | the resolved path never contains `\` |
| EpubReader.ResolvedPathShape | src/epub_reader.ts:86-87 | the resolved path has no `.` segment, no empty segment except a leading or trailing one, and every `..` before every name (bare ".", "./" and "/" aside) |
| EpubReader.ResolveHrefUnderPackageFolder | src/epub_reader.ts:86-87 | an href is resolved inside the package document's folder: `dir/file` with `href` gives `dir/href` for plain relative paths without `\` |
| EpubReader.ResolveHrefExample | src/epub_reader.ts:86-87 | `OEBPS/content.opf` with href `text/ch1.xhtml` gives `OEBPS/text/ch1.xhtml` |
| EpubReader.ResolveHrefAtRoot | src/epub_reader.ts:86-87 | a package document at the archive root resolves a relative href (one not starting with `/`) to the normalised href itself |
| EpubReader.ResolveHrefAtRootDropsSlash | src/epub_reader.ts:86-87 | a package document at the archive root drops a leading `/` of the href: `/h` resolves as `h` does |
| EpubReader.ResolveHrefParent | src/epub_reader.ts:86-87 | a leading `..` in the href cancels the innermost folder of a package document two or more folders deep |
| EpubReader.ResolveHrefParentAtTop | src/epub_reader.ts:86-87 | for a package document one folder deep (`OEBPS/content.opf`), `../href` resolves as `href` does from the archive root |
| EpubReader.ExtractNullExactlyWhen | src/epub_reader.ts:12-39 | extraction is null exactly when no usable package path is found, the package document is not an archive entry, or the manifest loop throws |
| EpubReader.ExtractRecordFields | src/epub_reader.ts:29-34 | a record carries the package document's three metadata fields and the preview of its first chapter |
| EpubReader.MetadataIndependentOfChapters | src/epub_reader.ts:29-34 | archives that agree on the container and the package document fail together and give the same title, author and language, whatever their chapter entries hold |
| PosixPath.Dirname | src/epub_reader.ts:86 | `path.dirname` gives ".", "/", "//" or a proper prefix of its argument |
| PosixPath.DirnameOfNested | src/epub_reader.ts:86 | the folder of `dir/file` is `dir` |
| PosixPath.DirnameOfTopLevel | src/epub_reader.ts:86 | the folder of a bare file name is "." |
| PosixPath.NormalizedShape | src/epub_reader.ts:87 | apart from the bare results ".", "./" and "/", a normalised path has no `.` segment, no inner empty segment, all `..` leading, and none at all when absolute |
| PosixPath.NormalizeIdempotent | src/epub_reader.ts:87 | normalising a normalised path changes nothing |
| PosixPath.NormalizeKeepsOut | src/epub_reader.ts:87 | normalisation introduces no character other than `/` and `.` |
| PosixPath.JoinPlain | src/epub_reader.ts:87 | joining two plain relative paths is putting one `/` between them |
| PosixPath.JoinOntoDot | src/epub_reader.ts:87 | joining onto "." is normalising the relative path itself |
| PosixPath.JoinCancelsParent | src/epub_reader.ts:87 | `join(a/name, "../" + b)` equals `join(a, b)` |
| PosixPath.JoinNameCancelsParent | src/epub_reader.ts:87 | `join(name, "../" + b)` equals `join(".", b)` |
| PosixPath.JoinOntoDotDropsRoot | src/epub_reader.ts:87 | `join(".", "/" + b)` equals `join(".", b)` for a non-empty b |
| Sanitizer.TagLength | src/epub_reader.ts:93 | a match at the head of the text is a `<`, one or more non-`>` characters and a `>`; when there is none, no prefix is one |
| Sanitizer.StripLeavesNoTag | src/epub_reader.ts:93 | after stripping, no `<[^>]+>` match is left anywhere in the text |
| Sanitizer.StripFixedPoint | src/epub_reader.ts:93 | stripping leaves text unchanged exactly when no match occurs in it |
| Sanitizer.StripIdempotent | src/epub_reader.ts:93 | stripping twice is stripping once |
| Sanitizer.StripDeletes | src/epub_reader.ts:93 | the stripped text is the input with some characters deleted and the rest kept in their order |
| Sanitizer.StripKeepsOut | src/epub_reader.ts:93 | a character that does not occur in the input does not occur in the stripped text |
| Sanitizer.UnclosedSurvives | src/epub_reader.ts:93 | text without `>`, including an unclosed `<`, survives stripping whole |
| Sanitizer.EmptyBracketsSurvive | src/epub_reader.ts:93 | an empty `<>` is not a match and survives, and stripping resumes right after it |
| Sanitizer.StripConcat | src/epub_reader.ts:93 | stripping distributes over a concatenation whose left part is self-contained markup |
| Sanitizer.Sanitize | src/epub_reader.ts:93-94 | the preview is a prefix of the stripped text, of length min(5000, length of the stripped text) |
| Sanitizer.SanitizeWithoutMarkup | src/epub_reader.ts:93-94 | text containing no `<` is only truncated to 5000 characters |
| Sanitizer.SanitizeIdempotent | src/epub_reader.ts:93-94 | the preview holds no match, and sanitising it again changes nothing |
| Sanitizer.SanitizeRepeatedParagraph | src/epub_reader.ts:93-94 | a `<p>text<b>text</b></p>` paragraph repeated past 5000 characters of text gives a preview of exactly 5000 characters with no angle bracket |
| Sanitizer.SanitizeRepeatedSample | src/epub_reader.ts:93-94 | `<p>Hello <b>World</b></p>` repeated n times, with 11n at least 5000, gives 5000 characters with no angle bracket |

## Left out

- Reading the file (`fs.readFileSync`), JSZip's `loadAsync` and each entry's `async("text")` decompression are I/O and a foreign library. The archive is given as a map from entry path to text, so their failure paths (an unreadable file, a corrupt zip, an entry that fails to decompress, each turned into null at :35-37) are not represented.
- The xmldom `DOMParser` and XML well-formedness belong to a foreign parser. Parsing is the parameter `parse`, taken as total; a parser that throws is not modelled, and an element's `textContent` is given data.
- `getElementsByTagName` is modelled for exact tag names only; the `"*"` wildcard is never used by the reader and is not modelled.
- `console.log` and `console.error` (:24, :36, :52) are diagnostic output with no effect on the result.
- `async`/`await` sequencing is straight-line here; there is no concurrency to model.
- The kinds of exception are collapsed into one `None`.
- Windows `path` semantics are not modelled; POSIX `path.join` followed by the backslash replacement is what runs on a POSIX host.
- Node's character-by-character `normalizeString` is modelled by its segment semantics (drop `.` and empty segments, let `..` cancel a name, keep leading `..` on relative paths), not by its loop.
- Sanitizer.Sanitize: counts Dafny characters, while JavaScript's `substring` counts UTF-16 code units, so text with characters outside the Basic Multilingual Plane may be cut at a different place.
- EpubReader.ResolvedPathShape: holds only when neither the package path nor the href contains `\`, because the replacement runs after the join and a backslash-separated `..` or `.` is never normalised. It also allows a leading empty segment (absolute path) and a trailing one (trailing `/`), which `path.join` keeps.
- Property keys such as `__proto__` that a JavaScript object lookup (`zip.files[path]`) would find without an archive entry are not modelled; the archive holds only real entries.
