/**
 * The structure resolution of the EPUB reader: locating the package document
 * through `META-INF/container.xml`, reading its metadata, following the
 * first spine entry to its manifest item and the archive entry it names, and
 * assembling the record with a sanitised preview.
 *
 * The zip archive is a map from entry path to decoded text, and the XML
 * parser is the parameter `parse`; both are outside this model.  Every
 * exception that the reader's `try` block catches becomes `None`.
 */
module EpubReader {
  import opened Wrappers
  import opened Dom
  import PosixPath
  import Sanitizer

  /** The opened archive: entry path to the entry's text. */
  type Archive = map<string, string>

  const ContainerPath: string := "META-INF/container.xml"

  const NoValidChapters: string := "No valid chapters found."
  const TextFileNotFound: string := "Text file not found in EPUB."

  const TitleTag: string := "dc:title"
  const CreatorTag: string := "dc:creator"
  const LanguageTag: string := "dc:language"

  const UnknownTitle: string := "Unknown Title"
  const UnknownAuthor: string := "Unknown Author"
  const UnknownLanguage: string := "Unknown Language"

  datatype Metadata = Metadata(title: string, author: string, language: string)

  /** The reader's result: the metadata fields plus the preview text. */
  datatype EpubRecord = EpubRecord(title: string, author: string, language: string, previewText: string)

  /** Where the first spine entry leads. */
  datatype Resolution =
    | NoChapters          // no spine, no itemref in it, or an empty idref
    | ManifestMissing     // an idref but no manifest: the manifest loop throws
    | NotFound            // no manifest item with that id, or its href is empty
    | Chapter(path: string)

  // ---------------------------------------------------------------------
  // Container locator

  /** `parseContainerXML`: the `full-path` of the first `rootfile`, or null. */
  function ParseContainer(container: Document): (r: Option<string>)
    ensures r.None? <==>
            forall k :: 0 <= k < |Descendants(container)| ==> Descendants(container)[k].tag != "rootfile"
  {
    FirstByTagAbsent(container, "rootfile");
    match FirstByTag(container, "rootfile")
    case None => None
    case Some(rootfile) => Some(Attr(rootfile, "full-path"))
  }

  /**
   * The package document's path as the orchestrator accepts it: the
   * container entry must exist (reading a missing entry throws), and a null
   * or empty path is rejected.
   */
  function LocatePackage(archive: Archive, parse: string -> Document): (r: Option<string>)
    ensures r.Some? ==> r.value != "" && ContainerPath in archive
    ensures r.Some? ==> ParseContainer(parse(archive[ContainerPath])) == Some(r.value)
    ensures ContainerPath in archive && ParseContainer(parse(archive[ContainerPath])).Some? &&
            ParseContainer(parse(archive[ContainerPath])).value != "" ==>
              r == ParseContainer(parse(archive[ContainerPath]))
  {
    if ContainerPath !in archive then None
    else
      match ParseContainer(parse(archive[ContainerPath]))
      case None => None
      case Some(path) => if path == "" then None else Some(path)
  }

  // ---------------------------------------------------------------------
  // Metadata

  /** `doc.getElementsByTagName(tag)[0]?.textContent || placeholder`. */
  function Field(doc: Document, tag: string, placeholder: string): (r: string)
    ensures placeholder != "" ==> r != ""
  {
    match FirstByTag(doc, tag)
    case Some(e) => if e.text != "" then e.text else placeholder
    case None => placeholder
  }

  /** `extractMetadata`: every field is present, defaulted when missing or empty. */
  function ExtractMetadata(opf: Document): (m: Metadata)
    ensures m.title != "" && m.author != "" && m.language != ""
  {
    Metadata(
      Field(opf, TitleTag, UnknownTitle),
      Field(opf, CreatorTag, UnknownAuthor),
      Field(opf, LanguageTag, UnknownLanguage))
  }

  // ---------------------------------------------------------------------
  // Reference resolution

  /** The first `itemref` inside the first `spine`, if both exist. */
  function FirstItemRef(opf: Document): Option<Element>
  {
    match FirstByTag(opf, "spine")
    case None => None
    case Some(spine) => FirstByTag(spine.children, "itemref")
  }

  /** The `item` elements of the first `manifest`; None when there is no manifest. */
  function ManifestItems(opf: Document): Option<seq<Element>>
  {
    match FirstByTag(opf, "manifest")
    case None => None
    case Some(manifest) => Some(ElementsByTag(manifest.children, "item"))
  }

  /** The `href` of the first item, in order, whose `id` is `idref`. */
  function LookupHref(items: seq<Element>, idref: string): (r: Option<string>)
    ensures r.None? <==> forall k :: 0 <= k < |items| ==> Attr(items[k], "id") != idref
  {
    if |items| == 0 then None
    else if Attr(items[0], "id") == idref then Some(Attr(items[0], "href"))
    else LookupHref(items[1..], idref)
  }

  /** `s.replace(/\\/g, "/")`. */
  function ReplaceBackslashes(s: string): (r: string)
    ensures |r| == |s|
    ensures forall k :: 0 <= k < |r| ==> r[k] != '\\'
    ensures forall k :: 0 <= k < |r| && s[k] != '\\' ==> r[k] == s[k]
    ensures forall k :: 0 <= k < |r| && s[k] == '\\' ==> r[k] == '/'
  {
    seq(|s|, k requires 0 <= k < |s| => if s[k] == '\\' then '/' else s[k])
  }

  /** The archive path of `href`, relative to the folder of the package document. */
  function ResolveHref(opfPath: string, href: string): string
  {
    ReplaceBackslashes(PosixPath.Join(PosixPath.Dirname(opfPath), href))
  }

  /** The spine → manifest → path steps of `extractPreviewText`. */
  function ResolveFirstChapter(opf: Document, opfPath: string): Resolution
  {
    match FirstItemRef(opf)
    case None => NoChapters
    case Some(itemref) =>
      var idref := Attr(itemref, "idref");
      if idref == "" then NoChapters
      else
        match ManifestItems(opf)
        case None => ManifestMissing
        case Some(items) =>
          match LookupHref(items, idref)
          case None => NotFound
          case Some(href) => if href == "" then NotFound else Chapter(ResolveHref(opfPath, href))
  }

  /** `extractPreviewText`; None when it throws. */
  function PreviewText(archive: Archive, opf: Document, opfPath: string): Option<string>
  {
    match ResolveFirstChapter(opf, opfPath)
    case NoChapters => Some(NoValidChapters)
    case ManifestMissing => None
    case NotFound => Some(TextFileNotFound)
    case Chapter(path) =>
      if path in archive then Some(Sanitizer.Sanitize(archive[path])) else Some(TextFileNotFound)
  }

  /**
   * `extractPreviewText` statement by statement, with the manifest scan as
   * the source's loop; None stands for the exception thrown when there is no
   * manifest.
   */
  method ExtractPreviewText(archive: Archive, opf: Document, opfPath: string) returns (preview: Option<string>)
    ensures preview == PreviewText(archive, opf, opfPath)
  {
    var firstItemRef := FirstItemRef(opf);
    if firstItemRef.None? {
      return Some(NoValidChapters);
    }
    var firstIdRef := Attr(firstItemRef.value, "idref");
    if firstIdRef == "" {
      return Some(NoValidChapters);
    }
    var items := ManifestItems(opf);
    if items.None? {
      return None;
    }
    var firstFilePath: Option<string> := None;
    var i := 0;
    while i < |items.value|
      invariant 0 <= i <= |items.value|
      invariant firstFilePath.None?
      invariant forall j :: 0 <= j < i ==> Attr(items.value[j], "id") != firstIdRef
    {
      if Attr(items.value[i], "id") == firstIdRef {
        firstFilePath := Some(Attr(items.value[i], "href"));
        LookupHrefFirstMatch(items.value, firstIdRef, i);
        break;
      }
      i := i + 1;
    }
    assert firstFilePath == LookupHref(items.value, firstIdRef);
    if firstFilePath.None? || firstFilePath.value == "" {
      return Some(TextFileNotFound);
    }
    var baseFolder := PosixPath.Dirname(opfPath);
    var resolvedPath := ReplaceBackslashes(PosixPath.Join(baseFolder, firstFilePath.value));
    if resolvedPath !in archive {
      return Some(TextFileNotFound);
    }
    var rawHtml := archive[resolvedPath];
    var strippedText := Sanitizer.StripTags(rawHtml);
    preview := Some(Sanitizer.Truncate(strippedText));
  }

  // ---------------------------------------------------------------------
  // Orchestrator

  /** `extractEPUB`: the record, or None when any step throws or no package is found. */
  function Extract(archive: Archive, parse: string -> Document): Option<EpubRecord>
  {
    match LocatePackage(archive, parse)
    case None => None
    case Some(opfPath) =>
      if opfPath !in archive then None
      else
        var opf := parse(archive[opfPath]);
        var meta := ExtractMetadata(opf);
        match PreviewText(archive, opf, opfPath)
        case None => None
        case Some(preview) => Some(EpubRecord(meta.title, meta.author, meta.language, preview))
  }

  // ---------------------------------------------------------------------
  // Lemmas

  /** The manifest lookup answers with the first item whose id matches; later ones are never consulted. */
  lemma {:induction false} LookupHrefFirstMatch(items: seq<Element>, idref: string, k: nat)
    requires k < |items| && Attr(items[k], "id") == idref
    requires forall j :: 0 <= j < k ==> Attr(items[j], "id") != idref
    ensures LookupHref(items, idref) == Some(Attr(items[k], "href"))
  {
    if k > 0 {
      LookupHrefFirstMatch(items[1..], idref, k - 1);
    }
  }

  /** The located package path is the `full-path` of the earliest `rootfile` in document order. */
  lemma ParseContainerFirstRootfile(container: Document, k: nat)
    requires k < |Descendants(container)| && Descendants(container)[k].tag == "rootfile"
    requires forall j :: 0 <= j < k ==> Descendants(container)[j].tag != "rootfile"
    ensures ParseContainer(container) == Some(Attr(Descendants(container)[k], "full-path"))
  {
    FirstByTagIsEarliest(container, "rootfile", k);
  }

  /**
   * Without a container entry, without a `rootfile`, or with an empty or
   * missing `full-path` on the first `rootfile`, extraction returns null.
   */
  lemma ExtractNullWithoutPackagePath(archive: Archive, parse: string -> Document)
    requires ContainerPath !in archive ||
             ParseContainer(parse(archive[ContainerPath])).None? ||
             ParseContainer(parse(archive[ContainerPath])) == Some("")
    ensures Extract(archive, parse).None?
  {
  }

  /**
   * A container naming a non-empty path to a package document in the archive
   * yields a record unless the manifest loop throws.
   */
  lemma ExtractRecordWhenPackageFound(archive: Archive, parse: string -> Document)
    requires ContainerPath in archive
    requires ParseContainer(parse(archive[ContainerPath])).Some?
    requires var p := ParseContainer(parse(archive[ContainerPath])).value;
             p != "" && p in archive && !ManifestLoopThrows(parse(archive[p]))
    ensures Extract(archive, parse).Some?
  {
    ExtractNullExactlyWhen(archive, parse);
  }

  /** Extraction throws in the manifest loop: an idref to look up, but no manifest. */
  predicate ManifestLoopThrows(opf: Document)
  {
    FirstItemRef(opf).Some? && Attr(FirstItemRef(opf).value, "idref") != "" &&
    FirstByTag(opf, "manifest").None?
  }

  /**
   * Extraction returns null exactly when there is no usable package path,
   * the package document is not an entry of the archive, or the manifest
   * loop throws; every other outcome is a record.
   */
  lemma ExtractNullExactlyWhen(archive: Archive, parse: string -> Document)
    ensures Extract(archive, parse).None? <==>
            (|| LocatePackage(archive, parse).None?
             || LocatePackage(archive, parse).value !in archive
             || ManifestLoopThrows(parse(archive[LocatePackage(archive, parse).value])))
  {
    if LocatePackage(archive, parse).Some? {
      var opfPath := LocatePackage(archive, parse).value;
      if opfPath in archive {
        var opf := parse(archive[opfPath]);
        PreviewNullExactlyWhen(archive, opf, opfPath);
      }
    }
  }

  /** The preview step throws exactly when the manifest loop does. */
  lemma PreviewNullExactlyWhen(archive: Archive, opf: Document, opfPath: string)
    ensures PreviewText(archive, opf, opfPath).None? <==> ManifestLoopThrows(opf)
  {
  }

  /** A record carries the package document's metadata and the preview of its first chapter. */
  lemma ExtractRecordFields(archive: Archive, parse: string -> Document)
    requires Extract(archive, parse).Some?
    ensures LocatePackage(archive, parse).Some?
    ensures var opfPath := LocatePackage(archive, parse).value;
            var opf := parse(archive[opfPath]);
            var r := Extract(archive, parse).value;
            && opfPath in archive
            && r.title == Field(opf, TitleTag, UnknownTitle)
            && r.author == Field(opf, CreatorTag, UnknownAuthor)
            && r.language == Field(opf, LanguageTag, UnknownLanguage)
            && PreviewText(archive, opf, opfPath) == Some(r.previewText)
  {
  }

  /**
   * Chapter entries affect only the preview: two archives that agree on the
   * container entry and on the package document give records with the same
   * title, author and language, and fail together.
   */
  lemma MetadataIndependentOfChapters(a1: Archive, a2: Archive, parse: string -> Document)
    requires ContainerPath in a1 <==> ContainerPath in a2
    requires ContainerPath in a1 ==> a1[ContainerPath] == a2[ContainerPath]
    requires LocatePackage(a1, parse).Some? ==>
               var p := LocatePackage(a1, parse).value;
               (p in a1 <==> p in a2) && (p in a1 ==> a1[p] == a2[p])
    ensures Extract(a1, parse).Some? <==> Extract(a2, parse).Some?
    ensures Extract(a1, parse).Some? ==>
              && Extract(a1, parse).value.title == Extract(a2, parse).value.title
              && Extract(a1, parse).value.author == Extract(a2, parse).value.author
              && Extract(a1, parse).value.language == Extract(a2, parse).value.language
  {
    assert LocatePackage(a1, parse) == LocatePackage(a2, parse);
    ExtractNullExactlyWhen(a1, parse);
    ExtractNullExactlyWhen(a2, parse);
  }

  // Metadata fields

  /** A field is the text of the earliest element with its tag when that text is non-empty, else the placeholder. */
  lemma FieldIsFirstText(doc: Document, tag: string, placeholder: string, k: nat)
    requires k < |Descendants(doc)| && Descendants(doc)[k].tag == tag
    requires forall j :: 0 <= j < k ==> Descendants(doc)[j].tag != tag
    ensures Field(doc, tag, placeholder) ==
            if Descendants(doc)[k].text != "" then Descendants(doc)[k].text else placeholder
  {
    FirstByTagIsEarliest(doc, tag, k);
  }

  /** A field whose tag occurs nowhere is its placeholder. */
  lemma FieldAbsent(doc: Document, tag: string, placeholder: string)
    requires forall k :: 0 <= k < |Descendants(doc)| ==> Descendants(doc)[k].tag != tag
    ensures Field(doc, tag, placeholder) == placeholder
  {
    FirstByTagAbsent(doc, tag);
  }

  /**
   * A field depends only on the elements carrying its own tag: documents
   * that agree on those agree on the field, whatever else they hold.
   */
  lemma FieldDependsOnlyOnItsTag(d1: Document, d2: Document, tag: string, placeholder: string)
    requires Matching(Descendants(d1), tag) == Matching(Descendants(d2), tag)
    ensures Field(d1, tag, placeholder) == Field(d2, tag, placeholder)
  {
    ElementsByTagInDocumentOrder(d1, tag);
    ElementsByTagInDocumentOrder(d2, tag);
  }

  // Preview outcomes

  /** No spine, no itemref in the first spine, or an empty idref: "No valid chapters found.". */
  lemma PreviewWithoutChapters(archive: Archive, opf: Document, opfPath: string)
    requires FirstItemRef(opf).None? || Attr(FirstItemRef(opf).value, "idref") == ""
    ensures PreviewText(archive, opf, opfPath) == Some(NoValidChapters)
  {
  }

  /** The first itemref is missing exactly when there is no spine or the first spine holds no itemref. */
  lemma FirstItemRefAbsent(opf: Document)
    ensures FirstItemRef(opf).None? <==>
            || (forall k :: 0 <= k < |Descendants(opf)| ==> Descendants(opf)[k].tag != "spine")
            || (&& FirstByTag(opf, "spine").Some?
                && var spine := FirstByTag(opf, "spine").value;
                   forall k :: 0 <= k < |Descendants(spine.children)| ==> Descendants(spine.children)[k].tag != "itemref")
  {
    FirstByTagAbsent(opf, "spine");
    if FirstByTag(opf, "spine").Some? {
      FirstByTagAbsent(FirstByTag(opf, "spine").value.children, "itemref");
    }
  }

  /** An idref that no manifest item carries gives "Text file not found in EPUB.". */
  lemma PreviewWithoutManifestMatch(archive: Archive, opf: Document, opfPath: string)
    requires FirstItemRef(opf).Some? && Attr(FirstItemRef(opf).value, "idref") != ""
    requires ManifestItems(opf).Some?
    requires forall k :: 0 <= k < |ManifestItems(opf).value| ==>
               Attr(ManifestItems(opf).value[k], "id") != Attr(FirstItemRef(opf).value, "idref")
    ensures PreviewText(archive, opf, opfPath) == Some(TextFileNotFound)
  {
  }

  /**
   * With the first matching manifest item at position k: an empty href, or a
   * resolved path that is not an archive entry, gives "Text file not found
   * in EPUB."; otherwise the preview is the sanitised text of that entry.
   */
  lemma PreviewFollowsFirstMatch(archive: Archive, opf: Document, opfPath: string, k: nat)
    requires FirstItemRef(opf).Some? && Attr(FirstItemRef(opf).value, "idref") != ""
    requires ManifestItems(opf).Some?
    requires var items := ManifestItems(opf).value;
             var idref := Attr(FirstItemRef(opf).value, "idref");
             k < |items| && Attr(items[k], "id") == idref &&
             forall j :: 0 <= j < k ==> Attr(items[j], "id") != idref
    ensures var href := Attr(ManifestItems(opf).value[k], "href");
            var path := ResolveHref(opfPath, href);
            PreviewText(archive, opf, opfPath) ==
              if href == "" || path !in archive then Some(TextFileNotFound)
              else Some(Sanitizer.Sanitize(archive[path]))
  {
    LookupHrefFirstMatch(ManifestItems(opf).value, Attr(FirstItemRef(opf).value, "idref"), k);
  }

  // Path resolution

  /** The resolved path never contains a backslash. */
  lemma ResolvedPathHasNoBackslash(opfPath: string, href: string)
    ensures forall k :: 0 <= k < |ResolveHref(opfPath, href)| ==> ResolveHref(opfPath, href)[k] != '\\'
  {
  }

  lemma ReplaceBackslashesWithoutBackslash(s: string)
    requires '\\' !in s
    ensures ReplaceBackslashes(s) == s
  {
  }

  /**
   * Without backslashes in the inputs, the resolved path is the normalised
   * join itself: no "." segment, no empty segment except a leading one
   * (absolute path) or a trailing one (trailing '/'), and every ".." before
   * every name; the only exceptions are the bare results ".", "./" and "/".
   */
  lemma ResolvedPathShape(opfPath: string, href: string)
    requires '\\' !in opfPath && '\\' !in href && href != ""
    ensures var r := ResolveHref(opfPath, href);
            var parts := PosixPath.Split(r);
            r == "." || r == "./" || r == "/" ||
            (&& (forall i :: 0 <= i < |parts| ==> parts[i] != ".")
             && (forall i :: 0 < i < |parts| - 1 ==> parts[i] != "")
             && (forall i, j :: 0 <= i < j < |parts| && parts[j] == ".." ==> parts[i] == ".."))
  {
    var dir := PosixPath.Dirname(opfPath);
    assert '\\' !in dir by {
      if !(dir == "." || dir == "/" || dir == "//") {
        assert dir == opfPath[..|dir|];
      }
    }
    var joined := dir + "/" + href;
    assert '\\' !in joined;
    PosixPath.NormalizeKeepsOut(joined, '\\');
    ReplaceBackslashesWithoutBackslash(PosixPath.Join(dir, href));
    PosixPath.NormalizedShape(joined);
  }

  /** An href is resolved against the package document's folder, not the archive root. */
  lemma ResolveHrefUnderPackageFolder(dir: string, file: string, href: string)
    requires PosixPath.IsPlain(dir) && PosixPath.IsPlain(href)
    requires file != "" && '/' !in file
    requires '\\' !in dir && '\\' !in href
    ensures ResolveHref(dir + "/" + file, href) == dir + "/" + href
  {
    PosixPath.SplitFirstEmpty(dir);
    assert dir != "" && dir[0] != '/' by {
      assert PosixPath.Split(dir)[0] != "";
    }
    PosixPath.DirnameOfNested(dir, file);
    PosixPath.JoinPlain(dir, href);
    ReplaceBackslashesWithoutBackslash(dir + "/" + href);
  }

  /** A package document at the top of the archive resolves a relative href to the normalised href itself. */
  lemma ResolveHrefAtRoot(file: string, href: string)
    requires file != "" && '/' !in file
    requires href != "" && href[0] != '/'
    ensures ResolveHref(file, href) == ReplaceBackslashes(PosixPath.Normalize(href))
  {
    PosixPath.DirnameOfTopLevel(file);
    PosixPath.JoinOntoDot(href);
  }

  /**
   * A package document at the top of the archive drops the leading '/' of an
   * href: joining onto "." makes every href relative.
   */
  lemma ResolveHrefAtRootDropsSlash(file: string, href: string)
    requires file != "" && '/' !in file
    requires href != ""
    ensures ResolveHref(file, "/" + href) == ResolveHref(file, href)
  {
    PosixPath.DirnameOfTopLevel(file);
    PosixPath.JoinOntoDotDropsRoot(href);
  }

  /** A leading ".." in the href cancels the innermost folder of the package document. */
  lemma ResolveHrefParent(dir: string, name: string, file: string, href: string)
    requires dir != "" && dir != "/"
    requires PosixPath.IsName(name)
    requires file != "" && '/' !in file
    requires href != ""
    ensures ResolveHref(dir + "/" + name + "/" + file, "../" + href) == ResolveHref(dir + "/" + file, href)
  {
    PosixPath.DirnameOfNested(dir + "/" + name, file);
    PosixPath.DirnameOfNested(dir, file);
    PosixPath.JoinCancelsParent(dir, name, href);
  }

  /**
   * A leading ".." in the href of a package document one folder deep climbs
   * to the archive root: the href resolves as if the package document sat at
   * the top.
   */
  lemma ResolveHrefParentAtTop(name: string, file: string, href: string)
    requires PosixPath.IsName(name)
    requires file != "" && '/' !in file
    requires href != ""
    ensures ResolveHref(name + "/" + file, "../" + href) == ResolveHref(file, href)
  {
    PosixPath.DirnameOfNested(name, file);
    PosixPath.DirnameOfTopLevel(file);
    PosixPath.JoinNameCancelsParent(name, href);
  }

  /** The example below, over its path pieces. */
  lemma ResolveHrefExamplePieces(dir: string, file: string, sub: string, name: string)
    requires dir == "OEBPS" && file == "content.opf" && sub == "text" && name == "ch1.xhtml"
    ensures ResolveHref(dir + "/" + file, sub + "/" + name) == dir + "/" + sub + "/" + name
  {
    PosixPath.SplitName(dir);
    PosixPath.SplitName(name);
    PosixPath.SplitAfterName(sub, name);
    ResolveHrefUnderPackageFolder(dir, file, sub + "/" + name);
  }

  /** `OEBPS/content.opf` with href `text/ch1.xhtml` resolves to `OEBPS/text/ch1.xhtml`. */
  lemma ResolveHrefExample()
    ensures ResolveHref("OEBPS/content.opf", "text/ch1.xhtml") == "OEBPS/text/ch1.xhtml"
  {
    ResolveHrefExamplePieces("OEBPS", "content.opf", "text", "ch1.xhtml");
    assert "OEBPS" + "/" + "content.opf" == "OEBPS/content.opf";
    assert "text" + "/" + "ch1.xhtml" == "text/ch1.xhtml";
    assert "OEBPS" + "/" + "text" + "/" + "ch1.xhtml" == "OEBPS/text/ch1.xhtml";
  }
}
