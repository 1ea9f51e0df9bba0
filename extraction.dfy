/** `FileContentExtractor.extract`, `DocumentPipeline.run` and the batch
    driver's de-duplication. The file system and the parsing libraries are
    a `Library` record saying what each of them yields for the file. */
module Extraction {
  import opened Wrappers
  import opened Chars
  import opened Strings
  import opened PathNames
  import NoiseCleaner
  import SegmentMerger
  import opened FilenameTitle
  import opened FormatParsers
  import opened Tokenizer
  import Dedup

  /** What the outside world says about one file. Only the entry for the
      file's own extension is consulted. */
  datatype Library = Library(
    present: bool,                                   // the path exists
    pdf: Result<(seq<string>, string), ParseError>,  // the PDF handler's segments and title
    docx: Result<DocxFile, ParseError>,              // the DOCX reader
    workbook: Result<seq<Sheet>, ParseError>,        // the spreadsheet reader
    antiword: (int, string),                         // exit code and output of the converter
    text: string)                                    // decoded text, "" if empty or undecodable

  datatype ExtractError =
    | FileNotFound
    | UnsupportedFormat(ext: string)
    | ParseFailed(ext: string, cause: ParseError)

  /** The lower-cased extension that selects the handler. */
  function Extension(path: string): string
  {
    LowerStr(Ext(path))
  }

  const Supported: set<string> := {".pdf", ".docx", ".doc", ".xlsx", ".xls", ".txt"}

  /** The handler's output for extension `ext`; `None` when no handler
      takes it. */
  function Handled(ext: string, lib: Library): Option<Result<(seq<string>, string), ParseError>>
  {
    if ext == ".pdf" then Some(lib.pdf)
    else if ext == ".docx" then
      Some(match lib.docx
        case Ok(d) => Ok(DocxOutput(d))
        case Err(e) => Err(e))
    else if ext == ".doc" then Some(DocOutput(lib.antiword.0, lib.antiword.1))
    else if ext == ".xlsx" || ext == ".xls" then
      Some(match lib.workbook
        case Ok(sheets) => Ok(ExcelOutput(sheets))
        case Err(e) => Err(e))
    else if ext == ".txt" then Some(TextOutput(lib.text))
    else None
  }

  /** The extracted content and title of a file: the merged, de-noised
      segments, and the title chosen between the file's own name and the
      title the handler found. */
  function ExtractSpec(path: string, lib: Library, lcut: string -> seq<string>): Result<(string, string), ExtractError>
  {
    if !lib.present then Err(FileNotFound)
    else
      var ext := Extension(path);
      var name := Basename(path);
      match Handled(ext, lib)
      case None => Err(UnsupportedFormat(ext))
      case Some(Err(e)) => Err(ParseFailed(ext, e))
      case Some(Ok((segments, title))) =>
        Ok((NoiseCleaner.RemoveNoise(SegmentMerger.MergeSpec(segments)),
            ResolveTitle(Meaningful(name, lcut(CleanText(name))), CleanFilenameAsTitle(name), title)))
  }

  /** The handler selection in `extract`. */
  method Dispatch(ext: string, lib: Library) returns (parsed: Option<Result<(seq<string>, string), ParseError>>)
    ensures parsed == Handled(ext, lib)
  {
    if ext == ".pdf" {
      parsed := Some(lib.pdf);
    } else if ext == ".docx" {
      match lib.docx {
        case Err(e) =>
          parsed := Some(Err(e));
        case Ok(d) =>
          var segments, title := ProcessDocx(d);
          parsed := Some(Ok((segments, title)));
      }
    } else if ext == ".doc" {
      var r := ProcessDoc(lib.antiword.0, lib.antiword.1);
      parsed := Some(r);
    } else if ext == ".xlsx" || ext == ".xls" {
      match lib.workbook {
        case Err(e) =>
          parsed := Some(Err(e));
        case Ok(sheets) =>
          var segments, title := ProcessExcel(sheets);
          parsed := Some(Ok((segments, title)));
      }
    } else if ext == ".txt" {
      var r := ProcessTxt(lib.text);
      parsed := Some(r);
    } else {
      parsed := None;
    }
  }

  /** `extract`. */
  method Extract(path: string, lib: Library, lcut: string -> seq<string>)
    returns (r: Result<(string, string), ExtractError>)
    ensures r == ExtractSpec(path, lib, lcut)
  {
    if !lib.present {
      return Err(FileNotFound);
    }
    var ext := LowerStr(Ext(path));
    var name := Basename(path);
    var filenameGood := IsMeaningfulFilename(name, lcut);
    var cleanFilename := CleanFilenameAsTitle(name);
    var parsed := Dispatch(ext, lib);
    if parsed.None? {
      return Err(UnsupportedFormat(ext));
    }
    if parsed.value.Err? {
      return Err(ParseFailed(ext, parsed.value.error));
    }
    var (segments, title) := parsed.value.value;
    var rawText := SegmentMerger.SmartMerge(segments);
    var content := NoiseCleaner.RemoveNoise(rawText);
    var finalTitle := ResolveTitle(filenameGood, cleanFilename, title);
    return Ok((content, finalTitle));
  }

  /** Exactly the six supported extensions, in any letter case, reach a
      handler. */
  lemma SupportedIff(ext: string, lib: Library)
    ensures Handled(ext, lib).Some? <==> ext in Supported
  {
  }

  /** Extraction fails exactly when the file is missing, its extension is
      unsupported, or its handler fails. */
  lemma ExtractFails(path: string, lib: Library, lcut: string -> seq<string>)
    ensures ExtractSpec(path, lib, lcut).Err? <==>
      !lib.present || Extension(path) !in Supported || Handled(Extension(path), lib).value.Err?
  {
    SupportedIff(Extension(path), lib);
  }

  /** Extracted content is clean, and an extracted title is the cleaned
      filename, clean text of at least two characters, or empty. */
  lemma ExtractClean(path: string, lib: Library, lcut: string -> seq<string>)
    ensures ExtractSpec(path, lib, lcut).Ok? ==>
      var (content, title) := ExtractSpec(path, lib, lcut).value;
      NoiseCleaner.IsClean(content) &&
      (title == CleanFilenameAsTitle(Basename(path)) || title == [] || (|title| >= 2 && NoiseCleaner.IsClean(title)))
  {
    if ExtractSpec(path, lib, lcut).Ok? {
      var (segments, title) := Handled(Extension(path), lib).value.value;
      NoiseCleaner.RemoveNoiseIsClean(SegmentMerger.MergeSpec(segments));
      DocTitleClean(CleanFilenameAsTitle(Basename(path)), title);
    }
  }

  // ---------------------------------------------------------------------
  // The pipeline

  /** One processed document. */
  datatype Record = Record(title: string, content: string, segTitle: seq<string>, segContent: seq<string>)

  class DocumentPipeline {
    const tokenizer: TextTokenizer

    constructor (external: Option<seq<string>>)
      ensures fresh(tokenizer)
      ensures tokenizer.stopWords == DefaultStopWords +
        (if external.Some? then set i | 0 <= i < |external.value| :: Strip(external.value[i]) else {})
    {
      tokenizer := new TextTokenizer(external);
    }

    /** `run`: extraction errors pass through; a document whose content is
        blank yields nothing; any other is tokenized, title and content. */
    method Run(path: string, lib: Library, lcut: string -> seq<string>, tagger: string -> seq<(string, string)>)
      returns (r: Result<Option<Record>, ExtractError>)
      ensures r == RunSpec(tokenizer.stopWords, path, lib, lcut, tagger)
    {
      var extracted := Extract(path, lib, lcut);
      if extracted.Err? {
        return Err(extracted.error);
      }
      var (content, title) := extracted.value;
      if Strip(content) == [] {
        return Ok(None);
      }
      var segTitle := tokenizer.Tokenize(title, tagger);
      var segContent := tokenizer.Tokenize(content, tagger);
      return Ok(Some(Record(title, content, segTitle, segContent)));
    }
  }

  function RunSpec(stop: set<string>, path: string, lib: Library, lcut: string -> seq<string>,
                   tagger: string -> seq<(string, string)>): Result<Option<Record>, ExtractError>
  {
    match ExtractSpec(path, lib, lcut)
    case Err(e) => Err(e)
    case Ok((content, title)) =>
      if Strip(content) == [] then Ok(None)
      else Ok(Some(Record(title, content, Tokens(stop, title, tagger), Tokens(stop, content, tagger))))
  }

  /** The pipeline drops a document exactly when its extracted content is
      empty, and otherwise keeps that content unchanged. */
  lemma RunDropsOnlyEmpty(stop: set<string>, path: string, lib: Library, lcut: string -> seq<string>,
                          tagger: string -> seq<(string, string)>)
    ensures ExtractSpec(path, lib, lcut).Ok? ==>
      (RunSpec(stop, path, lib, lcut, tagger) == Ok(None) <==> ExtractSpec(path, lib, lcut).value.0 == [])
    ensures RunSpec(stop, path, lib, lcut, tagger).Ok? && RunSpec(stop, path, lib, lcut, tagger).value.Some? ==>
      RunSpec(stop, path, lib, lcut, tagger).value.value.content == ExtractSpec(path, lib, lcut).value.0
  {
    ExtractClean(path, lib, lcut);
    if ExtractSpec(path, lib, lcut).Ok? {
      StripNoEdge(ExtractSpec(path, lib, lcut).value.0);
    }
  }

  /** A document whose segments are all blank is dropped. */
  lemma BlankDocumentDropped(stop: set<string>, path: string, lib: Library, lcut: string -> seq<string>,
                             tagger: string -> seq<(string, string)>)
    requires lib.present && Handled(Extension(path), lib).Some? && Handled(Extension(path), lib).value.Ok?
    requires var segs := Handled(Extension(path), lib).value.value.0;
      forall i :: 0 <= i < |segs| ==> AllSpace(segs[i])
    ensures RunSpec(stop, path, lib, lcut, tagger) == Ok(None)
  {
    SegmentMerger.MergeBlank(Handled(Extension(path), lib).value.value.0);
  }

  // ---------------------------------------------------------------------
  // The batch driver's de-duplication

  /** An input record; a missing url or path is "". */
  datatype Item = Item(url: string, path: string)

  /** The url, or the path when there is no url. */
  function ItemKey(item: Item): string
  {
    if item.url != "" then item.url else item.path
  }

  method DeduplicateItems(items: seq<Item>) returns (unique: seq<Item>)
    ensures unique == Dedup.FirstByKey(items, ItemKey)
  {
    var seen: set<string> := {};
    unique := [];
    var i := 0;
    while i < |items|
      invariant 0 <= i <= |items|
      invariant seen == Dedup.Keys(items[..i], ItemKey)
      invariant unique == Dedup.FirstByKey(items[..i], ItemKey)
    {
      assert items[..i + 1][..i] == items[..i];
      var key := ItemKey(items[i]);
      if key != "" && key !in seen {
        seen := seen + {key};
        unique := unique + [items[i]];
      }
      i := i + 1;
    }
    assert items[..i] == items;
  }
}
