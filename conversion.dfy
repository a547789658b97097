/**
 * `convert_pdf_to_word` for one uploaded PDF: dispatch on the input's shape,
 * derive the output name, run the layout converter, extract the links, append
 * the link-list page and place the result at `<workdir>/<base_name>.docx`.
 * The layout converter and the PDF reader are external; they are parameters.
 */
module Conversion {

  import opened Wrappers
  import opened InputDispatch
  import opened PosixPath
  import opened Naming
  import opened LinkExtractor
  import opened LinkPage

  /**
   * The outside world one conversion sees: the readable files, the layout
   * converter (None when it raises) and the PDF reader's view of the pages.
   */
  datatype Env = Env(fs: FileSystem, layout: Bytes -> Option<Document>, readPages: Bytes -> seq<Page>)

  /** The returned path and the document stored there. */
  datatype Converted = Converted(path: string, document: Document)

  /** The intermediate file the layout converter writes. */
  const TempDocxName: string := "output.docx"

  /**
   * The conversion with the final copy as written: `shutil.copy(temp_docx,
   * final_path)` raises SameFileError when both paths are the same file, which
   * happens whenever the base name is `output`.
   */
  function ConvertAsWritten(input: PdfInput, env: Env, workdir: string): Result<Converted, Error> {
    match ReadInput(input, env.fs)
    case Err(e) => Err(e)
    case Ok(loaded) =>
      match env.layout(loaded.data)
      case None => Err(ConversionFailed)
      case Some(layoutDoc) =>
        var finalPath := Join(workdir, DocxName(loaded.origName));
        if finalPath == Join(workdir, TempDocxName) then Err(SameFile(finalPath))
        else Ok(Converted(finalPath, WithLinkPage(layoutDoc, Links(env.readPages(loaded.data)))))
  }

  /**
   * The conversion as intended: the final document is available under
   * `<base_name>.docx` for every base name, `output` included.
   */
  function Convert(input: PdfInput, env: Env, workdir: string): Result<Converted, Error> {
    match ReadInput(input, env.fs)
    case Err(e) => Err(e)
    case Ok(loaded) =>
      match env.layout(loaded.data)
      case None => Err(ConversionFailed)
      case Some(layoutDoc) =>
        Ok(Converted(Join(workdir, DocxName(loaded.origName)),
                     WithLinkPage(layoutDoc, Links(env.readPages(loaded.data)))))
  }

  /** The steps of `convert_pdf_to_word` in their order, with the copy onto the same file skipped. */
  method ConvertPdfToWord(input: PdfInput, env: Env, workdir: string) returns (r: Result<Converted, Error>)
    ensures r == Convert(input, env, workdir)
  {
    var read := ReadInput(input, env.fs);
    if read.Err? {
      return Err(read.error);
    }
    var data := read.value.data;
    var baseName := BaseName(read.value.origName);
    var converted := env.layout(data);
    if converted.None? {
      return Err(ConversionFailed);
    }
    var links := ExtractLinks(env.readPages(data));
    var doc := AppendLinkList(converted.value, links);
    var finalPath := Join(workdir, baseName + DocxExtension);
    r := Ok(Converted(finalPath, doc));
  }

  // ----- properties -----

  /** A conversion fails exactly when the input cannot be read or the layout converter fails. */
  lemma ConvertFailsOnlyOnInputOrLayout(input: PdfInput, env: Env, workdir: string)
    ensures Convert(input, env, workdir).Err? <==>
      ReadInput(input, env.fs).Err? || env.layout(ReadInput(input, env.fs).value.data).None?
    ensures ReadInput(input, env.fs).Err? ==> Convert(input, env, workdir) == Err(ReadInput(input, env.fs).error)
  {
  }

  /**
   * A successful conversion returns `<workdir>/<base_name>.docx`, whose
   * basename is the output name, holding the converted layout followed by the
   * link-list page for the PDF's links.
   */
  lemma ConvertResult(input: PdfInput, env: Env, workdir: string)
    requires Convert(input, env, workdir).Ok?
    ensures var loaded := ReadInput(input, env.fs).value;
      var r := Convert(input, env, workdir).value;
      && ReadInput(input, env.fs).Ok?
      && env.layout(loaded.data).Some?
      && Basename(r.path) == DocxName(loaded.origName)
      && r.document == WithLinkPage(env.layout(loaded.data).value, Links(env.readPages(loaded.data)))
  {
    var loaded := ReadInput(input, env.fs).value;
    DocxNameShape(loaded.origName);
    BasenameOfJoin(workdir, DocxName(loaded.origName));
  }

  /** Joining onto the same directory is injective on non-empty `/`-free names. */
  lemma JoinInjective(dir: string, a: string, b: string)
    requires a != [] && '/' !in a && b != [] && '/' !in b
    ensures Join(dir, a) == Join(dir, b) <==> a == b
  {
    if Join(dir, a) == Join(dir, b) {
      BasenameOfJoin(dir, a);
      BasenameOfJoin(dir, b);
    }
  }

  /** The written code and the intended one agree on every input whose base name is not `output`. */
  lemma AsWrittenAgreesElsewhere(input: PdfInput, env: Env, workdir: string)
    requires ReadInput(input, env.fs).Ok? ==> BaseName(ReadInput(input, env.fs).value.origName) != "output"
    ensures ConvertAsWritten(input, env, workdir) == Convert(input, env, workdir)
  {
    if ReadInput(input, env.fs).Ok? {
      var name := ReadInput(input, env.fs).value.origName;
      DocxNameShape(name);
      assert '/' !in TempDocxName;
      JoinInjective(workdir, DocxName(name), TempDocxName);
    }
  }

  /**
   * The written code fails on a stream without a `name` attribute: its name
   * defaults to `output.pdf`, so the final path is the intermediate file itself.
   */
  lemma AsWrittenFailsOnNamelessStream(content: Bytes, env: Env, workdir: string)
    requires env.layout(content).Some?
    ensures ConvertAsWritten(Stream(content, None), env, workdir) == Err(SameFile(Join(workdir, TempDocxName)))
    ensures Convert(Stream(content, None), env, workdir).Ok?
  {
    OutputPdfName();
    assert DocxName(DefaultName) == TempDocxName;
    var loaded := Loaded(content, DefaultName);
    assert ReadInput(Stream(content, None), env.fs) == Ok(loaded);
  }
}
