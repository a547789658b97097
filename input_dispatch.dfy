/**
 * The first step of `convert_pdf_to_word`: accept the uploaded PDF in one of
 * three shapes and obtain its bytes and its original file name.
 */
module InputDispatch {

  import opened Wrappers

  type Bytes = seq<bv8>

  /** The files the process can open, by path; `open(path, 'rb').read()` fails for any other path. */
  type FileSystem = map<string, Bytes>

  /**
   * The shapes an uploaded PDF can take: an object with a `read` method (and
   * perhaps a `name` attribute), a dict (of which only string entries are
   * modelled), a path string, or anything else.
   */
  datatype PdfInput =
    | Stream(content: Bytes, name: Option<string>)
    | Record(fields: map<string, string>)
    | PathString(path: string)
    | OtherValue

  /** The errors the converter and the packager can raise. */
  datatype Error =
    | UnsupportedInputType       // ValueError("Unsupported input type")
    | FileNotFound(path: string) // the error `open` raises for a missing file
    | ConversionFailed           // whatever the layout converter raises
    | SameFile(path: string)     // shutil.SameFileError from the final copy
    | NoOutput                   // IndexError at out_paths[0]

  /** What the dispatch yields: the PDF bytes and the name to derive the output name from. */
  datatype Loaded = Loaded(data: Bytes, origName: string)

  const DefaultName: string := "output.pdf"

  /** `open(path, 'rb').read()` */
  function ReadFile(fs: FileSystem, path: string): Result<Bytes, Error> {
    if path in fs then Ok(fs[path]) else Err(FileNotFound(path))
  }

  /** The `if hasattr(...) / elif isinstance(dict) and 'name' in ... / elif isinstance(str) / else raise` chain. */
  function ReadInput(input: PdfInput, fs: FileSystem): Result<Loaded, Error> {
    match input
    case Stream(content, name) => Ok(Loaded(content, name.GetOr(DefaultName)))
    case Record(fields) =>
      if "name" in fields then
        (match ReadFile(fs, fields["name"])
         case Ok(data) => Ok(Loaded(data, fields["name"]))
         case Err(e) => Err(e))
      else Err(UnsupportedInputType)
    case PathString(path) =>
      (match ReadFile(fs, path)
       case Ok(data) => Ok(Loaded(data, path))
       case Err(e) => Err(e))
    case OtherValue => Err(UnsupportedInputType)
  }

  /** The file a supported input refers to, if it is read from disk. */
  function SourcePath(input: PdfInput): Option<string> {
    match input
    case Record(fields) => if "name" in fields then Some(fields["name"]) else None
    case PathString(path) => Some(path)
    case _ => None
  }

  predicate Supported(input: PdfInput) {
    input.Stream? || (input.Record? && "name" in input.fields) || input.PathString?
  }

  /** Only a stream, a dict with a `name` entry or a string is accepted; everything else raises the ValueError. */
  lemma UnsupportedExactly(input: PdfInput, fs: FileSystem)
    ensures ReadInput(input, fs) == Err(UnsupportedInputType) <==> !Supported(input)
  {
  }

  /**
   * A supported input that names a file fails exactly when that file cannot
   * be opened; otherwise the data is the file's bytes (or the stream's) and
   * the original name is the path (or the stream's name, by default
   * `output.pdf`).
   */
  lemma ReadInputOutcome(input: PdfInput, fs: FileSystem)
    requires Supported(input)
    ensures input.Stream? ==> ReadInput(input, fs) == Ok(Loaded(input.content, if input.name.Some? then input.name.value else DefaultName))
    ensures SourcePath(input).Some? && SourcePath(input).value !in fs ==> ReadInput(input, fs) == Err(FileNotFound(SourcePath(input).value))
    ensures SourcePath(input).Some? && SourcePath(input).value in fs ==>
      ReadInput(input, fs) == Ok(Loaded(fs[SourcePath(input).value], SourcePath(input).value))
  {
  }
}
