/**
 * `convert_and_enable`: convert every uploaded PDF in order, then deliver the
 * single `.docx` as it is, or bundle several into `converted_docs.zip`
 * whose entries are named after the outputs' basenames.
 */
module Packaging {

  import opened Wrappers
  import opened InputDispatch
  import opened PosixPath
  import opened Naming
  import opened Conversion

  const ZipName: string := "converted_docs.zip"

  /** One member of the archive: the name it is stored under and the file it is read from. */
  datatype ZipEntry = ZipEntry(arcname: string, source: string)

  /** A zip archive opened for writing (`zipfile.ZipFile(zip_path, "w")`), as the list of entries written so far. */
  class ZipArchive {
    const path: string
    var entries: seq<ZipEntry>

    constructor (path: string)
      ensures this.path == path
      ensures entries == []
    {
      this.path := path;
      entries := [];
    }

    /** `zf.write(source, arcname=arcname)` appends one entry. */
    method Write(source: string, arcname: string)
      modifies this
      ensures entries == old(entries) + [ZipEntry(arcname, source)]
    {
      entries := entries + [ZipEntry(arcname, source)];
    }
  }

  /** What the download button is given: one `.docx` path, or the archive's path with its entries. */
  datatype Bundle =
    | Single(path: string)
    | Archive(path: string, entries: seq<ZipEntry>)

  /** The entries the zip loop writes: one per output, stored under its basename. */
  function ZipEntries(outPaths: seq<string>): seq<ZipEntry> {
    seq(|outPaths|, k requires 0 <= k < |outPaths| => ZipEntry(Basename(outPaths[k]), outPaths[k]))
  }

  /**
   * The single/zip choice: more than one output is zipped into
   * `<zipDir>/converted_docs.zip`; otherwise `out_paths[0]` is returned, which
   * raises IndexError when there is no output.
   */
  function Package(outPaths: seq<string>, zipDir: string): Result<Bundle, Error> {
    if |outPaths| > 1 then Ok(Archive(Join(zipDir, ZipName), ZipEntries(outPaths)))
    else if outPaths == [] then Err(NoOutput)
    else Ok(Single(outPaths[0]))
  }

  /** The single/zip choice with the zip written entry by entry. */
  method PackageOutputs(outPaths: seq<string>, zipDir: string) returns (r: Result<Bundle, Error>)
    ensures r == Package(outPaths, zipDir)
  {
    if |outPaths| > 1 {
      var zf := new ZipArchive(Join(zipDir, ZipName));
      var i := 0;
      while i < |outPaths|
        invariant 0 <= i <= |outPaths|
        invariant zf.entries == ZipEntries(outPaths[..i])
      {
        zf.Write(outPaths[i], Basename(outPaths[i]));
        assert zf.entries == ZipEntries(outPaths[..i + 1]);
        i := i + 1;
      }
      assert outPaths[..i] == outPaths;
      return Ok(Archive(zf.path, zf.entries));
    }
    if outPaths == [] {
      return Err(NoOutput);
    }
    return Ok(Single(outPaths[0]));
  }

  /**
   * The outcomes of `[convert_pdf_to_word(pdf) for pdf in pdf_files]`, one
   * per upload: the k-th conversion works in its own fresh directory
   * `tempDir(k)`.
   */
  function Outcomes(inputs: seq<PdfInput>, env: Env, tempDir: nat -> string): seq<Result<Converted, Error>> {
    seq(|inputs|, k requires 0 <= k < |inputs| => Convert(inputs[k], env, tempDir(k)))
  }

  /** Evaluating the comprehension in order: the first failure aborts it with its error. */
  function Collect<T>(os: seq<Result<T, Error>>): Result<seq<T>, Error>
    decreases |os|
  {
    if os == [] then Ok([])
    else
      match Collect(os[..|os| - 1])
      case Err(e) => Err(e)
      case Ok(done) =>
        match os[|os| - 1]
        case Err(e) => Err(e)
        case Ok(c) => Ok(done + [c])
  }

  function ConvertAll(inputs: seq<PdfInput>, env: Env, tempDir: nat -> string): Result<seq<Converted>, Error> {
    Collect(Outcomes(inputs, env, tempDir))
  }

  /** The output path of each conversion, in order. */
  function Paths(cs: seq<Converted>): seq<string> {
    seq(|cs|, k requires 0 <= k < |cs| => cs[k].path)
  }

  /** The whole batch: convert everything, then package the outputs in a directory made after the conversions. */
  function ConvertAndPackage(inputs: seq<PdfInput>, env: Env, tempDir: nat -> string): Result<Bundle, Error> {
    match ConvertAll(inputs, env, tempDir)
    case Err(e) => Err(e)
    case Ok(cs) => Package(Paths(cs), tempDir(|inputs|))
  }

  /** `convert_and_enable` without the button update, which `DownloadControl.EnableFor` adds. */
  method ConvertAndEnable(inputs: seq<PdfInput>, env: Env, tempDir: nat -> string) returns (r: Result<Bundle, Error>)
    ensures r == ConvertAndPackage(inputs, env, tempDir)
  {
    ghost var os := Outcomes(inputs, env, tempDir);
    var outs: seq<Converted> := [];
    var i := 0;
    while i < |inputs|
      invariant 0 <= i <= |inputs|
      invariant Collect(os[..i]) == Ok(outs)
    {
      assert os[..i + 1][..i] == os[..i];
      var c := ConvertPdfToWord(inputs[i], env, tempDir(i));
      assert c == os[i];
      if c.Err? {
        CollectStopsAtError(os, i + 1);
        return Err(c.error);
      }
      outs := outs + [c.value];
      i := i + 1;
    }
    assert os[..i] == os;
    r := PackageOutputs(Paths(outs), tempDir(|inputs|));
  }

  // ----- properties -----

  /** Once a prefix of the outcomes fails, the whole batch fails with the same error. */
  lemma {:induction false} CollectStopsAtError<T>(os: seq<Result<T, Error>>, n: nat)
    requires n <= |os|
    requires Collect(os[..n]).Err?
    ensures Collect(os) == Collect(os[..n])
    decreases |os|
  {
    if n < |os| {
      var init := os[..|os| - 1];
      assert init[..n] == os[..n];
      CollectStopsAtError(init, n);
    } else {
      assert os[..n] == os;
    }
  }

  /**
   * Collecting succeeds exactly when every outcome does, and then holds the
   * k-th outcome's value at position k; when it fails, its error is the error
   * of the first failing outcome.
   */
  lemma {:induction false} CollectExact<T>(os: seq<Result<T, Error>>)
    ensures Collect(os).Ok? <==> forall k :: 0 <= k < |os| ==> os[k].Ok?
    ensures Collect(os).Ok? ==>
      && |Collect(os).value| == |os|
      && forall k :: 0 <= k < |os| ==> Collect(os).value[k] == os[k].value
    ensures Collect(os).Err? ==>
      exists k :: 0 <= k < |os| && os[k] == Err(Collect(os).error) && forall j :: 0 <= j < k ==> os[j].Ok?
    decreases |os|
  {
    if os != [] {
      var n := |os| - 1;
      var init := os[..n];
      CollectExact(init);
      assert forall k :: 0 <= k < n ==> init[k] == os[k];
      if Collect(init).Err? {
        var k :| 0 <= k < |init| && init[k] == Err(Collect(init).error) && forall j :: 0 <= j < k ==> init[j].Ok?;
        assert os[k] == Err(Collect(os).error);
      } else if os[n].Err? {
        assert forall j :: 0 <= j < n ==> os[j].Ok?;
      }
    }
  }

  /**
   * The batch succeeds exactly when every conversion does, and then holds the
   * k-th conversion's result at position k; when it fails, it fails with the
   * error of the first failing conversion.
   */
  lemma ConvertAllExact(inputs: seq<PdfInput>, env: Env, tempDir: nat -> string)
    ensures ConvertAll(inputs, env, tempDir).Ok? <==> forall k :: 0 <= k < |inputs| ==> Convert(inputs[k], env, tempDir(k)).Ok?
    ensures ConvertAll(inputs, env, tempDir).Ok? ==>
      && |ConvertAll(inputs, env, tempDir).value| == |inputs|
      && forall k :: 0 <= k < |inputs| ==> ConvertAll(inputs, env, tempDir).value[k] == Convert(inputs[k], env, tempDir(k)).value
    ensures ConvertAll(inputs, env, tempDir).Err? ==>
      exists k :: 0 <= k < |inputs| && Convert(inputs[k], env, tempDir(k)) == Err(ConvertAll(inputs, env, tempDir).error)
        && forall j :: 0 <= j < k ==> Convert(inputs[j], env, tempDir(j)).Ok?
  {
    var os := Outcomes(inputs, env, tempDir);
    CollectExact(os);
    assert forall k :: 0 <= k < |inputs| ==> os[k] == Convert(inputs[k], env, tempDir(k));
  }

  /** The archive written into a directory is named `converted_docs.zip`. */
  lemma ArchiveBasename(zipDir: string)
    ensures Basename(Join(zipDir, ZipName)) == ZipName
  {
    assert '/' !in ZipName;
    BasenameOfJoin(zipDir, ZipName);
  }

  /**
   * No output is an error, one output is returned as it is, and several
   * give `converted_docs.zip` holding one entry per output, in order, each
   * stored under the output's basename.
   */
  lemma PackageCases(outPaths: seq<string>, zipDir: string)
    ensures outPaths == [] <==> Package(outPaths, zipDir) == Err(NoOutput)
    ensures |outPaths| == 1 ==> Package(outPaths, zipDir) == Ok(Single(outPaths[0]))
    ensures Package(outPaths, zipDir).Ok? && Package(outPaths, zipDir).value.Single? ==> |outPaths| == 1
    ensures |outPaths| > 1 <==> Package(outPaths, zipDir).Ok? && Package(outPaths, zipDir).value.Archive?
    ensures |outPaths| > 1 ==>
      var b := Package(outPaths, zipDir).value;
      && Basename(b.path) == ZipName
      && |b.entries| == |outPaths|
      && forall k :: 0 <= k < |outPaths| ==> b.entries[k] == ZipEntry(Basename(outPaths[k]), outPaths[k])
  {
    if |outPaths| > 1 {
      ArchiveBasename(zipDir);
    }
  }

  /**
   * A batch of several PDFs that all convert is delivered as the archive,
   * whose k-th entry is the k-th output stored under the k-th upload's
   * `<base_name>.docx`.
   */
  lemma ArchiveNamedAfterUploads(inputs: seq<PdfInput>, env: Env, tempDir: nat -> string)
    requires |inputs| > 1
    requires forall k :: 0 <= k < |inputs| ==> Convert(inputs[k], env, tempDir(k)).Ok?
    ensures ConvertAndPackage(inputs, env, tempDir).Ok?
    ensures var b := ConvertAndPackage(inputs, env, tempDir).value;
      && b.Archive?
      && b.path == Join(tempDir(|inputs|), ZipName)
      && |b.entries| == |inputs|
      && forall k :: 0 <= k < |inputs| ==>
        && ReadInput(inputs[k], env.fs).Ok?
        && b.entries[k] == ZipEntry(DocxName(ReadInput(inputs[k], env.fs).value.origName), Convert(inputs[k], env, tempDir(k)).value.path)
  {
    ConvertAllExact(inputs, env, tempDir);
    var cs := ConvertAll(inputs, env, tempDir).value;
    var ps := Paths(cs);
    assert ConvertAndPackage(inputs, env, tempDir) == Package(ps, tempDir(|inputs|));
    PackageCases(ps, tempDir(|inputs|));
    var b := Package(ps, tempDir(|inputs|)).value;
    forall k | 0 <= k < |inputs|
      ensures ReadInput(inputs[k], env.fs).Ok?
      ensures b.entries[k] == ZipEntry(DocxName(ReadInput(inputs[k], env.fs).value.origName), Convert(inputs[k], env, tempDir(k)).value.path)
    {
      assert ps[k] == cs[k].path == Convert(inputs[k], env, tempDir(k)).value.path;
      ConvertResult(inputs[k], env, tempDir(k));
    }
  }

  /** A single PDF that converts is delivered as its own `.docx`, with no archive. */
  lemma SingleUploadDeliveredAsIs(input: PdfInput, env: Env, tempDir: nat -> string)
    requires Convert(input, env, tempDir(0)).Ok?
    ensures ConvertAndPackage([input], env, tempDir) == Ok(Single(Convert(input, env, tempDir(0)).value.path))
  {
    ConvertAllExact([input], env, tempDir);
    assert [input][0] == input;
  }

  /** An empty batch fails with IndexError, and any failed conversion fails the batch. */
  lemma BatchFailures(inputs: seq<PdfInput>, env: Env, tempDir: nat -> string)
    ensures inputs == [] ==> ConvertAndPackage(inputs, env, tempDir) == Err(NoOutput)
    ensures (exists k :: 0 <= k < |inputs| && Convert(inputs[k], env, tempDir(k)).Err?) ==>
      ConvertAndPackage(inputs, env, tempDir).Err?
  {
    ConvertAllExact(inputs, env, tempDir);
  }

  /** One uploaded path that converts is delivered as `<dir>/<base_name>.docx`. */
  lemma SinglePathUpload(path: string, env: Env, tempDir: nat -> string)
    requires path in env.fs && env.layout(env.fs[path]).Some?
    ensures ConvertAndPackage([PathString(path)], env, tempDir).Ok?
    ensures ConvertAndPackage([PathString(path)], env, tempDir).value.Single?
    ensures Basename(ConvertAndPackage([PathString(path)], env, tempDir).value.path) == DocxName(path)
  {
    var input := PathString(path);
    assert ReadInput(input, env.fs) == Ok(Loaded(env.fs[path], path));
    SingleUploadDeliveredAsIs(input, env, tempDir);
    ConvertResult(input, env, tempDir(0));
  }

  /** An uploaded path whose bytes have a layout reads back under its own name and converts. */
  lemma PathConverts(path: string, env: Env, workdir: string)
    requires path in env.fs && env.layout(env.fs[path]).Some?
    ensures ReadInput(PathString(path), env.fs) == Ok(Loaded(env.fs[path], path))
    ensures Convert(PathString(path), env, workdir).Ok?
  {
    ConvertFailsOnlyOnInputOrLayout(PathString(path), env, workdir);
  }

  /** Two uploads that both convert are delivered as the archive, the entries named after the uploads in order. */
  lemma TwoUploads(x: PdfInput, y: PdfInput, env: Env, tempDir: nat -> string)
    requires Convert(x, env, tempDir(0)).Ok? && Convert(y, env, tempDir(1)).Ok?
    ensures var r := ConvertAndPackage([x, y], env, tempDir);
      && r.Ok? && r.value.Archive?
      && r.value.path == Join(tempDir(2), ZipName)
      && |r.value.entries| == 2
      && r.value.entries[0].arcname == DocxName(ReadInput(x, env.fs).value.origName)
      && r.value.entries[1].arcname == DocxName(ReadInput(y, env.fs).value.origName)
  {
    var files := [x, y];
    assert forall k :: 0 <= k < |files| ==> Convert(files[k], env, tempDir(k)).Ok? by {
      forall k | 0 <= k < |files|
        ensures Convert(files[k], env, tempDir(k)).Ok?
      {
        if k == 0 { assert files[k] == x; } else { assert files[k] == y; }
      }
    }
    ArchiveNamedAfterUploads(files, env, tempDir);
    var b := ConvertAndPackage(files, env, tempDir).value;
    assert b.entries[0].arcname == DocxName(ReadInput(files[0], env.fs).value.origName);
    assert b.entries[1].arcname == DocxName(ReadInput(files[1], env.fs).value.origName);
  }

  /** Two uploaded paths that convert are delivered as the archive, with entries named after each path in order. */
  lemma TwoPathUploads(p: string, q: string, env: Env, tempDir: nat -> string)
    requires p in env.fs && env.layout(env.fs[p]).Some?
    requires q in env.fs && env.layout(env.fs[q]).Some?
    ensures var r := ConvertAndPackage([PathString(p), PathString(q)], env, tempDir);
      && r.Ok? && r.value.Archive?
      && Basename(r.value.path) == ZipName
      && |r.value.entries| == 2
      && r.value.entries[0].arcname == DocxName(p)
      && r.value.entries[1].arcname == DocxName(q)
  {
    var x, y := PathString(p), PathString(q);
    assert Convert(x, env, tempDir(0)).Ok? && ReadInput(x, env.fs).value.origName == p by {
      PathConverts(p, env, tempDir(0));
    }
    assert Convert(y, env, tempDir(1)).Ok? && ReadInput(y, env.fs).value.origName == q by {
      PathConverts(q, env, tempDir(1));
    }
    TwoUploads(x, y, env, tempDir);
    ArchiveBasename(tempDir(2));
  }
}
