/**
 * The download button: disabled with no file until a conversion succeeds,
 * enabled on the delivered file after it, and reset whenever the uploads
 * change or are cleared.
 */
module DownloadControl {

  import opened Wrappers
  import opened InputDispatch
  import opened Packaging
  import opened PosixPath
  import opened Naming
  import opened Conversion

  /** What `gr.update(value=..., interactive=...)` sets on the button. */
  datatype ButtonState = ButtonState(value: Option<string>, interactive: bool)

  /** The button as created: `value=None, interactive=False`. */
  const InitialButton: ButtonState := ButtonState(None, false)

  predicate Disabled(b: ButtonState) {
    b.value.None? && !b.interactive
  }

  predicate EnabledOn(b: ButtonState, path: string) {
    b.value == Some(path) && b.interactive
  }

  /** `reset_download(_)`: back to the initial, disabled button, whatever the uploads are. */
  function ResetDownload(files: seq<PdfInput>): (b: ButtonState)
    ensures b == InitialButton && Disabled(b)
  {
    ButtonState(None, false)
  }

  /** The update `convert_and_enable` returns: offer the single `.docx` or the archive. */
  function EnableFor(bundle: Bundle): (b: ButtonState)
    ensures EnabledOn(b, bundle.path)
  {
    ButtonState(Some(bundle.path), true)
  }

  /** The two events wired to the button: the uploads change, or Convert is clicked and yields an outcome. */
  datatype UiEvent =
    | FilesChanged(files: seq<PdfInput>)
    | ConvertClicked(outcome: Result<Bundle, Error>)

  /** A failed conversion raises, so the button keeps its state. */
  function Step(b: ButtonState, e: UiEvent): ButtonState {
    match e
    case FilesChanged(files) => ResetDownload(files)
    case ConvertClicked(Ok(bundle)) => EnableFor(bundle)
    case ConvertClicked(Err(_)) => b
  }

  /** The button after a sequence of events. */
  function Run(events: seq<UiEvent>): ButtonState
    decreases |events|
  {
    if events == [] then InitialButton else Step(Run(events[..|events| - 1]), events[|events| - 1])
  }

  predicate Effective(e: UiEvent) {
    e.FilesChanged? || e.outcome.Ok?
  }

  // ----- properties -----

  /** The button is always either disabled with no file, or enabled on a file. */
  lemma {:induction false} RunTwoStates(events: seq<UiEvent>)
    ensures Disabled(Run(events)) || (Run(events).value.Some? && EnabledOn(Run(events), Run(events).value.value))
    ensures Run(events).interactive <==> Run(events).value.Some?
    decreases |events|
  {
    if events != [] {
      RunTwoStates(events[..|events| - 1]);
    }
  }

  /**
   * The state is decided by the last event that changes it: with none, the
   * button is as created; otherwise a change of uploads leaves it disabled, and
   * a successful conversion leaves it enabled on that conversion's file.
   */
  lemma {:induction false} RunLastEffective(events: seq<UiEvent>, k: int)
    requires -1 <= k < |events|
    requires k >= 0 ==> Effective(events[k])
    requires forall j :: k < j < |events| ==> !Effective(events[j])
    ensures k == -1 ==> Run(events) == InitialButton
    ensures k >= 0 && events[k].FilesChanged? ==> Run(events) == InitialButton
    ensures k >= 0 && events[k].ConvertClicked? ==> Run(events) == EnableFor(events[k].outcome.value)
    decreases |events|
  {
    if events != [] && k < |events| - 1 {
      var init := events[..|events| - 1];
      assert forall j :: k < j < |init| ==> init[j] == events[j];
      RunLastEffective(init, k);
    }
  }

  /**
   * Whenever the button offers a file, that file came out of a successful
   * conversion clicked after the last change of the uploads.
   */
  lemma {:induction false} EnabledOnlyAfterConversion(events: seq<UiEvent>)
    requires Run(events).interactive
    ensures exists k :: (0 <= k < |events| && events[k].ConvertClicked? && events[k].outcome.Ok?
      && Run(events) == EnableFor(events[k].outcome.value)
      && forall j :: k < j < |events| ==> !events[j].FilesChanged?)
    decreases |events|
  {
    var n := |events| - 1;
    var init := events[..n];
    var e := events[n];
    if e.ConvertClicked? && e.outcome.Ok? {
      assert events[n] == e;
    } else {
      EnabledOnlyAfterConversion(init);
      var k :| 0 <= k < |init| && init[k].ConvertClicked? && init[k].outcome.Ok?
        && Run(init) == EnableFor(init[k].outcome.value)
        && forall j :: k < j < |init| ==> !init[j].FilesChanged?;
      assert events[k] == init[k];
      assert forall j :: k < j < n ==> events[j] == init[j];
    }
  }

  /** Changing the uploads always disables the button, whatever happened before. */
  lemma FilesChangedDisables(events: seq<UiEvent>, files: seq<PdfInput>)
    ensures Disabled(Run(events + [FilesChanged(files)]))
  {
    var evs := events + [FilesChanged(files)];
    assert evs[..|evs| - 1] == events;
  }

  /** Changing the uploads and then converting them successfully offers the delivered file. */
  lemma ConvertAfterChangeOffersOutput(events: seq<UiEvent>, files: seq<PdfInput>, outcome: Result<Bundle, Error>)
    requires outcome.Ok?
    ensures EnabledOn(Run(events + [FilesChanged(files), ConvertClicked(outcome)]), outcome.value.path)
  {
    var evs := events + [FilesChanged(files), ConvertClicked(outcome)];
    assert evs[..|evs| - 1] == events + [FilesChanged(files)];
  }

  /**
   * Uploading `report.pdf` and clicking Convert leaves the button enabled on
   * a file named `report.docx`, whatever happened before.
   */
  lemma ReportUploadOffersReportDocx(events: seq<UiEvent>, env: Env, tempDir: nat -> string)
    requires "report.pdf" in env.fs && env.layout(env.fs["report.pdf"]).Some?
    ensures var files := [PathString("report.pdf")];
      var outcome := ConvertAndPackage(files, env, tempDir);
      && outcome.Ok? && outcome.value.Single?
      && Basename(outcome.value.path) == "report.docx"
      && EnabledOn(Run(events + [FilesChanged(files), ConvertClicked(outcome)]), outcome.value.path)
  {
    SinglePathUpload("report.pdf", env, tempDir);
    SampleNames();
    var files := [PathString("report.pdf")];
    ConvertAfterChangeOffersOutput(events, files, ConvertAndPackage(files, env, tempDir));
  }

  /**
   * Uploading `a.pdf` and `b.pdf` and clicking Convert leaves the button
   * enabled on `converted_docs.zip`, holding `a.docx` and then `b.docx`.
   */
  lemma TwoUploadsOfferArchive(events: seq<UiEvent>, env: Env, tempDir: nat -> string)
    requires "a.pdf" in env.fs && env.layout(env.fs["a.pdf"]).Some?
    requires "b.pdf" in env.fs && env.layout(env.fs["b.pdf"]).Some?
    ensures var files := [PathString("a.pdf"), PathString("b.pdf")];
      var outcome := ConvertAndPackage(files, env, tempDir);
      && outcome.Ok? && outcome.value.Archive?
      && Basename(outcome.value.path) == ZipName
      && |outcome.value.entries| == 2
      && outcome.value.entries[0].arcname == "a.docx"
      && outcome.value.entries[1].arcname == "b.docx"
      && EnabledOn(Run(events + [FilesChanged(files), ConvertClicked(outcome)]), outcome.value.path)
  {
    TwoPathUploads("a.pdf", "b.pdf", env, tempDir);
    SampleNames();
    var files := [PathString("a.pdf"), PathString("b.pdf")];
    ConvertAfterChangeOffersOutput(events, files, ConvertAndPackage(files, env, tempDir));
  }
}
