/**
 * The media generator node: render the state's Manim code and record where
 * the artefact was published. The subprocess, the temporary directory, the
 * copy and the UUID are inputs: `MediaEnv.run` gives the outcome of running
 * Manim on an invocation, together with the directory listing it left, and
 * `copyError` says whether copying the artefact raised.
 */
module Media {
  import opened Wrappers
  import opened Strings
  import CodeUtils
  import opened Schemas

  /** `MEDIA_OUTPUT_DIR`. */
  const MediaOutputDir: string := "project/app/static/generated"
  /** The public URL prefix the copied artefact is served under. */
  const PublicPrefix: string := "/static/generated/"
  const TimeoutSeconds: nat := 120
  /** How much of Manim's output a failure message keeps. */
  const ErrorTextLimit: nat := 500

  const NoCodeMessage: string := "No Manim code to execute"
  const NoSceneMessage: string := "Could not find Scene class in the code"
  const ExecutionFailedPrefix: string := "Manim execution failed: "
  const UnknownManimError: string := "Unknown Manim error"
  const NoOutputMessage: string := "Manim ran successfully" + " but no output file was found"
  const TimeoutMessage: string := "Manim execution timed out (120s limit)"
  const ExceptionPrefix: string := "Error during media generation: "

  /**
   * What Manim left in the temporary media directory: whether `media/videos`
   * and `media/images` exist, and the file names `rglob` yields under each, in
   * the order it yields them.
   */
  datatype Listing = Listing(videosDirExists: bool, videoFiles: seq<string>,
                             imagesDirExists: bool, imageFiles: seq<string>)

  /** The command line of the render: the code written to `scene.py`, the scene and the timeout. */
  datatype Invocation = Invocation(code: string, sceneName: string, timeoutSeconds: nat)

  /** How `subprocess.run` ended: an exit, `TimeoutExpired`, or another exception inside the `try`. */
  datatype RunOutcome =
    | Exited(returnCode: int, stdout: string, stderr: string, listing: Listing)
    | TimedOut
    | Raised(message: string)

  /** The side effects of the node, as inputs. */
  datatype MediaEnv = MediaEnv(run: Invocation -> RunOutcome, uuid: string, copyError: Option<string>)

  // ---------------------------------------------------------------------------
  // find_generated_media

  /** The index of the first name matching the glob `"*" + ext`. */
  function FirstMatchIndex(names: seq<string>, ext: string, from: nat): (r: Option<nat>)
    ensures r.Some? ==> from <= r.value < |names| && EndsWith(names[r.value], ext)
    ensures r.Some? ==> forall k :: from <= k < r.value ==> !EndsWith(names[k], ext)
    ensures r.None? ==> forall k :: from <= k < |names| ==> !EndsWith(names[k], ext)
    decreases |names| - from
  {
    if from >= |names| then None
    else if EndsWith(names[from], ext) then Some(from)
    else FirstMatchIndex(names, ext, from + 1)
  }

  /** The first name matching `"*" + ext`, if any. */
  function FirstMatch(names: seq<string>, ext: string): (r: Option<string>)
    ensures r.Some? ==> EndsWith(r.value, ext)
  {
    match FirstMatchIndex(names, ext, 0)
    case Some(k) => Some(names[k])
    case None => None
  }

  /** The artefact `find_generated_media` reports for a listing. */
  function FirstMedia(listing: Listing): Option<string> {
    if !listing.videosDirExists then None
    else match FirstMatch(listing.videoFiles, ".mp4")
      case Some(video) => Some(video)
      case None => if listing.imagesDirExists then FirstMatch(listing.imageFiles, ".png") else None
  }

  /** Without a `media/videos` directory nothing is found, even when images exist. */
  lemma NoVideosDirFindsNothing(listing: Listing)
    requires !listing.videosDirExists
    ensures FirstMedia(listing).None?
  {
  }

  /** A video, when there is one, wins over every image, and it is the first video. */
  lemma VideoPreferredOverImage(listing: Listing, k: nat)
    requires listing.videosDirExists && k < |listing.videoFiles| && EndsWith(listing.videoFiles[k], ".mp4")
    ensures var r := FirstMedia(listing);
            && r.Some? && EndsWith(r.value, ".mp4")
            && exists j :: 0 <= j <= k && r.value == listing.videoFiles[j]
  {
    var j := FirstMatchIndex(listing.videoFiles, ".mp4", 0);
    assert j.Some?;
  }

  /** An image is reported only when the videos directory has no video. */
  lemma ImageOnlyWithoutVideo(listing: Listing)
    requires FirstMedia(listing).Some? && EndsWith(FirstMedia(listing).value, ".png")
    requires listing.videosDirExists
    ensures listing.imagesDirExists
    ensures |FirstMedia(listing).value| >= 4
  {
    var v := FirstMatch(listing.videoFiles, ".mp4");
    if v.Some? {
      DotMp4IsNotDotPng(v.value);
    }
  }

  lemma DotMp4IsNotDotPng(name: string)
    requires EndsWith(name, ".mp4")
    ensures !EndsWith(name, ".png")
  {
    assert name[|name| - 4..][1] == name[|name| - 3];
  }

  /**
   * `find_generated_media` as written: a `for` over each `rglob` result that
   * returns its first element.
   */
  method FindGeneratedMedia(listing: Listing) returns (r: Option<string>)
    ensures r == FirstMedia(listing)
  {
    if !listing.videosDirExists {
      return None;
    }
    var i := 0;
    while i < |listing.videoFiles|
      invariant 0 <= i <= |listing.videoFiles|
      invariant forall k :: 0 <= k < i ==> !EndsWith(listing.videoFiles[k], ".mp4")
    {
      if EndsWith(listing.videoFiles[i], ".mp4") {
        return Some(listing.videoFiles[i]);
      }
      i := i + 1;
    }
    if listing.imagesDirExists {
      var j := 0;
      while j < |listing.imageFiles|
        invariant 0 <= j <= |listing.imageFiles|
        invariant forall k :: 0 <= k < j ==> !EndsWith(listing.imageFiles[k], ".png")
      {
        if EndsWith(listing.imageFiles[j], ".png") {
          return Some(listing.imageFiles[j]);
        }
        j := j + 1;
      }
    }
    return None;
  }

  // ---------------------------------------------------------------------------
  // Path.suffix

  /** The index of the last `.` in `name`, if any (`str.rfind`). */
  function LastDot(name: string, upTo: nat): (r: Option<nat>)
    requires upTo <= |name|
    ensures r.Some? ==> r.value < upTo && name[r.value] == '.'
    ensures r.Some? ==> forall k :: r.value < k < upTo ==> name[k] != '.'
    ensures r.None? ==> forall k :: 0 <= k < upTo ==> name[k] != '.'
  {
    if upTo == 0 then None
    else if name[upTo - 1] == '.' then Some(upTo - 1)
    else LastDot(name, upTo - 1)
  }

  /**
   * `PurePath.suffix` of a file name: from its last dot, unless that dot
   * starts the name or ends it, in which case there is no suffix.
   */
  function Suffix(name: string): (r: string)
    ensures |r| > 0 ==> r[0] == '.' && EndsWith(name, r) && |r| < |name|
    ensures |r| > 0 ==> '.' !in r[1..] && 1 < |r|
    ensures |r| == 0 ==> forall k :: 0 < k < |name| - 1 && name[k] == '.' ==> '.' in name[k + 1..]
  {
    match LastDot(name, |name|)
    case Some(i) => if 0 < i < |name| - 1 then name[i..] else ""
    case None => ""
  }

  /** A file name `N.mp4` with `N` non-empty has the suffix `.mp4`. */
  lemma Mp4Suffix(name: string)
    requires EndsWith(name, ".mp4") && |name| > 4
    ensures Suffix(name) == ".mp4"
  {
    var i := |name| - 4;
    assert name[i..][0] == name[i];
    assert forall k :: i < k < |name| ==> name[k] == name[i..][k - i];
    assert LastDot(name, |name|) == Some(i);
  }

  /** A file name `N.png` with `N` non-empty has the suffix `.png`. */
  lemma PngSuffix(name: string)
    requires EndsWith(name, ".png") && |name| > 4
    ensures Suffix(name) == ".png"
  {
    var i := |name| - 4;
    assert name[i..][0] == name[i];
    assert forall k :: i < k < |name| ==> name[k] == name[i..][k - i];
    assert LastDot(name, |name|) == Some(i);
  }

  // ---------------------------------------------------------------------------
  // media_generator

  /** `stderr or stdout or "Unknown Manim error"`: the first non-empty text. */
  function ProcessErrorText(stdout: string, stderr: string): (r: string)
    ensures |r| > 0
    ensures |stderr| > 0 ==> r == stderr
    ensures |stderr| == 0 && |stdout| > 0 ==> r == stdout
    ensures |stderr| == 0 && |stdout| == 0 ==> r == UnknownManimError
  {
    if |stderr| > 0 then stderr else if |stdout| > 0 then stdout else UnknownManimError
  }

  /** The MIME type recorded for an artefact suffix. */
  function MediaTypeFor(ext: string): (r: string)
    ensures r == "video/mp4" <==> ext == ".mp4"
    ensures ext != ".mp4" ==> r == "image/png"
  {
    if ext == ".mp4" then "video/mp4" else "image/png"
  }

  /** The published file name: scene, the first 8 characters of the UUID, and the suffix. */
  function OutputFilename(scene: string, uuid: string, artefact: string): string {
    scene + "_" + Take(uuid, 8) + Suffix(artefact)
  }

  /** The state with a failed status and the given message; nothing else changes. */
  function Fail(state: EducationalState, message: string): EducationalState {
    state.(status := Failed, errorMessage := Some(message))
  }

  /**
   * `media_generator`. Every path ends in `success` or `failed`; a failure
   * changes only the status and the message, and a success sets path and type
   * together and clears the message.
   */
  function MediaGenerator(state: EducationalState, env: MediaEnv): (r: EducationalState)
    ensures r.status != Pending
    ensures r == state.(status := r.status, errorMessage := r.errorMessage,
                        mediaPath := r.mediaPath, mediaType := r.mediaType)
    ensures r.status == Failed ==> r.errorMessage.Some? && r.mediaPath == state.mediaPath && r.mediaType == state.mediaType
    ensures r.status == Success ==> r.errorMessage.None? && r.mediaPath.Some? && r.mediaType.Some?
    ensures r.status == Success ==> CodeUtils.ExtractSceneName(state.manimCode).Some?
  {
    if |state.manimCode| == 0 then Fail(state, NoCodeMessage)
    else
      match CodeUtils.ExtractSceneName(state.manimCode)
      case None => Fail(state, NoSceneMessage)
      case Some(scene) =>
        match env.run(Invocation(state.manimCode, scene, TimeoutSeconds))
        case TimedOut => Fail(state, TimeoutMessage)
        case Raised(message) => Fail(state, ExceptionPrefix + message)
        case Exited(code, stdout, stderr, listing) =>
          if code != 0 then
            Fail(state, ExecutionFailedPrefix + Take(ProcessErrorText(stdout, stderr), ErrorTextLimit))
          else
            match FirstMedia(listing)
            case None => Fail(state, NoOutputMessage)
            case Some(artefact) =>
              match env.copyError
              case Some(message) => Fail(state, ExceptionPrefix + message)
              case None =>
                state.(mediaPath := Some(PublicPrefix + OutputFilename(scene, env.uuid, artefact)),
                       mediaType := Some(MediaTypeFor(Suffix(artefact))),
                       status := Success,
                       errorMessage := None)
  }

  /** Empty code fails with its own message, and nothing is run: the environment is irrelevant. */
  lemma EmptyCodeRunsNothing(state: EducationalState, env: MediaEnv, other: MediaEnv)
    requires |state.manimCode| == 0
    ensures MediaGenerator(state, env) == Fail(state, NoCodeMessage)
    ensures MediaGenerator(state, env) == MediaGenerator(state, other)
  {
  }

  /** Code without a `Scene` subclass fails before any process runs. */
  lemma NoSceneRunsNothing(state: EducationalState, env: MediaEnv, other: MediaEnv)
    requires |state.manimCode| > 0
    requires forall i: nat, b, c, d, e, f :: !CodeUtils.SceneParse(state.manimCode, i, b, c, d, e, f)
    ensures MediaGenerator(state, env) == Fail(state, NoSceneMessage)
    ensures MediaGenerator(state, env) == MediaGenerator(state, other)
  {
    CodeUtils.SceneNameMissingIffNoParse(state.manimCode);
  }

  /**
   * A non-zero exit fails with the prefix and `error_msg[:500]`: the first
   * 500 characters of stderr, or of stdout when stderr is empty, or the fixed
   * text when both are; all of the text when it is shorter.
   */
  lemma NonZeroExitMessage(state: EducationalState, env: MediaEnv, scene: string,
                           code: int, stdout: string, stderr: string, listing: Listing)
    requires |state.manimCode| > 0
    requires CodeUtils.ExtractSceneName(state.manimCode) == Some(scene)
    requires env.run(Invocation(state.manimCode, scene, TimeoutSeconds)) == Exited(code, stdout, stderr, listing)
    requires code != 0
    ensures MediaGenerator(state, env) == Fail(state, ExecutionFailedPrefix + Take(ProcessErrorText(stdout, stderr), ErrorTextLimit))
    ensures var r := MediaGenerator(state, env);
            var full := ProcessErrorText(stdout, stderr);
            && r.errorMessage.Some?
            && StartsWith(r.errorMessage.value, ExecutionFailedPrefix)
            && var text := r.errorMessage.value[|ExecutionFailedPrefix|..];
               && 0 < |text| <= ErrorTextLimit
               && text == full[..if |full| < ErrorTextLimit then |full| else ErrorTextLimit]
  {
    var r := MediaGenerator(state, env);
    var text := Take(ProcessErrorText(stdout, stderr), ErrorTextLimit);
    assert r.errorMessage.value == ExecutionFailedPrefix + text;
    assert r.errorMessage.value[|ExecutionFailedPrefix|..] == text;
  }

  /** A render that runs past the 120-second limit fails with the timeout message. */
  lemma TimeoutFails(state: EducationalState, env: MediaEnv, scene: string)
    requires |state.manimCode| > 0
    requires CodeUtils.ExtractSceneName(state.manimCode) == Some(scene)
    requires env.run(Invocation(state.manimCode, scene, TimeoutSeconds)) == TimedOut
    ensures MediaGenerator(state, env) == Fail(state, TimeoutMessage)
  {
  }

  /** Any other exception inside the `try` fails with the exception prefix and the exception's text. */
  lemma RaisedFails(state: EducationalState, env: MediaEnv, scene: string, message: string)
    requires |state.manimCode| > 0
    requires CodeUtils.ExtractSceneName(state.manimCode) == Some(scene)
    requires env.run(Invocation(state.manimCode, scene, TimeoutSeconds)) == Raised(message)
    ensures MediaGenerator(state, env) == Fail(state, ExceptionPrefix + message)
  {
  }

  /** A clean exit that leaves no video and no image fails with the no-output message. */
  lemma NoArtefactFails(state: EducationalState, env: MediaEnv, scene: string,
                        stdout: string, stderr: string, listing: Listing)
    requires |state.manimCode| > 0
    requires CodeUtils.ExtractSceneName(state.manimCode) == Some(scene)
    requires env.run(Invocation(state.manimCode, scene, TimeoutSeconds)) == Exited(0, stdout, stderr, listing)
    requires FirstMedia(listing).None?
    ensures MediaGenerator(state, env) == Fail(state, NoOutputMessage)
  {
  }

  /** A found artefact whose copy raises fails with the exception prefix and the copy error. */
  lemma CopyFailureFails(state: EducationalState, env: MediaEnv, scene: string,
                         stdout: string, stderr: string, listing: Listing)
    requires |state.manimCode| > 0
    requires CodeUtils.ExtractSceneName(state.manimCode) == Some(scene)
    requires env.run(Invocation(state.manimCode, scene, TimeoutSeconds)) == Exited(0, stdout, stderr, listing)
    requires FirstMedia(listing).Some? && env.copyError.Some?
    ensures MediaGenerator(state, env) == Fail(state, ExceptionPrefix + env.copyError.value)
  {
  }

  /**
   * A success publishes the artefact as scene + "_" + 8-character id + suffix
   * under `/static/generated/`, typed `video/mp4` exactly for an `.mp4` suffix.
   */
  lemma SuccessPublishesArtefact(state: EducationalState, env: MediaEnv)
    requires MediaGenerator(state, env).status == Success
    ensures var scene := CodeUtils.ExtractSceneName(state.manimCode).value;
            var outcome := env.run(Invocation(state.manimCode, scene, TimeoutSeconds));
            && outcome.Exited? && outcome.returnCode == 0
            && FirstMedia(outcome.listing).Some?
            && env.copyError.None?
            && var artefact := FirstMedia(outcome.listing).value;
               var r := MediaGenerator(state, env);
               && r.mediaPath == Some(PublicPrefix + OutputFilename(scene, env.uuid, artefact))
               && r.mediaType == Some(MediaTypeFor(Suffix(artefact)))
               && (r.mediaType == Some("video/mp4") <==> Suffix(artefact) == ".mp4")
               && (Suffix(artefact) != ".mp4" ==> r.mediaType == Some("image/png"))
  {
  }

  /** The fixed failure messages of the cascade are pairwise distinct. */
  lemma FixedFailureMessagesDistinct()
    ensures var messages := [NoCodeMessage, NoSceneMessage, NoOutputMessage, TimeoutMessage];
            forall a, b :: 0 <= a < b < |messages| ==> messages[a] != messages[b]
  {
    DifferAt(NoCodeMessage, NoSceneMessage, 0);
    DifferAt(NoCodeMessage, NoOutputMessage, 0);
    DifferAt(NoCodeMessage, TimeoutMessage, 0);
    DifferAt(NoSceneMessage, NoOutputMessage, 0);
    DifferAt(NoSceneMessage, TimeoutMessage, 0);
    DifferAt(NoOutputMessage, TimeoutMessage, 6);
  }

  /**
   * The messages that carry process or exception text differ from each other
   * and from the fixed ones, whatever that text is.
   */
  lemma FailureMessagesDistinct(text: string, exception: string)
    ensures ExecutionFailedPrefix + text != ExceptionPrefix + exception
    ensures ExceptionPrefix + exception != TimeoutMessage
    ensures ExceptionPrefix + exception != NoOutputMessage
    ensures ExecutionFailedPrefix + text != TimeoutMessage
    ensures ExecutionFailedPrefix + text != NoOutputMessage
  {
    var failed := ExecutionFailedPrefix + text;
    var raised := ExceptionPrefix + exception;
    DifferAt(failed, raised, 0);
    DifferAt(raised, TimeoutMessage, 0);
    DifferAt(raised, NoOutputMessage, 0);
    DifferAt(failed, TimeoutMessage, 16);
    DifferAt(failed, NoOutputMessage, 6);
  }

  /** Two strings that differ at one position are different. */
  lemma DifferAt(a: string, b: string, i: nat)
    requires i < |a| && i < |b| && a[i] != b[i]
    ensures a != b
  {
  }
}
