/** `src/ai/flows/story-video-generation.ts`: start a video generation, poll the
    long-running operation until it is done, then turn its first media part into a
    `data:video/mp4;base64,` URI.

    The model backend is an oracle: `generate(prompt)` is the operation the initial
    call returns for that prompt (`None` when it returns none), and `polls[k]` is
    the operation the k-th `checkOperation` returns. The source polls without
    bound; when the script ends before the operation is done the model reports
    `StillPolling`, standing for a run that has not finished yet. */
module StoryVideoGeneration {
  import opened Outcomes
  import Text
  import opened VideoUtils

  const PromptPrefix := "Generate a whimsical, kid-friendly animated video for the following scene: "
  const DataUriPrefix := "data:video/mp4;base64,"
  const NoOperationMessage := "Expected the model to return an operation"
  const GenerationFailedPrefix := "failed to generate video: "
  const NoVideoMessage := "Failed to find the generated video"
  /** Milliseconds slept after each `checkOperation`. */
  const PollInterval: nat := 5000

  datatype Part = Part(media: Option<MediaPart>)
  datatype Message = Message(content: seq<Part>)
  datatype OperationOutput = OperationOutput(message: Option<Message>)
  datatype OperationError = OperationError(message: string)
  /** A long-running operation handle as the backend reports it. */
  datatype Operation = Operation(done: bool, error: Option<OperationError>, output: Option<OperationOutput>)

  /** The outcome of one run of the flow. */
  datatype FlowResult = Generated(videoDataUri: string) | Failed(message: string) | StillPolling

  /** The prompt sent to the video model. */
  function VideoPrompt(textDescription: string): (prompt: string)
    ensures PromptPrefix <= prompt && prompt[|PromptPrefix|..] == textDescription
  {
    PromptPrefix + textDescription
  }

  /** `content.find(p => !!p.media)`, as an index: the first part that carries media. */
  function FirstMediaPart(parts: seq<Part>): (r: Option<nat>)
    ensures r.Some? ==> r.value < |parts| && parts[r.value].media.Some?
    ensures r.Some? ==> forall j :: 0 <= j < r.value ==> parts[j].media.None?
    ensures r.None? ==> forall j :: 0 <= j < |parts| ==> parts[j].media.None?
  {
    if |parts| == 0 then None
    else if parts[0].media.Some? then Some(0)
    else match FirstMediaPart(parts[1..])
      case None => None
      case Some(i) => Some(i + 1)
  }

  /** `operation.output?.message?.content`, with an absent output or message read as
      no parts (for `find` the two give the same `undefined`). */
  function Content(operation: Operation): seq<Part> {
    if operation.output.None? || operation.output.value.message.None? then []
    else operation.output.value.message.value.content
  }

  /** `operation.output?.message?.content.find(p => !!p.media)?.media`: the media of
      the first part that has any, and none when no part has media. */
  function FoundMedia(operation: Operation): (r: Option<MediaPart>)
    ensures r.None? <==> forall j :: 0 <= j < |Content(operation)| ==> Content(operation)[j].media.None?
    ensures r.Some? ==> exists i :: 0 <= i < |Content(operation)| && Content(operation)[i].media == r
                          && forall j :: 0 <= j < i ==> Content(operation)[j].media.None?
  {
    var content := Content(operation);
    match FirstMediaPart(content)
    case None => None
    case Some(i) => content[i].media
  }

  /** The handle held after `k` re-queries: the started operation, then each polled one. */
  function Polled(started: Operation, polls: seq<Operation>, k: nat): Operation
    requires k <= |polls|
  {
    if k == 0 then started else polls[k - 1]
  }

  /** One step of the poll loop: a re-query of the operation, or a sleep. */
  datatype PollStep = Check | Sleep(ms: nat)

  /** The flow body. `checks` is how many times the operation was re-queried, and
      `trace` the poll loop's steps in order: each re-query followed by a sleep of
      `PollInterval`. */
  method GenerateStoryVideo(textDescription: string, generate: string -> Option<Operation>,
                            polls: seq<Operation>, apiKey: Option<string>, attempts: seq<Attempt>)
    returns (r: FlowResult, checks: nat, trace: seq<PollStep>)
    requires |attempts| > DefaultRetries
    ensures generate(VideoPrompt(textDescription)).None? ==> r == Failed(NoOperationMessage) && checks == 0
    ensures |trace| == 2 * checks
    ensures forall i :: 0 <= i < |trace| ==> trace[i] == if i % 2 == 0 then Check else Sleep(PollInterval)
    ensures generate(VideoPrompt(textDescription)).Some? ==>
      var started := generate(VideoPrompt(textDescription)).value;
      checks <= |polls|
      && (forall k :: 0 <= k < checks ==> !Polled(started, polls, k).done)
      && (r.StillPolling? <==> forall k :: 0 <= k <= |polls| ==> !Polled(started, polls, k).done)
      && (r.StillPolling? ==> checks == |polls|)
      && (!r.StillPolling? ==> Polled(started, polls, checks).done)
    ensures generate(VideoPrompt(textDescription)).Some? && !r.StillPolling? ==>
      var operation := Polled(generate(VideoPrompt(textDescription)).value, polls, checks);
      var media := FoundMedia(operation);
      if operation.error.Some? then r == Failed(GenerationFailedPrefix + operation.error.value.message)
      else if media.None? || !Text.Truthy(media.value.url) then r == Failed(NoVideoMessage)
      else match DownloadVideo(media.value, apiKey, attempts)
        case Failure(e) => r == Failed(e)
        case Success(encoded) => r == Generated(DataUriPrefix + encoded)
  {
    var started := generate(VideoPrompt(textDescription));
    if started.None? {
      return Failed(NoOperationMessage), 0, [];
    }
    var operation := started.value;
    checks, trace := 0, [];
    while !operation.done
      invariant checks <= |polls|
      invariant operation == Polled(started.value, polls, checks)
      invariant forall k :: 0 <= k < checks ==> !Polled(started.value, polls, k).done
      invariant |trace| == 2 * checks
      invariant forall i :: 0 <= i < |trace| ==> trace[i] == if i % 2 == 0 then Check else Sleep(PollInterval)
      decreases |polls| - checks
    {
      if checks == |polls| {
        return StillPolling, checks, trace;
      }
      operation := polls[checks];
      trace := trace + [Check];
      trace := trace + [Sleep(PollInterval)];
      checks := checks + 1;
    }

    if operation.error.Some? {
      return Failed(GenerationFailedPrefix + operation.error.value.message), checks, trace;
    }
    var video := FoundMedia(operation);
    if video.None? || !Text.Truthy(video.value.url) {
      return Failed(NoVideoMessage), checks, trace;
    }
    var downloaded := DownloadVideo(video.value, apiKey, attempts);
    match downloaded {
      case Failure(e) => r := Failed(e);
      case Success(videoBase64) => r := Generated(DataUriPrefix + videoBase64);
    }
  }
}
