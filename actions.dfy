/** `src/app/actions.ts`: the server action that continues the story and
    gathers its media, falling back step by step when a media call fails.

    Every generative call is an oracle of what is sent to it and yields either
    its value or a thrown error: `continueStory(text)` the continuation,
    `extractPrompt(text)` the prompt extractor's output (`None` for a null output),
    `generateVideo(prompt)` the video data URI, `textToSpeech(text)` the audio
    data URI. `random` is the text of the `Math.random()` value in a placeholder URL. */
module Actions {
  import opened Outcomes
  import Text

  /** One illustrated, narrated page of the story. */
  datatype StoryPart = StoryPart(id: int, text: string, imageUrl: Option<string>, videoUrl: Option<string>,
                                 audioUrl: Option<string>, imageHint: Option<string>)

  /** A story part without its id, as the action returns it. */
  datatype StoryFields = StoryFields(text: string, imageUrl: Option<string>, videoUrl: Option<string>,
                                     audioUrl: Option<string>, imageHint: Option<string>)

  /** `{ data, error }`. */
  datatype ActionResult = ActionResult(data: Option<StoryFields>, error: Option<string>)

  /** A call the action makes to a model, with what it sends. */
  datatype Call = ContinueCall(input: string) | ExtractCall(storyText: string)
                | VideoCall(textDescription: string) | SpeechCall(text: string)

  const EmptyResponse := "AI_EMPTY_RESPONSE"
  const ApiFailure := "API_FAILURE"
  const FallbackHint := "fantasy magical"
  const PlaceholderPrefix := "https://picsum.photos/600/400?random="

  /** Exactly one visual (video or image) and an image hint: the shape of every
      part the action produces. */
  predicate OneVisual(f: StoryFields) {
    (f.videoUrl.Some? != f.imageUrl.Some?) && f.imageHint.Some?
  }

  /** `output && output.prompt`: an extracted prompt that is present and not empty. */
  predicate UsablePrompt(extracted: Result<Option<string>>) {
    extracted.Success? && Text.Truthy(extracted.value)
  }

  /** The visual step of `continueStoryAction`: extract a prompt from the continuation;
      a usable one becomes the image hint and is sent to the video generator, whose
      failure falls back to a placeholder image; without one the hint is the fixed
      fallback and the image a placeholder. `mediaCalls` are the calls made after the
      extraction. */
  method Illustrate(storyContinuation: string,
                    extractPrompt: string -> Result<Option<string>>,
                    generateVideo: string -> Result<string>,
                    random: string)
    returns (videoUrl: Option<string>, imageUrl: Option<string>, imageHint: Option<string>, mediaCalls: seq<Call>)
    ensures (videoUrl.Some? != imageUrl.Some?) && imageHint.Some?
    ensures !UsablePrompt(extractPrompt(storyContinuation)) ==>
      imageHint == Some(FallbackHint) && imageUrl == Some(PlaceholderPrefix + random)
      && videoUrl.None? && mediaCalls == []
    ensures UsablePrompt(extractPrompt(storyContinuation)) ==>
      var prompt := extractPrompt(storyContinuation).value.value;
      imageHint == Some(prompt) && mediaCalls == [VideoCall(prompt)]
      && match generateVideo(prompt)
         case Success(videoDataUri) => videoUrl == Some(videoDataUri) && imageUrl.None?
         case Failure(_) => imageUrl == Some(PlaceholderPrefix + random) && videoUrl.None?
  {
    videoUrl, imageUrl, imageHint, mediaCalls := None, None, None, [];
    var extracted := extractPrompt(storyContinuation);
    if extracted.Success? {
      var output := extracted.value;
      if output.Some? && output.value != "" {
        imageHint := Some(output.value);
        mediaCalls := [VideoCall(output.value)];
        var video := generateVideo(output.value);
        if video.Success? {
          videoUrl := Some(video.value);
        } else {
          imageUrl := Some(PlaceholderPrefix + random);
        }
      } else {
        imageHint := Some(FallbackHint);
        imageUrl := Some(PlaceholderPrefix + random);
      }
    } else {
      imageHint := Some(FallbackHint);
      imageUrl := Some(PlaceholderPrefix + random);
    }
  }

  /** `continueStoryAction(storySoFar, userInput)`. Only `userInput` is sent to the
      continuation; `storySoFar` is accepted and never used. `calls` lists the model
      calls made, in order. */
  method ContinueStoryAction(storySoFar: string, userInput: string,
                             continueStory: string -> Result<string>,
                             extractPrompt: string -> Result<Option<string>>,
                             generateVideo: string -> Result<string>,
                             textToSpeech: string -> Result<string>,
                             random: string)
    returns (r: ActionResult, calls: seq<Call>)
    // the two error codes, and nothing else fails
    ensures continueStory(userInput).Failure? ==> r == ActionResult(None, Some(ApiFailure))
    ensures continueStory(userInput).Success? && Text.IsBlank(continueStory(userInput).value) ==>
              r == ActionResult(None, Some(EmptyResponse))
    ensures r.error.None? <==> continueStory(userInput).Success? && !Text.IsBlank(continueStory(userInput).value)
    ensures r.error.None? <==> r.data.Some?
    // on success: the continuation verbatim, one visual, and best-effort audio
    ensures r.data.Some? ==>
      var text := continueStory(userInput).value;
      var fields := r.data.value;
      fields.text == text
      && OneVisual(fields)
      && fields.audioUrl == (if textToSpeech(text).Success? then Some(textToSpeech(text).value) else None)
    // which calls are made: none after a failed or blank continuation; the video only
    // for a usable prompt; speech last
    ensures r.error.Some? ==> calls == [ContinueCall(userInput)]
    ensures r.data.Some? ==>
      var text := r.data.value.text;
      var extracted := extractPrompt(text);
      calls == [ContinueCall(userInput), ExtractCall(text)]
               + (if UsablePrompt(extracted) then [VideoCall(extracted.value.value)] else [])
               + [SpeechCall(text)]
    // the visual fallback tree
    ensures r.data.Some? && !UsablePrompt(extractPrompt(r.data.value.text)) ==>
      r.data.value.imageHint == Some(FallbackHint)
      && r.data.value.imageUrl == Some(PlaceholderPrefix + random)
      && r.data.value.videoUrl.None?
    ensures r.data.Some? && UsablePrompt(extractPrompt(r.data.value.text)) ==>
      var prompt := extractPrompt(r.data.value.text).value.value;
      r.data.value.imageHint == Some(prompt)
      && match generateVideo(prompt)
         case Success(videoDataUri) => r.data.value.videoUrl == Some(videoDataUri) && r.data.value.imageUrl.None?
         case Failure(_) => r.data.value.imageUrl == Some(PlaceholderPrefix + random) && r.data.value.videoUrl.None?
  {
    calls := [ContinueCall(userInput)];
    var continuation := continueStory(userInput);
    if continuation.Failure? {
      return ActionResult(None, Some(ApiFailure)), calls;
    }
    var storyContinuation := continuation.value;
    if Text.Trim(storyContinuation) == "" {
      return ActionResult(None, Some(EmptyResponse)), calls;
    }

    var videoUrl, imageUrl, imageHint, mediaCalls := Illustrate(storyContinuation, extractPrompt, generateVideo, random);
    calls := [ContinueCall(userInput), ExtractCall(storyContinuation)] + mediaCalls + [SpeechCall(storyContinuation)];
    var audioUrl: Option<string> := None;
    var speech := textToSpeech(storyContinuation);
    if speech.Success? {
      audioUrl := Some(speech.value);
    }

    r := ActionResult(Some(StoryFields(storyContinuation, imageUrl, videoUrl, audioUrl, imageHint)), None);
  }
}
