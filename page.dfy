/** `src/app/page.tsx`, without its layout: the story list the page holds, the
    transition that submitting the form makes on it, the transcript sent to the
    action, and which medium each part shows. */
module Page {
  import opened Outcomes
  import Text
  import opened Actions

  const FirstPartText := "In a land of sparkling rivers and candy-colored trees, a little fox named Felix found a mysterious, glowing key. He wondered what it might unlock..."

  /** The story the page starts with: one part, id 1, with a fixed image. */
  const InitialStory: seq<StoryPart> := [
    StoryPart(1, FirstPartText, Some("https://picsum.photos/seed/magical-castle/600/400"), None, None,
              Some("magical castle"))
  ]

  const PartSeparator := "\n\n"

  /** Ids number the parts 1, 2, ..., n in order. */
  ghost predicate SequentialIds(parts: seq<StoryPart>) {
    forall i :: 0 <= i < |parts| ==> parts[i].id == i + 1
  }

  /** Appending a part numbered one past the end keeps the numbering. */
  lemma AppendKeepsIds(parts: seq<StoryPart>, part: StoryPart)
    requires SequentialIds(parts) && part.id == |parts| + 1
    ensures SequentialIds(parts + [part])
  {
  }

  function Texts(parts: seq<StoryPart>): (texts: seq<string>)
    ensures |texts| == |parts| && forall i :: 0 <= i < |parts| ==> texts[i] == parts[i].text
  {
    seq(|parts|, i requires 0 <= i < |parts| => parts[i].text)
  }

  /** `storyParts.map(p => p.text).join('\n\n')`. */
  function StorySoFar(parts: seq<StoryPart>): (transcript: string)
    ensures |parts| == 0 ==> transcript == ""
    ensures |parts| == 1 ==> transcript == parts[0].text
    ensures |parts| >= 2 ==> parts[0].text + PartSeparator <= transcript
  {
    Text.Join(Texts(parts), PartSeparator)
  }

  /** The transcript grows by a blank line and the new part's text. */
  lemma StorySoFarAppend(parts: seq<StoryPart>, part: StoryPart)
    requires |parts| >= 1
    ensures StorySoFar(parts + [part]) == StorySoFar(parts) + PartSeparator + part.text
  {
    assert Texts(parts + [part]) == Texts(parts) + [part.text];
    Text.JoinSnoc(Texts(parts), part.text, PartSeparator);
  }

  /** The fields of a part without its id (`Omit<StoryPart, 'id'>`). */
  function WithoutId(part: StoryPart): StoryFields {
    StoryFields(part.text, part.imageUrl, part.videoUrl, part.audioUrl, part.imageHint)
  }

  /** `{ ...data, id }`: the returned fields unchanged, numbered `id`. */
  function WithId(fields: StoryFields, id: int): (part: StoryPart)
    ensures part.id == id && WithoutId(part) == fields
  {
    StoryPart(id, fields.text, fields.imageUrl, fields.videoUrl, fields.audioUrl, fields.imageHint)
  }

  /** What a part's card shows. */
  datatype Media = Video(src: string) | Image(src: string) | Spinner

  /** The video when `videoUrl` is set, else the image when `imageUrl` is set,
      else the loading spinner. */
  function MediaShown(part: StoryPart): (m: Media)
    ensures m.Video? <==> Text.Truthy(part.videoUrl)
    ensures m.Image? <==> !Text.Truthy(part.videoUrl) && Text.Truthy(part.imageUrl)
    ensures m.Video? ==> m.src == part.videoUrl.value
    ensures m.Image? ==> m.src == part.imageUrl.value
  {
    if Text.Truthy(part.videoUrl) then Video(part.videoUrl.value)
    else if Text.Truthy(part.imageUrl) then Image(part.imageUrl.value)
    else Spinner
  }

  /** A part the action produced shows its video if it has one and its image
      otherwise, provided the video URI is not empty (as every URI of the video
      flow is not); it never shows the spinner. */
  lemma ActionPartShowsMedia(fields: StoryFields, id: int)
    requires OneVisual(fields)
    requires fields.imageUrl.Some? ==> Text.Truthy(fields.imageUrl)
    requires fields.videoUrl.Some? ==> Text.Truthy(fields.videoUrl)
    ensures MediaShown(WithId(fields, id)) != Spinner
    ensures MediaShown(WithId(fields, id)).Video? <==> fields.videoUrl.Some?
  {
  }

  /** The arguments of a call to the story action. */
  datatype ActionCall = ActionCall(storySoFar: string, userInput: string)

  /** The state `Home` holds: the story so far and the text in the input box. */
  class StoryPage {
    var storyParts: seq<StoryPart>
    var userInput: string

    ghost predicate Valid()
      reads this
    {
      |storyParts| >= 1 && SequentialIds(storyParts)
    }

    constructor ()
      ensures Valid()
      ensures storyParts == InitialStory && userInput == ""
    {
      storyParts := InitialStory;
      userInput := "";
    }

    /** The input box's `onChange`. */
    method Edit(text: string)
      requires Valid()
      modifies this`userInput
      ensures Valid()
      ensures userInput == text
    {
      userInput := text;
    }

    /** `handleStoryContinue`: a blank input is refused without calling the
        action; otherwise the action is called with the transcript and the input,
        an error leaves everything as it was, and data is appended as the next
        part, after which the input box is cleared. */
    method HandleStoryContinue(action: (string, string) -> ActionResult) returns (call: Option<ActionCall>)
      requires Valid()
      modifies this
      ensures Valid()
      ensures Text.IsBlank(old(userInput)) ==>
        call.None? && storyParts == old(storyParts) && userInput == old(userInput)
      ensures !Text.IsBlank(old(userInput)) ==>
        call == Some(ActionCall(StorySoFar(old(storyParts)), old(userInput)))
      ensures call.Some? ==>
        var result := action(call.value.storySoFar, call.value.userInput);
        if Text.Truthy(result.error) || result.data.None? then
          storyParts == old(storyParts) && userInput == old(userInput)
        else
          storyParts == old(storyParts) + [WithId(result.data.value, |old(storyParts)| + 1)]
          && userInput == ""
    {
      var currentInput := userInput;
      if Text.Trim(currentInput) == "" {
        return None;
      }
      var storySoFar := StorySoFar(storyParts);
      call := Some(ActionCall(storySoFar, currentInput));
      var result := action(storySoFar, currentInput);
      if Text.Truthy(result.error) {
        // the error is reported in a toast; the story stays as it is
      } else if result.data.Some? {
        var part := WithId(result.data.value, |storyParts| + 1);
        AppendKeepsIds(storyParts, part);
        storyParts := storyParts + [part];
        userInput := "";
      }
    }
  }
}
