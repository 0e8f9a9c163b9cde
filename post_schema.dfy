/** The input schema of post creation (src/schemas/post.ts). */
module PostSchema {
  import opened Types

  /** The refinement's message, reported on the `content` path. */
  const EmptyPostMessage: string := "O post deve ter pelo menos um texto ou uma imagem"

  /** The parsed input: `image` None is an absent key. */
  datatype CreatePost = CreatePost(content: string, image: Option<string>)

  /** JavaScript's `!!s` on an optional string: only a present, non-empty string is truthy. */
  predicate Truthy(s: Option<string>) {
    s.Some? && s.value != ""
  }

  /** The refinement: some text, or an image. */
  predicate HasTextOrImage(input: CreatePost) {
    |input.content| > 0 || Truthy(input.image)
  }

  /** Parsing: the input passes unchanged, or one custom issue on `content` is reported. */
  function Parse(input: CreatePost): (r: Result<CreatePost>)
    ensures r.Ok? <==> input.content != "" || (input.image.Some? && |input.image.value| > 0)
    ensures r.Ok? ==> r.value == input
    ensures r.Err? ==>
      && r.error.BadInput? && |r.error.issues| == 1
      && r.error.issues[0].path == "content" && r.error.issues[0].Custom?
  {
    if HasTextOrImage(input) then Ok(input)
    else Err(BadInput([Custom("content", EmptyPostMessage)]))
  }

  /** Any non-empty text is accepted, whatever the image. */
  lemma TextIsEnough(content: string, image: Option<string>)
    requires content != ""
    ensures Parse(CreatePost(content, image)) == Ok(CreatePost(content, image))
  {
  }

  /** No text and no image, or an empty image string, are both rejected with the same issue. */
  lemma EmptyRejected(image: Option<string>)
    requires image == None || image == Some("")
    ensures Parse(CreatePost("", image)) == Err(BadInput([Custom("content", EmptyPostMessage)]))
  {
  }

  /** With no text, any non-empty image string is accepted, even one that is not a data URI. */
  lemma ImageAloneAccepted(image: string)
    requires image != ""
    ensures Parse(CreatePost("", Some(image))).Ok?
  {
  }
}
