/**
 * The outline parser and slide dispatcher: the language model's reply is cut
 * at every `[SLIDEBREAK]`, each piece is given a slide kind by its first
 * kind tag in a fixed order, its fields are read between their tags, and
 * each recognised piece adds one slide with a fixed layout to the deck.
 *
 * The presentation library is replaced by a deck that is a sequence of slide
 * records; saving a deck records it under its path.
 */
module Slides {
  import opened Wrappers
  import Strings
  import ImageSearch

  /** Separates the slides in the model's reply. */
  const SlideBreak: string := "[SLIDEBREAK]"

  /** The title given to a slide whose `[TITLE]` field is missing or empty. */
  const Untitled: string := "Untitled"

  /** Extension of a saved deck. */
  const DeckExtension: string := ".pptx"

  // Layout indices of the template used for each kind.
  const TitleLayout: nat := 0
  const ContentLayout: nat := 1
  const TitleOnlyLayout: nat := 5
  const PictureWithCaptionLayout: nat := 8

  datatype Kind = TitleKind | ContentKind | ImageKind | ThanksKind

  /** The kind tags, in the order they are tried. */
  const KindOrder: seq<Kind> := [TitleKind, ContentKind, ImageKind, ThanksKind]

  function Tag(k: Kind): string {
    match k
    case TitleKind => "[L_TS]"
    case ContentKind => "[L_CS]"
    case ImageKind => "[L_IS]"
    case ThanksKind => "[L_THS]"
  }

  /** Where a kind stands in the order the tags are tried. */
  function Rank(k: Kind): nat {
    match k
    case TitleKind => 0
    case ContentKind => 1
    case ImageKind => 2
    case ThanksKind => 3
  }

  /** One slide of the deck: its layout, its title, the text of its second placeholder and its picture. */
  datatype Slide = Slide(layout: nat, title: string, body: Option<string>, picture: Option<string>)

  // ---------------------------------------------------------------------------
  // Tag scanning
  // ---------------------------------------------------------------------------

  /**
   * `_extract_tag_content`: the trimmed text between the first start tag and
   * the first end tag. The end tag is searched from the beginning of the
   * text, not after the start tag, so an end tag that comes first yields "".
   */
  function ExtractTagContent(text: string, startTag: string, endTag: string): (r: string)
    ensures Strings.IsStripped(r)
    ensures !Strings.Contains(text, startTag) || !Strings.Contains(text, endTag) ==> r == ""
  {
    var start := Strings.Find(text, startTag);
    var end := Strings.Find(text, endTag);
    if start != -1 && end != -1 then Strings.Strip(Strings.Slice(text, start + |startTag|, end)) else ""
  }

  /**
   * Where both tags occur, the field is the trimmed text from the end of the
   * first start tag to the first end tag, or "" when that end tag comes
   * before the start tag is over.
   */
  lemma ExtractAtFirstTags(text: string, startTag: string, endTag: string, s: int, e: int)
    requires Strings.IsFirstOccurrence(text, startTag, s) && Strings.IsFirstOccurrence(text, endTag, e)
    ensures ExtractTagContent(text, startTag, endTag)
            == if s + |startTag| <= e then Strings.Strip(text[s + |startTag|..e]) else ""
  {
    Strings.FindFirstOccurrence(text, startTag, s);
    Strings.FindFirstOccurrence(text, endTag, e);
    var a := s + |startTag|;
    if a <= e {
      assert Strings.Slice(text, a, e) == text[a..e];
    } else {
      assert Strings.Slice(text, a, e) == "";
    }
  }

  /**
   * Reading back a tagged field: a text that opens with the start tag,
   * holds the field's text and then the end tag yields the trimmed field,
   * provided the end tag does not occur before its intended place.
   */
  lemma ExtractTagged(startTag: string, body: string, endTag: string, rest: string)
    requires Strings.SeparatesCleanly(startTag + body, endTag)
    ensures ExtractTagContent(startTag + body + endTag + rest, startTag, endTag) == Strings.Strip(body)
  {
    var text := startTag + body + endTag + rest;
    var e := |startTag| + |body|;
    assert text[..e + |endTag|] == startTag + body + endTag;
    assert text[..|startTag|] == startTag;
    assert Strings.IsFirstOccurrence(text, startTag, 0);
    forall j | 0 <= j < e
      ensures !Strings.OccursAt(text, endTag, j)
    {
      assert !Strings.OccursAt(startTag + body + endTag, endTag, j);
    }
    assert text[e..e + |endTag|] == endTag;
    assert text[|startTag|..e] == body;
    ExtractAtFirstTags(text, startTag, endTag, 0, e);
  }

  /** The position in `kinds`, from `k` on, of the first kind that is `present`; `|kinds|` if none is. */
  function FirstPresentFrom(kinds: seq<Kind>, present: Kind -> bool, k: nat): (i: nat)
    requires k <= |kinds|
    ensures k <= i <= |kinds|
    ensures forall j :: k <= j < i ==> !present(kinds[j])
    ensures i < |kinds| ==> present(kinds[i])
    decreases |kinds| - k
  {
    if k == |kinds| then k
    else if present(kinds[k]) then k
    else FirstPresentFrom(kinds, present, k + 1)
  }

  /**
   * `_find_slide_type`: the kind whose tag occurs in the text and comes
   * first in the order `[L_TS]`, `[L_CS]`, `[L_IS]`, `[L_THS]`; `None` when
   * no kind tag occurs.
   */
  function FindSlideType(text: string): (r: Option<Kind>)
    ensures r.None? <==> forall k: Kind :: !Strings.Contains(text, Tag(k))
    ensures r.Some? ==> Strings.Contains(text, Tag(r.value))
    ensures r.Some? ==> forall k: Kind :: Rank(k) < Rank(r.value) ==> !Strings.Contains(text, Tag(k))
  {
    FirstPresent(k => Strings.Contains(text, Tag(k)))
  }

  /** The first kind in the order the tags are tried that is `present`, if any. */
  function FirstPresent(present: Kind -> bool): (r: Option<Kind>)
    ensures r.None? <==> forall k: Kind :: !present(k)
    ensures r.Some? ==> present(r.value)
    ensures r.Some? ==> forall k: Kind :: Rank(k) < Rank(r.value) ==> !present(k)
  {
    var i := FirstPresentFrom(KindOrder, present, 0);
    assert forall k: Kind :: KindOrder[Rank(k)] == k;
    if i < |KindOrder| then Some(KindOrder[i])
    else
      assert forall k: Kind :: !present(k) by {
        forall k: Kind
          ensures !present(k)
        {
          assert KindOrder[Rank(k)] == k;
        }
      }
      None
  }

  // ---------------------------------------------------------------------------
  // What one piece of the reply turns into
  // ---------------------------------------------------------------------------

  /** The title of a piece: its `[TITLE]` field, or "Untitled" when that is empty. */
  function ChunkTitle(chunk: string): (title: string)
    ensures title != "" && Strings.IsStripped(title)
  {
    var t := ExtractTagContent(chunk, "[TITLE]", "[/TITLE]");
    if t == "" then Untitled else t
  }

  function Subtitle(chunk: string): string {
    ExtractTagContent(chunk, "[SUBTITLE]", "[/SUBTITLE]")
  }

  function TextContent(chunk: string): string {
    ExtractTagContent(chunk, "[CONTENT]", "[/CONTENT]")
  }

  function ImageQuery(chunk: string): string {
    ExtractTagContent(chunk, "[IMAGE]", "[/IMAGE]")
  }

  /** The slide a piece of a given kind becomes, before any picture is attached. */
  function Draft(chunk: string, kind: Kind): Slide {
    match kind
    case TitleKind => Slide(TitleLayout, ChunkTitle(chunk), Some(Subtitle(chunk)), None)
    case ContentKind => Slide(ContentLayout, ChunkTitle(chunk), Some(TextContent(chunk)), None)
    case ImageKind => Slide(PictureWithCaptionLayout, ChunkTitle(chunk), Some(TextContent(chunk)), None)
    case ThanksKind => Slide(TitleOnlyLayout, ChunkTitle(chunk), None, None)
  }

  /** The slide a piece becomes, pictures aside, if its kind is recognised. */
  function Sketch(chunk: string): Option<Slide> {
    match FindSlideType(chunk)
    case None => None
    case Some(k) => Some(Draft(chunk, k))
  }

  /** What an optional slide contributes to a deck: itself, or nothing. */
  function Listed(s: Option<Slide>): seq<Slide> {
    match s
    case None => []
    case Some(slide) => [slide]
  }

  /** The slides the pieces become under a given per-piece draft, in order. */
  function DraftsWith(chunks: seq<string>, draft: string -> Option<Slide>): seq<Slide> {
    if chunks == [] then [] else DraftsWith(chunks[..|chunks| - 1], draft) + Listed(draft(chunks[|chunks| - 1]))
  }

  /**
   * The slides of the recognised pieces, in order, without pictures: the
   * reference the dispatcher is measured against.
   */
  function Outline(chunks: seq<string>): seq<Slide> {
    DraftsWith(chunks, Sketch)
  }

  /** A slide with its picture left out. */
  function Unpictured(slides: seq<Slide>): (r: seq<Slide>)
    ensures |r| == |slides|
    ensures forall i :: 0 <= i < |slides| ==> r[i] == slides[i].(picture := None)
  {
    if slides == [] then [] else [slides[0].(picture := None)] + Unpictured(slides[1..])
  }

  /** What handling one piece does: the slide it adds, if any, and the image cache file afterwards. */
  datatype Step = Step(slide: Option<Slide>, cacheFile: ImageSearch.StoreFile)

  /**
   * Handling one piece. An image piece loads the cache file afresh, looks up
   * its `[IMAGE]` query, and pictures the file found under `imagesPath`.
   */
  function RenderChunk(chunk: string, file: ImageSearch.StoreFile, imagesPath: string,
                       listdir: string -> seq<string>): Step
  {
    match FindSlideType(chunk)
    case None => Step(None, file)
    case Some(ImageKind) =>
      var query := ImageQuery(chunk);
      var f := ImageSearch.Download(ImageSearch.LoadedEntries(file), query, listdir(query));
      var picture := imagesPath + "/" + f.name;
      Step(Some(Draft(chunk, ImageKind).(picture := Some(picture))), if f.saved then ImageSearch.Json(f.cache) else file)
    case Some(k) => Step(Some(Draft(chunk, k)), file)
  }

  /** The slides added and the cache file left by handling the pieces in order. */
  datatype Rendered = Rendered(slides: seq<Slide>, cacheFile: ImageSearch.StoreFile)

  /** The slides added and the cache file left by handling the pieces in order with a given step. */
  function RenderWith(chunks: seq<string>, file: ImageSearch.StoreFile,
                      render: (string, ImageSearch.StoreFile) -> Step): Rendered
  {
    if chunks == [] then Rendered([], file)
    else
      var before := RenderWith(chunks[..|chunks| - 1], file, render);
      var step := render(chunks[|chunks| - 1], before.cacheFile);
      Rendered(before.slides + Listed(step.slide), step.cacheFile)
  }

  /** The dispatcher's step for a given images directory and directory listing. */
  function Renderer(imagesPath: string, listdir: string -> seq<string>): (string, ImageSearch.StoreFile) -> Step {
    (chunk, file) => RenderChunk(chunk, file, imagesPath, listdir)
  }

  /** The slides added and the cache file left by handling the pieces in order. */
  function RenderChunks(chunks: seq<string>, file: ImageSearch.StoreFile, imagesPath: string,
                        listdir: string -> seq<string>): Rendered
  {
    RenderWith(chunks, file, Renderer(imagesPath, listdir))
  }

  /** Handling the first `i + 1` pieces is handling the first `i` and then piece `i`. */
  lemma RenderWithStep(chunks: seq<string>, i: nat, file: ImageSearch.StoreFile,
                       render: (string, ImageSearch.StoreFile) -> Step)
    requires i < |chunks|
    ensures var before := RenderWith(chunks[..i], file, render);
      var step := render(chunks[i], before.cacheFile);
      RenderWith(chunks[..i + 1], file, render) == Rendered(before.slides + Listed(step.slide), step.cacheFile)
  {
    assert chunks[..i + 1][..i] == chunks[..i];
  }

  // ---------------------------------------------------------------------------
  // Properties of the dispatcher
  // ---------------------------------------------------------------------------

  /** A step that adds its piece's draft, pictures aside, adds the drafts of all pieces. */
  lemma {:induction false} RenderWithFollows(chunks: seq<string>, file: ImageSearch.StoreFile,
                                             render: (string, ImageSearch.StoreFile) -> Step,
                                             draft: string -> Option<Slide>)
    requires forall chunk, f :: Unpictured(Listed(render(chunk, f).slide)) == Listed(draft(chunk))
    ensures Unpictured(RenderWith(chunks, file, render).slides) == DraftsWith(chunks, draft)
  {
    if chunks != [] {
      var front := chunks[..|chunks| - 1];
      var before := RenderWith(front, file, render);
      RenderWithFollows(front, file, render, draft);
      UnpicturedAppend(before.slides, Listed(render(chunks[|chunks| - 1], before.cacheFile).slide));
    }
  }

  /** One piece adds its outline slide, pictures aside. */
  lemma ChunkFollowsOutline(chunk: string, file: ImageSearch.StoreFile, imagesPath: string,
                            listdir: string -> seq<string>)
    ensures Unpictured(Listed(RenderChunk(chunk, file, imagesPath, listdir).slide)) == Listed(Sketch(chunk))
  {
  }

  /**
   * Pictures aside, the dispatcher adds exactly the outline: one slide per
   * recognised piece, in the order of the pieces, and nothing for the rest.
   */
  lemma RenderFollowsOutline(chunks: seq<string>, file: ImageSearch.StoreFile,
                             imagesPath: string, listdir: string -> seq<string>)
    ensures Unpictured(RenderChunks(chunks, file, imagesPath, listdir).slides) == Outline(chunks)
  {
    var render := Renderer(imagesPath, listdir);
    forall chunk, f
      ensures Unpictured(Listed(render(chunk, f).slide)) == Listed(Sketch(chunk))
    {
      ChunkFollowsOutline(chunk, f, imagesPath, listdir);
    }
    RenderWithFollows(chunks, file, render, Sketch);
  }

  /** A piece of a kind other than the image kind adds its draft and leaves the cache file alone. */
  lemma SteadyStep(chunk: string, k: Kind, file: ImageSearch.StoreFile, imagesPath: string,
                   listdir: string -> seq<string>)
    requires FindSlideType(chunk) == Some(k) && k != ImageKind
    ensures RenderChunk(chunk, file, imagesPath, listdir) == Step(Some(Draft(chunk, k)), file)
  {
  }

  /** An image piece adds its draft with the downloaded picture and keeps the cache it saved. */
  lemma ImageStep(chunk: string, file: ImageSearch.StoreFile, imagesPath: string,
                  listdir: string -> seq<string>)
    requires FindSlideType(chunk) == Some(ImageKind)
    ensures var query := ImageQuery(chunk);
      var f := ImageSearch.Download(ImageSearch.LoadedEntries(file), query, listdir(query));
      RenderChunk(chunk, file, imagesPath, listdir)
        == Step(Some(Slide(PictureWithCaptionLayout, ChunkTitle(chunk), Some(TextContent(chunk)),
                           Some(imagesPath + "/" + f.name))),
                if f.saved then ImageSearch.Json(f.cache) else file)
  {
  }

  lemma UnpicturedAppend(a: seq<Slide>, b: seq<Slide>)
    ensures Unpictured(a + b) == Unpictured(a) + Unpictured(b)
  {
  }

  /** Every slide added is well formed for its layout. */
  predicate WellFormed(s: Slide, imagesPath: string) {
    && s.title != "" && Strings.IsStripped(s.title)
    && s.layout in {TitleLayout, ContentLayout, TitleOnlyLayout, PictureWithCaptionLayout}
    && (s.body.None? <==> s.layout == TitleOnlyLayout)
    && (s.picture.Some? <==> s.layout == PictureWithCaptionLayout)
    && (s.picture.Some? ==> Strings.StartsWith(s.picture.value, imagesPath + "/"))
  }

  /** Steps that add only well-formed slides add only well-formed slides over all pieces. */
  lemma {:induction false} RenderWithWellFormed(chunks: seq<string>, file: ImageSearch.StoreFile,
                                                render: (string, ImageSearch.StoreFile) -> Step,
                                                imagesPath: string)
    requires forall chunk, f :: render(chunk, f).slide.Some? ==> WellFormed(render(chunk, f).slide.value, imagesPath)
    ensures forall s :: s in RenderWith(chunks, file, render).slides ==> WellFormed(s, imagesPath)
  {
    if chunks != [] {
      RenderWithWellFormed(chunks[..|chunks| - 1], file, render, imagesPath);
    }
  }

  /** The slide one piece adds, if any, is well formed. */
  lemma ChunkWellFormed(chunk: string, file: ImageSearch.StoreFile, imagesPath: string,
                        listdir: string -> seq<string>)
    ensures var step := RenderChunk(chunk, file, imagesPath, listdir);
      step.slide.Some? ==> WellFormed(step.slide.value, imagesPath)
  {
    match FindSlideType(chunk)
    case None =>
    case Some(ImageKind) =>
      ImageStep(chunk, file, imagesPath, listdir);
      var query := ImageQuery(chunk);
      var name := ImageSearch.Download(ImageSearch.LoadedEntries(file), query, listdir(query)).name;
      assert (imagesPath + "/" + name)[..|imagesPath + "/"|] == imagesPath + "/";
    case Some(k) =>
      SteadyStep(chunk, k, file, imagesPath, listdir);
  }

  /**
   * Every slide has a non-empty trimmed title, one of the four layouts, a
   * text exactly when it is not a title-only slide, and a picture from the
   * images directory exactly when it is a picture slide.
   */
  lemma RenderWellFormed(chunks: seq<string>, file: ImageSearch.StoreFile,
                         imagesPath: string, listdir: string -> seq<string>)
    ensures forall s :: s in RenderChunks(chunks, file, imagesPath, listdir).slides ==> WellFormed(s, imagesPath)
  {
    var render := Renderer(imagesPath, listdir);
    forall chunk, f
      ensures render(chunk, f).slide.Some? ==> WellFormed(render(chunk, f).slide.value, imagesPath)
    {
      ChunkWellFormed(chunk, f, imagesPath, listdir);
    }
    RenderWithWellFormed(chunks, file, render, imagesPath);
  }

  /** At most one slide per piece, and one per piece exactly when every piece's draft is a slide. */
  lemma {:induction false} DraftsSize(chunks: seq<string>, draft: string -> Option<Slide>)
    ensures |DraftsWith(chunks, draft)| <= |chunks|
    ensures |DraftsWith(chunks, draft)| == |chunks| <==> forall i :: 0 <= i < |chunks| ==> draft(chunks[i]).Some?
  {
    if chunks != [] {
      var front := chunks[..|chunks| - 1];
      DraftsSize(front, draft);
      assert forall i :: 0 <= i < |front| ==> front[i] == chunks[i];
    }
  }

  /** The outline has at most one slide per piece, and one per piece exactly when every piece is recognised. */
  lemma OutlineSize(chunks: seq<string>)
    ensures |Outline(chunks)| <= |chunks|
    ensures |Outline(chunks)| == |chunks| <==> forall i :: 0 <= i < |chunks| ==> FindSlideType(chunks[i]).Some?
  {
    DraftsSize(chunks, Sketch);
  }

  /** Steps that never drop a cache entry never drop one over all pieces. */
  lemma {:induction false} RenderWithKeepsCache(chunks: seq<string>, file: ImageSearch.StoreFile,
                                                render: (string, ImageSearch.StoreFile) -> Step)
    requires forall chunk, f :: ImageSearch.Extends(ImageSearch.LoadedEntries(f),
                                                    ImageSearch.LoadedEntries(render(chunk, f).cacheFile))
    ensures ImageSearch.Extends(ImageSearch.LoadedEntries(file),
                                ImageSearch.LoadedEntries(RenderWith(chunks, file, render).cacheFile))
  {
    if chunks != [] {
      RenderWithKeepsCache(chunks[..|chunks| - 1], file, render);
    }
  }

  /** Handling one piece never drops or changes a cache entry. */
  lemma ChunkKeepsCache(chunk: string, file: ImageSearch.StoreFile, imagesPath: string,
                        listdir: string -> seq<string>)
    ensures ImageSearch.Extends(ImageSearch.LoadedEntries(file),
                                ImageSearch.LoadedEntries(RenderChunk(chunk, file, imagesPath, listdir).cacheFile))
  {
    if FindSlideType(chunk) == Some(ImageKind) {
      var query := ImageQuery(chunk);
      ImageSearch.DownloadOnlyAddsQuery(ImageSearch.LoadedEntries(file), query, listdir(query));
    }
  }

  /**
   * The image cache only grows: handling pieces never drops or changes an
   * entry the cache file held.
   */
  lemma RenderKeepsCache(chunks: seq<string>, file: ImageSearch.StoreFile,
                         imagesPath: string, listdir: string -> seq<string>)
    ensures ImageSearch.Extends(ImageSearch.LoadedEntries(file),
                                ImageSearch.LoadedEntries(RenderChunks(chunks, file, imagesPath, listdir).cacheFile))
  {
    var render := Renderer(imagesPath, listdir);
    forall chunk, f
      ensures ImageSearch.Extends(ImageSearch.LoadedEntries(f), ImageSearch.LoadedEntries(render(chunk, f).cacheFile))
    {
      ChunkKeepsCache(chunk, f, imagesPath, listdir);
    }
    RenderWithKeepsCache(chunks, file, render);
  }

  /** The reply's slides: at most one per piece, so at most one more than there are slide breaks. */
  lemma ReplySlideCount(content: string, file: ImageSearch.StoreFile, imagesPath: string,
                        listdir: string -> seq<string>)
    ensures |RenderChunks(Strings.Split(content, SlideBreak), file, imagesPath, listdir).slides|
            <= Strings.Count(content, SlideBreak) + 1
  {
    var chunks := Strings.Split(content, SlideBreak);
    RenderFollowsOutline(chunks, file, imagesPath, listdir);
    OutlineSize(chunks);
    Strings.SplitSize(content, SlideBreak);
  }

  /**
   * With an empty template, the saved deck is named after the title of the
   * first recognised piece, which is never empty.
   */
  lemma FirstSlideNamesDeck(content: string, file: ImageSearch.StoreFile, imagesPath: string,
                            listdir: string -> seq<string>)
    requires |Outline(Strings.Split(content, SlideBreak))| > 0
    ensures var slides := RenderChunks(Strings.Split(content, SlideBreak), file, imagesPath, listdir).slides;
      |slides| > 0 && slides[0].title == Outline(Strings.Split(content, SlideBreak))[0].title
      && slides[0].title != ""
  {
    var chunks := Strings.Split(content, SlideBreak);
    RenderFollowsOutline(chunks, file, imagesPath, listdir);
    RenderWellFormed(chunks, file, imagesPath, listdir);
    var slides := RenderChunks(chunks, file, imagesPath, listdir).slides;
    assert Unpictured(slides)[0] == slides[0].(picture := None);
    assert slides[0] in slides;
  }

  // ---------------------------------------------------------------------------
  // The deck and the generator
  // ---------------------------------------------------------------------------

  /** The presentation being built: the template's slides followed by those added. */
  class Presentation {
    var slides: seq<Slide>

    constructor (template: seq<Slide>)
      ensures slides == template
    {
      slides := template;
    }

    /** `slides.add_slide` followed by filling in the placeholders. */
    method AddSlide(s: Slide)
      modifies this
      ensures slides == old(slides) + [s]
    {
      slides := slides + [s];
    }
  }

  /**
   * `SlidesGenerator`, with the two files it changes on disk: the image cache
   * file under the images directory, and the decks saved under the output
   * directory.
   */
  class SlidesGenerator {
    const imagesPath: string
    const outputPath: string
    var imageCacheFile: ImageSearch.StoreFile
    var savedDecks: map<string, seq<Slide>>

    constructor (imagesPath: string, outputPath: string, imageCacheFile: ImageSearch.StoreFile)
      ensures this.imagesPath == imagesPath && this.outputPath == outputPath
      ensures this.imageCacheFile == imageCacheFile && savedDecks == map[]
    {
      this.imagesPath := imagesPath;
      this.outputPath := outputPath;
      this.imageCacheFile := imageCacheFile;
      savedDecks := map[];
    }

    /**
     * `generate_presentation` for a given reply of the model: the deck is the
     * template followed by the reply's slides, and it is saved under the
     * title of its first slide, or under the topic when that title is empty.
     */
    method GeneratePresentation(topic: string, content: string, template: seq<Slide>,
                                listdir: string -> seq<string>) returns (filename: string)
      requires |template| > 0 || |Outline(Strings.Split(content, SlideBreak))| > 0
      modifies this
      ensures var r := RenderChunks(Strings.Split(content, SlideBreak), old(imageCacheFile), imagesPath, listdir);
        var deck := template + r.slides;
        && |deck| > 0
        && filename == (if deck[0].title != "" then deck[0].title else topic) + DeckExtension
        && savedDecks == old(savedDecks)[outputPath + "/" + filename := deck]
        && imageCacheFile == r.cacheFile
    {
      var presentation := new Presentation(template);
      ParseResponse(presentation, content, listdir);
      if |template| == 0 {
        FirstSlideNamesDeck(content, old(imageCacheFile), imagesPath, listdir);
      }
      var title := GetPresentationTitle(presentation);
      if title == "" {
        title := topic;
      }
      filename := title + DeckExtension;
      savedDecks := savedDecks[outputPath + "/" + filename := presentation.slides];
    }

    /** `_parse_response`: every piece of the reply is handled in order. */
    method ParseResponse(presentation: Presentation, content: string, listdir: string -> seq<string>)
      modifies presentation, this`imageCacheFile
      ensures var r := RenderChunks(Strings.Split(content, SlideBreak), old(imageCacheFile), imagesPath, listdir);
        presentation.slides == old(presentation.slides) + r.slides && imageCacheFile == r.cacheFile
    {
      var chunks := Strings.Split(content, SlideBreak);
      HandlePieces(presentation, chunks, listdir, Renderer(imagesPath, listdir));
    }

    /**
     * The loop of `_parse_response`, proved for any `render` that agrees with
     * the dispatcher's step, so that the proof never looks inside a step.
     */
    method HandlePieces(presentation: Presentation, chunks: seq<string>, listdir: string -> seq<string>,
                        ghost render: (string, ImageSearch.StoreFile) -> Step)
      requires forall chunk, file {:trigger RenderChunk(chunk, file, imagesPath, listdir)} ::
                 render(chunk, file) == RenderChunk(chunk, file, imagesPath, listdir)
      modifies presentation, this`imageCacheFile
      ensures var r := RenderWith(chunks, old(imageCacheFile), render);
        presentation.slides == old(presentation.slides) + r.slides && imageCacheFile == r.cacheFile
    {
      ghost var deck, file := presentation.slides, imageCacheFile;
      for i := 0 to |chunks|
        invariant var r := RenderWith(chunks[..i], file, render);
          presentation.slides == deck + r.slides && imageCacheFile == r.cacheFile
      {
        RenderWithStep(chunks, i, file, render);
        HandlePiece(presentation, chunks[i], listdir);
      }
      assert chunks[..|chunks|] == chunks;
    }

    /** The body of `_parse_response`'s loop: one piece of the reply is classified and its slide added. */
    method HandlePiece(presentation: Presentation, chunk: string, listdir: string -> seq<string>)
      modifies presentation, this`imageCacheFile
      ensures var step := RenderChunk(chunk, old(imageCacheFile), imagesPath, listdir);
        presentation.slides == old(presentation.slides) + Listed(step.slide) && imageCacheFile == step.cacheFile
    {
      var slideType := FindSlideType(chunk);
      var title := ChunkTitle(chunk);
      var subtitle := Subtitle(chunk);
      var textContent := TextContent(chunk);
      var imageQuery := ImageQuery(chunk);
      ghost var file := imageCacheFile;
      match slideType {
        case Some(TitleKind) =>
          CreateTitleSlide(presentation, title, subtitle);
          SteadyStep(chunk, TitleKind, file, imagesPath, listdir);
        case Some(ContentKind) =>
          CreateContentSlide(presentation, title, textContent);
          SteadyStep(chunk, ContentKind, file, imagesPath, listdir);
        case Some(ImageKind) =>
          CreateImageSlide(presentation, title, textContent, imageQuery, listdir);
          ImageStep(chunk, file, imagesPath, listdir);
        case Some(ThanksKind) =>
          CreateThanksSlide(presentation, title);
          SteadyStep(chunk, ThanksKind, file, imagesPath, listdir);
        case None =>
      }
    }

    /** `_create_thanks_slide`: layout 5, title only. */
    method CreateThanksSlide(presentation: Presentation, title: string)
      modifies presentation
      ensures presentation.slides == old(presentation.slides) + [Slide(TitleOnlyLayout, title, None, None)]
    {
      presentation.AddSlide(Slide(TitleOnlyLayout, title, None, None));
    }

    /** `_create_title_slide`: layout 0, title and subtitle. */
    method CreateTitleSlide(presentation: Presentation, title: string, subtitle: string)
      modifies presentation
      ensures presentation.slides == old(presentation.slides) + [Slide(TitleLayout, title, Some(subtitle), None)]
    {
      presentation.AddSlide(Slide(TitleLayout, title, Some(subtitle), None));
    }

    /** `_create_content_slide`: layout 1, title and content. */
    method CreateContentSlide(presentation: Presentation, title: string, content: string)
      modifies presentation
      ensures presentation.slides == old(presentation.slides) + [Slide(ContentLayout, title, Some(content), None)]
    {
      presentation.AddSlide(Slide(ContentLayout, title, Some(content), None));
    }

    /**
     * `_create_image_slide`: layout 8, title and content, and the picture a
     * fresh image searcher finds for the query, loading and writing the
     * cache file.
     */
    method CreateImageSlide(presentation: Presentation, title: string, content: string, imageQuery: string,
                            listdir: string -> seq<string>)
      modifies presentation, this`imageCacheFile
      ensures var f := ImageSearch.Download(ImageSearch.LoadedEntries(old(imageCacheFile)), imageQuery, listdir(imageQuery));
        && presentation.slides == old(presentation.slides)
             + [Slide(PictureWithCaptionLayout, title, Some(content), Some(imagesPath + "/" + f.name))]
        && imageCacheFile == if f.saved then ImageSearch.Json(f.cache) else old(imageCacheFile)
    {
      var imageSearcher := new ImageSearch.ImageSearcher(imageCacheFile);
      var imagePath := imageSearcher.DownloadImage(imageQuery, listdir(imageQuery));
      imageCacheFile := imageSearcher.cacheFile;
      presentation.AddSlide(Slide(PictureWithCaptionLayout, title, Some(content), Some(imagesPath + "/" + imagePath)));
    }

    /** `_get_presentation_title`: the title of the deck's first slide. */
    method GetPresentationTitle(presentation: Presentation) returns (title: string)
      requires |presentation.slides| > 0
      ensures title == presentation.slides[0].title
    {
      title := presentation.slides[0].title;
    }
  }
}
