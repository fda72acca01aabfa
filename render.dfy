/** The client's slide markup, as an abstract list of elements:
    `createSlideElement` renders a slide document into it and
    `saveSlideContent` reads a document back out of it. Element texts hold
    the markup written into them; reading one back takes its `textContent`. */
module Render {
  import opened Js
  import opened SlideDoc

  datatype Node = H1(text: string) | H2(text: string) | H3(text: string) | UL(items: seq<string>) | P(text: string)

  /** The control inside a visual placeholder. */
  datatype Button = NoButton | UploadButton | DeleteButton

  /** What a visual placeholder shows: an `<img>` or a caption text. */
  datatype Shown = Picture(url: string) | Caption(text: string)

  /** A `.visual-placeholder`; `hasImage` is its `has-image` class. */
  datatype Placeholder = Placeholder(hasImage: bool, shown: Shown, button: Button)

  /** A rendered `.slide`: a title slide (`title-slide` class) is a list of
      elements; a content slide is its `h2`, its placeholder and the
      section elements that follow. */
  datatype SlideDom =
    | TitleDom(nodes: seq<Node>)
    | ContentDom(heading: string, ph: Placeholder, body: seq<Node>)

  /** What `createSlideElement` receives: a view-model's content and
      `image_url`, or a bare catalogue document (no `image_url` member). */
  datatype SlideData = SlideData(content: Doc, imageUrl: Opt<string>)

  const PlaceholderCaption := "Image placeholder"

  // ---------------------------------------------------------------------
  // Rendering (script.js:68-143)

  /** `section.list && section.list.length > 0` */
  predicate ListShown(s: Section) {
    s.list.Val? && |s.list.v| > 0
  }

  /** The paragraph branch: no list shown and a truthy `content`. */
  predicate ContentShown(s: Section) {
    !ListShown(s) && TruthyStr(s.content)
  }

  function RenderSection(s: Section): (ns: seq<Node>)
    ensures 1 <= |ns| <= 2 && ns[0] == H3(Display(s.title))
    ensures ListShown(s) <==> |ns| == 2 && ns[1].UL?
    ensures ContentShown(s) <==> |ns| == 2 && ns[1].P?
    ensures ListShown(s) ==> ns[1] == UL(s.list.v)
    ensures ContentShown(s) ==> ns[1] == P(s.content.v)
  {
    if ListShown(s) then [H3(Display(s.title)), UL(s.list.v)]
    else if TruthyStr(s.content) then [H3(Display(s.title)), P(s.content.v)]
    else [H3(Display(s.title))]
  }

  function RenderSections(ss: seq<Section>): (ns: seq<Node>)
    ensures ns == [] <==> ss == []
    ensures ns != [] ==> ns[0].H3?
  {
    if ss == [] then [] else RenderSection(ss[0]) + RenderSections(ss[1..])
  }

  /** The visual placeholder: the image when `imageUrl` is truthy, else the
      `visual` text or the stock caption; the delete control with an image,
      the upload control without. */
  function RenderPlaceholder(d: SlideData): (ph: Placeholder)
    ensures ph.hasImage <==> TruthyStr(d.imageUrl)
    ensures ph.hasImage ==> ph.shown == Picture(d.imageUrl.v) && ph.button == DeleteButton
    ensures !ph.hasImage && TruthyStr(d.content.visual) ==> ph.shown == Caption(d.content.visual.v)
    ensures !ph.hasImage && !TruthyStr(d.content.visual) ==> ph.shown == Caption(PlaceholderCaption)
    ensures !ph.hasImage ==> ph.button == UploadButton
  {
    if TruthyStr(d.imageUrl) then Placeholder(true, Picture(d.imageUrl.v), DeleteButton)
    else Placeholder(false, Caption(if TruthyStr(d.content.visual) then d.content.visual.v else PlaceholderCaption),
                     UploadButton)
  }

  function RenderSlide(d: SlideData): (dom: SlideDom)
    ensures dom.TitleDom? <==> IsTitleSlide(d.content)
  {
    var c := d.content;
    if IsTitleSlide(c) then
      TitleDom([H1(Display(c.title)), H2(Display(c.subtitle)), P(Display(c.tagline))]
               + (if TruthyStr(c.presenter) then [P(c.presenter.v)] else []))
    else
      ContentDom(Display(c.title), RenderPlaceholder(d),
                 if c.sections.Val? then RenderSections(c.sections.v) else [])
  }

  // ---------------------------------------------------------------------
  // Reading back (script.js:263-300)

  function TextAll(items: seq<string>): (r: seq<string>)
    ensures |r| == |items| && forall i :: 0 <= i < |r| ==> r[i] == TextContent(items[i])
  {
    seq(|items|, i requires 0 <= i < |items| => TextContent(items[i]))
  }

  /** `querySelector(tag)?.textContent`, by element kind. */
  function FirstH1(ns: seq<Node>): Option<string> {
    if ns == [] then None else if ns[0].H1? then Some(TextContent(ns[0].text)) else FirstH1(ns[1..])
  }

  function FirstH2(ns: seq<Node>): Option<string> {
    if ns == [] then None else if ns[0].H2? then Some(TextContent(ns[0].text)) else FirstH2(ns[1..])
  }

  function FirstP(ns: seq<Node>): Option<string> {
    if ns == [] then None else if ns[0].P? then Some(TextContent(ns[0].text)) else FirstP(ns[1..])
  }

  /** `x?.textContent || ''` */
  function OrEmpty(o: Option<string>): string {
    if o.Some? then o.value else ""
  }

  /** The blanks the placeholder's templates put around its caption and
      its control (line breaks and indentation, here one space each). */
  const Blank := " "

  /** The text of a placeholder: the caption (an image has none) followed by
      the control's glyph, each between the templates' blanks; so it is
      never empty, even for an image without a control. */
  function PlaceholderText(ph: Placeholder): (t: string)
    ensures t != [] && t[0] == ' '
    ensures ph.shown.Picture? && ph.button == NoButton ==> t == Blank + Blank + Blank
  {
    Blank + (if ph.shown.Caption? then TextContent(ph.shown.text) else "")
    + Blank + (match ph.button case NoButton => "" case UploadButton => "+" case DeleteButton => "×")
    + Blank
  }

  /** One `h3` and its next sibling, when that is a `ul` or a `p`. */
  function ReadSection(title: string, next: Option<Node>): (s: Section)
    ensures s.title == Val(TextContent(title))
  {
    Section(Val(TextContent(title)),
            if next.Some? && next.value.UL? then Val(TextAll(next.value.items)) else Absent,
            if next.Some? && next.value.P? then Val(TextContent(next.value.text)) else Absent)
  }

  /** One section per `h3`, in document order. */
  function ReadSections(body: seq<Node>): seq<Section> {
    if body == [] then []
    else
      (if body[0].H3? then [ReadSection(body[0].text, if |body| > 1 then Some(body[1]) else None)] else [])
      + ReadSections(body[1..])
  }

  /** The top-level `title` the save sends: the first `h2`, else the first
      `h1`, else empty. */
  function SaveTitle(dom: SlideDom): string {
    match dom
    case TitleDom(ns) =>
      var h2 := OrEmpty(FirstH2(ns));
      if h2 != "" then h2 else OrEmpty(FirstH1(ns))
    case ContentDom(heading, _, _) => TextContent(heading)
  }

  /** The document the save sends as `content`. */
  function ReadDoc(dom: SlideDom): (d: Doc)
    ensures dom.TitleDom? ==> IsTitleSlide(d) && d.presenter.Absent? && d.sections.Absent?
    ensures dom.ContentDom? ==> d.kind == Val("content") && d.sections.Val? && d.visual.Val?
  {
    match dom
    case TitleDom(ns) =>
      EmptyDoc.(kind := Val("title"), title := Val(OrEmpty(FirstH1(ns))),
                subtitle := Val(OrEmpty(FirstH2(ns))), tagline := Val(OrEmpty(FirstP(ns))))
    case ContentDom(_, ph, body) =>
      EmptyDoc.(kind := Val("content"), title := Val(SaveTitle(dom)),
                sections := Val(ReadSections(body)), visual := Val(PlaceholderText(ph)))
  }

  // ---------------------------------------------------------------------
  // Render, then read back

  /** What reading back a rendered section yields: the title's text, and the
      list when it was shown, else the paragraph when it was shown. */
  function Normalize(s: Section): Section {
    Section(Val(TextContent(Display(s.title))),
            if ListShown(s) then Val(TextAll(s.list.v)) else Absent,
            if ContentShown(s) then Val(TextContent(s.content.v)) else Absent)
  }

  function NormalizeAll(ss: seq<Section>): (r: seq<Section>)
    ensures |r| == |ss| && forall i :: 0 <= i < |r| ==> r[i] == Normalize(ss[i])
  {
    seq(|ss|, i requires 0 <= i < |ss| => Normalize(ss[i]))
  }

  lemma {:induction false} ReadSectionsCons(s: Section, rest: seq<Node>)
    requires rest == [] || rest[0].H3?
    ensures ReadSections(RenderSection(s) + rest) == [Normalize(s)] + ReadSections(rest)
  {
    var ns := RenderSection(s);
    var all := ns + rest;
    assert all[1..] == ns[1..] + rest;
    if |ns| == 2 {
      assert all[1..][1..] == rest;
      assert ReadSections(all[1..]) == ReadSections(rest);
    }
  }

  /** Every section title comes back in order, with its list or its
      paragraph (never both: a paragraph under a non-empty list is lost). */
  lemma {:induction false} SectionsRoundTrip(ss: seq<Section>)
    ensures ReadSections(RenderSections(ss)) == NormalizeAll(ss)
  {
    if ss != [] {
      SectionsRoundTrip(ss[1..]);
      ReadSectionsCons(ss[0], RenderSections(ss[1..]));
      assert NormalizeAll(ss) == [Normalize(ss[0])] + NormalizeAll(ss[1..]);
    }
  }

  /** A paragraph stored beside a non-empty list does not survive a save. */
  lemma ContentUnderListLost(s: Section)
    requires ListShown(s) && TruthyStr(s.content)
    ensures ReadSections(RenderSections([s])) == [Normalize(s)]
    ensures Normalize(s).content.Absent? && Normalize(s).list.Val?
  {
    SectionsRoundTrip([s]);
  }

  /** Text with no `<` that opens markup. */
  predicate Plain(t: string) { !HasMarkup(t) }

  /** A section in the shape the read-back produces, with markup-free text. */
  predicate Canonical(s: Section) {
    && s.title.Val? && Plain(s.title.v)
    && (|| (ListShown(s) && s.content.Absent? && forall i :: 0 <= i < |s.list.v| ==> Plain(s.list.v[i]))
        || (s.list.Absent? && TruthyStr(s.content) && Plain(s.content.v))
        || (s.list.Absent? && s.content.Absent?))
  }

  /** A canonical section is rendered and read back unchanged. */
  lemma CanonicalRoundTrip(s: Section)
    requires Canonical(s)
    ensures Normalize(s) == s
  {
    if ListShown(s) {
      assert TextAll(s.list.v) == s.list.v;
    }
  }

  /** Sections whose paragraph has visible text, and whose texts read back
      without anything that opens markup, come back canonical, so a second
      save sends what the first one sent. */
  lemma NormalizeStable(s: Section)
    requires Plain(TextContent(Display(s.title)))
    requires ListShown(s) ==> forall i :: 0 <= i < |s.list.v| ==> Plain(TextContent(s.list.v[i]))
    requires ContentShown(s) ==> TextContent(s.content.v) != "" && Plain(TextContent(s.content.v))
    ensures Canonical(Normalize(s))
    ensures Normalize(Normalize(s)) == Normalize(s)
  {
    var n := Normalize(s);
    if ListShown(s) {
      assert |n.list.v| == |s.list.v|;
    }
    assert Canonical(n);
    CanonicalRoundTrip(n);
  }

  /** A title slide reads back as `type 'title'` with the texts of its
      `h1`, `h2` and first `p`; `presenter` is dropped although it is
      rendered, and the save's top-level title is the subtitle when that is
      non-empty. */
  lemma TitleSlideRoundTrip(d: SlideData)
    requires IsTitleSlide(d.content)
    ensures var dom := RenderSlide(d);
            var c := d.content;
            && ReadDoc(dom) == EmptyDoc.(kind := Val("title"),
                                         title := Val(TextContent(Display(c.title))),
                                         subtitle := Val(TextContent(Display(c.subtitle))),
                                         tagline := Val(TextContent(Display(c.tagline))))
            && SaveTitle(dom) == (if TextContent(Display(c.subtitle)) != "" then TextContent(Display(c.subtitle))
                                  else TextContent(Display(c.title)))
  {
    var c := d.content;
    var ns := RenderSlide(d).nodes;
    assert ns[0] == H1(Display(c.title));
    assert ns[1..][0] == H2(Display(c.subtitle));
    assert ns[1..][1..][0] == P(Display(c.tagline));
    assert FirstH1(ns) == Some(TextContent(Display(c.title)));
    assert FirstH2(ns) == FirstH2(ns[1..]) == Some(TextContent(Display(c.subtitle)));
    assert FirstP(ns) == FirstP(ns[1..]) == FirstP(ns[1..][1..]) == Some(TextContent(Display(c.tagline)));
  }

  /** A content slide reads back as `type 'content'` with its heading's
      text, its sections normalised as above, and as `visual` the
      placeholder's text, which includes the control's glyph. */
  lemma ContentSlideRoundTrip(d: SlideData)
    requires !IsTitleSlide(d.content)
    ensures var dom := RenderSlide(d);
            var c := d.content;
            && ReadDoc(dom).title == Val(TextContent(Display(c.title)))
            && ReadDoc(dom).sections == Val(if c.sections.Val? then NormalizeAll(c.sections.v) else [])
            && ReadDoc(dom).visual == Val(PlaceholderText(RenderPlaceholder(d)))
  {
    if d.content.sections.Val? {
      SectionsRoundTrip(d.content.sections.v);
    }
  }
}
