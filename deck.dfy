/** The presentation page's state (src/js/script.js): the rendered slides,
    the active slide, the URL hash, edit mode with its image buttons, and
    the auto-save debounce. */
module Deck {
  import opened Js
  import opened SlideDoc
  import opened Merge
  import opened Render
  import opened Navigation

  /** How `GET /api/slides` turned out: the request threw (network or JSON
      error), answered with a non-2xx status, or returned the slide views. */
  datatype Fetch = NetworkError | HttpError | Fetched(views: seq<View>)

  /** `PUT /api/slides/:slideOrder` with body `{ title, content }`. */
  datatype SaveRequest = SaveRequest(slideOrder: int, title: string, content: Doc)

  /** Debounce delay of the auto-save, in milliseconds. */
  const SaveDelay := 1000

  /** A view as `createSlideElement` reads it: its `content`, and its
      `image_url`, which is JSON null when the slide has no image. */
  function ViewData(v: View): (d: SlideData)
    ensures d.content == v.content
    ensures TruthyStr(d.imageUrl) <==> v.imageUrl.Some? && v.imageUrl.value != ""
  {
    SlideData(v.content, if v.imageUrl.Some? then Val(v.imageUrl.value) else Null)
  }

  /** The slides `initSlides` renders: the fetched views when there are
      any; the bundled catalogue (or nothing) when the fetch threw or came
      back empty; nothing on an HTTP error status. */
  function LoadedData(fetch: Fetch, catalogue: Option<seq<Doc>>): (data: seq<SlideData>)
    ensures fetch.Fetched? && |fetch.views| > 0 ==>
      |data| == |fetch.views| && forall i :: 0 <= i < |data| ==> data[i] == ViewData(fetch.views[i])
    ensures fetch.HttpError? ==> data == []
    ensures (fetch.NetworkError? || (fetch.Fetched? && fetch.views == [])) ==>
      |data| == (if catalogue.Some? then |catalogue.value| else 0)
      && forall i :: 0 <= i < |data| ==> data[i] == SlideData(catalogue.value[i], Absent)
  {
    if fetch.HttpError? then []
    else if fetch.Fetched? && |fetch.views| > 0 then
      seq(|fetch.views|, i requires 0 <= i < |fetch.views| => ViewData(fetch.views[i]))
    else if catalogue.Some? then
      seq(|catalogue.value|, i requires 0 <= i < |catalogue.value| => SlideData(catalogue.value[i], Absent))
    else []
  }

  /** The control a placeholder should carry in edit mode. */
  function EditButton(hasImage: bool): Button {
    if hasImage then DeleteButton else UploadButton
  }

  /** `updateImageButtons` on one placeholder as written (script.js:192-227):
      the pattern replacement only rewrites a control that is present, so a
      placeholder whose control was removed stays without one. */
  function RefreshAsWritten(ph: Placeholder, editMode: bool): (r: Placeholder)
    ensures r.hasImage == ph.hasImage && r.shown == ph.shown
    ensures !editMode ==> r.button == NoButton
    ensures editMode && ph.button != NoButton ==> r.button == EditButton(ph.hasImage)
    ensures editMode && ph.button == NoButton ==> r.button == NoButton
  {
    if !editMode then ph.(button := NoButton)
    else if ph.button == NoButton then ph
    else ph.(button := EditButton(ph.hasImage))
  }

  /** `updateImageButtons` on one placeholder, as intended: in edit mode the
      control that matches the image, outside it none. */
  function Refresh(ph: Placeholder, editMode: bool): (r: Placeholder)
    ensures r.hasImage == ph.hasImage && r.shown == ph.shown
    ensures editMode ==> r.button == EditButton(ph.hasImage)
    ensures !editMode ==> r.button == NoButton
  {
    ph.(button := if editMode then EditButton(ph.hasImage) else NoButton)
  }

  /** Both agree wherever a control is present, and whenever edit mode is
      left. */
  lemma RefreshAgreesOnPresentButton(ph: Placeholder, editMode: bool)
    requires ph.button != NoButton || !editMode
    ensures RefreshAsWritten(ph, editMode) == Refresh(ph, editMode)
  {
  }

  /** As written, leaving edit mode and entering it again leaves every
      placeholder without a control, where the intended refresh restores
      the one matching its image. */
  lemma ReenterEditLosesButtonAsWritten(ph: Placeholder)
    ensures RefreshAsWritten(RefreshAsWritten(ph, false), true).button == NoButton
    ensures Refresh(Refresh(ph, false), true).button == EditButton(ph.hasImage)
  {
  }

  /** Refreshing a slide touches only a content slide's placeholder. */
  function RefreshDomAsWritten(dom: SlideDom, editMode: bool): SlideDom {
    match dom
    case TitleDom(_) => dom
    case ContentDom(h, ph, body) => ContentDom(h, RefreshAsWritten(ph, editMode), body)
  }

  function RefreshDom(dom: SlideDom, editMode: bool): SlideDom {
    match dom
    case TitleDom(_) => dom
    case ContentDom(h, ph, body) => ContentDom(h, Refresh(ph, editMode), body)
  }

  /** A saved content slide's sections are what the next merge serves. */
  lemma SavedSectionsServed(def: Doc, dom: SlideDom, row: Row)
    requires dom.ContentDom? && row.content == Some(ReadDoc(dom))
    ensures MergeContent(def, row).sections == Val(ReadSections(dom.body))
    ensures MergeContent(def, row).kind == Val("content")
  {
  }

  /** A saved content slide's `visual` always replaces the catalogue's:
      the placeholder's text holds the templates' blanks, which are truthy,
      so even an image without a control comes back as a blank caption. */
  lemma SavedVisualReplacesCatalogue(def: Doc, dom: SlideDom, row: Row)
    requires dom.ContentDom? && row.content == Some(ReadDoc(dom))
    ensures MergeContent(def, row).visual == Val(PlaceholderText(dom.ph))
    ensures dom.ph.shown.Picture? && dom.ph.button == NoButton ==>
      MergeContent(def, row).visual == Val(Blank + Blank + Blank)
  {
  }

  /** A saved title slide drops `presenter`, so the merge keeps the
      catalogue's presenter for it. */
  lemma SavedTitleKeepsPresenter(def: Doc, dom: SlideDom, row: Row)
    requires dom.TitleDom? && row.content == Some(ReadDoc(dom))
    ensures MergeContent(def, row).presenter == def.presenter
    ensures MergeContent(def, row).kind == Val("title")
    ensures MergeContent(def, row).sections == def.sections
  {
  }

  /** A placeholder has the `has-image` class exactly when it shows an
      image, and a control it carries matches that. */
  predicate PlaceholderOk(dom: SlideDom) {
    dom.ContentDom? ==>
      && (dom.ph.hasImage <==> dom.ph.shown.Picture?)
      && (dom.ph.button != NoButton ==> dom.ph.button == EditButton(dom.ph.hasImage))
  }

  /** A freshly rendered slide carries the control matching its image. */
  lemma RenderedPlaceholderOk(d: SlideData)
    ensures PlaceholderOk(RenderSlide(d))
    ensures RenderSlide(d).ContentDom? ==> RenderSlide(d).ph.button == EditButton(RenderSlide(d).ph.hasImage)
  {
  }

  /** Either refresh keeps placeholders consistent; only the intended one
      puts a control on every placeholder in edit mode. */
  lemma RefreshedPlaceholderOk(dom: SlideDom, editMode: bool)
    requires PlaceholderOk(dom)
    ensures PlaceholderOk(RefreshDomAsWritten(dom, editMode))
    ensures PlaceholderOk(RefreshDom(dom, editMode))
    ensures dom.ContentDom? && editMode ==> RefreshDom(dom, editMode).ph.button == EditButton(dom.ph.hasImage)
    ensures dom.ContentDom? && !editMode ==>
      RefreshDom(dom, editMode).ph.button == NoButton && RefreshDomAsWritten(dom, editMode).ph.button == NoButton
  {
  }

  /** Same element kind; a list keeps its number of items. */
  predicate SameKind(a: Node, b: Node) {
    match a
    case H1(_) => b.H1?
    case H2(_) => b.H2?
    case H3(_) => b.H3?
    case UL(items) => b.UL? && |b.items| == |items|
    case P(_) => b.P?
  }

  predicate SameKinds(a: seq<Node>, b: seq<Node>) {
    |a| == |b| && forall i :: 0 <= i < |a| ==> SameKind(a[i], b[i])
  }

  /** `edited` differs from `dom` only in the texts of its content-editable
      elements; the placeholder and its control are not editable. */
  predicate TextEdit(dom: SlideDom, edited: SlideDom) {
    match dom
    case TitleDom(ns) => edited.TitleDom? && SameKinds(ns, edited.nodes)
    case ContentDom(_, ph, body) => edited.ContentDom? && edited.ph == ph && SameKinds(body, edited.body)
  }

  /** The saves that the debounced input handler fires while inputs arrive
      at `times` (with auto-save set up) and the page then stays quiet:
      each input first lets a due timer fire, then re-arms the shared timer. */
  function DebounceSaves(pending: Option<int>, times: seq<int>): nat
    decreases |times|
  {
    if times == [] then (if pending.Some? then 1 else 0)
    else (if pending.Some? && pending.value <= times[0] then 1 else 0)
         + DebounceSaves(Some(times[0] + SaveDelay), times[1..])
  }

  /** A burst of inputs each less than the delay after the previous one
      saves exactly once. */
  lemma {:induction false} BurstSavesOnce(times: seq<int>)
    requires |times| > 0
    requires forall i :: 0 <= i < |times| - 1 ==> times[i + 1] < times[i] + SaveDelay
    ensures DebounceSaves(None, times) == 1
  {
    BurstTail(times);
  }

  lemma {:induction false} BurstTail(times: seq<int>)
    requires |times| > 0
    requires forall i :: 0 <= i < |times| - 1 ==> times[i + 1] < times[i] + SaveDelay
    ensures DebounceSaves(Some(times[0] + SaveDelay), times[1..]) == 1
  {
    if |times| > 1 {
      var rest := times[1..];
      assert rest[0] == times[1] < times[0] + SaveDelay;
      BurstTail(rest);
      assert rest[1..] == times[2..];
    }
  }

  /** Inputs spaced at least the delay apart save once each. */
  lemma {:induction false} SpacedInputsSaveEach(pending: Option<int>, times: seq<int>)
    requires forall i :: 0 <= i < |times| - 1 ==> times[i + 1] >= times[i] + SaveDelay
    requires |times| > 0 && pending.Some? ==> pending.value <= times[0]
    ensures DebounceSaves(pending, times) == |times| + (if pending.Some? then 1 else 0)
    decreases |times|
  {
    if times != [] {
      SpacedInputsSaveEach(Some(times[0] + SaveDelay), times[1..]);
    }
  }

  class Deck {
    var slides: seq<SlideDom>
    /** The `active` class of each slide, and of each navigation item. */
    var active: seq<bool>
    var navActive: seq<bool>
    /** `window.currentSlide` and `window.location.hash`. */
    var current: int
    var hash: string
    var editMode: bool
    /** Deadline of the shared `saveTimeout`, if armed. */
    var pending: Option<int>
    /** How many times auto-save handlers were attached to each editable
        element (once per entry into edit mode). */
    var listeners: nat
    var touchStartX: int
    var touchEndX: int
    /** `window.slidesData`, the bundled catalogue, when the page has one. */
    const catalogue: Option<seq<Doc>>
    /** Whether the page has the navigation panel (`.slide-nav-items`). */
    const hasNav: bool

    /** Flags and placeholders have the shape the page keeps: one `active`
        flag per slide (and per navigation item when there is a panel), and
        a placeholder has the `has-image` class exactly when it shows an
        image, with any control it carries matching that. */
    ghost predicate Shape()
      reads this
    {
      && |active| == |slides|
      && |navActive| == (if hasNav then |slides| else 0)
      && forall k :: 0 <= k < |slides| ==> PlaceholderOk(slides[k])
    }

    /** Exactly the current slide, and its navigation item, is active. */
    ghost predicate Valid()
      reads this
    {
      && Shape()
      && (|slides| > 0 ==> 0 <= current < |slides|)
      && (forall k :: 0 <= k < |active| ==> (active[k] <==> k == current))
      && (forall k :: 0 <= k < |navActive| ==> (navActive[k] <==> k == current))
    }

    /** The page before `initSlides` has run: no slides, slide 0, the URL's
        hash as the browser delivered it. */
    constructor (catalogue: Option<seq<Doc>>, hasNav: bool, hash: string)
      ensures Valid()
      ensures slides == [] && current == 0 && this.hash == hash && !editMode
      ensures pending.None? && listeners == 0
      ensures this.catalogue == catalogue && this.hasNav == hasNav
    {
      this.catalogue := catalogue;
      this.hasNav := hasNav;
      slides := [];
      active := [];
      navActive := [];
      current := 0;
      this.hash := hash;
      editMode := false;
      pending := None;
      listeners := 0;
      touchStartX := 0;
      touchEndX := 0;
    }

    /** `goToSlide(index)` (script.js:160-189): clears every `active` flag,
        sets the clamped slide's, and writes the hash. */
    method GoToSlide(index: int)
      requires Shape()
      modifies this
      ensures Valid()
      ensures current == Clamp(index, |slides|) && hash == HashFor(current)
      ensures |slides| > 0 ==> active[current] && (hasNav ==> navActive[current])
      ensures slides == old(slides) && editMode == old(editMode)
      ensures pending == old(pending) && listeners == old(listeners)
      ensures touchStartX == old(touchStartX) && touchEndX == old(touchEndX)
    {
      var i := Clamp(index, |slides|);
      var flags := active;
      var k := 0;
      while k < |flags|
        invariant 0 <= k <= |flags| == |slides|
        invariant forall j :: 0 <= j < k ==> !flags[j]
      {
        flags := flags[k := false];
        k := k + 1;
      }
      var navFlags := navActive;
      k := 0;
      while k < |navFlags|
        invariant 0 <= k <= |navFlags| == (if hasNav then |slides| else 0)
        invariant forall j :: 0 <= j < k ==> !navFlags[j]
      {
        navFlags := navFlags[k := false];
        k := k + 1;
      }
      if 0 <= i < |flags| {
        flags := flags[i := true];
      }
      if 0 <= i < |navFlags| {
        navFlags := navFlags[i := true];
      }
      active := flags;
      navActive := navFlags;
      current := i;
      hash := HashFor(i);
    }

    /** The next-slide button and the right arrow key. */
    method Next()
      requires Shape()
      modifies this
      ensures Valid()
      ensures current == Clamp(old(current) + 1, |slides|) && hash == HashFor(current)
      ensures slides == old(slides) && editMode == old(editMode)
      ensures pending == old(pending) && listeners == old(listeners)
      ensures touchStartX == old(touchStartX) && touchEndX == old(touchEndX)
    {
      GoToSlide(current + 1);
    }

    /** The previous-slide button and the left arrow key. */
    method Prev()
      requires Shape()
      modifies this
      ensures Valid()
      ensures current == Clamp(old(current) - 1, |slides|) && hash == HashFor(current)
      ensures slides == old(slides) && editMode == old(editMode)
      ensures pending == old(pending) && listeners == old(listeners)
      ensures touchStartX == old(touchStartX) && touchEndX == old(touchEndX)
    {
      GoToSlide(current - 1);
    }

    method TouchStart(screenX: int)
      modifies this
      ensures touchStartX == screenX
      ensures slides == old(slides) && current == old(current) && active == old(active)
      ensures navActive == old(navActive) && hash == old(hash) && touchEndX == old(touchEndX)
      ensures editMode == old(editMode) && pending == old(pending) && listeners == old(listeners)
    {
      touchStartX := screenX;
    }

    /** `touchend` then `handleSwipe` (script.js:550-565): a left swipe goes
        forward, a right swipe back, anything shorter than the threshold
        nowhere. */
    method TouchEnd(screenX: int)
      requires Valid()
      modifies this
      ensures Valid() && touchEndX == screenX
      ensures SwipeNext(touchStartX, screenX) ==>
        current == Clamp(old(current) + 1, |slides|) && hash == HashFor(current)
      ensures SwipePrev(touchStartX, screenX) ==>
        current == Clamp(old(current) - 1, |slides|) && hash == HashFor(current)
      ensures !SwipeNext(touchStartX, screenX) && !SwipePrev(touchStartX, screenX) ==>
        current == old(current) && hash == old(hash) && active == old(active) && navActive == old(navActive)
      ensures slides == old(slides) && editMode == old(editMode)
      ensures pending == old(pending) && listeners == old(listeners) && touchStartX == old(touchStartX)
    {
      touchEndX := screenX;
      if SwipeNext(touchStartX, touchEndX) {
        GoToSlide(current + 1);
      }
      if SwipePrev(touchStartX, touchEndX) {
        GoToSlide(current - 1);
      }
    }

    /** `checkUrlForSlide` (script.js:640-648): go to the slide the hash
        names, if any. */
    method CheckUrlForSlide()
      requires Valid()
      modifies this
      ensures Valid()
      ensures UrlTarget(old(hash), |slides|).Some? ==>
        current == UrlTarget(old(hash), |slides|).value && hash == HashFor(current)
      ensures UrlTarget(old(hash), |slides|).None? ==>
        current == old(current) && hash == old(hash) && active == old(active) && navActive == old(navActive)
      ensures slides == old(slides) && editMode == old(editMode)
      ensures pending == old(pending) && listeners == old(listeners)
      ensures touchStartX == old(touchStartX) && touchEndX == old(touchEndX)
    {
      match UrlTarget(hash, |slides|)
      case Some(k) => GoToSlide(k);
      case None =>
    }

    /** `initSlides` (script.js:23-66): replace the slides with the loaded
        data, rendered in order, and go to the first. */
    method InitSlides(fetch: Fetch)
      requires Valid()
      modifies this
      ensures Valid()
      ensures |slides| == |LoadedData(fetch, catalogue)|
      ensures forall k :: 0 <= k < |slides| ==> slides[k] == RenderSlide(LoadedData(fetch, catalogue)[k])
      ensures current == Clamp(0, |slides|) && hash == HashFor(current)
      ensures editMode == old(editMode) && listeners == 0 && pending == old(pending)
      ensures touchStartX == old(touchStartX) && touchEndX == old(touchEndX)
    {
      var data := LoadedData(fetch, catalogue);
      var built: seq<SlideDom> := [];
      var i := 0;
      while i < |data|
        invariant 0 <= i <= |data| && |built| == i
        invariant forall k :: 0 <= k < i ==> built[k] == RenderSlide(data[k])
        invariant forall k :: 0 <= k < i ==> PlaceholderOk(built[k])
        invariant unchanged(this)
      {
        RenderedPlaceholderOk(data[i]);
        built := built + [RenderSlide(data[i])];
        i := i + 1;
      }
      slides := built;
      active := seq(|built|, _ => false);
      navActive := if hasNav then seq(|built|, _ => false) else [];
      listeners := 0;
      GoToSlide(0);
    }

    /** The page load as written: the URL is checked while no slide exists
        yet, then the slides arrive and the first is shown. */
    method LoadAsWritten(fetch: Fetch)
      requires Valid() && slides == []
      modifies this
      ensures Valid()
      ensures slides == seq(|LoadedData(fetch, catalogue)|, k requires 0 <= k < |LoadedData(fetch, catalogue)| =>
                              RenderSlide(LoadedData(fetch, catalogue)[k]))
      ensures current == LandingAsWritten(old(hash), |slides|) && hash == HashFor(current)
      ensures editMode == old(editMode) && listeners == 0 && pending == old(pending)
      ensures touchStartX == old(touchStartX) && touchEndX == old(touchEndX)
    {
      CheckUrlForSlide();
      InitSlides(fetch);
    }

    /** The page load as intended: the hash is read first, the slides are
        loaded, and the slide the hash names is shown. */
    method Load(fetch: Fetch)
      requires Valid() && slides == []
      modifies this
      ensures Valid()
      ensures slides == seq(|LoadedData(fetch, catalogue)|, k requires 0 <= k < |LoadedData(fetch, catalogue)| =>
                              RenderSlide(LoadedData(fetch, catalogue)[k]))
      ensures current == Landing(old(hash), |slides|) && hash == HashFor(current)
      ensures editMode == old(editMode) && listeners == 0 && pending == old(pending)
      ensures touchStartX == old(touchStartX) && touchEndX == old(touchEndX)
    {
      var requested := hash;
      InitSlides(fetch);
      match UrlTarget(requested, |slides|)
      case Some(k) => GoToSlide(k);
      case None =>
    }

    /** The edit toggle as written (script.js:604-637): flip edit mode,
        refresh every placeholder's control with `updateImageButtons` as
        written, and attach another set of auto-save handlers when entering
        edit mode. */
    method ToggleEdit()
      requires Valid()
      modifies this
      ensures Valid()
      ensures editMode == !old(editMode)
      ensures |slides| == |old(slides)|
      ensures forall k :: 0 <= k < |slides| ==> slides[k] == RefreshDomAsWritten(old(slides)[k], editMode)
      ensures listeners == old(listeners) + (if editMode then 1 else 0)
      ensures current == old(current) && hash == old(hash) && active == old(active) && navActive == old(navActive)
      ensures pending == old(pending) && touchStartX == old(touchStartX) && touchEndX == old(touchEndX)
    {
      var mode := !editMode;
      var doms := slides;
      var k := 0;
      while k < |doms|
        invariant 0 <= k <= |doms| == |old(slides)|
        invariant forall j :: 0 <= j < k ==> doms[j] == RefreshDomAsWritten(old(slides)[j], mode)
        invariant forall j :: 0 <= j < k ==> PlaceholderOk(doms[j])
        invariant forall j :: k <= j < |doms| ==> doms[j] == old(slides)[j]
        invariant unchanged(this)
      {
        RefreshedPlaceholderOk(doms[k], mode);
        doms := doms[k := RefreshDomAsWritten(doms[k], mode)];
        k := k + 1;
      }
      editMode := mode;
      slides := doms;
      if editMode {
        listeners := listeners + 1;
      }
    }

    /** The edit toggle as intended: as above, but every content slide's
        placeholder gets the control matching its image in edit mode. */
    method ToggleEditAsIntended()
      requires Valid()
      modifies this
      ensures Valid()
      ensures editMode == !old(editMode)
      ensures |slides| == |old(slides)|
      ensures forall k :: 0 <= k < |slides| ==> slides[k] == RefreshDom(old(slides)[k], editMode)
      ensures editMode ==> forall k :: 0 <= k < |slides| && slides[k].ContentDom? ==>
        slides[k].ph.button == EditButton(slides[k].ph.hasImage)
      ensures listeners == old(listeners) + (if editMode then 1 else 0)
      ensures current == old(current) && hash == old(hash) && active == old(active) && navActive == old(navActive)
      ensures pending == old(pending) && touchStartX == old(touchStartX) && touchEndX == old(touchEndX)
    {
      var mode := !editMode;
      var doms := slides;
      var k := 0;
      while k < |doms|
        invariant 0 <= k <= |doms| == |old(slides)|
        invariant forall j :: 0 <= j < k ==> doms[j] == RefreshDom(old(slides)[j], mode)
        invariant forall j :: 0 <= j < k ==> PlaceholderOk(doms[j])
        invariant forall j :: k <= j < |doms| ==> doms[j] == old(slides)[j]
        invariant unchanged(this)
      {
        RefreshedPlaceholderOk(doms[k], mode);
        doms := doms[k := RefreshDom(doms[k], mode)];
        k := k + 1;
      }
      editMode := mode;
      slides := doms;
      if editMode {
        listeners := listeners + 1;
      }
    }

    /** `updateSlideImage` (script.js:421-437), after the image URL was
        stored: the placeholder shows the image, with the delete control in
        edit mode. */
    method UpdateSlideImage(slideOrder: int, imageUrl: string)
      requires Valid()
      modifies this
      ensures Valid()
      ensures |slides| == |old(slides)|
      ensures forall k :: 0 <= k < |slides| && k != slideOrder ==> slides[k] == old(slides)[k]
      ensures 0 <= slideOrder < |slides| && old(slides)[slideOrder].ContentDom? ==>
        slides[slideOrder] == old(slides)[slideOrder].(ph := Placeholder(true, Picture(imageUrl),
                                                       if editMode then DeleteButton else NoButton))
      ensures !(0 <= slideOrder < |slides| && old(slides)[slideOrder].ContentDom?) ==> slides == old(slides)
      ensures current == old(current) && hash == old(hash) && active == old(active) && navActive == old(navActive)
      ensures editMode == old(editMode) && pending == old(pending) && listeners == old(listeners)
      ensures touchStartX == old(touchStartX) && touchEndX == old(touchEndX)
    {
      if 0 <= slideOrder < |slides| && slides[slideOrder].ContentDom? {
        var dom := slides[slideOrder];
        slides := slides[slideOrder := dom.(ph := Placeholder(true, Picture(imageUrl),
                                                              if editMode then DeleteButton else NoButton))];
      }
    }

    /** The caption `removeSlideImage` restores: the catalogue's `visual`
        for that position when it is a non-empty string, else the stock
        caption. */
    function CatalogueCaption(slideOrder: int): (c: string)
      ensures catalogue.Some? && 0 <= slideOrder < |catalogue.value| && TruthyStr(catalogue.value[slideOrder].visual) ==>
        c == catalogue.value[slideOrder].visual.v
      ensures !(catalogue.Some? && 0 <= slideOrder < |catalogue.value| && TruthyStr(catalogue.value[slideOrder].visual)) ==>
        c == PlaceholderCaption
    {
      if catalogue.Some? && 0 <= slideOrder < |catalogue.value| && TruthyStr(catalogue.value[slideOrder].visual)
      then catalogue.value[slideOrder].visual.v
      else PlaceholderCaption
    }

    /** `removeSlideImage` (script.js:468-486), after the image was deleted:
        the placeholder shows the catalogue caption, with the upload control
        in edit mode. */
    method RemoveSlideImage(slideOrder: int)
      requires Valid()
      modifies this
      ensures Valid()
      ensures |slides| == |old(slides)|
      ensures forall k :: 0 <= k < |slides| && k != slideOrder ==> slides[k] == old(slides)[k]
      ensures 0 <= slideOrder < |slides| && old(slides)[slideOrder].ContentDom? ==>
        slides[slideOrder] == old(slides)[slideOrder].(ph := Placeholder(false, Caption(CatalogueCaption(slideOrder)),
                                                       if editMode then UploadButton else NoButton))
      ensures !(0 <= slideOrder < |slides| && old(slides)[slideOrder].ContentDom?) ==> slides == old(slides)
      ensures current == old(current) && hash == old(hash) && active == old(active) && navActive == old(navActive)
      ensures editMode == old(editMode) && pending == old(pending) && listeners == old(listeners)
      ensures touchStartX == old(touchStartX) && touchEndX == old(touchEndX)
    {
      if 0 <= slideOrder < |slides| && slides[slideOrder].ContentDom? {
        var dom := slides[slideOrder];
        slides := slides[slideOrder := dom.(ph := Placeholder(false, Caption(CatalogueCaption(slideOrder)),
                                                              if editMode then UploadButton else NoButton))];
      }
    }

    /** The reader typing into slide `k`: the browser changes element texts
        only where they are content-editable, which is in edit mode. */
    method Edit(k: int, edited: SlideDom)
      requires Valid()
      modifies this
      ensures Valid()
      ensures editMode && 0 <= k < |old(slides)| && TextEdit(old(slides)[k], edited) ==>
        slides == old(slides)[k := edited]
      ensures !(editMode && 0 <= k < |old(slides)| && TextEdit(old(slides)[k], edited)) ==> slides == old(slides)
      ensures editMode && k == current && 0 <= k < |old(slides)| && TextEdit(old(slides)[k], edited) ==>
        Save() == Some(SaveRequest(k, SaveTitle(edited), ReadDoc(edited)))
      ensures current == old(current) && hash == old(hash) && active == old(active) && navActive == old(navActive)
      ensures editMode == old(editMode) && pending == old(pending) && listeners == old(listeners)
      ensures touchStartX == old(touchStartX) && touchEndX == old(touchEndX)
    {
      if editMode && 0 <= k < |slides| && TextEdit(slides[k], edited) {
        slides := slides[k := edited];
      }
    }

    /** What `saveSlideContent` (script.js:255-323) sends: nothing outside
        edit mode or without a current slide; otherwise the current slide's
        position, its saved title and the document read back from it. */
    function Save(): (r: Option<SaveRequest>)
      reads this
      ensures r.Some? <==> editMode && 0 <= current < |slides|
      ensures r.Some? ==>
                r.value.slideOrder == current && r.value.title == SaveTitle(slides[current])
                && r.value.content == ReadDoc(slides[current])
    {
      if editMode && 0 <= current < |slides| then
        Some(SaveRequest(current, SaveTitle(slides[current]), ReadDoc(slides[current])))
      else None
    }

    /** An `input` event on an editable element (script.js:234-236,
        244-253): every attached handler re-arms the shared timer, so one
        deadline remains. */
    method Input(now: int)
      modifies this
      ensures pending == (if listeners > 0 then Some(now + SaveDelay) else old(pending))
      ensures slides == old(slides) && current == old(current) && active == old(active)
      ensures navActive == old(navActive) && hash == old(hash) && editMode == old(editMode)
      ensures listeners == old(listeners)
      ensures touchStartX == old(touchStartX) && touchEndX == old(touchEndX)
    {
      if listeners > 0 {
        pending := Some(now + SaveDelay);
      }
    }

    /** The shared timer firing at `now`, when its deadline has passed. */
    method TimerFires(now: int) returns (save: Option<SaveRequest>)
      modifies this
      ensures old(pending).Some? && old(pending).value <= now ==> pending.None? && save == Save()
      ensures !(old(pending).Some? && old(pending).value <= now) ==> pending == old(pending) && save.None?
      ensures slides == old(slides) && current == old(current) && active == old(active)
      ensures navActive == old(navActive) && hash == old(hash) && editMode == old(editMode)
      ensures listeners == old(listeners)
      ensures touchStartX == old(touchStartX) && touchEndX == old(touchEndX)
    {
      save := None;
      if pending.Some? && pending.value <= now {
        pending := None;
        save := Save();
      }
    }

    /** Inputs at `times` while nothing else happens: before each input the
        shared timer fires if its deadline has passed, and after the last
        one the page stays quiet until it fires. Returns what each firing
        sent; with handlers attached there are `DebounceSaves` firings. */
    method TypeBurst(times: seq<int>) returns (fired: seq<Option<SaveRequest>>)
      modifies this
      ensures listeners > 0 ==> |fired| == DebounceSaves(old(pending), times)
      ensures forall i :: 0 <= i < |fired| ==> fired[i] == Save()
      ensures listeners > 0 || old(pending).None? ==> pending.None?
      ensures slides == old(slides) && current == old(current) && active == old(active)
      ensures navActive == old(navActive) && hash == old(hash) && editMode == old(editMode)
      ensures listeners == old(listeners)
      ensures touchStartX == old(touchStartX) && touchEndX == old(touchEndX)
    {
      fired := [];
      var i := 0;
      while i < |times|
        invariant 0 <= i <= |times|
        invariant listeners > 0 ==> |fired| + DebounceSaves(pending, times[i..]) == DebounceSaves(old(pending), times)
        invariant listeners == 0 ==> pending.None? || pending == old(pending)
        invariant forall j :: 0 <= j < |fired| ==> fired[j] == Save()
        invariant slides == old(slides) && current == old(current) && active == old(active)
        invariant navActive == old(navActive) && hash == old(hash) && editMode == old(editMode)
        invariant listeners == old(listeners)
        invariant touchStartX == old(touchStartX) && touchEndX == old(touchEndX)
      {
        assert times[i..][1..] == times[i + 1..];
        var due := pending.Some? && pending.value <= times[i];
        var save := TimerFires(times[i]);
        if due {
          fired := fired + [save];
        }
        Input(times[i]);
        i := i + 1;
      }
      if pending.Some? {
        var save := TimerFires(pending.value);
        fired := fired + [save];
      }
    }

    /** A `blur` event on an editable element (script.js:238-240): every
        attached handler saves at once. */
    method Blur() returns (saves: seq<SaveRequest>)
      requires Valid()
      ensures Save().None? ==> saves == []
      ensures Save().Some? ==> |saves| == listeners && forall i :: 0 <= i < |saves| ==> saves[i] == Save().value
    {
      saves := [];
      var i := 0;
      while i < listeners
        invariant 0 <= i <= listeners
        invariant Save().None? ==> saves == []
        invariant Save().Some? ==> |saves| == i && forall j :: 0 <= j < i ==> saves[j] == Save().value
      {
        var s := Save();
        if s.Some? {
          saves := saves + [s.value];
        }
        i := i + 1;
      }
    }
  }
}
