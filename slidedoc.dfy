/** Slide documents as the deck stores and exchanges them in JSON: a title
    slide carries `type: 'title'`, `title`, `subtitle`, `tagline` and maybe
    `presenter`; a content slide carries `title`, `visual` and `sections`. */
module SlideDoc {
  import opened Js

  /** One section of a content slide: a heading with either a bullet list or
      a paragraph (or neither). */
  datatype Section = Section(title: Opt<string>, list: Opt<seq<string>>, content: Opt<string>)

  /** The members a slide document may carry; `kind` is the JSON key `type`. */
  datatype Doc = Doc(
    kind: Opt<string>,
    title: Opt<string>,
    subtitle: Opt<string>,
    tagline: Opt<string>,
    presenter: Opt<string>,
    visual: Opt<string>,
    sections: Opt<seq<Section>>)

  /** The empty object `{}`. */
  const EmptyDoc := Doc(Absent, Absent, Absent, Absent, Absent, Absent, Absent)

  /** A document holding only a title, `{ title: t }`. */
  function TitleOnly(t: string): (d: Doc)
    ensures !IsTitleSlide(d) && d.sections.Absent?
    ensures forall base :: Spread(base, d) == base.(title := Val(t))
    ensures forall patch :: Spread(d, patch) == patch.(title := Pick(patch.title, Val(t)))
  {
    EmptyDoc.(title := Val(t))
  }

  /** The discriminant the renderer tests: `content.type === 'title'`. */
  predicate IsTitleSlide(d: Doc) {
    d.kind == Val("title")
  }

  /** One key of an object spread: a key the patch carries wins, whatever its
      value (null and "" included); a missing key keeps the base's. */
  function Pick<T>(patch: Opt<T>, base: Opt<T>): Opt<T> {
    if patch.Absent? then base else patch
  }

  /** `{ ...base, ...patch }`. */
  function Spread(base: Doc, patch: Doc): (r: Doc)
    ensures patch == EmptyDoc ==> r == base
    ensures base == EmptyDoc ==> r == patch
  {
    Doc(Pick(patch.kind, base.kind),
        Pick(patch.title, base.title),
        Pick(patch.subtitle, base.subtitle),
        Pick(patch.tagline, base.tagline),
        Pick(patch.presenter, base.presenter),
        Pick(patch.visual, base.visual),
        Pick(patch.sections, base.sections))
  }
}
