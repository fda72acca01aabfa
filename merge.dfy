/** The `GET /api/slides` merge: the fixed default catalogue defines the deck's
    length and order; rows of the `slides` table override individual slides,
    key by key, through JS spread and `||`. */
module Merge {
  import opened Js
  import opened SlideDoc

  /** A row of the `slides` table. `title` is `TEXT NOT NULL`; `content`
      (JSONB) and `image_url` may be NULL. Times are abstract instants. */
  datatype Row = Row(
    id: int,
    slideOrder: int,
    title: string,
    content: Option<Doc>,
    imageUrl: Option<string>,
    createdAt: int,
    updatedAt: int)

  /** One element of the JSON array the endpoint returns. */
  datatype View = View(
    id: int,
    slideOrder: int,
    title: string,
    content: Doc,
    imageUrl: Option<string>,
    createdAt: int,
    updatedAt: int)

  /** `dbSlides.find(slide => slide.slide_order === order)`. */
  function Find(rows: seq<Row>, order: int): (r: Option<Row>)
    ensures r.None? <==> forall j :: 0 <= j < |rows| ==> rows[j].slideOrder != order
    ensures r.Some? ==> r.value in rows && r.value.slideOrder == order
  {
    if rows == [] then None
    else if rows[0].slideOrder == order then Some(rows[0])
    else Find(rows[1..], order)
  }

  /** Of several rows with the same `slide_order`, the first one is used. */
  lemma {:induction false} FindFirst(rows: seq<Row>, order: int, k: nat)
    requires k < |rows| && rows[k].slideOrder == order
    requires forall j :: 0 <= j < k ==> rows[j].slideOrder != order
    ensures Find(rows, order) == Some(rows[k])
  {
    if k > 0 {
      FindFirst(rows[1..], order, k - 1);
    }
  }

  /** A row appended after the others is only found where no earlier row matches. */
  lemma {:induction false} FindAppend(rows: seq<Row>, r: Row, order: int)
    ensures Find(rows + [r], order) ==
      if Find(rows, order).Some? then Find(rows, order)
      else if r.slideOrder == order then Some(r) else None
  {
    if rows != [] {
      assert (rows + [r])[1..] == rows[1..] + [r];
      FindAppend(rows[1..], r, order);
    }
  }

  /** The title synthesised for slide `i` when the default has none. */
  function SlideLabel(i: int): string {
    "Slide " + IntStr(i + 1)
  }

  /** The view of index `i` when no row overrides it (server.js:325-333, 363-371). */
  function DefaultView(def: Doc, i: int, now: int): (v: View)
    ensures v.content == def && v.imageUrl.None? && v.slideOrder == i && v.id == i
    ensures TruthyStr(def.title) ==> v.title == def.title.v
    ensures !TruthyStr(def.title) ==> v.title == SlideLabel(i)
  {
    View(i, i, if TruthyStr(def.title) then def.title.v else SlideLabel(i), def, None, now, now)
  }

  /** `dbSlide.content && dbSlide.content[key]`: null content gives a falsy value. */
  function PatchOf(row: Row): Doc {
    if row.content.Some? then row.content.value else EmptyDoc
  }

  /** The merged content of a slide that has a row (server.js:342-349). */
  function MergeContent(def: Doc, row: Row): (c: Doc)
    // keys not resolved explicitly: the row's content wins wherever it carries the key
    ensures c.kind == Pick(PatchOf(row).kind, def.kind)
    ensures c.subtitle == Pick(PatchOf(row).subtitle, def.subtitle)
    ensures c.tagline == Pick(PatchOf(row).tagline, def.tagline)
    ensures c.presenter == Pick(PatchOf(row).presenter, def.presenter)
    // title: content.title, else the row's title, else the default's, each only if truthy
    ensures TruthyStr(PatchOf(row).title) ==> c.title == PatchOf(row).title
    ensures !TruthyStr(PatchOf(row).title) && row.title != "" ==> c.title == Val(row.title)
    ensures !TruthyStr(PatchOf(row).title) && row.title == "" ==> c.title == def.title
    // sections: any array in the content wins, the empty one included
    ensures PatchOf(row).sections.Val? ==> c.sections == PatchOf(row).sections
    ensures !PatchOf(row).sections.Val? ==> c.sections == def.sections
    // visual: only a non-empty string in the content wins
    ensures TruthyStr(PatchOf(row).visual) ==> c.visual == PatchOf(row).visual
    ensures !TruthyStr(PatchOf(row).visual) ==> c.visual == def.visual
  {
    var patch := PatchOf(row);
    var base := Spread(def, patch);
    base.(title := OrStr(OrStr(patch.title, Val(row.title)), def.title),
          sections := if patch.sections.Val? then patch.sections else def.sections,
          visual := OrStr(patch.visual, def.visual))
  }

  /** The view of index `i` (server.js:337-372). */
  function MergeSlide(def: Doc, i: int, rows: seq<Row>, now: int): (v: View)
    ensures v.slideOrder == i
    ensures Find(rows, i).None? ==> v == DefaultView(def, i, now)
    ensures Find(rows, i).Some? ==>
      var row := Find(rows, i).value;
      v.id == row.id && v.title == row.title && v.imageUrl == row.imageUrl
      && v.content == MergeContent(def, row)
      && v.createdAt == row.createdAt && v.updatedAt == row.updatedAt
  {
    match Find(rows, i)
    case None => DefaultView(def, i, now)
    case Some(row) =>
      View(row.id, i, row.title, MergeContent(def, row), row.imageUrl, row.createdAt, row.updatedAt)
  }

  /** The merged deck: one view per catalogue index, in order. */
  function MergeAll(defs: seq<Doc>, rows: seq<Row>, now: int): (vs: seq<View>)
    ensures |vs| == |defs|
    ensures forall i :: 0 <= i < |vs| ==> vs[i].slideOrder == i
  {
    seq(|defs|, i requires 0 <= i < |defs| => MergeSlide(defs[i], i, rows, now))
  }

  /** The all-defaults deck returned when the table is empty or unreachable. */
  function DefaultViews(defs: seq<Doc>, now: int): (vs: seq<View>)
    ensures |vs| == |defs|
    ensures forall i :: 0 <= i < |vs| ==> vs[i] == DefaultView(defs[i], i, now)
  {
    seq(|defs|, i requires 0 <= i < |defs| => DefaultView(defs[i], i, now))
  }

  /** The handler: `query` is the result of `SELECT * FROM slides ORDER BY
      slide_order`, or None when the query threw (server.js:314-391). */
  function GetSlides(defs: seq<Doc>, query: Option<seq<Row>>, now: int): (vs: seq<View>)
    ensures |vs| == |defs|
    ensures forall i :: 0 <= i < |vs| ==> vs[i].slideOrder == i
    ensures query.None? ==> vs == DefaultViews(defs, now)
    ensures query.Some? ==> vs == MergeAll(defs, query.value, now)
  {
    match query
    case None => DefaultViews(defs, now)
    case Some(rows) =>
      if |rows| == 0 then (EmptyTableIsDefaults(defs, now); DefaultViews(defs, now))
      else MergeAll(defs, rows, now)
  }

  /** With no rows, the merge yields exactly the fallback deck, so callers
      need not know which branch produced the response. */
  lemma EmptyTableIsDefaults(defs: seq<Doc>, now: int)
    ensures MergeAll(defs, [], now) == DefaultViews(defs, now)
  {
    var a, b := MergeAll(defs, [], now), DefaultViews(defs, now);
    forall i | 0 <= i < |defs| ensures a[i] == b[i] {
      assert Find([], i).None?;
    }
  }

  /** Rows whose `slide_order` lies in `[0, n)`. */
  function InRange(rows: seq<Row>, n: int): (r: seq<Row>)
    ensures forall j :: 0 <= j < |r| ==> 0 <= r[j].slideOrder < n
    ensures |r| <= |rows|
  {
    if rows == [] then []
    else if 0 <= rows[0].slideOrder < n then [rows[0]] + InRange(rows[1..], n)
    else InRange(rows[1..], n)
  }

  lemma {:induction false} FindInRange(rows: seq<Row>, n: int, i: int)
    requires 0 <= i < n
    ensures Find(InRange(rows, n), i) == Find(rows, i)
  {
    if rows != [] {
      FindInRange(rows[1..], n, i);
    }
  }

  /** Rows outside the catalogue's index range never influence the result. */
  lemma StaleRowsIgnored(defs: seq<Doc>, rows: seq<Row>, now: int)
    ensures MergeAll(defs, rows, now) == MergeAll(defs, InRange(rows, |defs|), now)
  {
    var a, b := MergeAll(defs, rows, now), MergeAll(defs, InRange(rows, |defs|), now);
    forall i | 0 <= i < |defs| ensures a[i] == b[i] {
      FindInRange(rows, |defs|, i);
    }
  }

  /** The view at one index depends only on the rows at that index. */
  lemma SlideDependsOnOwnRows(defs: seq<Doc>, rows1: seq<Row>, rows2: seq<Row>, i: int, now: int)
    requires 0 <= i < |defs|
    requires Find(rows1, i) == Find(rows2, i)
    ensures MergeAll(defs, rows1, now)[i] == MergeAll(defs, rows2, now)[i]
  {
  }

  /** A default `{title: "A", visual: "V", sections: S}` and a row whose
      content is just `{title: "B"}`: title "B", visual and sections inherited. */
  lemma FieldLevelPrecedence(def: Doc, row: Row)
    requires def.title == Val("A") && def.visual == Val("V") && def.sections.Val?
    requires row.content == Some(EmptyDoc.(title := Val("B")))
    ensures MergeContent(def, row).title == Val("B")
    ensures MergeContent(def, row).visual == Val("V")
    ensures MergeContent(def, row).sections == def.sections
  {
  }

  // ---------------------------------------------------------------------
  // ORDER BY slide_order

  ghost predicate SortedByOrder(rows: seq<Row>) {
    forall a, b :: 0 <= a < b < |rows| ==> rows[a].slideOrder <= rows[b].slideOrder
  }

  /** Places `r` after every row whose order is not larger than its own. */
  function Insert(r: Row, rows: seq<Row>): (s: seq<Row>)
    requires SortedByOrder(rows)
    ensures SortedByOrder(s)
    ensures multiset(s) == multiset(rows) + multiset{r}
    ensures |s| == |rows| + 1
    ensures s != [] && (s[0] == r || (rows != [] && s[0] == rows[0]))
  {
    if rows == [] then [r]
    else if r.slideOrder < rows[0].slideOrder then [r] + rows
    else
      var t := Insert(r, rows[1..]);
      assert rows == [rows[0]] + rows[1..];
      [rows[0]] + t
  }

  /** One ordering the query may return: sorted by `slide_order`, rows
      with equal order kept in storage order. */
  function OrderBySlideOrder(rows: seq<Row>): (s: seq<Row>)
    ensures IsOrderBy(s, rows)
    ensures |s| == |rows|
  {
    if rows == [] then []
    else
      var init := rows[..|rows| - 1];
      assert rows == init + [rows[|rows| - 1]];
      Insert(rows[|rows| - 1], OrderBySlideOrder(init))
  }

  /** What `SELECT * FROM slides ORDER BY slide_order` may return for a
      table holding `rows`: those rows, sorted by `slide_order`. PostgreSQL
      leaves the order among rows with equal `slide_order` open. */
  ghost predicate IsOrderBy(q: seq<Row>, rows: seq<Row>) {
    SortedByOrder(q) && multiset(q) == multiset(rows)
  }

  /** No two rows share a `slide_order`. */
  ghost predicate UniqueOrders(rows: seq<Row>) {
    forall a, b :: 0 <= a < b < |rows| ==> rows[a].slideOrder != rows[b].slideOrder
  }

  /** In a table without repeated orders, a row is fixed by its order. */
  lemma SameOrderSameRow(rows: seq<Row>, r1: Row, r2: Row)
    requires UniqueOrders(rows) && r1 in rows && r2 in rows && r1.slideOrder == r2.slideOrder
    ensures r1 == r2
  {
    var a :| 0 <= a < |rows| && rows[a] == r1;
    var b :| 0 <= b < |rows| && rows[b] == r2;
    assert a == b;
  }

  /** Whatever order the query returns, `find` picks the same row, as long
      as no `slide_order` repeats. */
  lemma FindOrdered(rows: seq<Row>, q: seq<Row>, order: int)
    requires IsOrderBy(q, rows) && UniqueOrders(rows)
    ensures Find(q, order) == Find(rows, order)
  {
    var fq, fr := Find(q, order), Find(rows, order);
    if fr.Some? {
      assert fr.value in multiset(q);
      assert fq.Some?;
    }
    if fq.Some? {
      assert fq.value in multiset(rows);
      assert fr.Some?;
      SameOrderSameRow(rows, fq.value, fr.value);
    }
  }

  /** The merge over any result of the ordered query equals the merge over
      the table in storage order, as long as no `slide_order` repeats. */
  lemma MergeOrdered(defs: seq<Doc>, rows: seq<Row>, q: seq<Row>, now: int)
    requires IsOrderBy(q, rows) && UniqueOrders(rows)
    ensures MergeAll(defs, q, now) == MergeAll(defs, rows, now)
  {
    var a, b := MergeAll(defs, q, now), MergeAll(defs, rows, now);
    forall i | 0 <= i < |defs| ensures a[i] == b[i] {
      FindOrdered(rows, q, i);
    }
  }

  /** With a repeated `slide_order`, two orderings the query may return
      serve different slides. */
  lemma RepeatedOrderIsAmbiguous()
    ensures var r1 := Row(1, 0, "A", None, None, 0, 0);
            var r2 := Row(2, 0, "B", None, None, 0, 0);
            && IsOrderBy([r1, r2], [r1, r2]) && IsOrderBy([r2, r1], [r1, r2])
            && MergeAll([EmptyDoc], [r1, r2], 0)[0].title == "A"
            && MergeAll([EmptyDoc], [r2, r1], 0)[0].title == "B"
  {
    var r1: Row := Row(1, 0, "A", None, None, 0, 0);
    var r2: Row := Row(2, 0, "B", None, None, 0, 0);
    var q: seq<Row> := [r2, r1];
    assert multiset(q) == multiset([r1, r2]);
  }
}
