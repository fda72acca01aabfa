/** The server's `slides` table and the endpoints that change it:
    `PUT /api/slides/:order`, `POST /api/slides/:order/image` and
    `DELETE /api/slides/:order/image`, plus the image upload rule. */
module Store {
  import opened Js
  import opened SlideDoc
  import opened Merge

  /** The constraint a failed statement violated. */
  datatype DbError = NotNullViolation(column: string) | UniqueViolation(column: string) | ValueTooLong(column: string)

  datatype Outcome<T> = Ok(value: T) | Err(error: DbError)

  /** What an `UPDATE slides SET ... WHERE slide_order = $n` writes. */
  datatype Change =
    | SetText(title: string, content: Option<Doc>)   // PUT
    | SetImage(url: Option<string>)                   // image POST
    | ClearImage                                      // image DELETE

  function Apply(c: Change, r: Row, now: int): (r': Row)
    ensures r'.id == r.id && r'.slideOrder == r.slideOrder && r'.createdAt == r.createdAt
    ensures r'.updatedAt == now
    ensures c.SetText? ==> r'.title == c.title && r'.content == c.content && r'.imageUrl == r.imageUrl
    ensures c.SetImage? ==> r'.title == r.title && r'.content == r.content && r'.imageUrl == c.url
    ensures c.ClearImage? ==> r'.title == r.title && r'.content == r.content && r'.imageUrl.None?
  {
    match c
    case SetText(t, d) => r.(title := t, content := d, updatedAt := now)
    case SetImage(u) => r.(imageUrl := u, updatedAt := now)
    case ClearImage => r.(imageUrl := None, updatedAt := now)
  }

  /** Every row at `order` changed, every other row untouched. */
  function UpdateWhere(rows: seq<Row>, order: int, c: Change, now: int): (s: seq<Row>)
    ensures |s| == |rows|
    ensures forall j :: 0 <= j < |rows| ==> s[j].id == rows[j].id && s[j].slideOrder == rows[j].slideOrder
    ensures forall j :: 0 <= j < |rows| ==>
      s[j] == if rows[j].slideOrder == order then Apply(c, rows[j], now) else rows[j]
  {
    if rows == [] then []
    else [if rows[0].slideOrder == order then Apply(c, rows[0], now) else rows[0]]
         + UpdateWhere(rows[1..], order, c, now)
  }

  predicate HasOrder(rows: seq<Row>, order: int) {
    exists j :: 0 <= j < |rows| && rows[j].slideOrder == order
  }

  lemma {:induction false} FindUpdateWhere(rows: seq<Row>, order: int, c: Change, now: int, i: int)
    ensures Find(UpdateWhere(rows, order, c, now), i) ==
      if i == order && Find(rows, i).Some? then Some(Apply(c, Find(rows, i).value, now))
      else Find(rows, i)
  {
    if rows != [] {
      assert UpdateWhere(rows, order, c, now)[1..] == UpdateWhere(rows[1..], order, c, now);
      FindUpdateWhere(rows[1..], order, c, now, i);
    }
  }

  /** The new row an INSERT creates; `id` is the next SERIAL value. */
  function NewRow(id: int, order: int, title: string, content: Option<Doc>, url: Option<string>, now: int): Row {
    Row(id, order, title, content, url, now, now)
  }

  /** Table after a successful PUT (server.js:406-425). */
  function PutRows(rows: seq<Row>, order: int, title: string, content: Option<Doc>, now: int, id: int): seq<Row> {
    if HasOrder(rows, order) then UpdateWhere(rows, order, SetText(title, content), now)
    else rows + [NewRow(id, order, title, content, None, now)]
  }

  /** The document an image POST seeds a missing row with (server.js:475). */
  function Seed(defs: seq<Doc>, order: int): (d: Doc)
    ensures 0 <= order < |defs| ==> d == defs[order]
    ensures !(0 <= order < |defs|) ==> d == TitleOnly(SlideLabel(order))
  {
    if 0 <= order < |defs| then defs[order] else TitleOnly(SlideLabel(order))
  }

  /** The table after an image POST at `order` (server.js:462-479): the
      rows at `order` get the URL, or a row seeded from the catalogue is
      appended; None when the seed has no title, which NOT NULL refuses. */
  function ImageRows(rows: seq<Row>, order: int, url: Option<string>, defs: seq<Doc>, now: int, id: int)
    : (r: Option<seq<Row>>)
    ensures HasOrder(rows, order) ==> r.Some?
    ensures r.Some? ==> Find(r.value, order).Some? && Find(r.value, order).value.imageUrl == url
  {
    if HasOrder(rows, order) then
      FindUpdateWhere(rows, order, SetImage(url), now, order);
      Some(UpdateWhere(rows, order, SetImage(url), now))
    else
      match TextColumn(Seed(defs, order).title)
      case None => None
      case Some(t) =>
        FindAppend(rows, NewRow(id, order, t, Some(Seed(defs, order)), url, now), order);
        Some(rows + [NewRow(id, order, t, Some(Seed(defs, order)), url, now)])
  }

  /** The value a `TEXT NOT NULL` column receives: null or undefined fails. */
  function TextColumn(o: Opt<string>): Option<string> {
    if o.Val? then Some(o.v) else None
  }

  /** The file a DELETE unlinks: the first row's URL, when it is truthy and
      starts with `/uploads/` (server.js:502-512). Only that prefix is
      checked; the path it resolves to is not. */
  function UnlinkTarget(rows: seq<Row>, order: int): (u: Option<string>)
    ensures u.Some? ==> Find(rows, order).Some? && Find(rows, order).value.imageUrl == u
    ensures u.Some? ==> StartsWith(u.value, "/uploads/")
    ensures (Find(rows, order).Some? && Find(rows, order).value.imageUrl.Some?
             && StartsWith(Find(rows, order).value.imageUrl.value, "/uploads/")) ==> u.Some?
  {
    match Find(rows, order)
    case None => None
    case Some(r) =>
      if r.imageUrl.Some? && r.imageUrl.value != "" && StartsWith(r.imageUrl.value, "/uploads/")
      then r.imageUrl else None
  }

  class SlideTable {
    var rows: seq<Row>
    var nextId: int

    /** SERIAL ids: every row's id was issued before `nextId`, and no two
        rows share one. The endpoints insert a row only where none has its
        order, so (one request at a time) no `slide_order` repeats either. */
    ghost predicate Valid()
      reads this
    {
      && nextId >= 1
      && (forall j :: 0 <= j < |rows| ==> 1 <= rows[j].id < nextId)
      && (forall a, b :: 0 <= a < b < |rows| ==> rows[a].id != rows[b].id)
      && UniqueOrders(rows)
    }

    constructor ()
      ensures Valid() && rows == [] && nextId == 1
    {
      rows := [];
      nextId := 1;
    }

    /** `PUT /api/slides/:order` with body `{ title, content }`. */
    method Put(order: int, title: Option<string>, content: Option<Doc>, now: int) returns (r: Outcome<Row>)
      requires Valid()
      modifies this
      ensures Valid()
      ensures title.None? ==> r == Err(NotNullViolation("title")) && rows == old(rows)
      // a failed INSERT has drawn its SERIAL value all the same; a failed UPDATE draws none
      ensures title.None? ==> nextId == old(nextId) + (if HasOrder(old(rows), order) then 0 else 1)
      ensures title.Some? ==> rows == PutRows(old(rows), order, title.value, content, now, old(nextId))
      ensures title.Some? && HasOrder(old(rows), order) ==>
        nextId == old(nextId) && r == Ok(Apply(SetText(title.value, content), Find(old(rows), order).value, now))
      ensures title.Some? && !HasOrder(old(rows), order) ==>
        nextId == old(nextId) + 1 && r == Ok(NewRow(old(nextId), order, title.value, content, None, now))
    {
      if title.None? {
        if !HasOrder(rows, order) {
          nextId := nextId + 1;
        }
        return Err(NotNullViolation("title"));
      }
      var change := SetText(title.value, content);
      if HasOrder(rows, order) {
        FindUpdateWhere(rows, order, change, now, order);
        Update(order, change, now);
        r := Ok(Find(rows, order).value);
      } else {
        var row := NewRow(nextId, order, title.value, content, None, now);
        InsertRow(row);
        r := Ok(row);
      }
    }

    /** `POST /api/slides/:order/image` with body `{ imageUrl }`. */
    method SetImageUrl(order: int, url: Option<string>, defs: seq<Doc>, now: int) returns (r: Outcome<Row>)
      requires Valid()
      modifies this
      ensures Valid()
      ensures r.Ok? <==> ImageRows(old(rows), order, url, defs, now, old(nextId)).Some?
      ensures r.Ok? ==> rows == ImageRows(old(rows), order, url, defs, now, old(nextId)).value
      ensures HasOrder(old(rows), order) ==>
        rows == UpdateWhere(old(rows), order, SetImage(url), now) && nextId == old(nextId)
        && r == Ok(Apply(SetImage(url), Find(old(rows), order).value, now))
      ensures !HasOrder(old(rows), order) && TextColumn(Seed(defs, order).title).None? ==>
        r == Err(NotNullViolation("title")) && rows == old(rows) && nextId == old(nextId) + 1
      ensures !HasOrder(old(rows), order) && TextColumn(Seed(defs, order).title).Some? ==>
        var row := NewRow(old(nextId), order, TextColumn(Seed(defs, order).title).value,
                          Some(Seed(defs, order)), url, now);
        rows == old(rows) + [row] && nextId == old(nextId) + 1 && r == Ok(row)
    {
      if HasOrder(rows, order) {
        FindUpdateWhere(rows, order, SetImage(url), now, order);
        Update(order, SetImage(url), now);
        r := Ok(Find(rows, order).value);
      } else {
        var seed := Seed(defs, order);
        var title := TextColumn(seed.title);
        if title.None? {
          nextId := nextId + 1;
          return Err(NotNullViolation("title"));
        }
        var row := NewRow(nextId, order, title.value, Some(seed), url, now);
        InsertRow(row);
        r := Ok(row);
      }
    }

    /** `DELETE /api/slides/:order/image`: returns the updated first row (if
        any) and the stored upload whose file is removed. */
    method DeleteImage(order: int, now: int) returns (slide: Option<Row>, unlinked: Option<string>)
      requires Valid()
      modifies this
      ensures Valid() && nextId == old(nextId)
      ensures rows == UpdateWhere(old(rows), order, ClearImage, now)
      ensures unlinked == UnlinkTarget(old(rows), order)
      ensures slide == Find(rows, order)
    {
      unlinked := UnlinkTarget(rows, order);
      Update(order, ClearImage, now);
      slide := Find(rows, order);
    }

    /** `UPDATE slides SET ... WHERE slide_order = order`. */
    method Update(order: int, c: Change, now: int)
      requires Valid()
      modifies this
      ensures Valid() && nextId == old(nextId)
      ensures rows == UpdateWhere(old(rows), order, c, now)
    {
      rows := UpdateWhere(rows, order, c, now);
    }

    /** `INSERT INTO slides ...`: the row receives the next SERIAL id. */
    method InsertRow(row: Row)
      requires Valid() && row.id == nextId && !HasOrder(rows, row.slideOrder)
      modifies this
      ensures Valid() && nextId == old(nextId) + 1
      ensures rows == old(rows) + [row]
    {
      rows := rows + [row];
      nextId := nextId + 1;
    }
  }

  // ---------------------------------------------------------------------
  // What the endpoints do to the merged deck

  /** After a PUT at `k`, the next GET shows the new title and content at `k`
      (the row's image is kept) and every other slide as before. */
  lemma PutThenGet(defs: seq<Doc>, rows: seq<Row>, k: int, title: string, content: Option<Doc>,
                   now: int, id: int, later: int)
    requires 0 <= k < |defs|
    ensures var after := MergeAll(defs, PutRows(rows, k, title, content, now, id), later);
            var before := MergeAll(defs, rows, later);
            && after[k].title == title
            && after[k].content == MergeContent(defs[k], Row(0, k, title, content, None, 0, 0))
            && after[k].imageUrl == (if Find(rows, k).Some? then Find(rows, k).value.imageUrl else None)
            && forall j :: 0 <= j < |defs| && j != k ==> after[j] == before[j]
  {
    var rows' := PutRows(rows, k, title, content, now, id);
    forall j | 0 <= j < |defs|
      ensures Find(rows', j) == if j == k then Find(rows', k) else Find(rows, j)
    {
      if HasOrder(rows, k) {
        FindUpdateWhere(rows, k, SetText(title, content), now, j);
      } else {
        FindAppend(rows, NewRow(id, k, title, content, None, now), j);
      }
    }
    if HasOrder(rows, k) {
      FindUpdateWhere(rows, k, SetText(title, content), now, k);
    } else {
      FindAppend(rows, NewRow(id, k, title, content, None, now), k);
    }
  }

  /** After a DELETE at `k`, a slide that had a row keeps the row's title and
      content but shows no image: the cleared URL is not read as "no row". */
  lemma DeleteThenGet(defs: seq<Doc>, rows: seq<Row>, k: int, now: int, later: int)
    requires 0 <= k < |defs|
    requires HasOrder(rows, k)
    ensures var after := MergeAll(defs, UpdateWhere(rows, k, ClearImage, now), later);
            var before := MergeAll(defs, rows, later);
            && after[k].imageUrl.None?
            && after[k].title == before[k].title
            && after[k].content == before[k].content
            && forall j :: 0 <= j < |defs| && j != k ==> after[j] == before[j]
  {
    forall j | 0 <= j < |defs| {
      FindUpdateWhere(rows, k, ClearImage, now, j);
    }
  }

  // ---------------------------------------------------------------------
  // POST /api/upload/image

  const MaxUploadBytes: nat := 5 * 1024 * 1024

  /** A file as the upload middleware sees it. */
  datatype UploadFile = UploadFile(mimetype: string, size: nat)

  datatype UploadError = NoFile | NotAnImage | TooLarge

  datatype UploadResult = Uploaded(imageUrl: string) | Rejected(error: UploadError)

  /** The name the disk storage gives a file: `slide-<ms>-<random><ext>`. */
  function StoredName(millis: nat, random: nat, ext: string): (name: string)
    ensures StartsWith(name, "slide-")
    ensures |name| > 6 + |ext| && name[|name| - |ext|..] == ext
  {
    "slide-" + NatStr(millis) + "-" + NatStr(random) + ext
  }

  /** The filter admits MIME types starting with `image/`; files over the limit are refused;
      an accepted file is served under `/uploads/` (server.js:37-50, 434-445). */
  function AcceptUpload(file: Option<UploadFile>, name: string): (r: UploadResult)
    ensures r.Uploaded? <==>
      file.Some? && StartsWith(file.value.mimetype, "image/") && file.value.size <= MaxUploadBytes
    ensures r.Uploaded? ==> r.imageUrl == "/uploads/" + name
    ensures file.Some? && !StartsWith(file.value.mimetype, "image/") ==> r == Rejected(NotAnImage)
    ensures file.None? ==> r == Rejected(NoFile)
  {
    match file
    case None => Rejected(NoFile)
    case Some(f) =>
      if !StartsWith(f.mimetype, "image/") then Rejected(NotAnImage)
      else if f.size > MaxUploadBytes then Rejected(TooLarge)
      else Uploaded("/uploads/" + name)
  }

  /** An uploaded image attached to slide `k`, whether the slide had a row
      or one was seeded for it, is the file a later DELETE at `k` removes. */
  lemma UploadedImageIsUnlinked(rows: seq<Row>, k: int, file: Option<UploadFile>, name: string,
                                defs: seq<Doc>, now: int, id: int)
    requires AcceptUpload(file, name).Uploaded?
    requires ImageRows(rows, k, Some(AcceptUpload(file, name).imageUrl), defs, now, id).Some?
    ensures var url := AcceptUpload(file, name).imageUrl;
            UnlinkTarget(ImageRows(rows, k, Some(url), defs, now, id).value, k) == Some(url)
  {
    var url := AcceptUpload(file, name).imageUrl;
    assert StartsWith(url, "/uploads/") by { assert url[..9] == "/uploads/"; }
  }

  /** A URL set through the image POST that climbs out of `/uploads/` with
      `..` passes the prefix check all the same. */
  lemma TraversalUrlPassesCheck(k: int, now: int)
    ensures var url := "/uploads/../../server.js";
            UnlinkTarget([NewRow(1, k, "Slide", None, Some(url), now)], k) == Some(url)
  {
    var url := "/uploads/../../server.js";
    assert url[..9] == "/uploads/";
  }

  /** For a table changed only through these endpoints, one request at a
      time, the deck a GET serves does not depend on how PostgreSQL orders
      rows with equal `slide_order`: there are none. */
  lemma ServedDeckIgnoresTieOrder(t: SlideTable, defs: seq<Doc>, q: seq<Row>, now: int)
    requires t.Valid() && IsOrderBy(q, t.rows)
    ensures GetSlides(defs, Some(q), now) == MergeAll(defs, t.rows, now)
  {
    MergeOrdered(defs, t.rows, q, now);
  }
}
