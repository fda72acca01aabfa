# Pitch deck: slide merge, editing state and secret sign-in, in Dafny

This project models the core of a browser slide-deck viewer with an
editable, database-backed content store, and proves properties of that model.

- **Server side (`server.js`).**
  - `GET /api/slides` merges a fixed default catalogue with rows of a
    `slides` table keyed by `slide_order`. This is a pure function: modules
    `Merge` and `SlideDoc`, with the JavaScript value semantics in `Js`.
  - The three endpoints that change the table are methods of the class
    `Store.SlideTable`: `PUT /api/slides/:order`,
    `POST /api/slides/:order/image` and `DELETE /api/slides/:order/image`.
  - The image upload rule is in `Store`.
  - The rule that the first registered user is the admin is in
    `Users.UserTable`.
- **Client side (`src/js/script.js`).**
  - Rendering a slide document to markup, and reading a document back out of
    it, are pure functions over an abstract element list (module `Render`).
  - Navigation rules are in `Navigation`.
  - Page state is the class `Deck.Deck`: the active slide, the URL hash, the
    edit toggle with its image controls, and the shared auto-save timer.
- **Secret sign-in (`src/js/auth.js`).** Module `Auth` holds the tap counter,
  the prompts, the stored user and the admin controls. The class is
  `Auth.SecretAuth`.

## How JavaScript values are modelled

- **Missing keys and null.** A document member is `Opt<T>`: `Absent` for a
  missing key or `undefined`, `Null` for JSON null, `Val(v)` otherwise.
  Object spread lets every key the patch carries win, whatever its value.
- **Truthiness.** `||` is modelled with JavaScript truthiness. An empty string
  counts as absent and an array, even an empty one, as present.
- **Row lookup.** `Array.find` returns the first match.
- **Ordering.** `ORDER BY slide_order` may return the rows in any order
  sorted by `slide_order`: PostgreSQL leaves ties open, and `slide_order`
  is not UNIQUE. Without repeated orders the merge is proved independent of
  the order chosen; with a repeated order it is not.
- **Time.** Time is an explicit integer parameter (milliseconds on the
  client). The database's timestamps are abstract instants passed in.
- **Markup.** Element text holds the markup written into it. `textContent`
  removes tags: a `<` starts one only when an ASCII letter, `/`, `!` or `?`
  follows, as in the HTML tokenizer; any other `<` is text.
- **Template whitespace.** The placeholder's template puts blanks around the
  caption and the control. They are modelled as one blank each, so a
  placeholder's text is never empty.
- **Where the code and the intended behaviour differ, the model follows the
  code.**
  - A `blur` save does not cancel the pending debounce timer (`Deck.Deck.Blur`
    leaves `pending` alone).
  - A swipe of exactly 50 px triggers nothing (the comparisons are strict).
  - `goToSlide` on an empty deck sets the index to -1.
  - The URL fragment is never honoured on load. See Findings.
  - The edit toggle restores a placeholder's control only where one is
    still present (`Deck.Deck.ToggleEdit`). See Findings.
  - Start-up enables the admin controls for any stored user
    (`Auth.SecretAuth.constructor`). See Findings.
  - A tap that opens a prompt schedules its reset only once the prompt
    closes (`Auth.SecretAuth.HandleSecretTap`).

## Model

| member | source | states |
|---|---|---|
| Js.OrStr | server.js:346-348 | `a \|\| b` on strings: the left operand when it is a non-empty string, else the right one |
| Js.ParseIntNatStr | src/js/script.js:643 | `parseInt` reads back every decimal numeral `NatStr(n)` as `n` |
| Js.ReplaceFirst | src/js/script.js:643 | `String.replace` with a string pattern at the start of the subject replaces just that prefix |
| Js.TextContent | src/js/script.js:264-298 | reading `textContent` never lengthens the text, and text in which no `<` opens markup reads back unchanged |
| Js.LessThanIsText | src/js/script.js:264-298 | a `<` followed by a blank, as in `Revenue < cost`, is text and survives the read-back |
| Js.MarkupLikeTextLost | src/js/script.js:264-298 | a `<` followed by a letter, as in `a<b`, is read as a tag: the rest of the text is lost |
| Js.ReadBackNotIdempotent | src/js/script.js:264-298 | a read-back can itself contain markup: `<<b>x` reads back as `<x`, which reads back as nothing |
| SlideDoc.Spread | server.js:342-344 | `{...base, ...patch}`: an empty patch leaves the base, an empty base yields the patch |
| SlideDoc.TitleOnly | server.js:475 | the `{ title: "Slide k+1" }` seed is no title slide and has no sections; spread over a document it replaces only the title; under a patch it supplies the title only when the patch has none |
| Merge.Find | server.js:338 | `find` returns nothing exactly when no row has the order, else a row of the table with that order |
| Merge.FindFirst | server.js:338 | of several rows sharing a `slide_order`, the first one is used |
| Merge.DefaultView | server.js:362-371 | a slide without a row gets the default document verbatim, a null `image_url`, id and order `i`, and the default title or `Slide i+1` when it is empty |
| Merge.MergeContent | server.js:342-349 | field precedence: row content overrides the default key by key; `title` is the content's, else the row's, else the default's (each only if non-empty); any `sections` array in the content wins (an empty one too); `visual` wins only when non-empty |
| Merge.MergeSlide | server.js:337-372 | with a row, the view takes the row's id, top-level title and `image_url` verbatim (null included) and the merged content; without one it is the default view |
| Merge.MergeAll | server.js:337-372 | exactly one view per catalogue entry, with `slide_order` 0..N-1 in order |
| Merge.GetSlides | server.js:314-391 | the handler returns one view per catalogue entry; a failed query yields the fallback deck, a successful one the merge |
| Merge.EmptyTableIsDefaults | server.js:323-334 | merging an empty table gives exactly the fallback deck |
| Merge.StaleRowsIgnored | server.js:337-338 | rows whose `slide_order` lies outside the catalogue's range never affect the result |
| Merge.SlideDependsOnOwnRows | server.js:338-360 | the view at an index depends only on the row `find` picks for that index |
| Merge.FieldLevelPrecedence | server.js:342-349 | a row whose content is only `{title: "B"}` changes the title and inherits `visual` and `sections` |
| Merge.Insert | server.js:316-318 | inserting into a sorted row list keeps it sorted and adds exactly that row |
| Merge.OrderBySlideOrder | server.js:316-318 | one ordering the query may return exists for every table: sorted by `slide_order` and a permutation of the table |
| Merge.FindOrdered | server.js:316-338 | when no `slide_order` repeats, `find` picks the same row from every ordering the query may return |
| Merge.MergeOrdered | server.js:316-338 | when no `slide_order` repeats, the merge over every ordering the query may return equals the merge over the table in storage order |
| Merge.SameOrderSameRow | server.js:207-210 | in a table without repeated `slide_order`, two rows with the same order are the same row |
| Merge.RepeatedOrderIsAmbiguous | server.js:207-210 | with two rows at order 0, titled A and B, both orderings are admissible and they serve different titles at slide 0 |
| Store.Apply | server.js:406-414 | an UPDATE keeps id, order and creation time, stamps `updated_at`, and changes only the columns it sets |
| Store.UpdateWhere | server.js:408-414 | `UPDATE ... WHERE slide_order = k` changes every row at k and no other row |
| Store.FindUpdateWhere | server.js:406-425 | after such an update, `find` at k yields the updated first row and at other orders the same row as before |
| Store.Seed | server.js:475 | a missing row is seeded from the catalogue entry, or from `{ title: "Slide k+1" }` outside the catalogue |
| Store.UnlinkTarget | server.js:502-512 | a file is removed only for the first row's non-empty URL starting with `/uploads/` |
| Store.TraversalUrlPassesCheck | server.js:502-508 | a URL `/uploads/../../server.js` stored for a slide is what the next DELETE unlinks: only the prefix is checked |
| Store.ImageRows | server.js:453-483 | after the image POST's statement, `find` at k yields a row carrying the new URL; it fails only when it must seed a row whose seed has no title |
| Store.SlideTable.Put | server.js:393-431 | PUT at k: rows at k get the new title and content and keep `image_url`; with none, one row is inserted with a null `image_url` and the next SERIAL id; other rows are untouched; a missing title violates NOT NULL and changes no row, though a failed INSERT still uses up its SERIAL value |
| Store.SlideTable.SetImageUrl | server.js:453-487 | image POST at k: the table becomes what `ImageRows` gives; rows at k keep title and content and get the URL; a missing row is inserted from the seed, or the INSERT fails on a seed without a title, using up a SERIAL value and changing no row |
| Store.SlideTable.DeleteImage | server.js:490-526 | image DELETE at k: every row at k gets a null `image_url`, no other row changes, and the unlinked file is the one `UnlinkTarget` names |
| Store.SlideTable.Update | server.js:408-414 | the UPDATE statement on the table |
| Store.SlideTable.InsertRow | server.js:418-423 | the INSERT statement appends the row with the next SERIAL id |
| Store.PutThenGet | server.js:393-431 | after a PUT at k, the next GET shows the new title and content at k, the row's old image, and every other slide unchanged |
| Store.DeleteThenGet | server.js:490-526 | after a DELETE at k, the slide keeps its row's title and content with no image, and every other slide is unchanged |
| Store.StoredName | server.js:30-34 | stored file names start with `slide-` and end with the upload's extension |
| Store.AcceptUpload | server.js:37-50 | a file is accepted exactly when its MIME type starts with `image/` and it is at most 5 MiB; it is served at `/uploads/<name>` |
| Store.UploadedImageIsUnlinked | server.js:434-487 | an accepted upload attached to slide k, by UPDATE or by a seeded INSERT, is the file a later DELETE at k removes |
| Store.ServedDeckIgnoresTieOrder | server.js:316-338 | for a table changed only through the three endpoints, every ordering the query may return serves the same deck |
| Users.UserTable.Register | server.js:290-311 | registration draws a SERIAL id, then fails on an email or name over 255 characters unless the excess is all spaces, on a missing email, or on an email already stored, without changing the table; otherwise appends a user with the values as stored (cut to 255 characters), admin exactly when first |
| Users.VarcharDropsOnlySpaces | server.js:196-199 | a value the `VARCHAR(255)` column accepts loses only trailing spaces when it is stored |
| Users.PaddedEmailIsTruncated | server.js:196-199 | an email followed by 300 spaces is accepted and stored with 250 of them |
| Users.UserTable.Login | server.js:263-288 | login finds a user exactly when one has that email; the reply's `isAdmin` is the user's flag, and only the first user can be admin |
| Users.UserTable.LoginFrom | server.js:267-277 | the first row with the email, scanning from a position |
| Render.RenderSection | src/js/script.js:92-109 | a section renders as heading + list when the list is non-empty, heading + paragraph when only `content` is non-empty, heading alone otherwise |
| Render.RenderSections | src/js/script.js:91-111 | the sections' markup starts with a heading and is empty only for no sections |
| Render.RenderPlaceholder | src/js/script.js:113-139 | the placeholder shows the image exactly when `image_url` is non-empty (with the delete control), else `visual` or `Image placeholder` (with the upload control) |
| Render.PlaceholderText | src/js/script.js:131-139 | the placeholder's text starts with the template's blank and is never empty; an image without a control reads back as three blanks |
| Render.RenderSlide | src/js/script.js:68-143 | a document renders as a title slide exactly when its `type` is `title` |
| Render.ReadSection | src/js/script.js:279-291 | a section read back has its heading's text as title |
| Render.ReadDoc | src/js/script.js:266-300 | a title slide reads back as `type 'title'` without presenter or sections; a content slide as `type 'content'` with sections and visual |
| Render.SectionsRoundTrip | src/js/script.js:276-292 | reading back rendered sections recovers every title in order, with its list if shown, else its paragraph if shown |
| Render.ContentUnderListLost | src/js/script.js:93-104 | a paragraph stored beside a non-empty list does not survive a save |
| Render.CanonicalRoundTrip | src/js/script.js:279-292 | a section already in read-back form, with plain text, renders and reads back unchanged |
| Render.NormalizeStable | src/js/script.js:279-292 | after one save whose texts read back without markup, a second save of the re-rendered sections sends the same sections |
| Render.TitleSlideRoundTrip | src/js/script.js:268-274 | a title slide reads back with the texts of title, subtitle and tagline, drops `presenter`, and saves the subtitle (else the title) as top-level title |
| Render.ContentSlideRoundTrip | src/js/script.js:294-299 | a content slide reads back its heading, its sections as above, and the placeholder's text as `visual` |
| Navigation.Clamp | src/js/script.js:161-162 | the index is raised to 0 and lowered to N-1; a valid index is kept; an empty deck yields -1 |
| Navigation.HashFor | src/js/script.js:188 | the written hash is `#slide-` followed by a number |
| Navigation.UrlTarget | src/js/script.js:640-648 | a hash names slide i exactly when it is non-empty and `parseInt` of it without `#slide-` is i+1 with 1 <= i+1 <= N |
| Navigation.HashNumeral | src/js/script.js:643 | removing `#slide-` from a written hash leaves exactly its one-based number |
| Navigation.HashRoundTrip | src/js/script.js:643-645 | the hash written for slide i leads back to slide i |
| Navigation.NoTargetInEmptyDeck | src/js/script.js:644 | no hash names a slide of an empty deck |
| Navigation.SwipeDirections | src/js/script.js:555-565 | next and previous never both fire, a travel of exactly 50 px fires neither, next fires exactly on more than 50 px leftwards |
| Navigation.LandingAsWritten | src/js/script.js:650-651 | as written, a load always lands on the first slide |
| Navigation.Landing | src/js/script.js:640-648 | the intended landing is a valid slide (or -1 for an empty deck) |
| Navigation.ReloadKeepsSlide | src/js/script.js:640-648 | with the intended load, reloading on slide i lands on slide i |
| Navigation.ReloadLosesSlideAsWritten | src/js/script.js:650-651 | as written, a reload on slide 2 of 3 lands on slide 1 |
| Deck.ViewData | src/js/script.js:74-76 | a view renders with its content, and with an image exactly when its `image_url` is non-empty |
| Deck.LoadedData | src/js/script.js:31-47 | the slides come from the fetched views when there are any, from the catalogue (or nothing) when the fetch threw or came back empty, and are empty on an HTTP error |
| Deck.RefreshAsWritten | src/js/script.js:192-227 | as written, leaving edit mode removes the control; entering it turns a present control into the one matching the image and leaves a missing one missing; the image and caption stay |
| Deck.Refresh | src/js/script.js:192-227 | intended: in edit mode the control matching the image, outside it none |
| Deck.RefreshAgreesOnPresentButton | src/js/script.js:199-218 | both refreshes agree wherever a control is present |
| Deck.ReenterEditLosesButtonAsWritten | src/js/script.js:199-224 | for every placeholder, leaving and re-entering edit mode as written leaves it without a control, while the intended refresh gives it the matching one |
| Deck.RenderedPlaceholderOk | src/js/script.js:113-139 | a freshly rendered content slide carries the control matching its image, and `has-image` exactly with an image |
| Deck.RefreshedPlaceholderOk | src/js/script.js:192-227 | both refreshes keep `has-image` and any control consistent with the image; outside edit mode both remove the control; in edit mode only the intended one guarantees a control |
| Deck.BurstSavesOnce | src/js/script.js:244-253 | inputs each less than 1000 ms after the previous one save exactly once |
| Deck.SpacedInputsSaveEach | src/js/script.js:244-253 | inputs at least 1000 ms apart save once each |
| Deck.SavedSectionsServed | src/js/script.js:294-310 | the sections a content slide saves are the sections the next merge serves |
| Deck.SavedVisualReplacesCatalogue | src/js/script.js:294-299 | a saved content slide's placeholder text replaces the catalogue's `visual` at the next merge, blanks included: an image without a control comes back as three blanks |
| Deck.SavedTitleKeepsPresenter | src/js/script.js:268-274 | a saved title slide keeps the catalogue's presenter and sections through the merge |
| Deck.Deck.constructor | src/js/script.js:16-20 | a fresh page has no slides, shows slide 0, keeps the hash it was opened with, is out of edit mode with no save pending and no handler attached, and holds the given catalogue and navigation panel |
| Deck.Deck.GoToSlide | src/js/script.js:160-189 | the index is clamped; exactly that slide and its navigation item are active; the hash names it |
| Deck.Deck.Next | src/js/script.js:525-529 | next goes to the clamped following slide and writes its hash; the slides, edit mode, timer, handlers and touch positions are unchanged |
| Deck.Deck.Prev | src/js/script.js:519-523 | previous goes to the clamped preceding slide and writes its hash; the slides, edit mode, timer, handlers and touch positions are unchanged |
| Deck.Deck.TouchStart | src/js/script.js:546-548 | records the start position and nothing else |
| Deck.Deck.TouchEnd | src/js/script.js:550-565 | a left swipe goes forward, a right swipe back, each writing the hash; a shorter one leaves the slide, flags and hash alone; nothing else changes |
| Deck.Deck.CheckUrlForSlide | src/js/script.js:640-648 | goes to the slide the hash names and writes its hash, and otherwise changes nothing |
| Deck.Deck.InitSlides | src/js/script.js:23-66 | the slides are the loaded data rendered in order, the first is shown and the hash names it, auto-save handlers are gone with the old elements; edit mode, the pending save and the swipe positions are untouched |
| Deck.Deck.LoadAsWritten | src/js/script.js:650-651 | the load as written renders the loaded slides, lands where `LandingAsWritten` says whatever the hash, and rewrites the hash to that slide; edit mode, the pending save and the swipe positions are untouched and no handler is left |
| Deck.Deck.Load | src/js/script.js:640-651 | the intended load renders the loaded slides and lands on the slide the hash names, else the first, with the hash naming it; edit mode, the pending save and the swipe positions are untouched and no handler is left |
| Deck.Deck.ToggleEdit | src/js/script.js:604-637 | edit mode flips; every placeholder is refreshed as written; one more set of auto-save handlers is attached when entering; the slide, hash and timer are unchanged |
| Deck.Deck.ToggleEditAsIntended | src/js/script.js:199-218 | as above with the intended refresh: in edit mode every content slide carries the control matching its image |
| Deck.Deck.UpdateSlideImage | src/js/script.js:421-437 | the placeholder gets `has-image` and the image, with the delete control in edit mode; other slides, the active slide, the hash, edit mode and the timer are unchanged |
| Deck.Deck.CatalogueCaption | src/js/script.js:475-477 | the restored caption is the catalogue's `visual` for that position when that is a non-empty string, and `Image placeholder` in every other case |
| Deck.Deck.RemoveSlideImage | src/js/script.js:468-486 | the placeholder loses `has-image` and shows the caption, with the upload control in edit mode; other slides, the active slide, the hash, edit mode and the timer are unchanged |
| Deck.Deck.Edit | src/js/script.js:608-612 | the reader's typing changes the texts of slide k only in edit mode, and then exactly that slide; a save from it sends the edited texts |
| Deck.Deck.Save | src/js/script.js:255-300 | a save is sent exactly in edit mode with a current slide; it carries that slide's position, saved title and read-back document |
| Deck.Deck.Input | src/js/script.js:244-253 | an input re-arms the one shared timer to 1000 ms later once handlers exist |
| Deck.Deck.TimerFires | src/js/script.js:246-249 | a due timer disarms and saves; otherwise nothing happens |
| Deck.Deck.TypeBurst | src/js/script.js:234-253 | running the input handler at the given times, with the shared timer firing when due, fires `DebounceSaves` times, each firing sending what `Save` gives; nothing but the timer changes |
| Deck.Deck.Blur | src/js/script.js:238-240 | a blur saves once per attached handler, and not at all when saving is a no-op; the timer is untouched |
| Auth.NextTapCount | src/js/auth.js:57-61 | a tap more than 1000 ms after the previous one counts 1, otherwise one more |
| Auth.PromptFor | src/js/auth.js:64-68 | the login prompt exactly at count 3, registration exactly at 4 |
| Auth.TapStep | src/js/auth.js:55-73 | after a tap at `now` the last tap is `now`; the pending resets are those later than `now` followed by the tap's own reset 2000 ms later |
| Auth.TapStepFires | src/js/auth.js:55-73 | a reset due before a tap zeroes the count before the tap counts; with none due the tap counts on from the previous count |
| Auth.TapRun | src/js/auth.js:57-73 | taps each within 1000 ms of the previous one, all less than 2000 ms after the first and before any pending reset, count up by one |
| Auth.QuickTaps | src/js/auth.js:55-73 | a quick run after a pause, lasting less than 2000 ms, with no pending reset inside it, counts 1, 2, 3, ...: the third tap prompts login, the fourth registration, later ones nothing |
| Auth.SlowFourthTapRestarts | src/js/auth.js:55-73 | taps at 0, 700, 1400 and 2100 ms count 1, 2, 3, 1: the first tap's reset fires before the fourth, which asks nothing |
| Auth.LoginAnswer | src/js/auth.js:76-81 | a login request is sent exactly for a non-empty answer |
| Auth.RegisterAnswers | src/js/auth.js:83-91 | a registration request is sent exactly when name and email are non-empty |
| Auth.NotDue | src/js/auth.js:70-73 | the timers still pending are exactly those later than now |
| Auth.ShowsAdminUiAsWritten | src/js/auth.js:127-135 | as written, any stored user gets the admin controls on load |
| Auth.ShowsAdminUi | src/js/auth.js:127-135 | intended: only a stored admin gets them |
| Auth.ReloadAgreesWithLogin | src/js/auth.js:108-117 | the intended check on reload agrees with the login that stored the user |
| Auth.StoredNonAdminGetsAdminUiAsWritten | src/js/auth.js:127-135 | as written, a stored non-admin gets the admin controls |
| Auth.SecretAuth.constructor | src/js/auth.js:3-14 | the stored user is signed in, the counter is zero, and `checkAuth` as written gives any stored user the admin controls |
| Auth.SecretAuth.WithIntendedCheck | src/js/auth.js:127-135 | the same start-up with the intended check: the admin controls appear exactly for a stored admin |
| Auth.SecretAuth.HandleSecretTap | src/js/auth.js:55-74 | updates count and time by `NextTapCount`, prompts by `PromptFor`, and schedules a reset 2000 ms after the tap, or after the prompt closes when it opens one; a login prompt follows three taps each within 1000 ms of the previous one, a registration four |
| Auth.SecretAuth.TimerFires | src/js/auth.js:70-73 | due resets fire and zero the count; once the last tap's reset is due the count is zero |
| Auth.SecretAuth.SecretTapAt | src/js/auth.js:55-73 | a tap after the page sat idle counts as `TapStep` says and becomes the last tap; the due resets are gone and the tap's own reset is pending 2000 ms after the tap, or after the prompt closes when it opened one; the user, the stored session and the controls are unchanged |
| Auth.SecretAuth.AuthenticateUser | src/js/auth.js:93-125 | a success signs the user in and stores it, and enables admin controls when the reply says admin; a failure changes nothing |
| Auth.SecretAuth.CheckAuthAsWritten | src/js/auth.js:127-135 | as written, a stored user is signed in and gets the admin controls; without one they are disabled |
| Auth.SecretAuth.CheckAuth | src/js/auth.js:127-135 | intended: the stored user is signed in and the controls are shown exactly for an admin |
| Auth.SecretAuth.SetupAuthUI | src/js/auth.js:137-141 | with nobody signed in the admin controls are removed |
| Auth.SecretAuth.Logout | src/js/auth.js:186-191 | nobody is signed in, nothing is stored, and the admin controls are gone |
| Auth.SecretAuth.EnableAdminFeatures | src/js/auth.js:143-152 | the edit toggle is shown and the upload button is present |
| Auth.SecretAuth.EnableImageUpload | src/js/auth.js:166-176 | the header holds exactly one upload button, however often this runs |
| Auth.SecretAuth.DisableAdminFeatures | src/js/auth.js:154-164 | the edit toggle is hidden and no upload button remains |

## Left out

- `src/js/pdf-export.js` (PDF/PNG export through third-party rasterisers, floating-point page fitting) is not part of this model.
- `src/data/slides.js` and `src/data/content.js` are static data. The catalogue is a parameter (`defs`, `Deck.Deck.catalogue`).
- The following are abstracted to an in-memory table:
  - PostgreSQL and Express routing;
  - CORS and security headers;
  - multer's disk storage and `fs.existsSync`/`fs.unlinkSync`;
  - the random file-name suffix.
- The file-removal result is returned (`Store.SlideTable.DeleteImage`), but whether the file exists is not modelled.
- `fetch`, `prompt`, `alert`, `confirm`, `localStorage` and the clock are parameters or results of the modelled operations:
  - `Deck.Fetch` and `Auth.AuthResponse` stand for finished requests;
  - a prompt's answer is an `Option<string>`;
  - local storage is the `stored` field.
- Asynchronous interleaving of overlapping requests is not modelled; each request is taken as finished. This covers a save racing an edit toggle and two uploads racing.
- The click and change handlers that start uploads and deletions (`src/js/script.js:326-418`, `439-465`) are not modelled beyond their effect on the page (`Deck.Deck.UpdateSlideImage`, `Deck.Deck.RemoveSlideImage`). Their server side is `Store`.
- Template whitespace elsewhere is not modelled: headings, list items and paragraphs are taken to contain exactly the inserted values. Only the placeholder's blanks are modelled (`Render.PlaceholderText`), one blank per run of template whitespace.
- HTML entity decoding is not modelled. Neither are elements created by markup inside inserted texts: such texts only lose their tags when read back.
- DOM styling is not modelled: the `contentEditable` flags (always equal to edit mode), the edit toggle's label, the navigation panel's visibility and item texts, and the export modal.
- Unknown extra JSON keys in slide documents are not modelled, nor values of the wrong JSON type (a `title` that is a number, `sections` that is not an array).
- Touch positions are integers; browsers report `screenX` as a floating-point number.
- `Store.SlideTable.Put`: `:order` is taken as an integer. A non-numeric path parameter, which makes PostgreSQL's cast fail, is not modelled.
- Store.Seed: the catalogue is looked up with the path parameter as sent (`defaultSlidesData[order]`, server.js:475), while PostgreSQL casts it to an integer. A path such as `01`, ` 1` or `+1` reaches order 1 but misses the catalogue entry, so the seeded row is `{ title: "Slide 2" }`; the model looks the catalogue up by the integer.
- Store.SlideTable.SetImageUrl: as for Store.Seed, a missing row is seeded from the catalogue entry at the integer order, not from a lookup by the path string as sent.
- Store.UnlinkTarget: the URL is a string checked only for the `/uploads/` prefix, as the code does. The model does not resolve `..` segments, so it does not show that the unlinked path (`path.join(__dirname, 'public', imageUrl)`) may lie outside `public/uploads`; any client can store such a URL through the image POST (`Store.TraversalUrlPassesCheck`). `Store.UploadedImageIsUnlinked` covers only URLs an accepted upload produced.
- TapCounts: the trace takes every prompt as answered at once. A prompt left open postpones that tap's reset, which `Auth.SecretAuth.HandleSecretTap` models.
- TapRun: as for TapCounts, prompts are taken as answered at once.
- QuickTaps: as for TapCounts, prompts are taken as answered at once. In the page the third tap's login prompt blocks until answered, so the fourth tap of a quick run needs that prompt dismissed within 1000 ms of the third tap.
- `src/js/script.js:40` and `475` read `window.slidesData`, but `src/data/slides.js` and `src/data/content.js` declare it with a top-level `const`, which creates no `window` property. As shipped, `Deck.Deck.catalogue` is therefore `None` and every restored caption is `Image placeholder`; the model keeps the catalogue a parameter.
- FindOrdered: it speaks only for tables without a repeated `slide_order`. The schema allows repeats (`Merge.RepeatedOrderIsAmbiguous`), and the endpoints avoid them only one request at a time: two concurrent first PUTs at the same order both INSERT.
- MergeOrdered: as for FindOrdered, only tables without a repeated `slide_order` are covered.
- NormalizeStable: a saved text that reads back as markup (`a<b`) is not stable under a second save (`Js.ReadBackNotIdempotent`).
- TextContent: an HTML comment containing `>`, and an unterminated tag that swallows the template markup after it, are not modelled; a tag runs to the next `>` within the inserted text.
- Edit: the browser escapes a typed `<` in the element's markup; the model treats the edited text as that markup.
- `Deck.DebounceSaves`: counts timer firings only. Whether each firing sends a save depends on edit mode at that moment (`Deck.Deck.TimerFires`).
- `Js.ParseInt` has no contract of its own. Only its reading of decimal numerals is proved (`Js.ParseIntNatStr`).

## Findings

| source | as written | input that shows it | evidently intended | confidence | as-written member | corrected member |
|---|---|---|---|---|---|---|
| src/js/script.js:650-651 | `checkUrlForSlide()` runs while `initSlides()` is still waiting for the fetch, so no slides exist yet and every hash is rejected; `initSlides` then shows slide 1 and rewrites the hash | reload `…#slide-2` on a 3-slide deck: slide 1 is shown and the hash becomes `#slide-1` | read the hash before loading and go to the slide it names once the slides exist (the file's header promises a fixed reload issue) | high, not executed | Deck.Deck.LoadAsWritten | Deck.Deck.Load |
| src/js/script.js:199-218 | in edit mode the pattern replacement only rewrites a control that is already present; leaving edit mode removes every control | enter edit mode, leave it, enter it again: an empty placeholder has no upload control (and an image no delete control) | in edit mode, show the control matching the image, as the comments say | high, not executed | Deck.RefreshAsWritten | Deck.Refresh |
| src/js/auth.js:127-135 | `checkAuth` enables the admin controls for any stored user, ignoring `is_admin` | a non-admin logs in (controls stay hidden), then reloads: the edit toggle and upload button appear | enable them only for an admin, as `authenticateUser` does | medium, not executed | Auth.SecretAuth.CheckAuthAsWritten | Auth.SecretAuth.CheckAuth |
