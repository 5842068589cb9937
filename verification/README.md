# wordwiki tagger core, modelled in Dafny

wordwiki is a dictionary-editing and publishing system. Its "tagger" part
lets editors mark up scanned book pages with bounding boxes and groups, edit
versioned dictionary entries through tree-shaped views, and publish the
dictionary as a static web site. This project models the sequential logic
at the centre of that system as pure Dafny functions over immutable
datatypes, and proves what that logic promises.

| module (file) | models |
|---|---|
| `OrderKey` (orderkey.dfy) | fractional order keys: `between(a, b)` and `initial(size)` on decimal keys in (0.1, 0.9), written as scaled integers `n·10^-k` |
| `Instance` (instance.dfy) | the versioned tuple tree: node construction, path traversal that creates missing nodes, the temporal check of `applyAssertion`, whole-tree search by id, `isCurrent`, `domainFields` |
| `Publish` (publish.dfy) | the publish status record, public-id derivation with its `-<entry_id>` disambiguation, and the page paths built from ids |
| `RenderPageEditor` (page_editor.dfy) | the page numbers of the page jumper, and the frame arithmetic of bounding-box groups |
| `HttpServer` (http_server.dfy) | request routing: handler prefixes, content-file and content-dir rewriting with their guards, dispatch order, handler response defaults |
| `PageTagger` (page_tagger.dfy) | the browser-side drag transaction state machine, box-resize geometry of the corner grabbers, `stripRequiredPrefix` and `safeParseInt` |
| `Views` (views.dfy) | `RelationView`'s memoised getters and descendant flattening, the single open tuple-editor slot of `ActiveViews`, and `TupleEditor.endFieldEdit` |
| `Text`, `Lists`, `Wrappers` | JavaScript string and array primitives the above rely on: `String(n)`, `parseInt`, `padStart`, `startsWith`, stable sort, filter, `Object.fromEntries`, and `Option`/`Result` |

Errors that the source throws become `Failure` values of a `Result`. When
the source changes state before it throws, the model returns the new state
together with the error. JavaScript objects used as dictionaries are
sequences of `(key, value)` entries in `Object.keys` order. Numbers are
integers. Truthiness is written out: `0` and `""` are falsy.

## Model

| member | source | states |
|---|---|---|
| OrderKey.KeyCheckMeaning | utils/orderkey.ts:6-8 | The sign/exponent/bound checks on the lower key accept exactly the values strictly between 0.1 and 1; those on the upper key accept exactly the values in [0.1, 0.9). |
| OrderKey.InsideRangeIsAccepted | utils/orderkey.ts:32-36 | Every key strictly between `begin_key` and `end_key` passes both the lower-key and the upper-key check. |
| OrderKey.Normalize | utils/orderkey.ts:42 | Dropping trailing fractional zeros, as Big.js does, keeps the value and the number of significant digits. |
| OrderKey.NormalizeSameValue | utils/orderkey.ts:42 | Comparisons are unaffected by normalisation, in either argument position. |
| OrderKey.Midpoint | utils/orderkey.ts:42 | `a + (b-a)·0.5` is exactly half of `a + b`, and has one more decimal place than the longer operand. |
| OrderKey.MidpointInside | utils/orderkey.ts:42-44 | When both key checks and `a < b` pass, the midpoint is positive, has exponent −1 and lies strictly between `a` and `b`, so the guard after it never fires. |
| OrderKey.RoundMagnitude | utils/orderkey.ts:49-52 | Each Big.js rounding mode picks the multiple of the unit its name promises: down never exceeds the value, up never falls below it, half-up is within half a unit with ties going up, and half-even is within half a unit with ties going to an even multiple. |
| OrderKey.Round | utils/orderkey.ts:49-52 | Rounding a key to fewer places gives a multiple of the dropped unit, within the bounds of its mode, and leaves keys with few enough places unchanged. |
| OrderKey.Candidates | utils/orderkey.ts:48-52 | There are five candidates, the exact midpoint first, all at the midpoint's scale. |
| OrderKey.Between | utils/orderkey.ts:26-62 | The call fails with the offending key exactly when the lower key is outside (0.1, 1), or the upper key is outside [0.1, 0.9), checking `a` first; with both keys valid it fails with `KeysOutOfOrder` exactly when `a >= b`. On success the result is a valid key strictly between `a` and `b`. |
| OrderKey.BetweenResultIsKey | utils/orderkey.ts:53-61 | Any candidate that survives the filter, once normalised, is a key strictly between `a` and `b`. |
| OrderKey.BetweenPicksPreferred | utils/orderkey.ts:53-61 | The result is the survivor with the fewest significant digits; among those it is the one closest to the midpoint, and on a tie the earliest. It is therefore uniquely determined. |
| OrderKey.BetweenDigitGrowth | utils/orderkey.ts:48-57 | The result never has more significant digits than the exact midpoint can have: one more than the longer input. |
| OrderKey.BetweenRangeIsKey | utils/orderkey.ts:33-36 | A normalised value strictly inside (0.1, 0.9) is a well-formed key. |
| OrderKey.InitialKeyValue | utils/orderkey.ts:18 | Parsing the string `"0.5"` followed by the zero-padded index gives exactly `0.5 + i·10^-(w+1)`, before trailing zeros are dropped, where `w` is the pad width. |
| OrderKey.Initial | utils/orderkey.ts:14-20 | `initial(size)` returns `max(size, 0)` keys. Key `i` is the padded-index key. All keys are strictly increasing, lie in [0.5, 0.6), and are valid keys. |
| OrderKey.InitialKeyInRange | utils/orderkey.ts:6-8 | Every initial key is a valid key in [`new_range_start_key`, 0.6). |
| OrderKey.InitialRawInRange | utils/orderkey.ts:6-8 | Before normalisation, every initial key already lies in [0.5, 0.6), inside (`begin_key`, `end_key`). |
| OrderKey.InitialKeysIncrease | utils/orderkey.ts:17-18 | A larger index gives a strictly larger key. |
| OrderKey.InitialKeysSplittable | utils/orderkey.ts:26-38 | Any two adjacent keys of an increasing run of valid keys, such as the output of `initial`, are accepted by `between`. |
| Instance.Tags | tagger/instance.ts:201-202 | The tags of a list of child relations, position by position. |
| Instance.RelationIndex | tagger/instance.ts:214-218 | Looking up a child relation by tag finds the first relation with that tag, or reports that there is none. |
| Instance.ChildRelationsShape | tagger/instance.ts:199-204 | A new node has one empty relation per distinct child tag of its schema, in order of first occurrence. Where tags repeat, the last field with that tag wins, as `Object.fromEntries` does. |
| Instance.ChildRelationAt | tagger/instance.ts:201-202 | Each entry of the child-relation object is keyed by its own relation's tag, is empty, and carries the last schema field with that tag. |
| Instance.NewTuple | tagger/instance.ts:199-204 | The constructor gives the node its id and schema, no versions, no current version, and the child relations described above. |
| Instance.NewTupleWellFormed | tagger/instance.ts:199-204 | A freshly constructed node satisfies the tree invariant: distinct tags, keyed children carrying their relation's schema, property order of ids. |
| Instance.TupleIndex | tagger/instance.ts:221 | `tuples[id]` finds the node with that id, or none. |
| Instance.Lookup | tagger/instance.ts:221 | Lookup by id returns a member of the relation with that id, and fails exactly when no member has it. |
| Instance.InsertPosition | tagger/instance.ts:221-225 | A new integer-like key is placed after the smaller integer keys and before larger or non-integer ones, following JavaScript's own-property order. Other keys go last. |
| Instance.InsertTuple | tagger/instance.ts:221-225 | Adding a child with a fresh id adds exactly that node, at the position JavaScript lists the new key, with the existing nodes in their order. A non-index id goes last. The relation stays in property order with distinct ids. |
| Instance.InsertKeepsOrder | tagger/instance.ts:221-225 | Inserting at the computed position preserves property order and id distinctness. |
| Instance.LookupDistinct | tagger/instance.ts:221 | In a relation with distinct ids, lookup by id returns a node exactly when that node is a member with that id. |
| Instance.Upsert | tagger/instance.ts:224 | `tuples[id] = node` replaces the node with the same id in place, or inserts the new one as `InsertTuple` does. The other nodes keep their order, and the invariant is kept. |
| Instance.UpsertLookup | tagger/instance.ts:224 | After storing a node, looking up its id yields it, and every other id yields what it did before. |
| Instance.UpsertPresent | tagger/instance.ts:221-225 | Storing a node that is already there changes nothing. |
| Instance.MostRecent | tagger/instance.ts:294-297 | `mostRecentTuple` is the last version, and is undefined exactly for a node with no versions. |
| Instance.TemporalCheck | tagger/instance.ts:275-286 | As written: when the prior `valid_to` is truthy, the new `valid_from` must equal it; otherwise the assertion is accepted only when its `valid_from` is strictly before the prior one. |
| Instance.ApplyKeepsLatestCurrent | tagger/instance.ts:359-361 | Across accepted assertions (tagger/instance.ts:288-291), the current version stays the latest version whose `valid_to` is `END_TIME` (`isCurrent`), and there is none exactly when no version is current. |
| Instance.ApplyAssertion | tagger/instance.ts:268-292 | The first assertion is always accepted. On a checked history, the assertion is accepted exactly when the extended history still passes the check. Acceptance appends exactly one version, which becomes the most recent, and replaces the current version only when the new one is current. Rejection reports a broken chain or time travel. |
| Instance.ChainExtend | tagger/instance.ts:273-287 | Extending a checked history needs only the check between the old last version and the new one. |
| Instance.Visit | tagger/instance.ts:206-209 | One path step either returns the node or appends the assertion to it. The node's identity and children never change, and a failure leaves the node untouched. |
| Instance.ChildAt | tagger/instance.ts:221-225 | The child under an id is the stored node when there is one, and otherwise exactly `new VersionedTuple(schema, id)` for the relation's schema. |
| Instance.Walk | tagger/instance.ts:211-232 | Traversal keeps the tree invariant, the root's id, schema and child tags. An empty path is an error that changes nothing. Success on valid paths, and the nodes it creates, are stated by `Instance.WalkSucceeds`, `Instance.WalkFindsStored` and `Instance.WalkCreatesNew`. |
| Instance.Graft | tagger/instance.ts:224 | Storing a node into one child relation upserts it among that relation's tuples, keeping the others, and leaves the root and every other relation alone. The tree invariant is kept. |
| Instance.WalkReaches | tagger/instance.ts:211-232 | A successful traversal returns a node whose tag and id are those of the last path segment. |
| Instance.WalkSucceeds | tagger/instance.ts:211-232 | When every tag of the path names a child relation of the node reached so far, the traversal succeeds. The node it returns is then stored under the whole path in the resulting tree, so every missing node on the way was created and kept. |
| Instance.WalkFindsStored | tagger/instance.ts:219-231 | On a valid path whose nodes all exist, the traversal returns the node already stored there. |
| Instance.WalkCreatesNew | tagger/instance.ts:219-231 | On a valid path where some node is missing, the traversal returns a new `VersionedTuple` with the last segment's id. |
| Instance.WalkUnknownTag | tagger/instance.ts:215-218 | A first segment whose tag is not a child relation of the node is an error, and nothing is created. |
| Instance.RelationIndexByTags | tagger/instance.ts:214 | Tag lookup depends only on the tags, so trees with the same tags route paths the same way. |
| Instance.GraftRevisit | tagger/instance.ts:221-225 | After a node is stored, visiting its id finds it, and storing it again changes nothing. |
| Instance.GetAfterWalk | tagger/instance.ts:211-232 | Traversal is idempotent. Repeating a path on the resulting tree creates nothing, and returns the same node whenever the first traversal succeeded, was a lookup, or failed on the path. |
| Instance.ApplyIsGetThenApply | tagger/instance.ts:206-209 | `applyAssertionByPath` is traversal followed by `applyAssertion` on the node found. A rejected assertion leaves the tree exactly as traversal alone left it, with the nodes it created still present. |
| Instance.Preorder | tagger/instance.ts:234-238 | `forEachVersionedTuple` visits the node itself first. |
| Instance.PreorderMembers | tagger/instance.ts:234-238 | The visit reaches exactly the node and everything reached from its children, across all relations. |
| Instance.FindVersionedTuples | tagger/instance.ts:240-247 | The collected tuples are exactly the visited tuples that pass the filter. |
| Instance.FindById | tagger/instance.ts:249-259 | The search returns the one visited tuple with the id, or nothing when there is none. It fails with "multiple tuples found" exactly when two or more carry the id. |
| Instance.FindRequired | tagger/instance.ts:261-266 | The required search succeeds exactly when one tuple carries the id, and fails on none or on several. |
| Instance.WalkResultVisited | tagger/instance.ts:211-238 | The node a traversal returns is one that the whole-tree visit of the resulting tree reaches. |
| Instance.AssertionField | tagger/instance.ts:363-368 | `assertion[bind]` reads the id and validity fields by name and any other bind from the assertion's fields, undefined when absent. |
| Instance.DomainFields | tagger/instance.ts:363-368 | `domainFields` has one key per distinct scalar field name, in order of first occurrence. |
| Instance.DomainFieldsLastWins | tagger/instance.ts:363-368 | Each entry carries the value that the last scalar field with that name binds to. |
| Publish.Start | tagger/publish.ts:33-40 | `start` fails exactly while running. Otherwise it records the start time, clears the end time, log and errors, and the status is then running. |
| Publish.End | tagger/publish.ts:42-44 | `end` records the end time, changes nothing else, and the status is no longer running. |
| Publish.StartEndStart | tagger/publish.ts:29-44 | From idle, a start succeeds, a second start fails, and a start after an end succeeds again. |
| Publish.SpellingsIn | tagger/publish.ts:559 | Filtering by variant keeps exactly the spellings of that variant. |
| Publish.DefaultPublicIdBase | tagger/publish.ts:554-572 | The base is the text of one of the entry's spellings whenever it has any, and the entry id as a string when it has none. |
| Publish.DefaultBaseChoice | tagger/publish.ts:554-572 | The choice stated over positions: the earliest default-variant spelling when its text is non-empty; the first spelling when that text is empty or when no spelling is in the variant; the id when there are no spellings. |
| Publish.ReplaceOutside | tagger/publish.ts:550 | Each character outside the kept class becomes `_`; the rest, and the length, are kept. |
| Publish.DefaultPublicId | tagger/publish.ts:547-552 | The sanitised id has the base's length, holds only `[A-Za-z0-9'_]`, and never contains `-`. |
| Publish.ComputeEntryPublicIds | tagger/publish.ts:533-545 | Every entry gets an id. A default id that no other position shares is kept; a shared one gets `-<entry_id>` appended. |
| Publish.PublicIdForEntry | tagger/publish.ts:528-531 | The mapped id is used when it is non-empty; otherwise `-<entry_id>`. The result is never empty. |
| Publish.PublicIdsDistinct | tagger/publish.ts:533-552 | Entries with different ids get different public ids, because `-` appears only in the suffix. |
| Publish.ClusterForEntry | tagger/publish.ts:519-521 | The cluster is the lower-cased first character of the public id. |
| Publish.DirForEntry | tagger/publish.ts:505-517 | An entry's directory is `<root>/entries/<cluster>/<public id>`, where the cluster is the lower-cased first character of the public id. The source's `_` for an empty id cannot arise, because public ids are never empty. |
| Publish.PathForEntry | tagger/publish.ts:523-526 | An entry's page is its directory followed by `/<public id>.html`. |
| Publish.EntryPathSegments | tagger/publish.ts:505-526 | Position by position, an entry's page path is the root and `/entries/`, the lower-cased first character of the public id, `/`, the public id, and `/<public id>.html`. |
| Publish.PathForEntryDeterminesId | tagger/publish.ts:523-526 | Two entries with the same page path have the same public id. |
| Publish.EntryPagesDistinct | tagger/publish.ts:513-545 | Entries with different ids are written to different pages. |
| Publish.PathForCategory | tagger/publish.ts:448-458 | The path is `categories/`, then the name with every character outside `[a-zA-Z0-9-']` replaced by `_`, then `.html`. |
| Publish.CategoryPathsDistinct | tagger/publish.ts:456-458 | Different category names made only of kept characters get different pages. |
| Publish.DirForBookPage | tagger/publish.ts:574-576 | The page directory ends in `page-` followed by the page number left-padded with zeros to at least four characters. |
| Publish.BookPageNumberReadsBack | tagger/publish.ts:574-576 | For page numbers below 10000 the padded suffix is exactly four digits, and it reads back as the page number. |
| Publish.PathForBookPage | tagger/publish.ts:578-580 | The page file is the page directory followed by exactly `/index.html`. |
| RenderPageEditor.Range | tagger/render-page-editor.ts:167-169 | `range(a, b)` is the half-open run a, a+1, …, b−1. |
| RenderPageEditor.Affine | tagger/render-page-editor.ts:167-169 | Each element of the list is scaled and offset, position by position. |
| RenderPageEditor.PageJumper | tagger/render-page-editor.ts:164-174 | The jumper's pages are strictly ascending, so free of duplicates. A page is listed exactly when it is one of the candidate targets and lies in [1, total]. |
| RenderPageEditor.SelectPages | tagger/render-page-editor.ts:165-174 | De-duplication, range filtering and the numeric sort together give a strictly ascending list of the in-range targets. |
| RenderPageEditor.SortAscending | tagger/render-page-editor.ts:174 | Sorting numerically, by `a - b`, gives an ascending list with the same elements. |
| RenderPageEditor.TargetsInclude | tagger/render-page-editor.ts:165-172 | The targets include 1, the total, every page within two of the current page, and every multiple of 100 up to the total. |
| RenderPageEditor.PageJumperContains | tagger/render-page-editor.ts:165-174 | When there are pages, the jumper lists the first and last page, the in-range pages within two of the current one, and every in-range hundred. |
| RenderPageEditor.JumperLinks | tagger/render-page-editor.ts:176-179 | There is one link per listed page, in order. A link is marked current exactly when its page is the current page. |
| RenderPageEditor.OneCurrentLink | tagger/render-page-editor.ts:176-179 | At most one link is marked current, and one is exactly when the current page is in range. |
| RenderPageEditor.LowEdge | tagger/render-page-editor.ts:136-137 | The low frame edge is the smallest box edge minus the margin, clamped at 0. |
| RenderPageEditor.HighEdge | tagger/render-page-editor.ts:138-139 | The high frame edge is the largest box edge plus the margin, clamped at the page size. |
| RenderPageEditor.GroupFrame | tagger/render-page-editor.ts:136-139 | The frame never extends beyond the page. |
| RenderPageEditor.FrameEnclosesBoxes | tagger/render-page-editor.ts:136-139 | For boxes that lie within the page and a non-negative margin, the frame contains every box. |
| RenderPageEditor.RenderGroup | tagger/render-page-editor.ts:129-148 | An empty group is rejected. Otherwise the result is the bounding frame of the boxes with margin 10, clipped to the page, and it lies within the page. |
| RenderPageEditor.RenderStandaloneGroup | tagger/render-page-editor.ts:335-379 | An empty group gives the placeholder. Boxes on different pages are an error, as is a missing page. Boxes on one known page always give a group, whose frame uses margin 75 and places each box at its offset from the frame origin. |
| RenderPageEditor.StandaloneBoxesInside | tagger/render-page-editor.ts:358-376 | For boxes within their page, every box placed relative to the standalone frame lies inside it. |
| HttpServer.FirstPrefix | server/deno-http-server.ts:170-171 | The search over the table's keys, in key order, finds the first key that prefixes the path, or reports that none does. |
| HttpServer.FirstPrefixUnique | server/deno-http-server.ts:170-171 | The first matching key is unique. |
| HttpServer.MatchRequestHandlerPath | server/deno-http-server.ts:164-180 | With no table, or when no key prefixes the path, there is no handler. Otherwise the first matching prefix decides: its handler if it ends in `/`, else an error. |
| HttpServer.MappedFile | server/deno-http-server.ts:191-195 | The exact file mapping is the value of the first entry for the path, and empty when the table or the entry is missing. |
| HttpServer.RewriteUnder | server/deno-http-server.ts:201-209 | Rewriting rejects a path with `..`, then a prefix not ending in `/`, then a replacement not ending in `/`, in that order, and succeeds whenever none of these applies. A successful rewrite starts with the replacement, and putting the prefix back in its place gives the request path. |
| HttpServer.MatchContentFilePath | server/deno-http-server.ts:189-215 | A non-empty exact mapping wins. Otherwise the first matching content dir rewrites the path. Otherwise there is no file. A resolved path is never empty. |
| HttpServer.ContentRewriteInverse | server/deno-http-server.ts:196-211 | A file resolved through a content dir is the replacement prefix followed by a tail that restores the request path under the first matching prefix, and that tail holds no `..`. |
| HttpServer.ServeRequest | server/deno-http-server.ts:64-86 | An error from the handler lookup, or from the file lookup when no handler matched, is passed on. A matched handler is dispatched to. With no handler, a resolved file is served, and a file is served only then. "No handler for path" is answered exactly when neither a handler nor a file matches. |
| HttpServer.HandlerPrecedence | server/deno-http-server.ts:73-82 | Once a handler prefix matches, the content configuration cannot change the outcome, and the request goes to a handler. |
| HttpServer.WithContentType | server/deno-http-server.ts:137-138 | The content type is kept when present and defaulted to `text/html; charset=utf-8` otherwise; every other header is copied unchanged. |
| HttpServer.WithContentTypeIdempotent | server/deno-http-server.ts:138 | Defaulting the content type twice is the same as doing it once. |
| HttpServer.ServeHandlerRequest | server/deno-http-server.ts:125-144 | A throwing handler gives status 400 and an `ERROR: ` body. A returning one keeps its status, body and headers, with a content type always present. |
| PageTagger.StripRequiredPrefix | resources/page-tagger.js:473-478 | The call succeeds exactly when the string starts with the prefix, and the prefix followed by the result is the string. |
| PageTagger.StripAfterPrepend | resources/page-tagger.js:473-478 | Stripping a prefix just prepended returns the original tail. |
| PageTagger.SafeParseInt | resources/page-tagger.js:419-424 | The call succeeds exactly when `parseInt` yields a number, and returns that number. |
| Text.JsParseInt | resources/page-tagger.js:420-421 | `Number.parseInt` skips leading white space, reads an optional sign, an optional `0x` prefix and the longest digit run. It is NaN exactly when that run is empty. |
| Text.ParseIntOfIntToString | resources/page-tagger.js:426-433 | `parseInt` reads back every integer written by `String`. |
| PageTagger.BoxIdReadsBack | resources/page-tagger.js:131 | A box element id `bb_<n>` yields `n` again after the prefix is stripped and the rest parsed. |
| PageTagger.CornerOf | resources/page-tagger.js:70-71 | A grabber is a top one exactly when its `cy` is `"0"`, and a left one exactly when its `cx` is `"0"`. |
| PageTagger.Resize | resources/page-tagger.js:82-113 | For every corner, width and height stay at least 20. The edges opposite the dragged corner stay where they were. Each moving edge follows the pointer's displacement when the side it then gives is at least 20 long; otherwise the side is exactly 20. |
| PageTagger.ResizeByNothing | resources/page-tagger.js:82-113 | A box of legal size dragged by nothing is unchanged. |
| PageTagger.Abort | resources/page-tagger.js:410-413 | Abort runs the active transaction's abort callback, if any, and leaves no transaction active. |
| PageTagger.Begin | resources/page-tagger.js:395-399 | Begin first aborts the active transaction. It then fails with "malformed dragTx", leaving none active, exactly when a callback is missing; otherwise the new transaction becomes active. |
| PageTagger.MouseMove | resources/page-tagger.js:401-403 | Mouse-move runs the active transaction's move callback and keeps it active. With no transaction it does nothing. |
| PageTagger.Commit | resources/page-tagger.js:405-408 | Commit runs the commit callback and clears the transaction. A callback that throws leaves the transaction active and the state unchanged. With no transaction it does nothing. |
| PageTagger.MoveAll | resources/page-tagger.js:401-403 | A sequence of moves keeps the active transaction, and does nothing when none is active. |
| PageTagger.GrabTx | resources/page-tagger.js:81-154 | The grabber's transaction has all three callbacks, so Begin accepts it. |
| PageTagger.GrabberMouseDown | resources/page-tagger.js:51-155 | Mouse-down on a grabber aborts any previous drag and installs the resize transaction for the grabbed corner, the start point, the box as it was and the extra-abort flag. |
| PageTagger.GrabMoves | resources/page-tagger.js:82-113 | During a grab, any series of moves leaves the board that the last move alone makes of the starting board. The box is resized from its initial shape by the last pointer displacement. Nothing else on the board changes. |
| PageTagger.GrabAbortRestores | resources/page-tagger.js:143-153 | Aborting a grab, after any moves, restores the initial box and runs the extra abort action if one was given. |
| PageTagger.GrabCommitSends | resources/page-tagger.js:117-142 | Committing a grab of legal size keeps the dragged box. It sends exactly one update request carrying the id parsed from the element id and the new shape, and ends the drag. |
| PageTagger.GrabCommitTooSmall | resources/page-tagger.js:123-127 | Committing while the box is below 20 in width or height takes the abort path: the initial box is restored and no request is sent. |
| Views.ScalarViewsOf | tagger/view.ts:176-179 | The scalar views are exactly the view's scalar children. |
| Views.UserScalarViewsOf | tagger/view.ts:181-184 | The user scalar views are exactly the scalar children that are not primary keys. |
| Views.ScalarViews | tagger/view.ts:176-179 | The getter returns the memoised list if there is one and otherwise fills the slot. From a sound memo it returns the scalar views. |
| Views.UserScalarViewsAsWritten | tagger/view.ts:181-184 | As written, the user getter reads and fills the `#scalarViews` slot, so it returns whatever that slot already holds. |
| Views.SharedSlotCounterexample | tagger/view.ts:176-184 | For a view with a primary key and one string field, reading `scalarViews` first makes `userScalarViews` include the primary key. Reading `userScalarViews` first makes `scalarViews` drop it. |
| Views.UserScalarViews | tagger/view.ts:181-184 | The getter with its own slot always returns the non-primary-key scalar views, and keeps the memo sound. |
| Views.GettersCommute | tagger/view.ts:176-184 | With separate slots, each getter returns its own list whichever one is read first. |
| Views.RelationViews | tagger/view.ts:186-189 | The relation views are exactly the nested children. |
| Views.DescendantAndSelf | tagger/view.ts:198-200 | The flattening starts with the view itself. |
| Views.DescendantsAreConcat | tagger/view.ts:202-205 | The descendants are the concatenation of each relation child's own flattening, in child order. |
| Views.DescendantAndSelfMembers | tagger/view.ts:198-205 | The flattening lists exactly the views in the subtree. |
| Views.DescendantsMembers | tagger/view.ts:202-205 | The descendants are exactly the views in the subtrees of the relation children. |
| Views.LastWithTag | tagger/view.ts:240-243 | Building a map from the flattening keeps, for a tag, the view that carries it with no later view carrying it; there is none exactly when no view does. |
| Views.RelationViewFor | tagger/view.ts:240-243 | The view found for a tag lies in the tree and carries the tag. When none is found, no view in the tree has the tag. |
| Views.FormAppliedUnique | tagger/view.ts:619-625 | The result of copying a form into an assertion is fully determined. |
| Views.FormAppliedStep | tagger/view.ts:622-624 | Copying one more field extends the copy by exactly that field, when the form has a value for it. |
| Views.EndTupleFieldEdit | tagger/view.ts:619-625 | Each user scalar field that has a form value overwrites the assertion's field; every other field is unchanged, as are the editor's root, view, kind and tuple id. |
| Views.EditorForTupleId | tagger/view.ts:373-379 | The open editor is returned exactly when one is open with the given render root and tuple id. |
| Views.EditorForRenderRootId | tagger/view.ts:381-386 | The open editor is returned exactly when one is open with the given render root. |
| Views.TupleIdNarrowsRoot | tagger/view.ts:373-386 | Whenever the tuple-id lookup finds an editor, the render-root lookup finds the same one. |
| Views.OpenFieldEdit | tagger/view.ts:488-524 | With an editor already open, only an alert is raised. Otherwise the call fails exactly when the tuple's schema, the render root or a view with the tuple's tag cannot be found. On success the slot holds an editor with the given root, kind, tuple id and assertion, and the root is re-rendered. |
| Views.OpenedEditorIsFound | tagger/view.ts:516-517 | The editor just opened is the one both lookups return, and it carries the given assertion. |
| Views.EndFieldEdit | tagger/view.ts:536-557 | With no editor open, only an alert is raised. Otherwise the form is copied into the editor's assertion, and that assertion is applied exactly once. The slot is then emptied and the root re-rendered. |

## Left out

- Big.js itself is not modelled. This covers parsing key strings, `toString`, and `Big.strict`. Keys are exact decimals `n·10^-k`, and every Big.js result is normalised by dropping trailing zeros.
- OrderKey.Between: takes decimal values rather than strings, so malformed key strings (which Big.js rejects in strict mode) are not modelled.
- Numbers are integers everywhere. Floating point, NaN in arithmetic, mouse coordinates as fractions, and the scale factor of standalone groups are left out.
- Rendering is left out: markup, SVG, DOM access, `alert` (kept only as an entry in an alert log), `console`, and the `drag-in-progress` class. Re-rendering is kept as a log of render-root ids.
- `fetch` is left out. The update request is recorded as the URL it would request.
- Filesystem, database and network I/O are left out. The page looked up by id is a map parameter, and the boxes of a group are a parameter.
- `Publish.Start` and `Publish.End` take the clock reading as a parameter. `+new Date()` is not modelled, and a reading of 0 (falsy) is allowed but never reported as running.
- The asynchronous publish pipeline and its singleton status object are left out; only the status transitions are modelled.
- `END_TIME` (timestamp.ts is not part of this model) is a parameter of the assertion operations. `isCurrent` compares `valid_to` with it.
- `utils.range` is not part of this model. It is taken to be the half-open range `[a, b)`.
- `utils.duplicateItems` is not part of this model. It is taken to return the items occurring at least twice.
- Publish.ComputeEntryPublicIds: entries are compared by value, not by object identity as in the source's `Map`. Two structurally equal entries therefore share one id.
- Character handling is reduced. JavaScript's UTF-16 code units are identified with Dafny characters, so astral characters are not split into surrogates. `toLowerCase` changes only ASCII letters.
- Property lookups that would hit `Object.prototype` members (`constructor`, `__proto__`, …) are not modelled; a missing key is simply absent.
- Config tables (handler paths, content files and dirs) are given in `Object.keys` order. The reordering of integer-like keys applies only to the tuple relations, where ids are integers.
- Header names are compared exactly; the case-insensitivity of HTTP headers is not modelled.
- `serveHandlerRequest` is modelled from the handler's outcome onward. URL decoding, form and JSON body parsing, and building the handler request are left out.
- `serveFileRequest` is left out, and so is the response it builds.
- The headers of `server.htmlResponse` are a parameter, because http-server.ts is not part of this model.
- `workspace.applyProposedAssertion` is recorded as a log of applied assertions. The versioned database behind it is not part of this model.
- `editNewAbove`, `editNewPeer`, `editNewChild` and `editTupleUpdate` are left out, because they draw random ids.
- The other memoised getters of `RelationView` are left out: `nonRelationViews` and `relationViewsByTag`. So is the `#domainFields` memo, which returns the same value it would compute.
- `TupleEditor.endFieldEdit` reads form values from the DOM through `loadFromEditor`. The form is a record parameter, with absent keys meaning `undefined`.
- `getIntAttribute` is not modelled separately. Its round trip through `String` and `parseInt` is `Text.ParseIntOfIntToString`, and the initial box is taken as already parsed.
- Selecting the grabber and its box is left out; the board holds the one selected box.
- Views.OpenFieldEdit: finds the relation view by its relation tag, whereas the source looks it up by the `RelationField` object itself. Where two schema objects share a tag, the model opens an editor where the source would fail to find the view.

## Findings

| source | as written | input that shows it | evidently intended | confidence | as-written member | corrected member |
|---|---|---|---|---|---|---|
| tagger/view.ts:181-184 | `userScalarViews` memoises into `#scalarViews`, the slot that `scalarViews` also uses | a relation view with a primary-key view `id` and a string view `spelling`: reading `scalarViews` first makes `userScalarViews` return both views, including the primary key | `userScalarViews` memoises into its own slot and always omits primary-key views | not executed | Views.UserScalarViewsAsWritten, Views.SharedSlotCounterexample | Views.UserScalarViews |
