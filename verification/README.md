# Verified models of KPIO's browser engine

Dafny models of the data structures and algorithms at the core of KPIO's
browser stack and of its fuzzing and graphics support, each proved to do what
its documentation and its callers rely on. `dafny verify dfyconfig.toml` checks
everything.

| file | what it models |
|---|---|
| `DomForest`, `DomProofs`, `DomText`, `DomDocument` | the DOM arena of `kpio-dom`: an ordered forest kept as five links per node in one vector |
| `SourceMaps` | Base64 VLQ decoding and the mappings string of Source Map Revision 3 |
| `SkipList` | the debugger's greedy `*` patterns |
| `Minimizer` | the crash minimizer of the fuzzing harness |
| `Selectors`, `Cascade` | specificity and `An+B` expressions; declaration blocks and the CSS cascade |
| `Urls`, `History` | URL parsing, printing and resolution; the two navigation histories |
| `Damage`, `Caches` | damage tracking; the resource cache and the layer cache |
| `Input` | the input manager and the events it queues |
| `Rendering` | alpha blending, `fill_rect` and `draw_image` |
| `CssParser` | the attribute-selector and at-rule parsers |
| `Wrappers`, `Ints`, `Seqs`, `Bits`, `Strings` | shared vocabulary |

Conventions. Objects whose methods update fields are classes, and every such
method is proved against a function or a predicate of the old state. Integers
are unbounded unless a width matters; then the wrapping is written out
(`ToI32`, `ToU32`, the modulus of a `u16` or `u64` counter), following release
builds. Text is ASCII. A fuzz target is a predicate on inputs, since it is reset
before every run; a hit test is a parameter.

Several laws a reader would expect of this code hold only under a condition.
Those are stated as equivalences with a condition a caller can check first:

* `append_child` and `insert_before` do not detach the child, so they keep a
  forest exactly for a detached child that is not above its new parent.
* A `*` skip pattern is not anchored: it is the usual glob exactly when it both
  begins and ends with `*`. Without a `*` it is.
* The packed specificity key orders selectors exactly while the counts fit their
  bytes, and inline style outranks a selector exactly while its ids, or-ed with
  the overflow of its class count, stay below 1000.
* Printing a URL and parsing it again gives it back exactly for well-formed
  URLs; what was parsed from a text is one of them exactly when the text's scheme
  is not special in either case, so not for `ABOUT://h`.
* A relative reference is copied into the URL unsplit, so the result is well
  formed exactly for references without `?` and `#` where the code does not look
  for them.
* `fill_rect` reads a negative right or bottom edge as a huge unsigned one, so a
  rectangle wholly left of or above the screen is painted across it; an edge of
  2^32 or more it reads as a small one, so a rectangle from column 1 of width
  2^32 - 1 is not painted at all. It paints the clipped rectangle exactly when
  both edges lie between, or when there is nothing to paint and it paints nothing.
  It blends no pixel twice exactly on screens of at most 2^32 pixels.
* `draw_image` likewise draws the clipped image exactly while neither the screen
  nor the image's far edge wraps, or there is nothing to draw and it draws nothing.
* A damage rectangle's far edge is computed exactly while it is an `i32`. Adding
  a rectangle with a larger one loses pixels exactly when it meets a region.
* The damaged area is the sum of the regions' areas exactly while that fits
  `u64`; three rectangles that cover the screen can report an area of 0.
* The layer cache mirrors the resource cache after whatever comes next exactly
  while its timestamps never fall, except among neighbours without data.
* `:nth-child` matching is exact for every step exactly while the difference of
  index and offset neither wraps nor is the least `i32`.
* Blocks applied by a cascade builder never tie exactly in runs of at most 2^32
  blocks, since the order is a `u32`.
* The cascade ranks origin before importance, unlike section 6.1 of CSS
  Cascading Level 4; the model follows the code.

## Model

| member | source | states |
|---|---|---|
| `DomProofs.AppendRefines` | kpio-dom/src/document.rs:129-157 | for a child the caller may attach, the link updates add it at the end of its parent's list, change no other list, and leave a forest |
| `DomProofs.InsertRefines` | kpio-dom/src/document.rs:160-197 | the link updates put the child just before the reference child and change no other list |
| `DomProofs.RemoveRefines` | kpio-dom/src/document.rs:200-239 | removal deletes exactly that position of the parent's list and leaves a forest |
| `DomProofs.RemoveRootIsNoop` | kpio-dom/src/document.rs:200-239 | removing a parentless or unknown node changes no link |
| `DomProofs.InsertThenRemove` | kpio-dom/src/document.rs:160-239 | inserting or appending and then removing the same child restores every link of the arena |
| `DomProofs.ListsAreUnique` | kpio-dom/src/document.rs:129-252 | the links determine one ordered child list per node |
| `DomProofs.AppendKeepsForestIff` | kpio-dom/src/document.rs:129-157 | on a forest, append leaves a forest if and only if the child is detached and not above the parent (or both ids are unknown) |
| `DomProofs.InsertKeepsForestIff` | kpio-dom/src/document.rs:160-197 | the same equivalence for insertion, with the reference really a child of the parent |
| `DomProofs.RemoveKeepsForest` | kpio-dom/src/document.rs:200-239 | removal keeps a forest for every id |
| `DomProofs.CreateRefines` | kpio-dom/src/document.rs:97-126 | a created node is a childless root and disturbs nothing |
| `DomProofs.StepKeepsForestIff` | kpio-dom/src/document.rs:97-326 | each operation keeps a forest exactly when its guard holds |
| `DomProofs.RunIsForestIff` | kpio-dom/src/document.rs:97-326 | over every run from a new document there is a forest at every point if and only if every guard was met |
| `DomProofs.AppendTextMerges` | kpio-dom/src/document.rs:310-326 | after a last child that is text, its content grows by the new text and nothing else changes; otherwise exactly one text node is added at the end of the parent's list |
| `DomText.TextIsVisitedContents` | kpio-dom/src/document.rs:290-307 | the recursive text equals the contents of the text nodes visited, in document order |
| `DomText.VisitedIff` | kpio-dom/src/document.rs:290-307 | exactly the nodes reached through elements are visited |
| `DomText.VisitedOnce` | kpio-dom/src/document.rs:290-307 | no node is visited twice |
| `DomText.VisitedInOrderIff` | kpio-dom/src/document.rs:290-307 | of two visited nodes the first is exactly the one above the other, or in the subtree of an earlier sibling |
| `DomText.AppendTextAppends` | kpio-dom/src/document.rs:310-326 | what appending text does to the text of every node: an element's grows by the new text, no other kind of parent's changes, a text node merged into grows, a node that reaches the parent through elements keeps its text around the parent's in place, and every other node keeps its text |
| `DomDocument.Document.constructor` | kpio-dom/src/document.rs:27-37 | a new document is a forest with one root |
| `DomDocument.Document.CreateElement` | kpio-dom/src/document.rs:97-112 | the forest and the id index stay valid; the index names the newest element with its id |
| `DomDocument.Document.CreateText` | kpio-dom/src/document.rs:115-119 | adds a detached text node and keeps the document valid |
| `DomDocument.Document.CreateComment` | kpio-dom/src/document.rs:122-126 | adds a detached comment node and keeps the document valid |
| `DomDocument.Document.AppendChild` | kpio-dom/src/document.rs:129-157 | for any ids, a forest afterwards exactly under the guard, and then the parent's list grows by the child |
| `DomDocument.Document.InsertBefore` | kpio-dom/src/document.rs:160-197 | for any ids and optional reference, a forest afterwards exactly under the guard, with the child at the reference's position |
| `DomDocument.Document.RemoveChild` | kpio-dom/src/document.rs:200-239 | keeps the document valid for any id and removes just that child |
| `DomDocument.Document.Children` | kpio-dom/src/document.rs:242-252 | the sibling walk ends and returns exactly the abstract child list |
| `DomDocument.Document.TextContent` | kpio-dom/src/document.rs:290-307 | the recursion ends on every valid document and returns the visited text in order |
| `DomDocument.Document.AppendText` | kpio-dom/src/document.rs:310-326 | a forest afterwards exactly when the parent exists; merged into a last text child and nothing else changed, or one text node added at the end; an element's text grows by the new text, another parent's does not |
| `DomDocument.FirstIdIs` | kpio-dom/src/document.rs:102-109 | an element's id is the value of its first attribute named `id` |
| `DomDocument.Document.GetElementById` | kpio-dom/src/document.rs:276-278 | finds the newest element whose first attribute named `id` has the value, or nothing exactly when none has |
| `SourceMaps.DecodeVlq` | kpio-devtools/src/debugger.rs:868-900 | the loop computes the decoding of the whole segment, skipping unknown characters, with wrapping sums and masked shifts |
| `SourceMaps.DigitIff` | kpio-devtools/src/debugger.rs:869-879 | a character is a digit exactly when its low byte is in the Base64 alphabet, and then its position there |
| `SourceMaps.SignedIs` | kpio-devtools/src/debugger.rs:887-892 | the low bit is the sign and the rest the magnitude, for every wrapped value |
| `SourceMaps.DecodeDigits` | kpio-devtools/src/debugger.rs:875-897 | the digits of a number add it, shifted, to the running value modulo 2^32 |
| `SourceMaps.DecodeNumber` | kpio-devtools/src/debugger.rs:875-897 | a number of any number of digits decodes to the sum of its shifted digits modulo 2^32 |
| `SourceMaps.DecodeSkips` | kpio-devtools/src/debugger.rs:876-879 | a character outside the alphabet changes nothing wherever it stands |
| `SourceMaps.DecodeUnfinished` | kpio-devtools/src/debugger.rs:881-896 | a number without a last digit adds nothing |
| `SourceMaps.VlqRoundTripIff` | kpio-devtools/src/debugger.rs:868-900 | an `i32` survives encoding and decoding if and only if its magnitude is below 2^30 |
| `SourceMaps.DecodeInvertsEncode` | kpio-devtools/src/debugger.rs:868-900 | decoding inverts encoding for every list of such values |
| `SourceMaps.ReadSegment` | kpio-devtools/src/debugger.rs:808-832 | adds one segment's fields to the running positions and reads off its mapping |
| `SourceMaps.ParseGroup` | kpio-devtools/src/debugger.rs:795-835 | the inner loop yields the mappings of one generated line and the carried positions |
| `SourceMaps.ParseMappings` | kpio-devtools/src/debugger.rs:785-841 | the outer loop yields the mappings of all lines |
| `SourceMaps.AdvanceByDeltas` | kpio-devtools/src/debugger.rs:808-832 | adding a written entry's differences lands on the entry, and its mapping names the table entries at the entry's own indices |
| `SourceMaps.ParseInvertsWrite` | kpio-devtools/src/debugger.rs:785-841 | writing any table of absolute positions with neighbouring differences below 2^30, with surplus fields and segments without a digit, and parsing the text gives each entry's position and the sources and names at its indices |
| `SkipList.ShouldSkip` | kpio-devtools/src/debugger.rs:679-700 | true exactly when some pattern of the list skips the URL |
| `SkipList.GreedyIffPlaceable` | kpio-devtools/src/debugger.rs:684-695 | leftmost search succeeds if and only if some ordered, non-overlapping placement of the non-empty parts exists |
| `SkipList.SkipsIffPlaceable` | kpio-devtools/src/debugger.rs:681-695 | the same for a whole pattern with `*` |
| `SkipList.SkipsIffUnanchoredGlob` | kpio-devtools/src/debugger.rs:681-695 | such a pattern is read as the glob with `*` added at both ends |
| `SkipList.UnanchoredWitness` | kpio-devtools/src/debugger.rs:681-695 | for every pattern not starred at both ends, a URL that is skipped though the glob does not match it |
| `SkipList.PlainAgrees` | kpio-devtools/src/debugger.rs:681-698 | a pattern without `*` skips itself and nothing else |
| `SkipList.AnchoredIff` | kpio-devtools/src/debugger.rs:681-698 | a pattern means its glob on all URLs if and only if it has no `*`, or begins and ends with one |
| `Minimizer.TryRemoveChunks` | fuzz/src/harness.rs:306-322 | returns the input exactly when no aligned chunk can go, otherwise the input without the first one that can |
| `Minimizer.TryZeroBytes` | fuzz/src/harness.rs:324-339 | each byte is zeroed exactly when that still crashes with those before it settled; the input is returned exactly when no single byte can be zeroed |
| `Minimizer.Minimize` | fuzz/src/harness.rs:278-304 | ends for every input and target, at what iterated rounds of one removal and one zeroing pass reach; the result is the input or crashes, keeps bytes in order as they were or zeroed, is locally minimal, and is the input exactly when the input already was |
| `Minimizer.RoundIsFunction` | fuzz/src/harness.rs:285-300 | a round has one outcome: the first size, in the order 32 to 1, with a chunk that can go, its first such chunk, then the zeroing pass |
| `Minimizer.DroppingShrinks` | fuzz/src/harness.rs:310-314 | dropping a chunk keeps the remaining bytes in order |
| `Minimizer.ZeroingCounts` | fuzz/src/harness.rs:327-336 | zeroing a non-zero byte lowers the second part of the termination measure |
| `Selectors.PackedFields` | kpio-css/src/selector.rs:352-354 | the packed key byte by byte, with the spill of large counts |
| `Selectors.PackingKeepsOrderIff` | kpio-css/src/selector.rs:352-376 | the key preserves and reflects the lexicographic order up to given counts if and only if the counts fit their bytes |
| `Selectors.InlineOutranksIff` | kpio-css/src/selector.rs:352-361 | exactly which specificities inline style outranks |
| `Selectors.SelectorSpecificity` | kpio-css/src/selector.rs:102-118 | the loop counts ids, class-like and element-like components as `u16` counters |
| `Selectors.NthMatchesIff` | kpio-css/src/selector.rs:294-301 | for a given offset and index, every step `a` matches exactly the `a*k + b` with natural `k` if and only if the difference neither wraps nor is the least `i32` |
| `Cascade.DeclarationBlock.Push` | kpio-css/src/properties.rs:469-473 | one declaration per property is kept, the last pushed |
| `Cascade.DeclarationBlock.Get` | kpio-css/src/properties.rs:476-478 | finds the property's declaration exactly when there is one |
| `Cascade.FoldIsArgmax` | kpio-css/src/cascade.rs:59-90 | after any entries in any order each property holds the first of its greatest entries |
| `Cascade.StrictArgmax` | kpio-css/src/cascade.rs:59-90 | without ties the surviving entry is strictly above every other |
| `Cascade.PermutationInvariant` | kpio-css/src/cascade.rs:59-90 | without ties every permutation of the entries gives the same result |
| `Cascade.CascadedValues.ApplyDeclaration` | kpio-css/src/cascade.rs:59-90 | the map stays the fold of everything applied |
| `Cascade.CascadedValues.Apply` | kpio-css/src/cascade.rs:46-56 | the same for a whole block |
| `Cascade.CascadedValues.ApplyInline` | kpio-css/src/cascade.rs:93-100 | the same for inline style, with author origin and inline specificity |
| `Cascade.CascadedValues.Get` | kpio-css/src/cascade.rs:103-105 | returns a greatest declaration ever applied for the property, or nothing exactly when none was |
| `Cascade.CascadeBuilder.Apply` | kpio-css/src/cascade.rs:140-149 | blocks receive consecutive `u32` orders |
| `Cascade.CascadeBuilder.ApplyInline` | kpio-css/src/cascade.rs:152-155 | the same for inline style |
| `Cascade.RunBuilder` | kpio-css/src/cascade.rs:129-155 | a builder object run over any blocks applies exactly the entries the run lemmas are about |
| `Cascade.NoTiesIff` | kpio-css/src/cascade.rs:139-155 | runs of `n` blocks never tie if and only if `n` is at most 2^32 |
| `Cascade.BuilderRunIsArgmax` | kpio-css/src/cascade.rs:46-90 | after any run of the builder each declared property holds the first of its greatest declarations, the only one in a run of at most 2^32 blocks |
| `Cascade.SurvivorDecides` | kpio-css/src/cascade.rs:46-155 | in a run of at most 2^32 blocks the value of a property is its declaration from the best origin (author, then user, then user agent), there important if any is, then of greatest packed specificity, then from the latest block |
| `Cascade.SurvivorIsUnique` | kpio-css/src/cascade.rs:46-155 | only one declaration is that |
| `Cascade.InlineBeatsIff` | kpio-css/src/cascade.rs:66-100 | inline beats a rule of the same origin and importance in either order if and only if the rule stays below the mark |
| `Cascade.InlineDecides` | kpio-css/src/cascade.rs:93-155 | in any run such rules never decide a property the style attribute declares |
| `Urls.PrintThenParse` | kpio-browser/src/navigation.rs:67-182 | a well-formed URL survives printing and parsing in every component |
| `Urls.RoundTripIff` | kpio-browser/src/navigation.rs:67-182 | a URL survives if and only if it is well formed |
| `Urls.ParseShape` | kpio-browser/src/navigation.rs:110-182 | what every successful parse without a special prefix yields |
| `Urls.ParseSpecial` | kpio-browser/src/navigation.rs:114-131 | a text with one of the three special prefixes is that scheme and, as path, everything after the colon |
| `Urls.ParseReads` | kpio-browser/src/navigation.rs:133-182 | any other text is scheme (`https` without `://`), host, port, path, query and fragment one after the other, and is refused exactly when the host is empty and the scheme not special |
| `Urls.ParseU16Iff` | kpio-browser/src/navigation.rs:172 | a port is a decimal number below 2^16, with leading zeros and a plus sign allowed, and nothing else |
| `Urls.LowerIs` | kpio-browser/src/navigation.rs:135-174 | exactly the upper-case letters change, each to its lower-case letter |
| `Urls.NormalizedIff` | kpio-browser/src/navigation.rs:110-182 | parsing what a parse printed changes nothing if and only if the text has no special prefix and its scheme is not special in lower case |
| `Urls.UpperCaseSpecialScheme` | kpio-browser/src/navigation.rs:114-141 | an accepted input that does not survive printing and parsing |
| `Urls.ResolveLocal` | kpio-browser/src/navigation.rs:253-296 | a local reference changes path, query and fragment at most, and keeps an absolute path |
| `Urls.ResolvedHref` | kpio-browser/src/navigation.rs:265-295 | the printed result is the recomposition of section 5.3 of RFC 3986: the reference after the base's origin, path or query, or after the directory of its path |
| `Urls.ResolvePrinted` | kpio-browser/src/navigation.rs:254-264 | a printed URL resolves to itself against any base, and without its scheme against a base that shares it |
| `Urls.ResolveInvalid` | kpio-browser/src/navigation.rs:254-264 | a reference that cannot be parsed becomes an empty URL that keeps it |
| `Urls.ResolvedWellFormedIff` | kpio-browser/src/navigation.rs:265-295 | resolving against a well-formed base gives a well-formed URL exactly for clean references |
| `History.BackThenForward` | kpio-browser/src/navigation.rs:196-213 | forward undoes back and no entry is lost |
| `History.ForwardThenBack` | kpio-browser/src/navigation.rs:196-213 | back undoes forward and no entry is lost |
| `History.VisitThenBack` | kpio-browser/src/navigation.rs:185-203 | a visit drops the forward part and back returns to where it was made |
| `History.Navigator.PushHistory` | kpio-browser/src/navigation.rs:185-193 | refines a visit of the zipper |
| `History.Navigator.GoBack` | kpio-browser/src/navigation.rs:196-203 | refines going back, with the same answer |
| `History.Navigator.GoForward` | kpio-browser/src/navigation.rs:206-213 | refines going forward, with the same answer |
| `History.Navigator.CurrentUrl` | kpio-browser/src/navigation.rs:216-222 | returns the zipper's current entry |
| `History.Navigator.ClearHistory` | kpio-browser/src/navigation.rs:240-243 | empties the zipper |
| `History.PageLoader.PushHistory` | kpio-browser/src/loader.rs:295-308 | refines a visit of the zipper |
| `History.PageLoader.UpdateScroll` | kpio-browser/src/loader.rs:311-316 | changes the current entry only |
| `History.PageLoader.GoBack` | kpio-browser/src/loader.rs:329-336 | refines going back, with the same answer |
| `History.PageLoader.GoForward` | kpio-browser/src/loader.rs:339-346 | refines going forward, with the same answer |
| `History.PageLoader.CurrentEntry` | kpio-browser/src/loader.rs:349-355 | returns the zipper's current entry |
| `History.PageLoader.ClearHistory` | kpio-browser/src/loader.rs:363-366 | empties the zipper |
| `History.SameViewSameStore` | kpio-browser/src/loader.rs:295-366 | the two stores show the same zipper exactly when they hold the same entries with indices one apart |
| `History.RunBoth` | kpio-browser/src/loader.rs:295-366 | over every run of push, back, forward and clear both histories answer alike and stay one index apart |
| `Damage.EdgeIff` | graphics/src/optimization.rs:32-43 | a far edge is exact if and only if it is an `i32`; otherwise it falls left of the near one |
| `Damage.UnionIsHullIff` | graphics/src/optimization.rs:39-51 | the union of any two rectangles is their hull if and only if on both axes the edges wrap alike and the hull fits `u32` |
| `Damage.IntersectsIffSharedPixel` | graphics/src/optimization.rs:31-36 | among non-empty rectangles intersecting means sharing a pixel if and only if all of them have `i32` edges |
| `Damage.AddedTakes` | graphics/src/optimization.rs:85-109 | which regions an added rectangle takes in: each in turn that what is merged so far meets; the others stay in order before the hull of the rectangle and all taken, or everything is damaged when that makes more than sixteen; every region the rectangle itself meets is taken |
| `Damage.AddKeepsCoverIff` | graphics/src/optimization.rs:85-109 | on bounded regions, adding any rectangle keeps everything covered if and only if it is bounded, empty or meets no region |
| `Damage.WideDamageIsLost` | graphics/src/optimization.rs:85-109 | a run of two rectangles that loses the second one's pixels |
| `Damage.DamageTracker.AddDamage` | graphics/src/optimization.rs:85-109 | for any rectangle exactly the merged regions; while all added are bounded, everything added since the last clear stays covered and every region edge is an edge of something added; at most 16 regions are held |
| `Damage.DamageTracker.SetFullDamage` | graphics/src/optimization.rs:112-115 | full damage keeps the tracker valid |
| `Damage.DamageTracker.GetDamage` | graphics/src/optimization.rs:118-126 | every on-screen pixel of every rectangle added since the last clear is redrawn |
| `Damage.DamageTracker.Clear` | graphics/src/optimization.rs:129-132 | nothing is damaged afterwards |
| `Damage.DamageTracker.DamagedArea` | graphics/src/optimization.rs:140-146 | the `u64` sum is the true one if and only if that is below 2^64, and then never less than the number of distinct damaged pixels on screen |
| `Damage.WrappedAreaRun` | graphics/src/optimization.rs:85-146 | a run of three bounded rectangles that cover an 800 by 600 screen and whose areas sum to exactly 2^64 |
| `Caches.ResourceCache.Get` | kpio-browser/src/loader.rs:411-413 | a hit is the latest entry stored for the key; a miss means the key is not held |
| `Caches.ResourceCache.Put` | kpio-browser/src/loader.rs:416-434 | size accounting, unique keys and the byte limit (or a single oversized entry) are kept |
| `Caches.ResourceCache.Remove` | kpio-browser/src/loader.rs:437-442 | removes exactly the key and keeps the accounting |
| `Caches.ResourceCache.Clear` | kpio-browser/src/loader.rs:445-448 | empties the cache and its accounting |
| `Caches.EvictLastIs` | kpio-browser/src/loader.rs:419-424 | eviction keeps the longest prefix that leaves room |
| `Caches.StoreIs` | kpio-browser/src/loader.rs:416-434 | a store leaves the new entry before the entries under other keys among the longest prefix that left room |
| `Caches.StoreKeeps` | kpio-browser/src/loader.rs:416-434 | the invariants of the resource cache over one store |
| `Caches.LayerCache.Get` | graphics/src/optimization.rs:294-302 | a hit is the latest data stored for the id |
| `Caches.LayerCache.Put` | graphics/src/optimization.rs:305-326 | size accounting, unique ids and the byte limit (or a single oversized layer) are kept for any timestamps |
| `Caches.LayerCache.EvictOne` | graphics/src/optimization.rs:329-340 | evicts the first layer with the smallest timestamp |
| `Caches.LayerCache.Invalidate` | graphics/src/optimization.rs:343-348 | removes exactly the id and keeps the accounting |
| `Caches.LayerCache.Clear` | graphics/src/optimization.rs:351-354 | empties the cache and its accounting |
| `Caches.InsertIs` | graphics/src/optimization.rs:305-340 | an insertion leaves the layers under other ids, without as many of the oldest as had to go, before the new one |
| `Caches.InsertKeeps` | graphics/src/optimization.rs:305-326 | the invariants of the layer cache over one insertion |
| `Caches.StepMirrors` | graphics/src/optimization.rs:305-354 | one step takes mirrored caches to mirrored caches |
| `Caches.CachesMirror` | graphics/src/optimization.rs:305-354 | while the clock runs forward the layer list is the reverse of the resource list after every run |
| `Caches.EvictionMirrorsIff` | graphics/src/optimization.rs:329-340 | evicting the oldest mirrors evicting the last, for every need for room, if and only if timestamps never fall except among neighbours without data |
| `Caches.NextStoreMirrorsIff` | graphics/src/optimization.rs:305-326 | in caches of one size, the next store, whatever it is, mirrors if and only if the same holds |
| `Caches.RunStaysMirroredIff` | graphics/src/optimization.rs:305-354 | after any run that left the caches mirrored, whatever the clock, the next operation leaves them mirrored if and only if the same holds |
| `Caches.BackwardClockDiffers` | graphics/src/optimization.rs:329-340 | a run of three stores with the clock running backwards after which the caches hold different entries |
| `Input.InputManager.ProcessMouseButton` | kpio-browser/src/input.rs:414-460 | exactly the events queued; the mask is the set of bits whose button was last seen pressed |
| `Input.InputManager.GenerateClick` | kpio-browser/src/input.rs:463-503 | a click, and a double click exactly on a second near one |
| `Input.InputManager.ProcessMouseMove` | kpio-browser/src/input.rs:506-546 | exactly the move, leave and enter events; hover follows the hit |
| `Input.InputManager.ProcessMouseWheel` | kpio-browser/src/input.rs:549-573 | exactly a wheel and a scroll event |
| `Input.InputManager.ProcessKeyboard` | kpio-browser/src/input.rs:374-411 | exactly the key events queued, to the focused element, with key, code, character and modifiers; the modifiers are those the history of key events leaves |
| `Input.ModifiersFollow` | kpio-browser/src/input.rs:192-200 | one update turns the modifiers of a history into those of the longer one: last press or release, or parity for caps lock |
| `Input.HeldIs` | kpio-browser/src/input.rs:388-391 | each flag of an event reports the last event of its own modifier key |
| `Input.KeyEventsAre` | kpio-browser/src/input.rs:382-410 | a press queues a key-down and a release a key-up, and the press of a key with a one-character name a key-press with its code |
| `Input.LettersFollowShift` | kpio-browser/src/input.rs:771-806 | over any history of key events a letter is upper case exactly when one of shift and caps lock is on |
| `Input.RowsAre` | kpio-browser/src/input.rs:710-741 | the letters of the three rows |
| `Input.DigitRowIs` | kpio-browser/src/input.rs:657-706 | the digits and what shift makes of them |
| `Input.KeyAndCharAgree` | kpio-browser/src/input.rs:654-837 | exactly the keys with a one-character name are printable, and their character code is that character's, for every modifier state |
| `Input.InputManager.SetFocus` | kpio-browser/src/input.rs:576-626 | blur of the old element, focus of the new, nothing when they agree |
| `Input.InputManager.PollEvents` | kpio-browser/src/input.rs:629-631 | hands out the queue in order and loses nothing |
| `Input.DistanceIff` | kpio-browser/src/input.rs:466-467 | a distance is the absolute difference exactly while that is an `i32` |
| `Input.CloseIff` | kpio-browser/src/input.rs:466-469 | exactly which differences count as closer than 5 pixels |
| `Input.InputManager.NearIff` | kpio-browser/src/input.rs:464-473 | while no difference wraps, a click follows another exactly within 500 milliseconds and 4 pixels each way |
| `Input.EverySecondClickDoubles` | kpio-browser/src/input.rs:463-503 | in any chain of near clicks every second one is a double click |
| `Input.FocusAlternates` | kpio-browser/src/input.rs:576-626 | between two focus events of any run the first element is blurred, between two blur events the second is focused |
| `Input.HoverAlternates` | kpio-browser/src/input.rs:506-546 | between two enter events of any run the first element is left, between two leave events the second, if any, is entered |
| `Input.TwoClicksPerDouble` | kpio-browser/src/input.rs:463-503 | at every point of any run there were two clicks for each double click |
| `Rendering.BlendIsWeighted` | kpio-browser/src/renderer.rs:406-433 | for every pair of pixels each colour channel is the average weighted by the source's alpha, rounded down, and alpha adds what is left of the destination's; alpha 0 keeps the destination and 255 the source |
| `Rendering.BlendIsBetween` | kpio-browser/src/renderer.rs:406-433 | every blended colour channel lies between source and destination and alpha is at least both |
| `Rendering.PackChannels` | kpio-browser/src/renderer.rs:432 | or-ing shifted channels does not let one bleed into another |
| `Rendering.FillRect` | kpio-browser/src/renderer.rs:230-254 | for any sizes, every pixel is blended once for each visited cell with its `u32` index |
| `Rendering.VisitedOnce` | kpio-browser/src/renderer.rs:246-253 | on a screen of at most 2^32 cells that is once for a visited cell and never for another |
| `Rendering.BlendedOnceIff` | kpio-browser/src/renderer.rs:246-253 | no rectangle blends a pixel twice if and only if the screen has at most 2^32 cells |
| `Rendering.FillIsClippedIff` | kpio-browser/src/renderer.rs:241-247 | for every `i32` position and `u32` size the visited cells are the rectangle clipped to the screen if and only if both far edges are at least 0 and below 2^32, or nothing is visited and nothing was to be |
| `Rendering.FilledIs` | kpio-browser/src/renderer.rs:230-254 | where nothing wraps, pixel `r * w + c` is blended once for every cell of the rectangle on screen, and no other pixel is |
| `Rendering.LeftOfScreenIsPainted` | kpio-browser/src/renderer.rs:241-247 | a rectangle left of the screen that is painted across it |
| `Rendering.WideIsNotPainted` | kpio-browser/src/renderer.rs:241-247 | a rectangle across the screen that is not painted |
| `Rendering.DrawImage` | kpio-browser/src/renderer.rs:357-386 | for any sizes, every pixel is blended with the image cells that land on it, in order |
| `Rendering.PaintedOnce` | kpio-browser/src/renderer.rs:357-386 | on a screen of at most 2^32 cells every cell takes its one source pixel once, where the image has one, and every other cell is unchanged |
| `Rendering.PaintedIs` | kpio-browser/src/renderer.rs:357-386 | where nothing wraps, pixel `r * w + c` is blended once with the image's pixel for that cell, and no other pixel is |
| `Rendering.ImageIndexIff` | kpio-browser/src/renderer.rs:370 | the index into the image is exact for all its cells if and only if it has at most 2^32 |
| `Rendering.DrawIsClippedIff` | kpio-browser/src/renderer.rs:368-378 | the image is drawn on exactly the screen cells it covers if and only if neither the screen nor the far edges wrap, or nothing is drawn and nothing was to be |
| `CssParser.StringRoundTrip` | kpio-css/src/parser.rs:785-802 | an escaped string is read back whole, with the cursor past its quote |
| `CssParser.IdentCharIff` | kpio-css/src/parser.rs:883-885 | identifiers are made of ASCII letters and digits, underscores and hyphens |
| `CssParser.AttributeIff` | kpio-css/src/parser.rs:215-289 | the parser accepts exactly the written forms of a selector: any blanks, a value bare or in either quotes with any escapes, the flag in either case; and stops right after |
| `CssParser.AttributeRoundTrip` | kpio-css/src/parser.rs:215-289 | printing a selector with any spacing and parsing it gives it back, with the cursor past the bracket |
| `CssParser.ParsedIsPrintable` | kpio-css/src/parser.rs:215-251 | every selector the parser accepts is printable |
| `CssParser.AttributeRoundTripIff` | kpio-css/src/parser.rs:215-289 | a selector survives if and only if it is printable |
| `CssParser.BlockJoined` | kpio-css/src/parser.rs:847-874 | a balanced block is read to exactly its closing brace |
| `CssParser.BlockPrefixIs` | kpio-css/src/parser.rs:847-874 | whatever the input, a block read as closed is balanced, and an unclosed one takes everything |
| `CssParser.AtRuleIff` | kpio-css/src/parser.rs:676-701 | the parser accepts exactly the written forms of a rule, among them those that end with the text, and stops right after |
| `CssParser.AtRuleRoundTrip` | kpio-css/src/parser.rs:676-701 | printing an at-rule and parsing it gives it back, with the cursor just past it |
| `CssParser.AtRuleRoundTripIff` | kpio-css/src/parser.rs:676-701 | a rule survives if and only if it is printable, its block balanced |
| `CssParser.Reader.ExpectChar` | kpio-css/src/parser.rs:721-730 | refines the function on the unread text, consuming a wrong character too |
| `CssParser.Reader.SkipWhitespace` | kpio-css/src/parser.rs:732-740 | refines the function on the unread text |
| `CssParser.Reader.ParseIdent` | kpio-css/src/parser.rs:759-776 | refines the function on the unread text, also on failure |
| `CssParser.Reader.ParseString` | kpio-css/src/parser.rs:785-802 | refines the function on the unread text, also on failure |
| `CssParser.Reader.ParseStringOrIdent` | kpio-css/src/parser.rs:778-783 | refines the function on the unread text |
| `CssParser.Reader.ParseAttributeOperator` | kpio-css/src/parser.rs:254-289 | refines the function on the unread text, also on failure |
| `CssParser.Reader.ParseAttributeSelector` | kpio-css/src/parser.rs:215-251 | refines the function on the unread text, also on failure |
| `CssParser.Reader.ConsumeUntilBlockStart` | kpio-css/src/parser.rs:835-845 | takes exactly the text before the next brace or semicolon |
| `CssParser.Reader.ConsumeBlockContent` | kpio-css/src/parser.rs:847-874 | takes exactly the text before the closing brace |
| `CssParser.Reader.ParseAtRule` | kpio-css/src/parser.rs:676-701 | refines the function on the unread text, also on failure |

## Left out

- Kernel, storage, network, WebAssembly runtime, JavaScript engine, HTML tokenizer, layout and the other crates are not modelled.
- The fuzz corpus, coverage counters and crash deduplication of `fuzz/src` would only add counting invariants.
- `parse_stylesheet` and `parse_declaration_block` can return from an error without consuming input, so their loops have no termination proof to give; value, colour, pseudo-class and selector-list parsing is not modelled.
- Tree walkers, tag and class lookups over the DOM and `quirks_mode` would only add easy members; a node's redundant `id` and `node_type` and an element's cached class list are not stored.
- `draw_border` and `draw_text` are sequences of `fill_rect` calls.
- Hit and miss counters, cache statistics, content types, maximum ages and layer bounds are not stored in the caches.
- Positions, timestamps, trust and repeat flags are not carried by the modelled events.
- The codes of the named keys (arrows, function and editing keys) are a table copied from the source with nothing proved of it.
- Unicode: case mapping, white space and identifiers outside ASCII, and UTF-8 byte offsets, are not modelled.
- `SourceMaps` keeps the shift amount unbounded (only its value modulo 32 is used) and does not model the panics of checked builds.
- Damage.DamageTracker.AddDamage: coverage over whole runs is stated while everything added has `i32` edges; beyond them the equivalence is for one rectangle added to bounded regions, since a pixel one unbounded rectangle loses may be held by another.
- `Navigator` stores URLs and `PageLoader` stores entries with title and scroll position; the model gives both the same record.
- The minimizer's `max_attempts` field is never read by the source and is not modelled.
- History.RunBoth: the source has no such driver; it runs the two histories side by side to state their equivalence over runs.
- Cascade.RunBuilder: the source has no such driver either; it ties the lemmas about runs of blocks to the builder object.
