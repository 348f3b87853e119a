# Sketch-to-website layout fusion, modelled in Dafny

This project models the layout-fusion core of a sketch-to-website tool and
proves properties of that model. It also models the bookkeeping of the tool's
sketch editor.

- **Layout fusion** (`layout_flow.py`):
  - every OCR text entry goes to the first detected element whose closed box
    holds the entry's centroid, or else to the unassigned list;
  - the elements are then stably sorted by centre `(y, x)`;
  - they are clustered online into row sections with a running-mean centre;
  - each element is stamped with its section index and its rank by centre x
    inside the section.
- **Editor bookkeeping** (`generate_png.py`, class `MiniPaint`): the page list,
  one image and one bounded undo history per page, the current page, and how
  they change when a page is added, removed or switched to.
- **Layout history** (`generate_png.py`): each new layout is merged into the
  layout history file, which maps image names to layouts and drops a legacy
  single-layout file.
- **`tsconfig.json` alias merge** (`generate_png.py`): the two path aliases are
  added to the site's `tsconfig.json`, and the file is rewritten only when
  something changed.

Modules, in dependency order:

- `Wrappers`: `Option`.
- `Geometry`: points, boxes, centroids, closed-box containment.
- `StableSort`: the stable sort behind `sorted(..., key=...)` and `list.sort(key=...)`, specified as a permutation given by input positions that is strictly ordered by (key, input position).
- `LayoutModel`: detection records, OCR entries, elements, layouts, and the multiset of texts held by a list of elements.
- `TextAttachment`: `attach_text_to_elements`.
- `SectionClustering`: the clustering pass of `add_section_ordering`.
- `SectionOrdering`: the rest of `add_section_ordering`.
- `OrderingDeterminism`: the description of `add_section_ordering`'s result fixes that result, so ordering an ordered list gives it back.
- `LayoutBuilder`: `build_layout`.
- `LayoutHistory`: the history merge of `generate_png`.
- `FileNames`: the name handling of `add_file_entry`.
- `BoundedHistory`: the undo buffer of `record_file_history`.
- `MiniPaintApp`: the `MiniPaint` class and its file methods.
- `TsconfigAliases`: `ensure_tsconfig_aliases`.

The loops of the source are methods with loops, proved against specification
functions:

- `PlaceEntry` and `AttachTextToElements` against `FirstContaining`, `Routed` and `Attached`;
- `JoinFirstNear` and `ClusterRows` against `Place` and `Cluster`;
- `StampRanking` and `StampSections` against `Stamped` and `OrderedByCentreX`;
- `FindOther` against `FirstOther`;
- `SetAliases` against `WithAliases`.

`MiniPaint` is a class whose methods update its fields. Its invariant `Valid()`
states that:

- there is at least one file and no file is listed twice;
- the current file is listed;
- exactly the listed files have an image and a history;
- every history is within the limit;
- the canvas image is the current file's image.

Coordinates, centres, means and the gap are exact `real`s.

`add_section_ordering` returns the elements in `(centre y, centre x)` order
(`layout_flow.py:48-51, 73`), not grouped by section. Sections appear only in
the stamped `section_index` and `order_in_section` fields
(`layout_flow.py:67-72`). `AddSectionOrdering` returns that order.

## Model

| member | source | states |
|---|---|---|
| Geometry.Centroid | layout_flow.py:16-19 | an empty polygon has centroid (0, 0); otherwise the centroid's x times the point count is the sum of the xs, and likewise for y (the two independent means) |
| Geometry.Contains | layout_flow.py:23-24 | a point is in a box when both its coordinates lie between the box's bounds, both bounds included |
| Geometry.SumX | layout_flow.py:16-18 | the sum of a polygon's x coordinates, `sum(xs)` |
| Geometry.SumY | layout_flow.py:17-19 | the sum of a polygon's y coordinates, `sum(ys)` |
| Geometry.CentreX | layout_flow.py:50 | a box's centre x, the midpoint of its left and right edges |
| Geometry.CentreY | layout_flow.py:50 | a box's centre y, the midpoint of its top and bottom edges |
| Geometry.AllInside | layout_flow.py:24 | every point of the polygon passes the closed-box test |
| Geometry.SumXBounded | layout_flow.py:16-18 | the xs of a polygon inside a box sum to between the point count times the left edge and the point count times the right edge |
| Geometry.SumYBounded | layout_flow.py:17-19 | the ys of a polygon inside a box sum to between the point count times the top edge and the point count times the bottom edge |
| Geometry.CentroidInsideBox | layout_flow.py:16-24 | a non-empty polygon lying wholly inside a box has its centroid inside that closed box |
| StableSort.StableSortBy | layout_flow.py:48-51 | the output is the input stably sorted by the key: each output item is the input item at its recorded position, every input position occurs, the output is strictly ordered by (key, input position), and the multiset of items is unchanged |
| StableSort.Precedes | layout_flow.py:48-51 | the order a stable sort produces: a smaller key first, and on equal keys the earlier input position first |
| StableSort.IsStableSortOf | layout_flow.py:48-51 | the output is a rearrangement of the input given by input positions, each position used once, in strictly increasing (key, input position) order |
| StableSort.StableSortIsSorted | layout_flow.py:48-51 | in a stably sorted sequence the keys never decrease |
| StableSort.SortedIsOwnStableSort | layout_flow.py:48-51 | a sequence whose keys never decrease is its own stable sort, with every item kept at its position |
| StableSort.StableSortUnique | layout_flow.py:48-51 | two stable sorts of the same input by the same key have the same positions and the same items, so any stable sort algorithm gives the same output |
| LayoutModel.TextBagAddText | layout_flow.py:25 | appending an entry to one element's texts adds exactly that entry to the texts held by the element list |
| LayoutModel.DefaultBBoxFormat | layout_flow.py:34 | the box format used when the detector gives none is `normalized_xyxy` |
| LayoutModel.SameContent | layout_flow.py:70-72 | two elements agree in label, box and texts, so they differ at most in the stamped fields |
| LayoutModel.Stripped | layout_flow.py:67-72 | each element with its stamped fields erased, in order, so stamping leaves it unchanged |
| LayoutModel.TextBag | layout_flow.py:25 | the multiset of all OCR entries held in the elements' `texts` lists |
| LayoutModel.TextBagAppend | layout_flow.py:25 | the texts of two element lists joined are the texts of the first plus those of the second |
| LayoutModel.TextBagSameTexts | layout_flow.py:70-72 | element lists that agree on every element's texts hold the same texts, so stamping keeps them |
| LayoutModel.TextBagPermutation | layout_flow.py:48-51 | reordering the elements does not change the multiset of texts they hold |
| TextAttachment.FirstContaining | layout_flow.py:22-27 | the result is the least index whose closed box contains the point, or the number of boxes when no box does |
| TextAttachment.Owner | layout_flow.py:15-27 | an entry's destination is the first element whose box holds its centroid, or the unassigned list |
| TextAttachment.TextsInside | layout_flow.py:24-25 | every text held by an element has its centroid inside that element's closed box |
| TextAttachment.Routed | layout_flow.py:15-30 | the entries, in OCR order, whose first containing box is `j` (or which no box contains, for `j` equal to the number of boxes); `RoutedExactly`, `AttachedExactly` and `UnassignedExactly` state its meaning |
| TextAttachment.Copies | layout_flow.py:12 | one copy per detected element, in order, with the element's label and box, no texts and no placement |
| TextAttachment.Attached | layout_flow.py:12-30 | one element per detected element, in order, with its label and box and exactly the entries routed to it, in OCR order, and no placement |
| TextAttachment.RoutedExactly | layout_flow.py:15-30 | a destination holds only entries routed to it, and an entry routed there occurs in it exactly as often as in the OCR result |
| TextAttachment.AttachedExactly | layout_flow.py:22-27 | an entry is in element j's texts if and only if it is an OCR entry, box j contains its centroid, and no earlier box does |
| TextAttachment.UnassignedExactly | layout_flow.py:29-30 | an entry is unassigned if and only if it is an OCR entry whose centroid lies in no box |
| TextAttachment.AttachedTextsInside | layout_flow.py:22-25 | every text attached to an element has its centroid inside that element's box |
| TextAttachment.CopiesHoldNoText | layout_flow.py:12 | the element copies start out holding no text |
| TextAttachment.PlaceEntry | layout_flow.py:21-30 | one entry is appended to the texts of the first element whose box holds its centroid, and to the unassigned list when none does; nothing else changes |
| TextAttachment.AttachTextToElements | layout_flow.py:10-39 | the layout keeps the image path and size, defaults the box format to `normalized_xyxy`, gives each element the entries routed to it in OCR order, lists the entries routed nowhere in OCR order, and together they hold every OCR entry exactly once |
| SectionClustering.Mean | layout_flow.py:61 | the mean times the count is the sum |
| SectionClustering.Sum | layout_flow.py:61 | the sum of a list of centre ys, `sum(section["cys"])` |
| SectionClustering.Abs | layout_flow.py:58 | the absolute value: non-negative and equal to the number or its negation |
| SectionClustering.Near | layout_flow.py:58 | a centre y is near a section when it is at most the gap away from the section's mean, the bound included |
| SectionClustering.CentreYs | layout_flow.py:55 | one centre y per element, in list order: the midpoint of the box's top and bottom |
| SectionClustering.FirstNear | layout_flow.py:57-58 | the result is the first section whose mean lies within the gap (inclusive) of the centre y, or the number of sections when none does |
| SectionClustering.Place | layout_flow.py:54-65 | one clustering step adds at most one section and leaves at least one |
| SectionClustering.Join | layout_flow.py:59-61 | the joined section holds the new centre y and element last, and its centre is the mean of all its members' centre ys |
| SectionClustering.Found | layout_flow.py:65 | a new section holds only the element, with its centre y as the section centre |
| SectionClustering.FoundsExactly | layout_flow.py:54-65 | over any prefix of the visiting order, an element founds a new last section if and only if no earlier section's mean is within the gap of its centre y; otherwise it joins the first such section and the section count is unchanged |
| SectionClustering.Cluster | layout_flow.py:53-65 | there are never more sections than elements, and there is one when there is an element |
| SectionClustering.ClusterWellFormed | layout_flow.py:53-65 | each section is non-empty, records its members' centre ys, and has as centre the mean of those; members are listed in visiting order; each element lies in exactly one section; sections are numbered in the order of their first members |
| SectionClustering.Faithful | layout_flow.py:59-65 | a section is not empty, records each member's centre y, has as its centre the mean of those ys, and lists its members in visiting order |
| SectionClustering.Partition | layout_flow.py:54-65 | every visited element belongs to exactly one section |
| SectionClustering.FoundedInOrder | layout_flow.py:63-65 | sections are numbered in the order their first members were visited |
| SectionClustering.WellFormed | layout_flow.py:54-65 | every section is faithful, the sections partition the visited elements, and they are founded in order |
| SectionClustering.PlaceKeepsPartition | layout_flow.py:57-65 | one clustering step keeps every element in exactly one section, now including the new one, and keeps the sections founded in order |
| SectionClustering.PlaceKeepsWellFormed | layout_flow.py:57-65 | one clustering step keeps the sections well formed for the list extended by the new element |
| SectionClustering.JoinFaithful | layout_flow.py:59-61 | joining a section keeps it faithful, its centre being the mean of all its members' centre ys |
| SectionClustering.FoundFaithful | layout_flow.py:65 | a new section holds just its founder, centred on the founder's centre y |
| SectionClustering.TwoRows | layout_flow.py:58 | two elements share a section if and only if their centre ys are at most the gap apart (the bound is inclusive) |
| SectionClustering.JoinFirstNear | layout_flow.py:55-65 | the inner scan performs exactly one clustering step |
| SectionClustering.ClusterRows | layout_flow.py:53-65 | the loop produces the clustering of the sorted elements' centre ys |
| SectionOrdering.SortRanks | layout_flow.py:69 | sorting a section's members by centre x ranks them: same members, ordered by (centre x, list position) |
| SectionOrdering.DefaultGap | layout_flow.py:42 | the default row gap is 0.08 |
| SectionOrdering.CentreKey | layout_flow.py:48-51 | the list's sort key: centre y first, centre x to break ties |
| SectionOrdering.CentreXKey | layout_flow.py:69 | the sort key inside a section: centre x alone (the second component is a constant, so it never decides) |
| SectionOrdering.Stamped | layout_flow.py:67-72 | every element carries a placement whose section index names a section that holds it and whose order is below that section's size, and every (section, order) pair is carried by some element |
| SectionOrdering.OrderedByCentreX | layout_flow.py:69-72 | two distinct elements of one section have orders in the order of their centre xs, with equal centre xs kept in list order, both directions |
| SectionOrdering.IsSectionOrdering | layout_flow.py:42-73 | the result is the input stably sorted by (centre y, centre x) up to placements, is `Stamped` with the clustering of its own centre ys, and is `OrderedByCentreX` |
| SectionOrdering.StampRanking | layout_flow.py:70-72 | every ranked member gets its section index and its rank; other elements and all other fields are unchanged |
| SectionOrdering.RankingsStamp | layout_flow.py:67-72 | once every section is ranked and stamped: every element's section index names a section that holds it, its order is below that section's size, every (section, order) pair is used, and orders follow centre x with ties in list order |
| SectionOrdering.StampSections | layout_flow.py:67-72 | the stamping loop keeps every element's box and texts and leaves every element stamped with its section and its rank by centre x |
| SectionOrdering.AddSectionOrdering | layout_flow.py:42-73 | an empty list is returned as is; the result is the input stably sorted by (centre y, centre x), holds the same texts, and is stamped with the clustering of that order, ranks following centre x |
| OrderingDeterminism.StampsDetermined | layout_flow.py:67-72 | two stampings of the same elements with the same sections, both ranking each section by (centre x, list position), are identical |
| OrderingDeterminism.SectionOf | layout_flow.py:71 | an element's stamped `section_index`, or 0 when unstamped |
| OrderingDeterminism.OrderOf | layout_flow.py:72 | an element's stamped `order_in_section`, or 0 when unstamped |
| OrderingDeterminism.SectionOrderingUnique | layout_flow.py:42-73 | any two results that are the input stably sorted by centre and stamped with the clustering of that order and ranked by centre x are equal, so the description fixes the output |
| OrderingDeterminism.SectionOrderingIdempotent | layout_flow.py:42-73 | ordering the result of an ordering again gives that result back unchanged |
| LayoutBuilder.BuildLayout | layout_flow.py:76-81 | the result satisfies `IsBuiltLayout`: the built layout has the attachment's image fields and unassigned list, holds every OCR entry exactly once, has the attached elements stably sorted by centre, each text inside its element's box, and every element stamped with its section (gap 0.08) and its rank by centre x |
| LayoutBuilder.IsBuiltLayout | layout_flow.py:76-81 | the layout has the detector's image path and size, the detector's box format or `normalized_xyxy`, the unassigned entries in OCR order, every OCR entry exactly once, the attached elements stably sorted by centre, each text inside its element's box, and the section stamps with gap 0.08 ranked by centre x |
| LayoutBuilder.AttachedUnplaced | layout_flow.py:12 | freshly attached elements carry no stamps yet |
| LayoutBuilder.SortKeepsTextsInside | layout_flow.py:48-51 | sorting and stamping the elements keeps every text inside its element's box |
| LayoutHistory.Merged | generate_png.py:594-605 | the prior object's entries when it is a history, or no entries otherwise, with the new layout stored under the file name; `MergedStoresLayout`, `MergedKeepsOthers` and `MergedDiscardsInvalid` state its effect |
| LayoutHistory.LegacyKey | generate_png.py:598 | the top-level key `elements` marks the old single-layout file |
| LayoutHistory.IsHistory | generate_png.py:598-601 | the prior document is kept only when it parsed to an object that lacks the legacy key |
| LayoutHistory.MergeLayoutHistory | generate_png.py:593-605 | the history is the prior object, or empty when the prior file is missing, unreadable, not an object or has the legacy key, with the new layout stored under the file name |
| LayoutHistory.MergedStoresLayout | generate_png.py:605 | after the merge the file name maps to the new layout |
| LayoutHistory.MergedKeepsOthers | generate_png.py:600-605 | over a valid prior history every other name keeps its layout, and no name is added or lost |
| LayoutHistory.MergedDiscardsInvalid | generate_png.py:594-605 | a missing, unreadable, non-object or legacy prior file yields a history holding only the new layout |
| LayoutHistory.MergedIdempotent | generate_png.py:594-605 | for a page not named `elements`, saving the same layout again leaves the history unchanged (no name from `add_file_entry` is `elements`, by `NormalizedNameShape`) |
| LayoutHistory.SuccessiveSavesKeepBoth | generate_png.py:593-607 | when neither page is named `elements`, two saves of different pages keep both layouts, whatever the prior file held |
| LayoutHistory.LegacyNameLosesHistory | generate_png.py:598-599 | a page saved under the legacy key `elements` makes the next save discard every other page |
| FileNames.Strip | generate_png.py:352 | the stripped name has no whitespace at either end, and it is empty if and only if the name is all whitespace |
| FileNames.SkipSpace | generate_png.py:352 | the scan from a position stops at the first non-whitespace character or the end, having skipped only whitespace |
| FileNames.SkipSpaceBack | generate_png.py:352 | the scan back from a position stops just after the last non-whitespace character at or after the lower bound, having skipped only whitespace |
| FileNames.HasPngSuffix | generate_png.py:356 | the name ends in `.png` after ASCII lower-casing |
| FileNames.PngSuffix | generate_png.py:356-357 | the suffix appended to a name is `.png` |
| FileNames.SuffixAppended | generate_png.py:356-357 | a stripped non-empty name with `.png` appended ends in `.png`, still has no whitespace at either end, and starts with the name |
| FileNames.IsSpace | generate_png.py:352 | the characters Python's `str.isspace` accepts, which `strip()` removes |
| FileNames.AllSpace | generate_png.py:352-354 | every character of the name is whitespace, so the stripped name is empty |
| FileNames.AsciiLower | generate_png.py:356 | `lower()` on one character, for the ASCII letters only |
| FileNames.StripStart | generate_png.py:352 | the start of the stripped name: every character before it is whitespace, and the one at it is not, unless the name is all whitespace |
| FileNames.NormalizedName | generate_png.py:349-357 | no name for a cancelled, empty or all-whitespace answer; otherwise the stripped answer, with `.png` appended unless it already ends in `.png` in some case; `NormalizedNameShape` and `NormalizedNameIdempotent` state its properties |
| FileNames.StripRemovesEnds | generate_png.py:352 | the stripped name is a slice of the name, and only whitespace lies before and after it |
| FileNames.StripTrimmed | generate_png.py:352 | a name without whitespace at either end strips to itself |
| FileNames.NormalizedNameShape | generate_png.py:349-357 | there is no name if and only if the answer is missing or all whitespace; otherwise the name starts with the stripped answer, adds at most `.png`, ends in `.png` in some case, has no surrounding whitespace, and is never the legacy key |
| FileNames.NormalizedNameIdempotent | generate_png.py:349-357 | normalizing a normalized name gives it back |
| BoundedHistory.PushBounded | generate_png.py:421-424 | the buffer grows by one unless it overflows; it keeps the newest snapshots of the old buffer plus the new one; it stays within the limit when it was within it |
| BoundedHistory.PushAll | generate_png.py:418-424 | the buffer after pushing each snapshot in turn; `PushAllWindow` and `PushAllBounded` state its contents and bound |
| BoundedHistory.PushAllWindow | generate_png.py:418-424 | starting empty, the buffer holds the last min(n, limit) snapshots, oldest first |
| BoundedHistory.PushAllBounded | generate_png.py:418-424 | a buffer within its limit stays within it however many snapshots are pushed |
| MiniPaintApp.Without | generate_png.py:379 | the remaining files are exactly the other files, an unlisted name changes nothing, no file becomes listed twice, and removing a listed name shortens the list by one |
| MiniPaintApp.InitialFile | generate_png.py:69 | the first page is `landing.png` |
| MiniPaintApp.HistoryLimit | generate_png.py:73 | each page keeps at most 10 undo snapshots |
| MiniPaintApp.Distinct | generate_png.py:359-361 | no file name is listed twice, which `add_file_entry` keeps by refusing a known name |
| MiniPaintApp.Consistent | generate_png.py:69-73 | the bookkeeping invariant: at least one file and none twice, the current file listed, exactly the listed files have an image and a history, every history within the limit, and the canvas image is the current file's image |
| MiniPaintApp.Pushed | generate_png.py:418-424 | the histories with only the named file's buffer replaced by its bounded push of the image |
| MiniPaintApp.FirstOther | generate_png.py:375 | the result is the position of the first file other than the name, or the list's length when there is none |
| MiniPaintApp.FirstOtherExists | generate_png.py:370-375 | with two or more distinct files, a file other than the current one exists |
| MiniPaintApp.FindOther | generate_png.py:375 | the scan stops at the first file other than the name |
| MiniPaintApp.PushConsistent | generate_png.py:418-424 | pushing a listed file's snapshot keeps the bookkeeping invariant |
| MiniPaintApp.ListConsistent | generate_png.py:363-365 | listing a new name with a blank image and an empty history keeps the invariant |
| MiniPaintApp.MoveConsistent | generate_png.py:394-399 | making a listed file current, with its image on the canvas, keeps the invariant |
| MiniPaintApp.DropConsistent | generate_png.py:379-381 | removing a file that is not current from the list, the images and the histories keeps the invariant |
| MiniPaintApp.PushedDropped | generate_png.py:374-381 | the snapshot taken when leaving a page that is then removed leaves no trace in the histories |
| MiniPaintApp.MiniPaint.constructor | generate_png.py:69-73 | the editor starts with the single blank page `landing.png`, an empty history and limit 10, and is valid |
| MiniPaintApp.MiniPaint.Valid | generate_png.py:69-73 | the editor's fields satisfy `Consistent`: at least one file and none twice, the current file listed, exactly the listed files have an image and a history, every history within the limit, and the canvas image is the current file's image |
| MiniPaintApp.MiniPaint.RecordFileHistory | generate_png.py:418-424 | a file without an image changes nothing; otherwise the file's image is pushed onto its bounded history; the invariant is kept |
| MiniPaintApp.MiniPaint.GetOrCreateImage | generate_png.py:409-413 | a known file's image is returned unchanged; an unknown file gets a blank image and an empty history |
| MiniPaintApp.MiniPaint.SwitchFile | generate_png.py:386-399 | switching to the current file changes nothing; otherwise the current image is stored and snapshotted, an unknown name is listed with a blank image and an empty history, and it becomes current with its image on the canvas; the invariant is kept |
| MiniPaintApp.MiniPaint.AddFileEntry | generate_png.py:341-367 | no name, or a listed name, changes nothing; a new name is appended, gets a blank image and an empty history, and becomes current after the old page is snapshotted; the invariant is kept |
| MiniPaintApp.MiniPaint.AppendFile | generate_png.py:363-367 | a new name is listed with a blank image and an empty history and becomes current |
| MiniPaintApp.MiniPaint.RemoveFileEntry | generate_png.py:369-381 | with one file nothing changes, so the list is never emptied; otherwise the first other file becomes current, and the old current file leaves the list, the images and the histories |
| MiniPaintApp.MiniPaint.DropFile | generate_png.py:379-381 | a file that is not current leaves the list, the images and the histories; the invariant is kept |
| MiniPaintApp.MiniPaint.ClearCanvas | generate_png.py:562-564 | the current page's image becomes blank, both on the canvas and in the image map |
| MiniPaintApp.MiniPaint.Paint | generate_png.py:454-460 | a stroke changes the canvas image, which is also the current page's image; histories are untouched |
| MiniPaintApp.MiniPaint.GeneratePng | generate_png.py:573-607 | saving snapshots the current page into its history and changes nothing else; the layout satisfies `IsBuiltLayout` for the detector's and the OCR engine's results (image fields, box format default, routing, conservation, stable centre order, texts inside boxes, section stamps with gap 0.08, ranks by centre x); the history is the prior history merged with that layout under the page's name |
| TsconfigAliases.SetAliases | generate_png.py:714-718 | both aliases end up mapped to `["./*"]`, and the change flag is set if and only if some alias differed beforehand |
| TsconfigAliases.EnsureTsconfigAliases | generate_png.py:698-722 | the outcome is skipping, a crash on a non-object level, or the updated document with the change flag |
| TsconfigAliases.Ensured | generate_png.py:698-722 | skipped without a parsed file, a crash when the document, `compilerOptions` or `paths` is not an object, and otherwise the document with both aliases set and the change flag; `EnsuredSetsAliases`, `EnsuredKeepsOthers`, `CrashExactly` and `EnsuredIdempotent` state its properties |
| TsconfigAliases.CompilerOptions | generate_png.py:710 | the key `compilerOptions` |
| TsconfigAliases.Paths | generate_png.py:711 | the key `paths` |
| TsconfigAliases.Aliases | generate_png.py:712 | the aliases `@/*` and `~/*`, in that order |
| TsconfigAliases.Target | generate_png.py:712 | the alias target `["./*"]` |
| TsconfigAliases.MemberOrEmpty | generate_png.py:710-711 | `setdefault(key, {})` as a value: the member when present, else an empty object |
| TsconfigAliases.NeedsUpdate | generate_png.py:714-718 | some alias differs from the target, so `changed` ends true |
| TsconfigAliases.Differs | generate_png.py:716 | an alias differs when it is absent from `paths` or maps to something other than `["./*"]` |
| TsconfigAliases.WithAliases | generate_png.py:714-718 | `paths` with the first aliases set to `["./*"]`, in the loop's order; `WithAliasesEffect` states that all other keys keep their values |
| TsconfigAliases.WithAliasesEffect | generate_png.py:715-718 | after the loop both aliases map to the target and every other key keeps its value |
| TsconfigAliases.EnsuredSetsAliases | generate_png.py:710-720 | after an update, `compilerOptions.paths` exists and maps both aliases to `["./*"]` |
| TsconfigAliases.EnsuredKeepsOthers | generate_png.py:710-720 | every other key of the document, of `compilerOptions` and of `paths` keeps its value, and no such key is added or lost |
| TsconfigAliases.CrashExactly | generate_png.py:710-716 | the function crashes if and only if the document, its `compilerOptions` or their `paths` is present but not an object |
| TsconfigAliases.EnsuredIdempotent | generate_png.py:714-721 | a second run on the rewritten document leaves it unchanged and reports no change |

## Left out

- Widgets, canvas events, drawing tools, colours, text and shape tools, and status messages: GUI plumbing. Images are opaque tokens (`Blank` or a sketch); a stroke is `Paint`.
- The detector (`run_detection`), the OCR engine (`run_ocr`) and the code generator (`generate_ui_code`): they are not part of this model. Their results are parameters: a detection record and an OCR entry list.
- JSON parsing and serialization, key order, and all file reads and writes: the prior history file is given as a parse outcome (`Document`), the tsconfig file as an optional parsed value, and a skipped or missing tsconfig file is `Skipped`.
- The `page_context` annotation, the writing of `page.tsx`, `os.chdir`, `npm`/`npx` subprocesses, directory wiping and the shadcn/package-manager setup: process plumbing outside the core.
- `test.py` and `llamainference.py`: model prompts and invocation, with no logic to model.
- Floating-point rounding: centroids, centres and means are exact reals. The source's comparisons (`<=`, inclusive) are modelled as written.
- Detector element keys other than the label and the box (for example a confidence): `dict(el, texts=[])` copies them through unchanged. The model carries only the label and the box.
- A detection record whose `bbox_format` key is present with a JSON null: the model treats the null as absent and gives `normalized_xyxy`, where `det_data.get("bbox_format", "normalized_xyxy")` (layout_flow.py:34) would give None. The record's optional fields cannot tell a null from a missing key.
- Image saving in `generate_png`: file output. The unused `save_counter` field (generate_png.py:76) is set once and never read or updated, so the model has no counterpart.
- StableSort.StableSortBy: Python's Timsort is replaced by an insertion sort with the same stability specification; `StableSortUnique` shows that specification has exactly one output, which Timsort also produces.
- SectionOrdering.AddSectionOrdering: the source stamps the element dictionaries in place, so the caller's input list also carries the stamps; the model returns new values and leaves the input unchanged.
- FileNames.NormalizedName: `str.lower()` is modelled on ASCII letters only. No other character lowers to one of `.`, `p`, `n`, `g`, so the suffix test is unaffected; the rest of the name is kept as typed in both the source and the model.
- MiniPaintApp.MiniPaint.SwitchFile: the selector widget update, the canvas redraw and the `on_file_change` hook (a no-op) are GUI plumbing and are left out.
- MiniPaintApp.MiniPaint.Paint: only the effect on the image bookkeeping is modelled, not the stroke itself or the shape previews.
- `handle_file_change_request`: it forwards a non-empty name from the file selector to `switch_file`, which the selector's list makes a listed file.
