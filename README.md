# TexturePacker in Dafny

A model of the packing engine of TexturePacker, a command-line tool. It
collects images, trims their transparent borders, and packs them into one
or more square texture atlases. The model covers four parts.

- The guillotine bin packer (`GuillotineBinPack`, files `geometry.dfy`,
  `heuristics.dfy`, `free_space.dfy`, `guillotine.dfy`). The free area of
  a bin is a list of disjoint rectangles. They are searched with six
  scoring heuristics, split with six split policies and merged pairwise.
  The central invariant is `Geometry.Partition`: the free and used
  rectangles lie in the bin, share no cell, and together cover every cell.
- The image trim (`PackerBitmap`, file `packer_bitmap.dfy`). The
  constructor scans for the bounding box of the pixels whose alpha byte is
  non-zero and copies that window into a new buffer. Images are ordered by
  area and compared field by field.
- The atlas packer (`Packer`, file `packer.dfy`). `Pack` takes images from
  the tail of the input list, skips repeats, asks the rectangle packer for
  room, records each place, and then halves the atlas while half still
  covers the used extent. `SavePng` draws every entry into the atlas
  buffer, straight or a quarter turn clockwise.
- The driver (`Program.Main`, file `program.dfy`): the atlas-size clamp,
  the flag dispatch, the loop that opens one atlas per round, and the
  atlas records.

Facts the model makes explicit:

- The rectangle packer `MaxRectsBinPack` is not part of this model. `Pack`
  takes it as a function parameter (`Packing.Inserter`). The parameter
  sees the bin size, the requests it has already granted and the new
  request. The packer object is modelled by that list of granted requests.
- `GetHashCode` and `int.Parse` are function parameters.
- `List.Sort` with `CompareTo` puts the largest image first and `Pack`
  consumes from the tail. So each round tries the smallest images first.
- Pixel buffers are `array<bv32>`. Their contents are compared through
  value snapshots (`Bitmaps.Image`).
- The two draw loops of `SavePng` are the methods `DrawStraight` and
  `DrawTurned`.

## Model

| member | source | states |
|---|---|---|
| Geometry.ContainedInIsCellInclusion | TexturePacker/GuillotineBinPack.cs:499-504 | For a rectangle with at least one cell, IsContainedIn holds exactly when every cell of a is a cell of b |
| Heuristics.AreaLeftOver | TexturePacker/GuillotineBinPack.cs:383-386 | A request that fits upright covers at most the free area, and strictly less when it is shorter along a side |
| Heuristics.ScoreBestAreaFit | TexturePacker/GuillotineBinPack.cs:383-386 | For a request that fits upright the score lies between 0 and the free area, and is 0 exactly when the request fills the free rectangle |
| Heuristics.ScoreBestShortSideFit | TexturePacker/GuillotineBinPack.cs:387-393 | The score is non-negative and is the smaller of the two leftover side lengths |
| Heuristics.ScoreBestLongSideFit | TexturePacker/GuillotineBinPack.cs:394-400 | The score is the larger of the two leftover side lengths |
| Heuristics.ScoreByHeuristic | TexturePacker/GuillotineBinPack.cs:366-378 | A choice outside the six heuristics scores int.MaxValue |
| Heuristics.WorstReversesBest | TexturePacker/GuillotineBinPack.cs:402-413 | Each Worst score is the negation of its Best score, and the short-side score never exceeds the long-side score |
| Heuristics.ScoreExample | TexturePacker/GuillotineBinPack.cs:383-393 | A 40 x 90 request in a 100 x 100 free rectangle scores 10 by short side and 6400 by area |
| Heuristics.ScoreBelowMax | TexturePacker/GuillotineBinPack.cs:366-413 | Each of the six heuristics scores a request that fits a bounded free rectangle below int.MaxValue, whichever order width and height come in |
| Heuristics.SplitPoliciesComplementary | TexturePacker/GuillotineBinPack.cs:429-461 | ShorterLeftoverAxis/LongerLeftoverAxis, MinimizeArea/MaximizeArea and ShorterAxis/LongerAxis always choose opposite cuts; an undefined policy cuts horizontally |
| Heuristics.SplitPieces | TexturePacker/GuillotineBinPack.cs:468-497 | At most two rectangles are appended, each with positive width and height |
| Heuristics.SplitPiecesShape | TexturePacker/GuillotineBinPack.cs:471-496 | Every appended rectangle is the bottom part or the right part |
| Heuristics.SplitPiecesInside | TexturePacker/GuillotineBinPack.cs:468-497 | For a placed rectangle at the free rectangle's origin that fits, each piece lies in the free rectangle and shares no cell with the placed one, and the pieces share no cell |
| Heuristics.SplitPiecesArea | TexturePacker/GuillotineBinPack.cs:468-497 | The pieces' areas plus the placed area equal the free area, for both cut directions |
| Heuristics.SplitPiecesCells | TexturePacker/GuillotineBinPack.cs:468-497 | A cell of the free rectangle is a cell of the placed rectangle or of a piece, and nothing else is |
| Heuristics.SplitTiles | TexturePacker/GuillotineBinPack.cs:415-497 | The placed rectangle and the pieces partition the free rectangle exactly, cell for cell and in area |
| FreeSpace.TryMerge | TexturePacker/GuillotineBinPack.cs:244-283 | Two free rectangles merge exactly when they have equal x and width and touch vertically, or (not having equal x and width) equal y and height and touch horizontally |
| FreeSpace.MergeIsUnion | TexturePacker/GuillotineBinPack.cs:244-283 | The merged rectangle covers exactly the cells of the two it replaces, and its area is their sum |
| FreeSpace.MergeKeepsApart | TexturePacker/GuillotineBinPack.cs:244-283 | A rectangle apart from both merged rectangles is apart from their merge |
| FreeSpace.MergeWithin | TexturePacker/GuillotineBinPack.cs:244-283 | A merge of two rectangles inside the bin is inside the bin |
| FreeSpace.MergeAt | TexturePacker/GuillotineBinPack.cs:248-261 | One merge removes exactly one entry |
| FreeSpace.MergeFromStep | TexturePacker/GuillotineBinPack.cs:241-284 | After a merge the inner loop tests the same index again; otherwise it moves on |
| FreeSpace.MergeAtKeepsPartition | TexturePacker/GuillotineBinPack.cs:244-283 | One merge keeps the partition, the covered cells and the total free area, and shortens the list by one |
| FreeSpace.MergeFromKeepsPartition | TexturePacker/GuillotineBinPack.cs:237-285 | MergeFreeList keeps the partition, the covered cells and the total free area, and never lengthens the free list |
| FreeSpace.ThreeWayMergeNeedsTwoPasses | TexturePacker/GuillotineBinPack.cs:239-240 | For three stacked cells in one column, one pass joins only two of them |
| FreeSpace.PlaceKeepsPartition | TexturePacker/GuillotineBinPack.cs:193-208 | Splitting and removing the free rectangle that holds a node at its origin, and recording the node as used, keeps the partition |
| Guillotine.SingleFit | TexturePacker/GuillotineBinPack.cs:312-361 | No branch is taken exactly when the request fits the free rectangle neither way; otherwise the node sits at its origin and fits; an exact fit fills it |
| Guillotine.BatchFit | TexturePacker/GuillotineBinPack.cs:125-172 | The same for one request of the batch search |
| Guillotine.BatchScoresPlacedNode | TexturePacker/GuillotineBinPack.cs:146-172 | The batch search scores every candidate by the node it would place, turned when placed sideways |
| Guillotine.SingleSidewaysScoreIsUnturned | TexturePacker/GuillotineBinPack.cs:348-351 | A 4 x 8 request that fits a 10 x 5 rectangle only sideways is scored as 4 x 8, not as the placed 8 x 4 |
| Guillotine.SingleFits | TexturePacker/GuillotineBinPack.cs:310-362 | Entry k is the answer of free rectangle k |
| Guillotine.ChosenUnique | TexturePacker/GuillotineBinPack.cs:303-364 | The search result is determined: the first exact fit, else the first lowest score, else none |
| Guillotine.Placement | TexturePacker/GuillotineBinPack.cs:305-363 | With no choice the result is the default zero rectangle; otherwise it sits at the chosen free rectangle's origin and fits in it |
| Guillotine.NoneChosenIffNothingFits | TexturePacker/GuillotineBinPack.cs:303-364 | With a defined heuristic, the search returns the zero rectangle exactly when no free rectangle takes the request either way |
| Guillotine.NoPairChosenIffNothingFits | TexturePacker/GuillotineBinPack.cs:116-178 | With a defined heuristic, a batch round gives up exactly when no request fits any free rectangle either way |
| Guillotine.PlacingKeepsPartition | TexturePacker/GuillotineBinPack.cs:83-95 | Splitting the free rectangle that holds the node, removing it, merging or not, and recording the node keeps the partition |
| Guillotine.FirstInsertOfTrace | TexturePacker/GuillotineBinPack.cs:83-95 | Placing 1 x 1 in a fresh 3 x 2 bin (shorter-leftover split) leaves the free rectangles (0,1,1,1) and (1,0,2,2), and the partition holds |
| Guillotine.SecondInsertOfTraceOverlaps | TexturePacker/GuillotineBinPack.cs:83-88 | Splitting free rectangle 0 for a node placed in free rectangle 1 leaves that node listed as free, so the lists are no partition |
| Guillotine.InsertAtIndexZeroBreaksPartition | TexturePacker/GuillotineBinPack.cs:76-88 | From Init(3, 2) and Insert(1, 1), Insert(2, 2) chooses free rectangle 1 but the as-written Insert splits rectangle 0, and the partition is lost |
| Guillotine.SumAreaNonNeg | TexturePacker/GuillotineBinPack.cs:219-223 | The used surface sum of rectangles of non-negative size is non-negative |
| Guillotine.ScanStep | TexturePacker/GuillotineBinPack.cs:123-172 | One pair of the batch scan: an exact fit ends the search with that pair; otherwise the scan moves on |
| Guillotine.ScanLowers | TexturePacker/GuillotineBinPack.cs:146-171 | A strictly lower score becomes the best so far |
| Guillotine.ScanRowDone | TexturePacker/GuillotineBinPack.cs:121-124 | The end of the requests moves the scan to the next free rectangle |
| Guillotine.ScanDone | TexturePacker/GuillotineBinPack.cs:174-178 | At the end of the scan, a score below int.MaxValue is the lowest pair, and int.MaxValue means no pair qualifies |
| Guillotine.GuillotineBinPack.constructor | TexturePacker/GuillotineBinPack.cs:10-13 | A 0 x 0 bin: one 0 x 0 free rectangle, no used rectangle |
| Guillotine.GuillotineBinPack.WithSize | TexturePacker/GuillotineBinPack.cs:16-19 | A width x height bin with one free rectangle spanning it |
| Guillotine.GuillotineBinPack.Init | TexturePacker/GuillotineBinPack.cs:23-40 | The free list is exactly [(0,0,w,h)], the used list is empty, and for non-negative sizes the partition holds |
| Guillotine.GuillotineBinPack.FindPositionForNewNode | TexturePacker/GuillotineBinPack.cs:303-364 | The result is the chosen placement of the search, the zero rectangle when nothing is chosen |
| Guillotine.GuillotineBinPack.Insert | TexturePacker/GuillotineBinPack.cs:73-100 | As written: a found height of 0 changes nothing; otherwise free rectangle 0 is split and removed, whichever rectangle the search chose, and one node is appended to the used list |
| Guillotine.GuillotineBinPack.InsertFixed | TexturePacker/GuillotineBinPack.cs:73-100 | The single Insert splitting the chosen free rectangle; it keeps the partition |
| Guillotine.GuillotineBinPack.PlaceAndRecord | TexturePacker/GuillotineBinPack.cs:193-208 | The free list becomes the split list with the chosen entry removed, merged if asked; the node is appended to the used list |
| Guillotine.GuillotineBinPack.FindBestPair | TexturePacker/GuillotineBinPack.cs:119-178 | The pair found is the first exact fit or the first lowest score, with its flip; nothing found means no pair qualifies |
| Guillotine.GuillotineBinPack.ScanPair | TexturePacker/GuillotineBinPack.cs:125-172 | Free rectangle i against request j: an exact fit, upright or turned, ends the search with the first exact pair and its flip; otherwise the scan moves past j, a strictly lower score becoming the best so far |
| Guillotine.GuillotineBinPack.ScanFreeRect | TexturePacker/GuillotineBinPack.cs:123-173 | Free rectangle i against every request: either it ends on the first exact pair, or the scan moves on to the next free rectangle with the lowest score so far |
| Guillotine.GuillotineBinPack.InsertRound | TexturePacker/GuillotineBinPack.cs:181-208 | The used list gains exactly the chosen request placed at the chosen free rectangle's origin, turned when flipped; the free list becomes that rectangle split around it, removed, and merged if asked; the request leaves the list; the partition is kept |
| Guillotine.GuillotineBinPack.TracedRound | TexturePacker/GuillotineBinPack.cs:181-208 | A round whose pair is the one the search chooses extends the trace by that round |
| Guillotine.GuillotineBinPack.BatchStep | TexturePacker/GuillotineBinPack.cs:116-208 | One pass of the loop: either a traced round that removes one request, or nothing changes and no pair qualifies |
| Guillotine.GuillotineBinPack.InsertAll | TexturePacker/GuillotineBinPack.cs:107-211 | The used list is the old one followed by one node per round; round k starts from the free list and requests the previous round left, takes the pair the search chooses (first exact fit, else first lowest score), places that request at the chosen free rectangle's origin, turned as the fit says, splits/removes/merges the free list and removes the request; the placed and remaining requests make up the input as a multiset; the loop ends with requests left only when no pair qualifies; the partition is kept |
| Guillotine.BatchTraceAppend | TexturePacker/GuillotineBinPack.cs:116-210 | A further round appended to a trace keeps it a trace |
| Guillotine.TraceMatches | TexturePacker/GuillotineBinPack.cs:183-192 | Every node a round places has its request's size, upright or turned |
| Guillotine.BatchChoiceUnique | TexturePacker/GuillotineBinPack.cs:119-178 | The pair a round chooses is unique: two pairs that are each the first exact fit or the first lowest score are the same pair |
| Guillotine.RoundAccounts | TexturePacker/GuillotineBinPack.cs:198-199 | Removing request j from the list and adding it to the placed ones keeps their multiset union |
| Guillotine.GuillotineBinPack.Occupancy | TexturePacker/GuillotineBinPack.cs:215-225 | The numerator is the used area sum and the denominator the bin area, and under the partition the used area is at most the bin area |
| Guillotine.GuillotineBinPack.MergeFreeList | TexturePacker/GuillotineBinPack.cs:237-285 | The free list becomes the merged list; nothing else changes |
| Guillotine.GuillotineBinPack.MergePass | TexturePacker/GuillotineBinPack.cs:242-284 | After one pass over entry i, the functional merge continued from entry i + 1 gives the same list as the functional merge from entry i before the pass; the list never grows and entry i stays in range |
| Guillotine.GuillotineBinPack.MergePair | TexturePacker/GuillotineBinPack.cs:244-283 | Entries i and j merge exactly when TryMerge gives a rectangle; the list then becomes MergeAt (entry i grown, entry j removed), and otherwise stays as it was |
| Guillotine.GuillotineBinPack.SplitFreeRectByHeuristic | TexturePacker/GuillotineBinPack.cs:417-465 | The pieces of the cut the policy chooses are appended to the free list |
| Guillotine.GuillotineBinPack.SplitFreeRectAlongAxis | TexturePacker/GuillotineBinPack.cs:468-497 | The non-degenerate bottom and right pieces are appended to the free list; nothing else changes |
| Guillotine.InitIsPartition | TexturePacker/GuillotineBinPack.cs:31-39 | One free rectangle spanning the bin partitions it |
| Bitmaps.Snapshot | TexturePacker/TexHandle.cs:1-61 | The contents of a texture's buffer form an image of its size |
| Bitmaps.TightBoxUnique | TexturePacker/PackerBitmap.cs:54-67 | There is only one tight bounding box of the opaque pixels |
| Bitmaps.TrimBoxInside | TexturePacker/PackerBitmap.cs:68-87 | For a non-empty texture the kept window lies in the image, so 1 <= Width <= tex.Width and 1 <= Height <= tex.Height; without trim or without an opaque pixel it is the full frame |
| Bitmaps.TrimBoxEmptyImage | TexturePacker/PackerBitmap.cs:48-83 | An image with a zero side keeps its full, empty frame, apart from the three shapes below |
| Bitmaps.TrimOfEmptyImageOverruns | TexturePacker/PackerBitmap.cs:48-87 | For a 0 x 0, 1 x 0 or 0 x 1 texture with trim on, the bounds scan finds nothing and its start values pass the fallback test, giving a window that is not empty |
| Bitmaps.ScanOpaque | TexturePacker/PackerBitmap.cs:58-65 | An opaque pixel grows the scan box to hold it |
| Bitmaps.ScanTransparent | TexturePacker/PackerBitmap.cs:58-59 | Any other pixel changes nothing |
| Bitmaps.ScanNextRow | TexturePacker/PackerBitmap.cs:54-56 | The end of a row is the start of the next |
| Bitmaps.ScanComplete | TexturePacker/PackerBitmap.cs:54-68 | After the last row the box is the tight box of the opaque pixels, or the start values when none is opaque |
| Bitmaps.ScanRow | TexturePacker/PackerBitmap.cs:56-66 | One row of the scan: the box becomes the bounds of the opaque pixels of every row up to and including y |
| Bitmaps.PixelBounds | TexturePacker/PackerBitmap.cs:48-83 | The window is the tight box of the opaque pixels when trimming and one exists, else the full frame |
| Bitmaps.CopyStep | TexturePacker/PackerBitmap.cs:107 | Writing one pixel into its place in the window buffer keeps the pixels already copied |
| Bitmaps.CopyNextRow | TexturePacker/PackerBitmap.cs:105-106 | The end of a window row is the start of the next |
| Bitmaps.CopyRow | TexturePacker/PackerBitmap.cs:106-107 | One window row: every pixel of row y of the window is copied to its place in the new buffer, and the rows before stay copied |
| Bitmaps.CopyWindow | TexturePacker/PackerBitmap.cs:100-109 | A fresh buffer of Width x Height pixels in which data[(y-minY)*Width + (x-minX)] is pixel (x, y) of the texture |
| Bitmaps.FromTexture | TexturePacker/PackerBitmap.cs:18-112 | FrameW/FrameH are the texture size; the size is that of the kept window; untrimmed images keep the texture's buffer with offsets 0; trimmed ones get a fresh copy with FrameX = -minX and FrameY = -minY |
| Bitmaps.CompareTo | TexturePacker/PackerBitmap.cs:156-169 | -1 exactly when this image's area is larger, 1 exactly when smaller, 0 exactly when equal |
| Bitmaps.CompareToOrder | TexturePacker/PackerBitmap.cs:156-169 | CompareTo is antisymmetric, reflexive and transitive |
| Bitmaps.SortedAreasDescend | TexturePacker/PackerBitmap.cs:156-169 | In a list sorted by CompareTo the areas never increase |
| Bitmaps.Equals | TexturePacker/PackerBitmap.cs:130-140 | Equal exactly when every field is equal, the buffer by reference |
| Bitmaps.EqualOp | TexturePacker/PackerBitmap.cs:171-174 | == holds exactly when the two images are equal |
| Bitmaps.NotEqualOp | TexturePacker/PackerBitmap.cs:176-179 | != holds exactly when the two images differ |
| Bitmaps.EqualsLaws | TexturePacker/PackerBitmap.cs:130-179 | Equals is reflexive and symmetric, and != is the negation of == |
| Packing.Max | TexturePacker/Packer.cs:73-74 | Math.Max is an upper bound of both arguments and equals one of them |
| Packing.ExtentGrows | TexturePacker/Packer.cs:73-74 | The used extent only grows |
| Packing.Requests | TexturePacker/Packer.cs:53 | The requests are no more than the entries |
| Packing.RequestsAppend | TexturePacker/Packer.cs:44-71 | A repeat adds no request; a placed image adds its padded size |
| Packing.EntriesAppend | TexturePacker/Packer.cs:42-74 | Appending one entry made by the loop keeps every earlier entry as made |
| Packing.LookupInRange | TexturePacker/Packer.cs:40-42 | A key of the dedup table names an entry in range that is not a repeat |
| Packing.ProgressStart | TexturePacker/Packer.cs:28-31 | Before the loop nothing is appended, the whole input is left and the extent is 0 |
| Packing.KeysKnownAppend | TexturePacker/Packer.cs:40-60 | Appending an entry whose key is the only one added, and only when it is not a repeat, keeps every key of the table accounted for |
| Packing.RepeatExactlyWhenSeen | TexturePacker/Packer.cs:38-66 | A new entry is a repeat exactly when duplicates are merged and its key was in the table when it was made: there before the loop, or the key of an earlier new entry that is not a repeat |
| Packing.EntryRepeatWhenSeen | TexturePacker/Packer.cs:38-66 | The same, from the parts of the loop progress it needs |
| Packing.RepeatStep | TexturePacker/Packer.cs:38-48 | A repeat appends a copy of its original's point with dupID naming it, consumes no space and leaves the extent as it was |
| Packing.PlaceStep | TexturePacker/Packer.cs:51-75 | A placed image appends the point the rectangle packer gave, dupID -1, rot = rotate and width mismatch, moves the tail image onto Bitmaps, and grows the extent to cover the rectangle |
| Packing.PlaceKeepsValid | TexturePacker/Packer.cs:58-71 | Recording a placed image keeps Bitmaps and Points in step and every dedup key naming a non-repeat |
| Packing.StopStep | TexturePacker/Packer.cs:31-56 | The loop ends with the input used up, or stopped on a tail image with no room, which stays in the input |
| Packing.NothingPlacedNoExtent | TexturePacker/Packer.cs:29-76 | A round that appends no entry leaves the input as it was and the extent at 0 |
| Packing.Half | TexturePacker/Packer.cs:78-84 | C# division by two: for n >= 0, 2r <= n <= 2r + 1 |
| Packing.ShrinkNeverStops | TexturePacker/Packer.cs:78-85 | With extent 0 the shrink test holds at every halving, so the loop never ends |
| Packing.ShrunkCovers | TexturePacker/Packer.cs:78-85 | The shrunk size still covers the extent and is at most the start size |
| Packing.HalvingsCover | TexturePacker/Packer.cs:78-81 | Halving while half covers the extent keeps the size between the extent and the start |
| Packing.EveryPixelShown | TexturePacker/Packer.cs:100-120 | Every pixel of a drawn image lands in its area: straight at the same offset, turned a quarter clockwise |
| Packing.TargetInjective | TexturePacker/Packer.cs:100-120 | Distinct source pixels land in distinct atlas cells |
| Packing.UncoveredKeepsBase | TexturePacker/Packer.cs:94-122 | A cell no entry covers keeps its first value |
| Packing.LastWriterWins | TexturePacker/Packer.cs:94-122 | A covered cell shows the pixel of the last entry that covers it |
| Packing.RepeatDrawsNothing | TexturePacker/Packer.cs:98 | A repeat entry writes nothing: the atlas is the same without it |
| Packing.PaintedStart | TexturePacker/Packer.cs:103-113 | Nothing is drawn before the first cell |
| Packing.PaintStep | TexturePacker/Packer.cs:107-117 | Writing one cell of the entry moves the drawing on by one cell and keeps every other cell |
| Packing.PaintNextRow | TexturePacker/Packer.cs:103-115 | The end of a row is the start of the next |
| Packing.ShowsStart | TexturePacker/Packer.cs:92-93 | A buffer shows itself with nothing drawn |
| Packing.ShowsNext | TexturePacker/Packer.cs:94-122 | A finished drawing of the next entry extends what the buffer shows |
| Packing.ShowsSkip | TexturePacker/Packer.cs:98 | A repeat leaves the buffer as it is |
| Packing.SpritesOf | TexturePacker/Packer.cs:94-98 | Entry i of the list drawn is the image and point of entry i |
| Packing.Packer.constructor | TexturePacker/Packer.cs:17-25 | The given size and padding, empty Bitmaps, Points and DupLookup |
| Packing.Packer.PlaceAll | TexturePacker/Packer.cs:28-76 | The placement loop: every entry is a repeat of its original or a place granted by the rectangle packer; the dedup table only gains the keys of new entries that are not repeats; the input is what is left plus the appended images reversed; what is left ends on an image with no room; the extent covers every rectangle |
| Packing.Packer.PlaceNext | TexturePacker/Packer.cs:33-75 | One pass keeps the loop progress, the dedup-key provenance included; either it stops on a tail image with no room, left in the input, or it consumes the tail image |
| Packing.Packer.AddRepeat | TexturePacker/Packer.cs:40-47 | A repeat appends its original's point with dupID naming it and consumes the tail image; the dedup table, the size and the extent stay as they were |
| Packing.Packer.AddPlaced | TexturePacker/Packer.cs:58-74 | A placed image appends its point, grants its padded request, consumes the tail image and grows the extent to cover the rectangle |
| Packing.Packer.Shrink | TexturePacker/Packer.cs:78-85 | Width is the start width halved k times, the last halving whose half still covers the extent; the same for Height; nothing else changes |
| Packing.Packer.Pack | TexturePacker/Packer.cs:26-86 | As written: defined only where the round places something with a positive extent (the shrink otherwise never ends); the placement of PlaceAll and then the shrink |
| Packing.Packer.PackFixed | TexturePacker/Packer.cs:26-86 | The same round, the shrink skipped when the extent is 0, which leaves the size as it was |
| Packing.Packer.DrawStraight | TexturePacker/Packer.cs:111-120 | dest[(py+y)*Width + px+x] becomes pixel (x, y) of the image for its whole area; every other cell keeps its value |
| Packing.Packer.DrawTurned | TexturePacker/Packer.cs:100-110 | dest[(py+y)*Width + px+x] becomes pixel (y, Height-1-x) of the image for its turned area; every other cell keeps its value |
| Packing.Packer.DrawStraightRow | TexturePacker/Packer.cs:115-118 | One row of the straight copy: every cell of row y of the image's area gets its pixel, and the other cells keep their values |
| Packing.Packer.DrawTurnedRow | TexturePacker/Packer.cs:105-108 | One row of the turned copy: column y of the image, read bottom to top, fills row y of the turned area, and the other cells keep their values |
| Packing.Packer.DrawEntry | TexturePacker/Packer.cs:96-121 | Drawing entry i extends what the buffer shows from the first i entries to the first i + 1; a repeat draws nothing |
| Packing.Packer.SavePixels | TexturePacker/Packer.cs:87-122 | A fresh Width x Height buffer in which every cell shows the last entry that covers it, and its first contents where none does |
| Driver.ValidateAtlasSize | TexturePacker/Program.cs:19-43 | The result is one of 256, 512, 1024, 2048 and 4096, is below any request above 256, and is at least half of any request up to 8192; below 4096 the next size up is not below the request, so any request above 4096 gives 4096 and any up to 512 gives 256 |
| Driver.ValidateAtlasSizeLargestBelow | TexturePacker/Program.cs:19-43 | The result is the largest of 512, 1024, 2048 and 4096 strictly below the request, and 256 exactly when none is |
| Driver.ValidateAtlasSizeMonotone | TexturePacker/Program.cs:19-43 | A larger request never gives a smaller atlas |
| Driver.ListedSizesHalved | TexturePacker/Program.cs:21-40 | 4096 gives 2048, 2048 gives 1024, 1024 gives 512, and 512, 256, 128 and 64 give 256 |
| Driver.Contains | TexturePacker/Program.cs:152-164 | String.Contains finds nothing longer than the string |
| Driver.ContainsIffOccurs | TexturePacker/Program.cs:152-164 | Contains holds exactly when the pattern occurs at some position |
| Driver.MissingCharNotContained | TexturePacker/Program.cs:152-164 | A string without one of the pattern's characters does not contain it |
| Driver.ApplyArg | TexturePacker/Program.cs:111-171 | Only a number argument can fail to parse; any other argument keeps the size and the padding |
| Driver.ApplySwitch | TexturePacker/Program.cs:111-150 | A whole-argument flag only sets switches and never changes the size or the padding |
| Driver.ApplyNumberFlag | TexturePacker/Program.cs:151-170 | Only an argument holding --size, -s, --pad or -p can fail to parse; any other is reported and leaves the options as they were |
| Driver.ExactFlagsFirst | TexturePacker/Program.cs:112-131 | "-p" and "--premultiply" set premultiply only, and "-d" sets XML, premultiply, trim and unique, whatever int.Parse does |
| Driver.ShortPadFlag | TexturePacker/Program.cs:128-167 | "-p8" sets the padding to 8 |
| Driver.LongPadFlag | TexturePacker/Program.cs:160-167 | "--pad3" reads its number after "--pad", not after "-p", and sets the padding to 3 |
| Driver.ShortSizeFlag | TexturePacker/Program.cs:152-159 | "-s4096" gives atlas size 2048 |
| Driver.LongSizeFlag | TexturePacker/Program.cs:152-159 | "--size1024", which also contains "-s", is read after "--size" and gives 512 |
| Driver.NoNumberKeepsSizeAndPad | TexturePacker/Program.cs:109-172 | A flag loop over no number arguments cannot fail and keeps the size and the padding |
| Driver.ParseArgs | TexturePacker/Program.cs:45-172 | Fewer than 4 arguments give the usage and parse nothing; otherwise the flags from the third argument on are applied in order to the defaults |
| Driver.SwitchesKeepDefaults | TexturePacker/Program.cs:45-172 | With only switches the atlas size stays 4096 and the padding 1 |
| Driver.HalvedAtMost | TexturePacker/Packer.cs:78-85 | Halving never grows a size that is not negative |
| Driver.OpenBin | TexturePacker/Program.cs:236-238 | A fresh packer of the atlas size and padding packs from the list; the list is what is left plus its images reversed; its size is at most the atlas size |
| Driver.NextBin | TexturePacker/Program.cs:236-238 | One round keeps the loop state: the packers stay distinct and well formed, the input is what is left followed by the bins, and every bin but the new one is non-empty; an empty new bin leaves the list as it was |
| Driver.StackedPush | TexturePacker/Program.cs:230-248 | The input is what is left followed by the packers' images, the last packer's first |
| Driver.PackBins | TexturePacker/Program.cs:230-248 | Distinct packers, each valid with the padding and at most the atlas size; the input is what is left followed by their images; without abort every image is packed and every packer holds one; an abort happens exactly when the last packer holds none, with images left |
| Driver.NatToString | TexturePacker/Program.cs:255 | The decimal text of a number is at least one digit and only digits |
| Driver.ParseNatToString | TexturePacker/Program.cs:255 | Reading back the decimal text of a number gives the number |
| Driver.AtlasNamesDistinct | TexturePacker/Program.cs:255 | Different atlases get different names |
| Driver.TurnNotRecorded | TexturePacker/Program.cs:264-273 | An image record is the same for a turned and an unturned entry, with the unturned width and height |
| Driver.ImagesOf | TexturePacker/Program.cs:262-275 | Image record t is the record of entry t, one per entry |
| Driver.AtlasOf | TexturePacker/Program.cs:254-275 | One image record per entry, record t taking X and Y from Points[t] and the rest from Bitmaps[t] |
| Driver.BuildAtlases | TexturePacker/Program.cs:250-278 | One atlas per packer, in order, atlas i named name + i + ".png" with the packer's size, the three flags and its image records |

## Left out

- Alpha premultiplication (TexturePacker/PackerBitmap.cs:30-43) works in floating point. The model leaves it out. It keeps the alpha byte, so the trim bounds do not depend on it.
- `GetHashCode` (TexturePacker/PackerBitmap.cs:142-154) mixes the buffer address with Width, Height, Name and the four Frame fields, with wrapping arithmetic. It is a function parameter of `Pack`, and hash collisions are not reasoned about.
- `MaxRectsBinPack` is not part of this model. It is a function parameter whose only promise is the one `Pack` relies on: a zero width or height means no room.
- `int.Parse` is a function parameter. `None` stands for the exception it throws, which ends the program (`Driver.BadNumber`).
- Packing.Packer.Pack: requires that the round places something with a positive extent. With extent 0 the shrink loop never ends (see Findings).
- Bitmaps.FromTexture: requires `TrimSafe`, which excludes trimming a 0 x 0, 1 x 0 or 0 x 1 texture. For those, the C# code reads outside an empty buffer (`Bitmaps.TrimOfEmptyImageOverruns`).
- Guillotine.GuillotineBinPack.Occupancy: returns the integer numerator and denominator instead of the `float` ratio. The `ulong` accumulation is not modelled.
- 32-bit integer overflow is not modelled anywhere. Sizes, scores and areas are unbounded integers. `int.MaxValue` and `int.MinValue` are kept as the search sentinels.
- Packing.Packer.SavePixels: the buffer from `AllocHGlobal` starts with arbitrary contents, named by the ghost result `unset`. The PNG encoder call (TexturePacker/TextureLoadUtil.cs) is not part of this model.
- Packing.Packer.SavePixels: requires every entry's pixels to fit inside the atlas (`Drawable`). `Pack` makes that true only under two conditions the model does not derive. First, the rectangle packer must return rectangles inside the bin; `MaxRectsBinPack` is not part of this model, so nothing here states that. Second, the padding must not be negative. A negative `-p` or `--pad` value is accepted (TexturePacker/Program.cs:160-167; `-p-2` gives padding -2), and an image then spans more columns than its rectangle.
- The input list that `Pack` mutates in place is a value parameter. What is left of it is returned as `rest`.
- Guillotine.GuillotineBinPack.InsertAll: takes the request list as a value and returns what is left of it as `remaining`. The C# method destroys the caller's list in place (TexturePacker/GuillotineBinPack.cs:103, 198), and that aliasing is not modelled.
- The verbose and console output, file and directory I/O, the argument and directory hash with the `.hash` file, PNG loading and saving, and the XML, JSON and binary writers (TexturePacker/Program.cs:175-226, 281-359) are I/O.
- The first two command-line arguments (output file and input folders) are file-system names. The model takes the output name as a parameter of `BuildAtlases`.
- The atlas record property is spelled `ISPremultiplied` in TexturePacker/Program.cs:260 and `IsPremultiplied` in TexturePacker/Atlas.cs. The model uses `IsPremultiplied`.
- `TexHandle` and `Atlas` are plain data carriers. They appear as datatypes only.
- Driver.PackBins: states that its packers are distinct, not that each was newly allocated by the call. Each round's packer is newly allocated (`Driver.OpenBin`).
- The model's bin loop (`Driver.PackBins`) packs each round with `Packer.PackFixed`. With `Pack` as written, its abort branch could not be reached.

## Findings

| source | as written | input that shows it | evidently intended | confidence | as-written member | corrected member |
|---|---|---|---|---|---|---|
| TexturePacker/GuillotineBinPack.cs:76-88 | `FindPositionForNewNode` never assigns its `ref nodeIndex`, so `Insert` splits and removes `freeRectangles[0]` whichever rectangle was chosen | `Init(3, 2)`, `Insert(1, 1)` (best area fit, shorter-leftover split), then `Insert(2, 2)`: the search chooses free rectangle 1, rectangle 0 is removed, and the placed 2 x 2 area stays listed as free | split and remove the free rectangle the search chose, which keeps the free rectangles disjoint | high (not executed) | Guillotine.InsertAtIndexZeroBreaksPartition | Guillotine.GuillotineBinPack.InsertFixed |
| TexturePacker/Packer.cs:78-85 | when a round places nothing, `ww` and `hh` stay 0 and `Width / 2 >= 0` holds forever, so `Pack` never returns and the "packing failed" branch at TexturePacker/Program.cs:243-247 cannot be reached | a single 5000 x 5000 image with the default 4096 atlas: the rectangle packer has no room, and the shrink loop runs forever | skip the shrink when nothing was placed, so the bin loop reaches its abort | high (not executed) | Packing.ShrinkNeverStops | Packing.Packer.PackFixed |
