# A verified model of Kael's algorithmic core

Kael is a user interface framework in Rust. Most of it drives a GPU and the platform; this project models, in Dafny, the parts of it that are algorithms and protocols in their own right, and proves what they promise.

| file | what it models |
|---|---|
| `Geometry.dfy` | points and rectangles of `crates/kael/src/geometry.rs` |
| `BoundsTree.dfy` | the draw-order index of `crates/kael/src/bounds_tree.rs` |
| `ClipPath.dfy`, `Euclid.dfy` | the clip shapes of `crates/kael/src/clip_path.rs`, and the Euclidean distances they are measured by |
| `Arena.dfy` | the element arena of `crates/kael/src/arena.rs` |
| `Scaffold.dfy` | project creation, `xtask/src/scaffold.rs` |
| `AtomicWrite.dfy` | replacing a file, `xtask/src/main.rs` |
| `AudioHandle.dfy`, `AudioSamples.dfy` | the playback handle and its sample arithmetic, `crates/kael-media/src/native.rs` |
| `Refineable.dfy` | the code generated by `crates/derive_refineable`, and the cascade of `crates/refineable` |
| `Bezier.dfy`, `KeyframeTrack.dfy` | cubic easing and keyframe tracks of `crates/kael/src/animation.rs` |
| `UnixTime.dfy` | the time stamp of update feeds, `xtask/src/update_feed.rs` |
| `ArArchive.dfy` | the `ar` container of Debian packages, `xtask/src/bundle.rs` |
| `Arithmetic.dfy`, `Decimals.dfy`, `Options.dfy` | facts about products and quotients, decimal text and optional values, shared by the others |

`dafny verify dfyconfig.toml` checks everything.

## How the models are built

- What the source changes in place is a class whose methods change its fields: the tree, the arena with its chunks and validity cells, the audio handle, the sample source, the cascade, the keyframe track, the file system under one run. Each method is proved equal to a step of a state machine on values (or to a plain function of the old state), and the properties of whole runs are proved about that machine.
- Concurrency is a list of processes, each with its own program counter, and an arbitrary schedule that also decides which operations fail. The imperative methods `Scaffold.Disk.Run` and `AtomicWrite.Directory.AtomicWrite` are proved to do what one such process does when scheduled alone.
- Coordinates, times, easings and volumes are exact reals. `sqrt` is any function that gives the nonnegative root of a nonnegative number; its value elsewhere is arbitrary. Integer widths appear where they matter: 64-bit generations wrap around, and the saturating 128-bit sample arithmetic is shown to be exact on its whole domain.
- Addresses in the arena are numbers. The address of a new chunk is chosen by the environment and only assumed not to be 0 and not to overlap other chunks.
- Every recursive law is proved for all inputs: all vertex lists, all runs, all nested schemas, all lists of members.

## What the proofs found

Places where the code does not do what one would expect. The model keeps the code as it is, and where a property fails the exact condition is proved.

- The box of a polygon holds every point the polygon accepts, except exactly for three or more collinear vertices: such a list accepts its whole line (`ClipPath.BoxCoversExactly`).
- The comment in the tree's descent promises the child whose box grows least. What the code compares are the boxes after the insertion, and the child it prefers is sure to be one that grows least exactly if the boxes of both children have the same half perimeter (`BoundsTrees.LeastGrowthExactly`). No order depends on the choice.
- The signed distance to an ellipse is exact at the centre and on the ellipse; elsewhere it may be less than the distance but never more (`ClipPath.SignedDistanceTo`).
- A circle of radius 0 does not contain its centre, although the signed distance there is 0: the only point at which the two tests differ (`ClipPath.TestsAgree`).
- The scaffolder counts a file only after writing and syncing it, so when the write fails after the creation, the file is left behind and with it `src` and the target (`Scaffold.TornFileStays`). `Scaffold.LoneFailure` says for every pattern of failures when a lone run leaves the target as it was. Two or more runs that fail on a target that did not exist before can leave it behind even if no removal fails and no file is torn (`Scaffold.FailedRunsRestoreExactly`).
- `atomic_write` can return an error after it has replaced the destination (`AtomicWrite.AnErrorAfterReplacing`); this happens exactly when the directory sync is what fails, and every other error leaves the destination alone (`AtomicWrite.ErrorsAndTheDestination`).
- The end of playback changes no generation. A seek begun while playing and committed after the end puts a running engine into a handle that says it is stopped (`AudioHandles.ALateSeek`); nothing else breaks the agreement (`AudioHandles.CoherentExactlyWithoutLateSeeks`).
- A refinement cannot clear an optional field, so the difference of a struct from a refinement rebuilds the struct only if nothing had to be cleared (`Refinements.SubtractRestoresExactly`).
- A cubic easing starts at exactly 0 but is never read off at its end: at delta 1 it is evaluated no later than at 1 - 2^-12 (`Bezier.EndIsNeverReached`), and exactly there if its x control points lie in [0, 1]. It gives 1 there exactly if its y control values satisfy a linear condition, and the clamp cuts off the excess (`Bezier.EasedEnd`). Its error bound grows with the y control values (`Bezier.EasingIsAccurate`). Animation timelines demand x control points in [0, 1] (`crates/kael/src/app.rs:33701-33710`) and leave the y values free.
- If several keyframes share the first time, sampling at that time gives the first of them, while at any later shared time it gives the last (`KeyframeTracks.StepsExactly`).
- The time stamp is 20 characters long only until the end of the year 9999 (`UnixTime.StampIsRfc3339`), and the first second of the year 10000 sorts before it as text: the stamps of all times up to some second sort by time exactly if that second lies before the year 10000 (`UnixTime.StampsSortExactlyUntil10000`).
- The `ar` writer checks its header length only in debug builds; a longer name or size is written as is and cannot be read back (`ArArchives.RoundTripsExactlyWhenClean`).

## Model

| member | source | states |
|---|---|---|
| Geometry.UnionIsLeast | crates/kael/src/geometry.rs:1165-1169 | the union of two rectangles contains both and lies inside every rectangle that does |
| Geometry.IntersectsIsMonotone | crates/kael/src/geometry.rs:935-943 | whatever overlaps a rectangle overlaps everything around it: the fact that makes pruning by cached unions sound |
| Geometry.SharingIsIntersecting | crates/kael/src/geometry.rs:935-943 | two rectangles share an interior point if and only if both have positive sizes and `intersects` holds of them |
| Geometry.IntersectsUnlessSeparated | crates/kael/src/geometry.rs:935-943 | for rectangles of any size, `intersects` fails if and only if an upright or a level line runs between the two, touching either of them or not |
| BoundsTrees.BoundsTree.Insert | crates/kael/src/bounds_tree.rs:35-129 | for every history of insertions and every choice of child, the order returned is one more than the greatest order among all earlier rectangles that overlap the new one, and the tree stays valid; what overlapping means is said by `Geometry.SharingIsIntersecting` and `Geometry.IntersectsUnlessSeparated` |
| BoundsTrees.BoundsTree.constructor | crates/kael/src/bounds_tree.rs:185-196 | a new tree is valid and holds nothing |
| BoundsTrees.BoundsTree.Clear | crates/kael/src/bounds_tree.rs:29-33 | clearing gives a valid tree that holds nothing |
| BoundsTrees.BoundsTree.PushLeaf | crates/kael/src/bounds_tree.rs:165-168 | appends one leaf, returns its index, changes no other node |
| BoundsTrees.BoundsTree.PushInternal | crates/kael/src/bounds_tree.rs:170-182 | appends one internal node whose cached box and order are those of its two children taken together |
| BoundsTrees.BoundsTree.StepInto | crates/kael/src/bounds_tree.rs:46-75 | one round of the descent goes to the child whose box with the new rectangle is the smaller one, and keeps the relation to the tree as it was: only the nodes passed are widened, and the best order so far joined with what is still below gives the answer for the whole tree |
| BoundsTrees.BoundsTree.GoesLeft | crates/kael/src/bounds_tree.rs:58-69 | the left child is preferred exactly if the least rectangle around it and the new one has the smaller half perimeter |
| BoundsTrees.TheCheaperChildMayGrowMore | crates/kael/src/bounds_tree.rs:58-69 | an insertion in which the preferred child grows although the other would not |
| BoundsTrees.LeastGrowthExactly | crates/kael/src/bounds_tree.rs:58-69 | the preferred child is one that grows least, for every rectangle that may be inserted, if and only if the boxes of the two children have the same half perimeter |
| BoundsTrees.BoundsTree.FindSibling | crates/kael/src/bounds_tree.rs:44-79 | the descent ends at a leaf in that relation |
| BoundsTrees.BoundsTree.Search | crates/kael/src/bounds_tree.rs:43-94 | the order found is the list maximum plus one |
| BoundsTrees.BoundsTree.Link | crates/kael/src/bounds_tree.rs:98-112 | the new parent takes the place of the sibling under its old parent, or becomes the root; nothing else changes |
| BoundsTrees.BoundsTree.RaiseOrders | crates/kael/src/bounds_tree.rs:114-126 | although the walk up stops early, afterwards every ancestor caches the greater of its old order and the new one, and no other node has changed |
| BoundsTrees.BoundsTree.Attach | crates/kael/src/bounds_tree.rs:94-126 | push, link and raise together leave a tree that represents one more rectangle |
| BoundsTrees.DrawAll | crates/kael/src/bounds_tree.rs:302-336 | drawing a whole scene gives every rectangle the order that a brute-force scan of the earlier ones gives |
| BoundsTrees.FindMaxOrdering | crates/kael/src/bounds_tree.rs:131-163 | the pruned, ordered search returns the greater of its bound and the greatest order of any overlapping leaf below |
| BoundsTrees.PruneIsSound | crates/kael/src/bounds_tree.rs:142-160 | a subtree whose cached box misses the query, or whose cached order is no better, cannot change the answer |
| BoundsTrees.CachesCover | crates/kael/src/bounds_tree.rs:170-182 | cached boxes and orders bound everything in the subtree |
| BoundsTrees.CachedOrderIsAttained | crates/kael/src/bounds_tree.rs:170-182 | a cached order is the order of some leaf below: the cache is the exact maximum |
| BoundsTrees.MaxHitIsMaxHit | crates/kael/src/bounds_tree.rs:131-163 | the unpruned walk gives the greatest order over the overlapping leaves, 0 exactly if there is none |
| BoundsTrees.ListMaxIsMaxHit | crates/kael/src/bounds_tree.rs:302-336 | the list scan gives the same greatest order over a multiset of rectangles, 0 exactly if there is none |
| BoundsTrees.ListMaxAgrees | crates/kael/src/bounds_tree.rs:302-336 | the walk over the tree and the scan over the list agree whenever they hold the same rectangles |
| BoundsTrees.OrdersFallAlongPath | crates/kael/src/bounds_tree.rs:114-126 | cached orders never increase on the way down, which is why the early stop is right |
| BoundsTrees.SpliceKeepsTree | crates/kael/src/bounds_tree.rs:94-126 | splicing a leaf in beside a sibling keeps the links a tree, keeps cached orders exact, and adds exactly one entry |
| BoundsTrees.SpliceKeepsHulls | crates/kael/src/bounds_tree.rs:46-56 | the widening on the way down leaves every cached box the exact union of its children after the splice |
| BoundsTrees.AttachIsSplice | crates/kael/src/bounds_tree.rs:46-126 | widening, pushing, linking and raising amount to one splice |
| BoundsTrees.LaterIsAbove | crates/kael/src/bounds_tree.rs:302-336 | of two overlapping rectangles the later one gets the greater order |
| BoundsTrees.OrderIsPileHeight | crates/kael/src/bounds_tree.rs:302-336 | an order is exactly the height of the tallest pile of successively overlapping rectangles that ends there, and at most the number of rectangles drawn |
| BoundsTrees.LaterIsAboveWhereTheyMeet | crates/kael/src/bounds_tree.rs:302-336 | of two rectangles that share an interior point the later one gets the greater order |
| BoundsTrees.OrderIsMeetingPileHeight | crates/kael/src/bounds_tree.rs:302-336 | for rectangles of positive size, an order is exactly the height of the tallest pile that ends there and in which each rectangle shares an interior point with the next |
| ClipPath.PointInConvexPolygon | crates/kael/src/clip_path.rs:231-256 | the loop that remembers the first nonzero sign accepts exactly the points that no two edges see on opposite sides, for three or more vertices |
| ClipPath.CrossesSumToArea | crates/kael/src/clip_path.rs:258-269 | the edge crosses at any point at all sum to the shoelace area |
| ClipPath.InsideMatchesWinding | crates/kael/src/clip_path.rs:231-286 | the sign test accepts a point exactly if every winding-normalised cross is at least zero |
| ClipPath.ConvexSignedDistance | crates/kael/src/clip_path.rs:258-286 | the two passes give the least of the Euclidean distances from the point to the lines through the edges, each negative where the winding calls the side of the point outer; infinite exactly if all vertices coincide, and minus infinity for fewer than three vertices |
| ClipPath.PolygonDistanceIsEuclidean | crates/kael/src/clip_path.rs:258-286 | for every vertex list: the winding-normalised cross over the length of an edge is, up to its sign, the least distance from the point to any point of the line through the edge, and it is attained; the result is the least of these |
| Euclid.DistanceToLine | crates/kael/src/clip_path.rs:271-284 | an outer product over the length of a direction is the Euclidean distance to a line: no point of the line is nearer, and one is as near |
| ClipPath.PolygonTestsAgree | crates/kael/src/clip_path.rs:231-286 | for every vertex list, of any length, winding or degeneracy, hit test and sign of the distance agree |
| ClipPath.DistanceIsRoom | crates/kael/src/clip_path.rs:231-286 | for an accepted point the signed distance is exactly the radius of the largest disc around it that the polygon accepts whole |
| ClipPath.AcceptedPointsAreConvex | crates/kael/src/clip_path.rs:231-256 | with two points a polygon accepts every point between them, so a list in convex position accepts its convex hull |
| ClipPath.PolygonBox | crates/kael/src/clip_path.rs:117-138 | the box is tight on all four sides, and the zero box without vertices |
| ClipPath.SlopesGrow | crates/kael/src/clip_path.rs:231-256 | seen from a point outside on one side, consistent turns make the slopes to the vertices grow along the list |
| ClipPath.SeparatedMeansCollinear | crates/kael/src/clip_path.rs:231-256 | a point that the polygon accepts although some line, of any direction, strictly separates it from the vertices forces all vertices onto one line |
| ClipPath.AcceptedPointsAreEnclosedExactly | crates/kael/src/clip_path.rs:231-256 | no line strictly separates an accepted point from the vertices, which means that it lies in their convex hull, if and only if there are fewer than three vertices or they are not collinear |
| ClipPath.OutsideMeansCollinear | crates/kael/src/clip_path.rs:107-138 | a point that the polygon accepts outside its box forces all vertices onto one line |
| ClipPath.CollinearReachesOutside | crates/kael/src/clip_path.rs:231-256 | conversely, a list of three or more collinear vertices accepts a point outside its box |
| ClipPath.BoxCoversExactly | crates/kael/src/clip_path.rs:107-140 | the box holds everything the polygon accepts if and only if there are fewer than three vertices or they are not collinear |
| ClipPath.AreaMeansBoxed | crates/kael/src/clip_path.rs:117-138 | with nonzero signed area every accepted point lies in the box |
| ClipPath.HitTest | crates/kael/src/clip_path.rs:49-69 | decides containment for all three kinds of shape |
| ClipPath.SignedDistanceTo | crates/kael/src/clip_path.rs:83-104 | for a circle: its radius less the distance to the centre, which is up to its sign the Euclidean distance to the circle. For an ellipse: never more than the Euclidean distance, equal to it at the centre, and falling evenly along every ray from the centre through 0 on the ellipse. For a polygon: the least distance to the line of an edge |
| Euclid.DistanceToCircle | crates/kael/src/clip_path.rs:85-89 | the difference of the radius and the distance to the centre is the least distance to any point of the circle, and it is attained |
| Euclid.EllipseIsNoNearer | crates/kael/src/clip_path.rs:90-102 | no point of an ellipse is nearer than the measured value says |
| Euclid.CentreOfEllipse | crates/kael/src/clip_path.rs:99-100 | the smaller radius is the distance from the centre to the ellipse |
| ClipPath.EllipseDistanceMeasures | crates/kael/src/clip_path.rs:90-102 | the formula with the normalised length and the smaller radius has these three properties at every point |
| ClipPath.TestsAgree | crates/kael/src/clip_path.rs:49-104 | for every shape and point, hit test and sign of the distance agree unless the point is the centre of a circle of radius zero - and only then not |
| ClipPath.BoundingBox | crates/kael/src/clip_path.rs:107-140 | the box of each kind of shape; it holds every accepted point exactly in the cases the polygon criterion allows, and always for circles and ellipses |
| ClipPath.HalfCoverage | crates/kael/src/clip_path.rs:74-78 | coverage lies in [0, 1] and is at least one half exactly on points of nonnegative distance, whatever the edge width |
| ClipPath.CoverageIsRamp | crates/kael/src/clip_path.rs:74-78 | coverage rises in proportion to the distance from 0 to 1 across a band of the edge width around the boundary, and an edge width below epsilon counts as epsilon |
| ClipPath.RasterizeMask | crates/kael/src/clip_path.rs:146-164 | the mask holds at row-major position the coverage of the shape at that texel centre |
| ClipPath.ScaledAlpha | crates/kael/src/clip_path.rs:220-229 | scaling gives the nearest integer to the product of alpha and coverage, halves rounded up; it never exceeds the old value, keeps it at full coverage, clears it at none, and keeps at least half from half coverage on, and at most half, up to rounding, up to half coverage |
| ClipPath.ApplyClipMask | crates/kael/src/clip_path.rs:220-229 | exactly the alpha bytes of the masked pixels change, each to its scaled value |
| ClipPath.ClippingMatchesHitTest | crates/kael/src/clip_path.rs:146-164 | a pixel clipped through a mask keeps at least half its alpha where the hit test accepts its centre, and at most half, up to rounding, where it does not |
| ClipPath.TranslateMovesContents | crates/kael/src/clip_path.rs:198-213 | a translated shape accepts exactly the translated points |
| ClipPath.TranslateKeepsDistance | crates/kael/src/clip_path.rs:198-216 | the signed distance of a moved point from the moved shape is that of the point from the shape |
| ClipPath.MasksMoveWithTheirOrigin | crates/kael/src/clip_path.rs:146-164 | moving the origin by whole pixels shifts the mask by as many texels on each axis, a shape moved together with the origin leaves the same mask, and the first texel has its centre half a pixel from the origin |
| Arenas.AlignOffsetIsLeast | crates/kael/src/arena.rs:59-71 | the padding leads to the least aligned address that is not below the offset |
| Arenas.Chunk.constructor | crates/kael/src/arena.rs:42-57 | a chunk starts empty over its bytes |
| Arenas.Chunk.Allocate | crates/kael/src/arena.rs:59-71 | a chunk either gives out an aligned address and moves its offset past the object, or changes nothing |
| Arenas.Chunk.Reset | crates/kael/src/arena.rs:73-75 | a reset chunk is empty |
| Arenas.Arena.constructor | crates/kael/src/arena.rs:93-102 | an arena starts with one empty chunk |
| Arenas.Arena.Alloc | crates/kael/src/arena.rs:119-173 | the object is put at the first place of the current chunk that is free, aligned and large enough; only if there is none, the arena moves on to the next chunk, which it allocates only if it has none. The box handed out carries the current cell, and there is none exactly where the source panics |
| Arenas.AllocIsFirstFit | crates/kael/src/arena.rs:136-161 | the same on the values of the model, stated by the existence of a free place and without the bump step |
| Arenas.AllocateTakesFirstPlace | crates/kael/src/arena.rs:59-71 | a chunk serves a layout exactly if some aligned address leaves room for it, and takes the least such address |
| Arenas.Arena.Clear | crates/kael/src/arena.rs:108-117 | all objects are dropped, the chunks in use are reset, the first chunk is the current one again, and a fresh validity cell replaces the old one |
| Arenas.Arena.Map | crates/kael/src/arena.rs:182-190 | a box can be mapped exactly if it passes; the mapped box is the one of the same handle after the map step of the model, which changes no other handle and not the arena |
| Arenas.Arena.Validate | crates/kael/src/arena.rs:192-198 | a box passes exactly if its cell is the current one |
| Arenas.AllocKeepsInv | crates/kael/src/arena.rs:119-173 | allocation keeps live objects aligned, inside one chunk below its offset, and pairwise disjoint, and keeps the chunks past the current one empty |
| Arenas.ClearKeepsInv | crates/kael/src/arena.rs:108-117 | clear keeps the invariant and leaves every chunk empty, those past the current one included |
| Arenas.ReachableIsSafe | crates/kael/src/arena.rs:78-198 | the invariant holds after every run of allocations, maps and clears, and every handle passes exactly if its allocation has not been dropped |
| Arenas.EveryHandlePassesUntilClear | crates/kael/src/arena.rs:108-198 | over every run of allocations, maps and clears, every handle, mapped or not, passes if and only if no clear happened since the allocation it stems from; while it passes, that allocation is live where it was and disjoint from every later one, and once it fails, it has been dropped |
| Arenas.DroppedExactlyOnce | crates/kael/src/arena.rs:15-22 | after the arena itself is dropped, every allocation of the run has been dropped exactly once, in order |
| Arenas.SmallLayoutsAreServed | crates/kael/src/arena.rs:136-161 | a layout with size + align - 1 at most the chunk size is always served, with at most one new chunk |
| Arenas.ServiceBoundIsTight | crates/kael/src/arena.rs:59-71 | a new chunk serves a layout wherever it may lie if and only if size + align - 1 is at most the chunk size |
| Arenas.ReplayFrom | crates/kael/src/arena.rs:119-161 | an arena prepared with the chunks another run will need repeats that run address for address without a new chunk |
| Arenas.ReplayNeedsNothingNew | crates/kael/src/arena.rs:104-161 | repeating a sequence of layouts after a clear gives the same addresses and the same number of chunks, so the capacity is unchanged |
| Scaffold.Disk.Run | xtask/src/scaffold.rs:62-158 | the run as written - look, create, write, sync, undo in reverse - does exactly what the step machine does, for every pattern of failing operations |
| Scaffold.Disk.WriteNewFile | xtask/src/scaffold.rs:160-175 | creating, writing and syncing one file is two steps of the machine |
| Scaffold.Disk.Undo | xtask/src/scaffold.rs:139-150 | the rollback removes the counted files in reverse order, then src, then the target |
| Scaffold.StepTakesOnlyItsOwn | xtask/src/scaffold.rs:119-150 | no step removes or replaces an entry of another owner |
| Scaffold.AtMostOneSucceeds | xtask/src/scaffold.rs:121-138 | for any number of concurrent runs, any interleaving and any failures, at most one run succeeds |
| Scaffold.SuccessIsPermanent | xtask/src/scaffold.rs:139-158 | what a successful run wrote is still there whatever the others go on to do |
| Scaffold.ForeignEntriesStay | xtask/src/scaffold.rs:139-150 | entries that were there before all runs stay |
| Scaffold.ExistingTargetStays | xtask/src/scaffold.rs:146-148 | a target directory that was there before all runs is there after every schedule, whatever fails |
| Scaffold.OnlyTheMakerRemovesTheTarget | xtask/src/scaffold.rs:104-107 | at any time at most one unfinished run has made the target, and only that run can remove it |
| Scaffold.OccupiedTargetIsUntouched | xtask/src/scaffold.rs:70-95 | a target that is no directory or not empty is never changed, and no run succeeds on it |
| Scaffold.UndoRestoresExactly | xtask/src/scaffold.rs:139-150 | for every pattern of failures, a rollback restores the file system if and only if none of its own operations fails |
| Scaffold.TornFileStays | xtask/src/scaffold.rs:124-142 | a file that was created but could not be written or synced is not counted, and the rollback leaves it |
| Scaffold.LoneFailure | xtask/src/scaffold.rs:62-158 | for every pattern of failures, a lone run on a clean target succeeds exactly if no operation fails; otherwise it leaves the file system as it was if and only if the first failure is not the writing of a file just created and no operation of the rollback fails |
| Scaffold.ExactlyOneSucceeds | xtask/src/scaffold.rs:62-158 | on a clean target, if no operation fails by itself, exactly one of any number of interleaved runs has succeeded once all have finished |
| Scaffold.TwoFailedRunsLeaveTheTarget | xtask/src/scaffold.rs:139-150 | two runs can both fail, without a failing removal or a torn file, and leave the target directory behind |
| Scaffold.FailedRunsRestoreExactly | xtask/src/scaffold.rs:62-158 | runs that all fail, without a failing removal or a torn file, are sure to leave a clean target as it was if and only if it existed before or there is at most one run |
| AtomicWrite.Directory.AtomicWrite | xtask/src/main.rs:47-102 | the call as written, with its 32 attempts, does exactly what the step machine does for every pattern of failures and short writes; what that comes to is said by `AtomicWrite.OutcomeByOperation` |
| AtomicWrite.Directory.Fill | xtask/src/main.rs:79-85 | writing in pieces refines the single steps |
| AtomicWrite.Directory.Install | xtask/src/main.rs:83-97 | sync, rename and directory sync refine the single steps |
| AtomicWrite.InstallOutcome | xtask/src/main.rs:83-97 | once the contents are written, the call returns Ok exactly if none of the three operations left fails - the sync of the file, the rename, the sync of the directory - and the destination is replaced exactly if neither of the first two does |
| AtomicWrite.OutcomeByOperation | xtask/src/main.rs:47-102 | a lone call that meets t names in use and writes p pieces, under any pattern of failures: it returns Ok exactly if none of the operations 0, 2t + 2 to 2t + 2 + p and 2t + p + 4 to 2t + p + 6 fails, replaces the destination exactly if none of these but the last does, changes no other file, and leaves its temporary file only if two operations in a row fail |
| AtomicWrite.StepTouchesItsOwn | xtask/src/main.rs:56-98 | a step changes at most its own temporary file and, in a rename, the destination |
| AtomicWrite.DestinationIsWhole | xtask/src/main.rs:79-97 | for any number of writers stopped anywhere, the destination holds the old bytes or the complete bytes of one writer |
| AtomicWrite.FinishedCallsAreClean | xtask/src/main.rs:79-97 | a call that returned Ok has replaced the destination and left no temporary file; a failed call leaves one only if the removal failed too |
| AtomicWrite.StaleFilesStay | xtask/src/main.rs:57-77 | files that no writer made, stale temporary files included, are never changed |
| AtomicWrite.ErrorsAndTheDestination | xtask/src/main.rs:79-97 | from any point of a call up to the rename and for every pattern of failures: it returns Ok exactly if no operation makes it fail, the destination gets the complete bytes exactly if it returns Ok or the directory sync after the rename is what fails, and is left alone otherwise |
| AtomicWrite.AnErrorAfterReplacing | xtask/src/main.rs:86-97 | in every directory whose next temporary name is free, failures exist after which the call reports an error although the destination has been replaced |
| AtomicWrite.UndisturbedCallSucceedsExactly | xtask/src/main.rs:55-102 | an undisturbed call succeeds if and only if one of the next 32 temporary names of its process is free; it then replaces the destination and no other file, and otherwise changes no file |
| AtomicWrite.UndisturbedCallSucceeds | xtask/src/main.rs:55-102 | an undisturbed call with a free name among its next ones replaces exactly the destination and skips the names in use |
| AudioHandles.AudioHandle.constructor | crates/kael-media/src/native.rs:674-690 | a new handle is stopped, without engine, at generation 0 |
| AudioHandles.AudioHandle.PlayBegin | crates/kael-media/src/native.rs:693-730 | first half of play: refresh, resume in place, or take a snapshot |
| AudioHandles.AudioHandle.PlayCommit | crates/kael-media/src/native.rs:740-759 | second half of play, under the generation check |
| AudioHandles.AudioHandle.Pause | crates/kael-media/src/native.rs:762-776 | pause on the whole state |
| AudioHandles.AudioHandle.Stop | crates/kael-media/src/native.rs:779-789 | stop on the whole state |
| AudioHandles.AudioHandle.SeekCommit | crates/kael-media/src/native.rs:808-862 | second half of seek, under the generation check |
| AudioHandles.AudioHandle.SetSpeed | crates/kael-media/src/native.rs:875-889 | a change of speed on the whole state |
| AudioHandles.SpeedIsSet | crates/kael-media/src/native.rs:875-889 | the speed becomes the argument, limited to [1/2, 2], and an engine there is follows; state, volume and what is known stay, apart from noticing the end of playback |
| AudioHandles.VolumeIsSet | crates/kael-media/src/native.rs:865-873 | the volume becomes the argument, limited to [0, 1], and an engine there is follows; everything else stays |
| AudioHandles.AudioHandle.RefreshFinished | crates/kael-media/src/native.rs:979-999 | the end of playback is noticed under the lock, without a change of generation |
| AudioHandles.AudioState.CurrentPosition | crates/kael-media/src/native.rs:958-977 | the position never exceeds a known duration, and while not playing it is the stored one within that limit |
| AudioHandles.MinWithIsLimited | crates/kael-media/src/native.rs:973-976 | a position limited by a duration is the position or the duration, whichever comes first |
| AudioHandles.GenerationMovesExactly | crates/kael-media/src/native.rs:693-862 | the generation changes with a stop, a pause while playing, a play that resumes or is accepted, and an accepted seek, and with nothing else |
| AudioHandles.QuietPositionStands | crates/kael-media/src/native.rs:693-977 | over every run in which the generation does not change, a handle that does not play keeps reporting the same position, limited by the duration once that is known, whatever clock and sink show |
| AudioHandles.PausedPositionStands | crates/kael-media/src/native.rs:762-776 | from a pause until the next change of generation, over any run, the position is the one reported at the pause, limited by the duration once that is known |
| AudioHandles.StoppedPositionIsZero | crates/kael-media/src/native.rs:779-789 | from a stop until the next change of generation, over any run, the handle is stopped at 0 |
| AudioHandles.SoughtPosition | crates/kael-media/src/native.rs:835-862 | an accepted seek while not playing moves to the position asked for, or to the end if that comes first, and there the position stays over any run until the next change of generation |
| AudioHandles.SeekIsRemembered | crates/kael-media/src/native.rs:792-807 | a seek that begins records the position asked for, the generation, and what the handle knows, and changes nothing but noticing the end of playback |
| AudioHandles.SeekGoesToTarget | crates/kael-media/src/native.rs:808-862 | an accepted seek reports the position asked for, limited by the duration of the snapshot or else the probed one, by the one found with a new engine, and by the one known afterwards; while playing it advances from there with the new sink |
| AudioHandles.SoughtPositionAdvances | crates/kael-media/src/native.rs:835-977 | from an accepted seek while playing, over any run in which the generation does not change, a handle that still plays reports that target plus what the new sink has played, limited by the duration |
| AudioHandles.PlayingFollowsSink | crates/kael-media/src/native.rs:958-977 | over any run in which the generation does not change, a playing handle plays or has stopped, and while it plays it reports a fixed origin plus what the sink has played |
| AudioHandles.PlayStartsWhereItStood | crates/kael-media/src/native.rs:711-759 | a play that begins and is accepted starts at the position reported when it began, or at 0 if that was the end, and advances from there with the sink over any run in which the generation does not change |
| AudioHandles.ResumesWhereItPaused | crates/kael-media/src/native.rs:700-709 | a handle paused while playing and resumed reports the position of the pause plus what the sink has played since |
| AudioHandles.EndOfPlayback | crates/kael-media/src/native.rs:979-999 | a look at a playing handle stops it exactly if its sink is empty or its duration is reached; it then has no engine and stands at its end |
| AudioHandles.StartingPosition | crates/kael-media/src/native.rs:740-759 | accepted playback starts at the position of its snapshot, or at the end if that comes first |
| AudioHandles.SpeedKeepsPosition | crates/kael-media/src/native.rs:875-889 | a change of speed does not make the position jump |
| AudioHandles.PositionAdvances | crates/kael-media/src/native.rs:958-977 | the position does not run backwards while clock and sink do not |
| AudioHandles.AudioHandle.DurationCommit | crates/kael-media/src/native.rs:916-942 | a probed duration is stored only if the generation still matches and none is known; the answer prefers the stored one |
| AudioHandles.CommitsLearn | crates/kael-media/src/native.rs:746-942 | what an accepted play, seek or request for the duration finds is kept, and what was known stays where nothing is found; a known duration is never replaced by a request |
| AudioHandles.StepKeepsInv | crates/kael-media/src/native.rs:693-999 | every critical section keeps the invariant that ties snapshots to the state they were taken from |
| AudioHandles.ReachableStates | crates/kael-media/src/native.rs:693-889 | along every run in which no generation comes round while work is in progress: a handle that says it plays has a running engine and a start time, and every engine runs at the volume and speed set last |
| AudioHandles.FewEventsNeverWrap | crates/kael-media/src/native.rs:707 | fewer than 2^64 events cannot make a generation come round |
| AudioHandles.AcceptedExactly | crates/kael-media/src/native.rs:740-744 | a commit passes the generation check exactly if the number of changes since its snapshot is a multiple of 2^64 |
| AudioHandles.StaleCommitChangesNothing | crates/kael-media/src/native.rs:740-744 | a commit that anything has overtaken changes nothing beyond noticing the end of playback |
| AudioHandles.StepIsCoherentUnlessLate | crates/kael-media/src/native.rs:835-862 | a step keeps the reported state in agreement with what can be heard if and only if it is not the commit of a seek, begun while playing, after playback has ended |
| AudioHandles.CoherentExactlyWithoutLateSeeks | crates/kael-media/src/native.rs:792-862 | the same over whole runs, in both directions |
| AudioHandles.ALateSeek | crates/kael-media/src/native.rs:835-862 | a concrete run that ends stopped with a running engine |
| AudioSamples.OffsetsDoNotSaturate | crates/kael-media/src/native.rs:602-611 | for every duration the saturating arithmetic is exact |
| AudioSamples.OffsetIsAligned | crates/kael-media/src/native.rs:602-611 | the offset is that of the last whole frame not later than the position, or the end of the samples if that comes first |
| AudioSamples.DurationOfFrames | crates/kael-media/src/native.rs:613-620 | the time of a whole-frame offset is the number of frames over the rate, rounded down |
| AudioSamples.RoundTrip | crates/kael-media/src/native.rs:602-620 | from a whole-frame offset to its time and back never overshoots, loses at most one frame, and loses none if and only if the time is a whole number of nanoseconds |
| AudioSamples.SharedAudioSamples.constructor | crates/kael-media/src/native.rs:547-558 | a source starts at the offset of its position and lasts for what is left |
| AudioSamples.SharedAudioSamples.Next | crates/kael-media/src/native.rs:561-574 | samples come out in order, then none |
| AudioSamples.SharedAudioSamples.TrySeek | crates/kael-media/src/native.rs:593-599 | a seek lands on a whole frame between the start of the source and the end of the samples |
| AudioSamples.CopyBgraFrame | crates/kael-media/src/native.rs:1647-1690 | the checks in order, and on success the packed rows |
| AudioSamples.PackedAt | crates/kael-media/src/native.rs:1682-1687 | byte (row, column) of the packed frame is byte (row, column) of the strided one |
| Refinements.RefineTwice | crates/derive_refineable/src/derive_refineable.rs:192-296 | applying two refinements in turn is applying their merge, for every nested schema |
| Refinements.StructsFieldByField | crates/derive_refineable/src/derive_refineable.rs:192-464 | what refining, defaults, conversion and subtraction do to a struct in every field at any depth: a refinement wins where it says something, and the difference holds exactly the fields in which the two differ |
| Refinements.RefinementsFieldByField | crates/derive_refineable/src/derive_refineable.rs:252-489 | what merging, the default and subtraction do to refinements in every field at any depth |
| Refinements.SayingTheSameIsEqual | crates/derive_refineable/src/derive_refineable.rs:252-296 | two refinements are equal exactly if they say the same in every field, so the field-by-field laws determine the results |
| Refinements.HoldingTheSameIsEqual | crates/derive_refineable/src/derive_refineable.rs:192-250 | the same for structs |
| Refinements.MergeIsAssociative | crates/derive_refineable/src/derive_refineable.rs:252-296 | merging refinements is associative |
| Refinements.EmptyIsNeutral | crates/derive_refineable/src/derive_refineable.rs:585-593 | the default refinement changes nothing and is neutral for merging, from either side |
| Refinements.FromRefinesDefault | crates/derive_refineable/src/derive_refineable.rs:298-319 | converting a refinement refines the value that is default in every plain field |
| Refinements.EmptinessAgrees | crates/derive_refineable/src/derive_refineable.rs:356-367 | is_empty holds exactly of the default refinement, and is_some is its negation |
| Refinements.ContainsMeansFixed | crates/derive_refineable/src/derive_refineable.rs:369-401 | a struct is a superset of a refinement exactly if refining changes nothing |
| Refinements.IncludesMeansNothingLeft | crates/derive_refineable/src/derive_refineable.rs:403-426 | between refinements: superset, merging changes nothing, and nothing left to subtract are the same |
| Refinements.MergeIsIdempotent | crates/derive_refineable/src/derive_refineable.rs:252-296 | merging a refinement with itself changes nothing |
| Refinements.RefinedContainsRefinement | crates/derive_refineable/src/derive_refineable.rs:369-401 | a refined struct is a superset of the refinement |
| Refinements.MinusRestores | crates/derive_refineable/src/derive_refineable.rs:466-489 | merging the difference back gives what merging the whole would |
| Refinements.SubtractRestoresExactly | crates/derive_refineable/src/derive_refineable.rs:428-464 | a struct can be rebuilt from a refinement and its difference to it if and only if no optional field would have to be cleared |
| Refinements.NothingLeftExactly | crates/derive_refineable/src/derive_refineable.rs:428-464 | the difference of a struct from a refinement is empty exactly if the refinement says everything that the struct holds |
| Refinements.RefineFields | crates/derive_refineable/src/derive_refineable.rs:222-250 | the field-by-field assignments give the refined struct |
| Refinements.MergedSlotsApplyInOrder | crates/refineable/src/refineable.rs:175-188 | merging a cascade and applying it once is applying its slots in order |
| Refinements.LastWordWins | crates/refineable/src/refineable.rs:175-188 | in every field the merged cascade says what the last set slot says that says anything there, and nothing if none does |
| Refinements.Cascade.constructor | crates/refineable/src/refineable.rs:101-108 | a cascade starts with the empty base refinement |
| Refinements.Cascade.Reserve | crates/refineable/src/refineable.rs:137-144 | a reserved slot is new, empty and above the base |
| Refinements.Cascade.SetBase | crates/refineable/src/refineable.rs:150-154 | the base can be replaced and nothing else changes |
| Refinements.Cascade.Set | crates/refineable/src/refineable.rs:160-173 | a slot of this cascade is set; any other is refused without effect |
| Refinements.Cascade.Merged | crates/refineable/src/refineable.rs:180-188 | the merge of all slots |
| Refinements.Cascade.Build | crates/refineable/src/refineable.rs:55-62 | building from a cascade applies its slots in order to the default value of the struct, whatever its author chose that to be |
| Bezier.CubicBezier | crates/kael/src/animation.rs:1019-1035 | the loop of twelve rounds reads the curve off at the bisected parameter |
| Bezier.AxisIsBezierCurve | crates/kael/src/animation.rs:1037-1040 | the polynomial is the cubic Bezier curve of the control values 0, p1, p2 and 1, by three rounds of linear interpolation |
| Bezier.BracketCloses | crates/kael/src/animation.rs:1019-1032 | for any control values, the bracket around the time halves with every round and keeps the time between its ends |
| Bezier.AxisIncreases | crates/kael/src/animation.rs:1037-1040 | with control values in [0, 1] a coordinate strictly increases, at most three times as fast as the parameter |
| Bezier.ParameterIsClose | crates/kael/src/animation.rs:1019-1032 | the parameter found is within 2^-12 of the exact one |
| Bezier.EasingIsAccurate | crates/kael/src/animation.rs:1019-1035 | for x control points in [0, 1] and any y control values, the eased value is within 3 (1 + |y1| + |y2|) / 4096 of the exact one, clamped as well; within 3/4096 if the y values lie in [0, 1] |
| Bezier.SteepCurvesAreLessAccurate | crates/kael/src/animation.rs:1019-1035 | with y values 100 and -100 the eased value can be more than 70/4096 off |
| Bezier.StartIsExact | crates/kael/src/animation.rs:1019-1032 | at delta 0 the bracket is the point 0 |
| Bezier.EndIsMissed | crates/kael/src/animation.rs:1019-1032 | at delta 1 the upper end stays put, so the parameter stays below 1 |
| Bezier.EasedStart | crates/kael/src/animation.rs:1019-1035 | every curve starts at exactly 0, whatever its control points |
| Bezier.EndIsNeverReached | crates/kael/src/animation.rs:1019-1035 | at delta 1 no curve, whatever its control points, is read off later than at 1 - 2^-12, and none with control values in [0, 1] gives 1 |
| Bezier.EasedEnd | crates/kael/src/animation.rs:1019-1035 | for x control points in [0, 1] and any y control values, the easing ends at exactly 1 if and only if a linear condition on the y values holds, namely that the curve is at 1 or above at 1 - 2^-12 |
| KeyframeTracks.KeyframeTrack.Insert | crates/kael/src/animation.rs:513-518 | the track stays what a stable sort of all inserts gives |
| KeyframeTracks.KeyframeTrack.Sample | crates/kael/src/animation.rs:564-589 | an empty track gives the default, times outside the keys the first and last values, and other times what the two keys around them make of it: the first value if it holds, else the point on the way to the second that its easing gives for the share of the time gone, which is 0 for spans up to epsilon. The binary search picks the keys that a scan picks |
| KeyframeTracks.SampledIsSample | crates/kael/src/animation.rs:564-589 | the same for every sorted list of keys, times and easings |
| KeyframeTracks.PartitionPoint | crates/kael/src/animation.rs:514-516 | halving finds the number of keys not later than a time |
| KeyframeTracks.InsertIsStable | crates/kael/src/animation.rs:513-518 | a new key comes after the older keys of its time |
| KeyframeTracks.TrackIsStableSort | crates/kael/src/animation.rs:513-518 | after any inserts the track is sorted, a permutation of them, and keeps the order of keys at one time |
| KeyframeTracks.ScanMeetsPartition | crates/kael/src/animation.rs:575-576 | the last key not later than a time, found by a scan, is the one before the partition point |
| KeyframeTracks.SampleIsBracketed | crates/kael/src/animation.rs:564-589 | with easings in [0, 1] a sample lies between the values of the two keys around it |
| KeyframeTracks.LinearSegmentIsTheChord | crates/kael/src/animation.rs:579-587 | with linear easing a segment is the chord between its keys |
| KeyframeTracks.SamplePassesThroughKeys | crates/kael/src/animation.rs:564-589 | at the time of a key that is the last of its time and later than the first key (or the first key itself), sampling gives the value of that key, for every easing that starts at 0 |
| KeyframeTracks.StepsExactly | crates/kael/src/animation.rs:564-578 | a track of steps gives the last value not later, except exactly where several keys share the first time and differ |
| UnixTime.UnixToUtc | xtask/src/update_feed.rs:377-420 | both loops end, the fields are valid, and both counting from 1970 and the closed formula of the Gregorian calendar give the input back |
| UnixTime.MonthAndDay | xtask/src/update_feed.rs:391-413 | the scan of the month table finds the month and day of a day of the year |
| UnixTime.SecondsOrderDates | xtask/src/update_feed.rs:377-420 | counting seconds is injective and strictly monotone in the order of the fields, so the conversion is the exact inverse and strictly increasing |
| UnixTime.DaysBeforeYearInClosedForm | xtask/src/update_feed.rs:382-389 | the days that the year loop subtracts are the Gregorian closed form |
| UnixTime.MonthsFillTheYear | xtask/src/update_feed.rs:391-404 | the month table adds up to the length of the year |
| UnixTime.DaysBeforeMonthInClosedForm | xtask/src/update_feed.rs:391-413 | the days before a month are (367 m - 362) / 12, less 1 or 2 after February |
| UnixTime.SecondsInClosedForm | xtask/src/update_feed.rs:377-420 | counting seconds by years and months is the closed formula of the Gregorian calendar, and a valid day lies before the next month |
| UnixTime.YearOfSeconds | xtask/src/update_feed.rs:382-389 | the year has at most four digits exactly below 253402300800 seconds |
| UnixTime.StampIsRfc3339 | xtask/src/update_feed.rs:364-375 | the stamp has the twenty characters of an RFC 3339 date-time exactly below that bound |
| UnixTime.StampReadsBack | xtask/src/update_feed.rs:371-374 | every number can be read back from its place in the stamp |
| UnixTime.StampsSortByTime | xtask/src/update_feed.rs:371-374 | until the end of 9999 stamps compare as text exactly as their times do |
| UnixTime.SortingEndsWithTheYear9999 | xtask/src/update_feed.rs:371-374 | the last second of 9999 and the next one compare as text the other way round |
| UnixTime.StampsSortExactlyUntil10000 | xtask/src/update_feed.rs:371-374 | the stamps of all times up to a given second sort as text in the order of time if and only if that second lies before the year 10000 |
| ArArchives.WriteArArchive | xtask/src/bundle.rs:819-838 | the loop appends the magic and the entries of all members in order |
| ArArchives.ParseAr | xtask/src/bundle.rs:1277-1296 | the loop collects what the recursive reader collects, and stops where it fails |
| ArArchives.TrimIsExact | xtask/src/bundle.rs:1282-1284 | trimming takes off exactly the outer whitespace, and changes nothing exactly if there is none |
| ArArchives.HeaderIsSixtyBytes | xtask/src/bundle.rs:822-831 | a header with an ASCII name has sixty bytes exactly if the name has at most sixteen characters and the size is below 10^10 |
| ArArchives.EntryLayout | xtask/src/bundle.rs:821-837 | an entry that fits has name, time, owner, group, mode, decimal size and the closing bytes in the columns of the format, then the data, then a newline if the data is of odd length |
| ArArchives.ArchiveLayout | xtask/src/bundle.rs:819-838 | an archive opens with the eight magic bytes, and every entry stands where the ones before it end |
| ArArchives.MembersStartEven | xtask/src/bundle.rs:833-837 | every member starts at an even offset |
| ArArchives.WrittenIsReadTrimmed | xtask/src/bundle.rs:1277-1296 | whatever fits is read back complete and in order, with names trimmed |
| ArArchives.RoundTripsExactlyWhenClean | xtask/src/bundle.rs:1277-1296 | for members with ASCII names, reading returns exactly what was written if and only if every member fits its header and no name has outer whitespace |
| Decimals.PaddedKeepsOrder | xtask/src/update_feed.rs:371-374 | zero-padded numbers of one width compare as text as they do as numbers |
| Decimals.ValueOfPadded | xtask/src/bundle.rs:829 | a formatted number reads back as itself |

## Left out

Weaker than the source in one respect:

- BoundsTrees.BoundsTree.Insert: orders are unbounded here and 32-bit in the source; `OrderIsPileHeight` shows that an order never exceeds the number of rectangles drawn, so they differ only beyond 2^32 - 1 rectangles.
- BoundsTrees.BoundsTree.GoesLeft: says which child is preferred, not what that does for the tree; the balance of the tree is not studied.
- ClipPath.RasterizeMask: the saturation of `width * height` is not modelled, because a mask of that size cannot be allocated.
- Arenas.Arena.Alloc: a panic inside the closure that builds the object is not modelled, nor is the overflow of addresses at the top of the address space.
- AtomicWrite.Directory.AtomicWrite: the creation of the parent directory and the check of the file name come before the model starts; the counter of temporary names does not wrap around at 2^64.
- AudioHandles.AudioHandle.CurrentPosition: the saturation of durations at about 5.8 * 10^11 years is not modelled, and the scaled elapsed time is rounded down to nanoseconds.
- AudioSamples.RoundTrip: stated for rates up to 10^9 and offsets whose time fits 64-bit nanoseconds; beyond that the source saturates.
- AudioSamples.CopyBgraFrame: failure of the memory reservation is not modelled.
- KeyframeTracks.KeyframeTrack.Insert: times are finite; what a NaN time does to the order is not modelled.
- AudioHandles.ReachableStates: a generation that comes round while work is in progress, after 2^64 changes, is excluded; `AcceptedExactly` says what happens then.
- UnixTime.UnixToUtc: the clock is a parameter, and seconds are unbounded instead of 64-bit.
- ArArchives.ParseAr: names are written from ASCII text only. A name with other characters is padded by characters and stored in more bytes, so that its header is longer than sixty bytes and the reader looks for the size in the wrong place; the reader's lossy decoding of such bytes and its trimming of non-ASCII white space are not modelled either. A size has at most ten digits and cannot overflow.

Not modelled at all:

- Floating point rounding, infinities and NaN; colours, the square-root, exponential, elastic and back easings.
- `ClipShape::as_rounded_clip`: a field-by-field conversion.
- Decoders, audio devices, probing and the staging of media files: what they find out is arbitrary.
- File contents other than the bytes of `atomic_write`, permissions, symbolic links, durability after a crash, and processes that remove other people's files.
- Attribute parsing, where-clauses, serialization and `Debug` output of the derive macro.
- Template rendering and name checking in the scaffolder; icons, signing, `tar` and `gzip` in the bundler; the command line.
- Rendering, windows, text, input, layout and everything else that talks to a platform.
