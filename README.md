# LidarGame point storage, modelled in Dafny

LidarGame is a Unity game in which the player scans the scene with a lidar. Every hit
becomes a coloured, time-stamped point. The points are kept in one of several spatial
indexes, and each frame they are mirrored into pages of a render buffer.

This project models the data structures and jobs behind that storage:

- **the arena k-d tree** `BurstKdTree` and its jobs:
  - insert, where a nearby point is refreshed instead of adding a new one;
  - filter and apply of a batch of insertions;
  - naive cleanup of expired points;
  - balanced rebuild;
  - mirroring into render pages;
- **the object k-d tree** `KDTree`, with its height statistics;
- **`SimpleKdTree`**, which samples a skinned mesh's vertices for `SkinnedMeshStorage`;
- **the arena octree** `BurstOctree`;
- **the spatial hash** `GridHashList` and **`GridHashStorage`**, built on it:
  - prefilter and apply of a batch;
  - expiry cleanup;
  - render-entry sizing;
  - page copy;
- **`AsyncReadWriteLock`**, the lock that guards the storage between jobs;
- **`RateLimiter`**.

How the model is built:

- Values are datatypes and pure code is functions.
- Objects whose fields the source updates in place are classes. Their arenas and lists are `seq` fields, and their methods are proved against specification functions.
- Loops are `while` / `for` loops with invariants.
- Each structure's promises are proved as lemmas about those functions: what a nearest-point query returns, what survives a cleanup, what a page holds, the lock's first-in first-out order, and the rate limiter's spacing.

Coordinates, timestamps and densities are `real`. The source compares distances with
`math.distance`; only the octree's box test squares, with `math.lengthsq`. The model compares squared distances instead, which order the same way
over the reals. The source's `distance(a, b) < d` is modelled as `DistLt(a, b, d)`,
which is `d > 0 && |a - b|² < d²`.

## Model

| member | source | states |
|---|---|---|
| Geometry.ComparePoints | Assets/Scripts/Tree.cs:137-144 | the comparison is negative exactly when the first point's coordinate on the axis is smaller, and zero exactly when the coordinates are equal |
| Geometry.AxisStep | Assets/Scripts/Common/SimpleKdTree.cs:96 | advancing the splitting axis as `(axis + 1) % 3` keeps it equal to depth mod 3 |
| Geometry.FarSideBound | Assets/Scripts/Tree.cs:128-129 | for a point on the other side of a splitting plane, the squared gap to the plane is at most its squared distance from the target, which is why the far side may be skipped |
| Points.PositionsIgnoreTimestamp | Assets/Scripts/Jobs/TreeInsertJob.cs:17-20 | refreshing one point's timestamp leaves every position of the tree as it was |
| Points.SurvivorsExact | Assets/Scripts/Jobs/NaiveTreeCleanupJob.cs:16-18 | the survivors of a cleanup are exactly the live points with their multiplicities, every survivor is live, and the list never grows |
| Points.SurvivorsAllAlive | Assets/Scripts/Jobs/NaiveTreeCleanupJob.cs:16-20 | nothing is removed if and only if every point is live, and then the list is unchanged |
| Points.ExpiresAtLimit | Assets/Scripts/Jobs/NaiveTreeCleanupJob.cs:17 | a point whose age is exactly the maximum age is removed (the kept test is strict) |
| KdArena.AttachPoint | Assets/Scripts/Tree.cs:68-99 | the descent ends at a node at or below the start whose chosen child slot is empty |
| KdArena.AttachInReach | Assets/Scripts/Tree.cs:68-99 | the node the descent ends at lies in the start node's subtree |
| KdArena.AttachReach | Assets/Scripts/Tree.cs:68-99 | after attaching, the start node's subtree is its old subtree plus exactly the new node |
| KdArena.AttachKeepsOrder | Assets/Scripts/Tree.cs:68-99 | attaching keeps every splitting plane of the subtree respected: smaller coordinates on the left, the others on the right |
| KdArena.OrderedSplits | Assets/Scripts/Tree.cs:68-99 | in an ordered tree the two subtrees of a node are disjoint and do not contain the node |
| KdArena.InsertValid | Assets/Scripts/Tree.cs:57-99 | inserting into a well-formed arena gives a well-formed arena with one node more, the new node a leaf pointing at the new point |
| KdArena.Build | Assets/Scripts/Tree.cs:57-99 | inserting a list of points one by one from the empty arena gives a well-formed arena |
| KdArena.BuildSnoc | Assets/Scripts/Tree.cs:57-99 | building from a list with one more point is inserting that point into the arena built from the list |
| KdArena.NearestFrom | Assets/Scripts/Tree.cs:106-134 | the recursive search returns -1 or a point index, and returns a point whenever a best was given or the subtree is not empty |
| KdArena.NearestFromSource | Assets/Scripts/Tree.cs:106-126 | the search returns the best it was given or the point of a node in the subtree |
| KdArena.NearestFromNoWorse | Assets/Scripts/Tree.cs:114-120 | the search never returns a point farther than the best it was given |
| KdArena.PruneSafe | Assets/Scripts/Tree.cs:128-131 | when the plane gap is at least the best distance, every point on the far side is no closer than the best |
| KdArena.OtherSideBeats | Assets/Scripts/Tree.cs:128-133 | after the optional far-side search, the result is no farther than the near-side best and no farther than any far-side point |
| KdArena.NearestFromBeats | Assets/Scripts/Tree.cs:106-134 | the result of the search is at least as close as every point of the subtree |
| KdArena.EuclideanPlaneBound | Assets/Scripts/Tree.cs:128-129 | the squared distance and squared axis gap used by the trees satisfy the plane bound the pruning relies on |
| KdArena.FindNearest | Assets/Scripts/Tree.cs:101-104 | -1 exactly when the tree has no points, otherwise the index of a point at least as close to the target as every other point |
| KdTree.InsertState | Assets/Scripts/Tree.cs:57-99 | inserting keeps the tree well-formed, appends the point and adds one node |
| KdTree.BuildState | Assets/Scripts/Tree.cs:57-99 | the tree built by inserting a list holds exactly that list, well-formed |
| KdTree.BuildStateSnoc | Assets/Scripts/Tree.cs:57-99 | building from a list plus one point is building from the list, then inserting the point |
| KdTree.BurstKdTree.constructor | Assets/Scripts/Tree.cs:47-50 | a new tree is empty and well-formed |
| KdTree.BurstKdTree.Insert | Assets/Scripts/Tree.cs:57-99 | the point is appended to the point list, the arena becomes the specification's insertion, and the tree stays well-formed |
| KdTree.BurstKdTree.FindNearest | Assets/Scripts/Tree.cs:101-134 | -1 exactly when empty, otherwise the index of a closest point |
| KdTree.BurstKdTree.Clear | Assets/Scripts/Tree.cs:209-210 | clearing leaves an empty, well-formed tree |
| BurstTreeJobs.MergeStep | Assets/Scripts/Tree.cs:163-181 | one insertion keeps the tree well-formed |
| BurstTreeJobs.MergeStepEffect | Assets/Scripts/Tree.cs:163-181 | an insertion near an existing point refreshes that point's timestamp and leaves the arena alone, otherwise every point is far and the new point is appended |
| BurstTreeJobs.MergeAll | Assets/Scripts/Tree.cs:161-182 | a batch of insertions keeps the tree well-formed |
| BurstTreeJobs.MergeAllCount | Assets/Scripts/Tree.cs:161-182 | a batch adds at most one point per insertion and removes none |
| BurstTreeJobs.MergeOne | Assets/Scripts/Tree.cs:163-181 | the loop body performs exactly one specified insertion |
| BurstTreeJobs.TreeInsertJob | Assets/Scripts/Tree.cs:161-182 | the job leaves the tree in the state of the whole batch merged in order |
| BurstTreeJobs.CleanupKeepsSurvivors | Assets/Scripts/Tree.cs:199-218 | after cleanup the tree holds exactly the survivors, well-formed; it never grows, and it is unchanged when every point is live |
| BurstTreeJobs.CleanupIdempotent | Assets/Scripts/Jobs/NaiveTreeCleanupJob.cs:13-28 | cleaning twice at the same time is cleaning once |
| BurstTreeJobs.CollectSurvivors | Assets/Scripts/Tree.cs:202-206 | the buffer holds the survivors in their order |
| BurstTreeJobs.Rebuild | Assets/Scripts/Tree.cs:208-215 | the tree is cleared and rebuilt from the buffer |
| BurstTreeJobs.TreeCleanupJob | Assets/Scripts/Tree.cs:199-218 | the tree ends as the cleanup specification of its old state |
| NaiveTreeCleanup.NaiveTreeCleanupJob | Assets/Scripts/Jobs/NaiveTreeCleanupJob.cs:13-28 | the job ends in the same cleanup state as the tree's own cleanup job |
| TreeApply.InsertCount | Assets/Scripts/Jobs/TreeInsertJob.cs:14-29 | the number of non-update insertions is at most the batch size |
| TreeApply.InsertedPoints | Assets/Scripts/Jobs/TreeInsertJob.cs:22-27 | the points a batch appends number exactly its non-update insertions |
| TreeApply.ApplyStep | Assets/Scripts/Jobs/TreeInsertJob.cs:17-27 | one update or insertion keeps the tree well-formed |
| TreeApply.ApplyStepPoints | Assets/Scripts/Jobs/TreeInsertJob.cs:17-27 | an update sets only that point's timestamp; an insertion appends the new point |
| TreeApply.ApplyAll | Assets/Scripts/Jobs/TreeInsertJob.cs:14-29 | the batch keeps the tree well-formed and grows it by exactly the number of insertions |
| TreeApply.ApplyAllKeeps | Assets/Scripts/Jobs/TreeInsertJob.cs:17-20 | after the batch every earlier point keeps its position and colour |
| TreeApply.ApplyAllAppends | Assets/Scripts/Jobs/TreeInsertJob.cs:22-27 | the points after the old end are exactly the batch's insertions in order |
| TreeApply.ApplyAllEffect | Assets/Scripts/Jobs/TreeInsertJob.cs:14-29 | both at once: the old points keep position and colour, and the new tail is the insertions |
| TreeApply.TreeInsertJob | Assets/Scripts/Jobs/TreeInsertJob.cs:14-29 | the job performs the batch specified by `ApplyAll` |
| TreeFilterUpdate.Classify | Assets/Scripts/Jobs/TreeFilterUpdateJob.cs:14-31 | only the update fields change. When some point is within density, the result is an update of the nearest point, which is within density; when every point is far, the insertion is unchanged |
| TreeFilterUpdate.NearestFarMeansAllFar | Assets/Scripts/Jobs/TreeFilterUpdateJob.cs:22-30 | when the nearest point is not within density, no point is |
| TreeFilterUpdate.TreeFilterUpdateJob | Assets/Scripts/Jobs/TreeFilterUpdateJob.cs:9-31 | job `index` writes only its own slot, with the classification of its insertion |
| TreeFilterUpdate.RunFilter | Assets/Scripts/Jobs/TreeFilterUpdateJob.cs:9-31 | running the job for every index classifies every insertion |
| PointerKdTree.SizeIsCount | Assets/Scripts/Tree.cs:221-231 | a tree's size is the number of points it holds |
| PointerKdTree.InsertAt | Assets/Scripts/Tree.cs:239-252 | inserting makes the tree one point larger |
| PointerKdTree.InsertContents | Assets/Scripts/Tree.cs:239-252 | inserting adds exactly the point to the multiset of points |
| PointerKdTree.InsertOrdered | Assets/Scripts/Tree.cs:239-252 | inserting keeps every splitting plane respected |
| PointerKdTree.InsertMembers | Assets/Scripts/Tree.cs:239-252 | after inserting, every point is an old point or the new one |
| PointerKdTree.InsertHeight | Assets/Scripts/Tree.cs:239-252 | inserting raises the height by at most one |
| PointerKdTree.NearestIn | Assets/Scripts/Tree.cs:258-283 | the search returns a point whenever a best was given or the tree is not empty |
| PointerKdTree.Closer | Assets/Scripts/Tree.cs:263-269 | the new best is the node's point or the old best, and is no farther than either |
| PointerKdTree.NearestInSource | Assets/Scripts/Tree.cs:258-283 | the search returns the best it was given or a point of the tree, and is never farther than the given best |
| PointerKdTree.PruneSafe | Assets/Scripts/Tree.cs:277-280 | when the plane gap is at least the best distance, every point on the far side is no closer |
| PointerKdTree.OtherSideBeats | Assets/Scripts/Tree.cs:277-282 | after the optional far-side search, the result beats the near-side best and every far-side point |
| PointerKdTree.NearestInBeats | Assets/Scripts/Tree.cs:258-283 | the result is at least as close as every point of the tree |
| PointerKdTree.HeightBounds | Assets/Scripts/Tree.cs:297-303 | the height is at most the size, and zero exactly for the empty tree |
| PointerKdTree.SumLevelsBound | Assets/Scripts/Tree.cs:305-315 | the summed levels are at most size times the deepest level |
| PointerKdTree.CalculateHeightStats | Assets/Scripts/Tree.cs:305-315 | the accumulators grow by the summed levels and the node count of the subtree |
| PointerKdTree.AverageLevel | Assets/Scripts/Tree.cs:290-295 | the average height is 0 for the empty tree and otherwise between 0 and the tree's height |
| PointerKdTree.KDTree.constructor | Assets/Scripts/Tree.cs:221-233 | a new tree has no root |
| PointerKdTree.KDTree.Insert | Assets/Scripts/Tree.cs:235-237 | the root becomes the recursive insertion, which adds exactly the point |
| PointerKdTree.KDTree.FindNearest | Assets/Scripts/Tree.cs:254-256 | no result exactly when the tree is empty, otherwise a point of the tree at least as close as every point of the tree |
| PointerKdTree.KDTree.GetMaxHeight | Assets/Scripts/Tree.cs:286-288 | the height is 0 exactly for an empty tree and at most the number of points |
| PointerKdTree.KDTree.GetAverageHeight | Assets/Scripts/Tree.cs:290-295 | the result is the average level, between 0 and the height |
| SimpleKdTree.PreOrder | Assets/Scripts/Common/SimpleKdTree.cs:46-68 | the pre-order of a subtree lists only nodes of that subtree |
| SimpleKdTree.PreOrderMembers | Assets/Scripts/Common/SimpleKdTree.cs:46-68 | a node is in the pre-order exactly when it is in the subtree |
| SimpleKdTree.PreOrderSize | Assets/Scripts/Common/SimpleKdTree.cs:46-68 | in an ordered tree the pre-order visits each subtree node once |
| SimpleKdTree.PreOrderCovers | Assets/Scripts/Common/SimpleKdTree.cs:46-68 | from the root the traversal visits every node exactly once |
| SimpleKdTree.MaxDepthBounds | Assets/Scripts/Common/SimpleKdTree.cs:151-160 | the depth of a subtree is at most its node count, and zero exactly for a missing child |
| SimpleKdTree.SumDepthsBound | Assets/Scripts/Common/SimpleKdTree.cs:171-180 | the depth sum is non-negative and at most the node count times the deepest level |
| SimpleKdTree.AverageDepth | Assets/Scripts/Common/SimpleKdTree.cs:162-169 | the average depth of a non-empty tree is between 0 and its depth minus one |
| SimpleKdTree.SimpleKdTree.constructor | Assets/Scripts/Common/SimpleKdTree.cs:26-29 | a new tree is empty and well-formed |
| SimpleKdTree.SimpleKdTree.Insert | Assets/Scripts/Common/SimpleKdTree.cs:36-44 | the point is appended and the arena becomes the specified insertion, well-formed |
| SimpleKdTree.Descend | Assets/Scripts/Common/SimpleKdTree.cs:70-98 | the walk from the root, axis advancing per level, ends at an existing node whose child on the chosen side is absent, the node and side the specified insertion attaches to |
| SimpleKdTree.SimpleKdTree.TraverseLeftToRightIterative | Assets/Scripts/Common/SimpleKdTree.cs:46-68 | the result lists the points in pre-order, one per point of the tree |
| SimpleKdTree.Traverse | Assets/Scripts/Common/SimpleKdTree.cs:50-66 | the stack loop emits the points of the tree's pre-order |
| SimpleKdTree.PopAndVisit | Assets/Scripts/Common/SimpleKdTree.cs:53-62 | one pop keeps emitted-then-pending equal to the whole order and strictly shrinks the work left |
| SimpleKdTree.SimpleKdTree.FindNearest | Assets/Scripts/Common/SimpleKdTree.cs:100-129 | -1 exactly when empty, otherwise the index of a closest point |
| SimpleKdTree.SimpleKdTree.GetMaxDepth | Assets/Scripts/Common/SimpleKdTree.cs:151-160 | the depth of a non-empty tree is between 1 and its node count |
| SimpleKdTree.SimpleKdTree.MaxDepthOf | Assets/Scripts/Common/SimpleKdTree.cs:155-160 | the recursion computes the specified depth of the subtree |
| SimpleKdTree.SimpleKdTree.GetDepths | Assets/Scripts/Common/SimpleKdTree.cs:171-180 | the accumulators grow by the subtree's depth sum and node count |
| SimpleKdTree.SimpleKdTree.GetAverageDepth | Assets/Scripts/Common/SimpleKdTree.cs:162-169 | the result is the average depth, between 0 and depth minus one |
| SkinnedMeshStorage.SampleExtends | Assets/Scripts/Storage/SkinnedMeshStorage.cs:109-133 | sampling only appends to the tree's points |
| SkinnedMeshStorage.SampleBound | Assets/Scripts/Storage/SkinnedMeshStorage.cs:110-114 | sampling stops at the vertex cap |
| SkinnedMeshStorage.SampleSpread | Assets/Scripts/Storage/SkinnedMeshStorage.cs:116-131 | every two sampled points are more than the density apart |
| SkinnedMeshStorage.SampleOrder | Assets/Scripts/Storage/SkinnedMeshStorage.cs:110-129 | every sampled point is a vertex tagged with its own index, in increasing vertex order |
| SkinnedMeshStorage.SampleCovers | Assets/Scripts/Storage/SkinnedMeshStorage.cs:110-131 | when the cap is not reached, every vertex lies within the density of some sampled point |
| SkinnedMeshStorage.NearestDecides | Assets/Scripts/Storage/SkinnedMeshStorage.cs:116-131 | testing only the nearest point against the density decides whether every point is far |
| SkinnedMeshStorage.SampleSkinJob | Assets/Scripts/Storage/SkinnedMeshStorage.cs:109-133 | the job leaves the tree holding the specified sample, well-formed |
| SkinnedMeshStorage.CreateVertexPositions | Assets/Scripts/Storage/SkinnedMeshStorage.cs:93-99 | the first row holds each sample's vertex index, the second row the never-stamped marker |
| SkinnedMeshStorage.SampledIndexExact | Assets/Scripts/Storage/SkinnedMeshStorage.cs:95 | the vertex index stored with a sample is a whole number, so the cast loses nothing, and it names the sampled vertex |
| SkinnedMeshStorage.SkinnedMeshStorage.Awake | Assets/Scripts/Storage/SkinnedMeshStorage.cs:29-60 | the texture holds the sample of at most 16384 vertices, laid out as above, and the count is the sample's size |
| SkinnedMeshStorage.SkinnedMeshStorage.Insert | Assets/Scripts/Storage/SkinnedMeshStorage.cs:75-80 | the storage stays well-formed and one vertex's stamp in the second row is set to the time |
| SkinnedMeshStorage.StampChangesOneAlpha | Assets/Scripts/Storage/SkinnedMeshStorage.cs:75-80 | stamping changes only the alpha of one second-row slot, to the time |
| Octree.PruneSound | Assets/Scripts/Octree.cs:28-34 | a box that misses the sphere holds no point within the radius |
| Octree.CenterInsideIntersects | Assets/Scripts/Octree.cs:28-34 | a box containing the target always intersects the search sphere |
| Octree.GetChildIndex | Assets/Scripts/Octree.cs:219-226 | the octant is in 0..7, and its three bits say on which side of the centre the point lies on x, y and z |
| Octree.ChildIndexContains | Assets/Scripts/Octree.cs:219-226 | the point lies in the child box its octant names |
| Octree.ChildBoxInside | Assets/Scripts/Octree.cs:143-191 | every child box lies inside its parent box |
| Octree.NewNode | Assets/Scripts/Octree.cs:58-66 | a new node is a leaf with no points |
| Octree.Octants | Assets/Scripts/Octree.cs:143-191 | subdivision creates eight new leaves, one per octant box |
| Octree.SubdivideKeeps | Assets/Scripts/Octree.cs:143-191 | subdividing a leaf keeps the arena well-formed and only grows it |
| Octree.ParentOk | Assets/Scripts/Octree.cs:181-190 | after subdividing, the parent's children are the eight new nodes, with the octant boxes |
| Octree.ReplaceKeeps | Assets/Scripts/Octree.cs:118-128 | updating a node's point slice keeps the arena well-formed |
| Octree.AppendKeeps | Assets/Scripts/Octree.cs:123 | appending a point index keeps the arena well-formed |
| Octree.GrowsTrans | Assets/Scripts/Octree.cs:100-217 | the arena only grows, across any sequence of steps |
| Octree.ScanSpec | Assets/Scripts/Octree.cs:242-250 | scanning a leaf returns a real point, only improves on the best, and is no farther than any point scanned |
| Octree.LeafIds | Assets/Scripts/Octree.cs:242-250 | a leaf's slice of the index buffer has exactly its point count |
| Octree.ReachesIsIntersects | Assets/Scripts/Octree.cs:256-265 | the squared-distance test on a child is the box-sphere intersection with the best distance's root |
| Octree.NearestFromSpec | Assets/Scripts/Octree.cs:236-268 | the search names a real point and only replaces the best by a strictly closer one |
| Octree.ChildrenFromSpec | Assets/Scripts/Octree.cs:252-266 | the same for the loop over the eight children |
| Octree.RoutedChild | Assets/Scripts/Octree.cs:138-139 | the corrected routing, which insertion uses: a later node, the child whose box holds the point whenever the parent's box does |
| Octree.OctantIsNotChild | Assets/Scripts/Octree.cs:138-139 | a point in octant 0 of a subdivided root is routed to node 0, the root itself, not to the child node 1 |
| Octree.BurstOctree.constructor | Assets/Scripts/Octree.cs:84-92 | a new octree is one empty leaf with the world bounds |
| Octree.BurstOctree.Insert | Assets/Scripts/Octree.cs:100-106 | the point is appended and the arena only grows; when it returns, a point inside the world box has a new buffer entry; a point outside it leaves the nodes and the buffer unchanged |
| Octree.BurstOctree.InsertPoint | Assets/Scripts/Octree.cs:108-141 | a point outside the node is ignored; a leaf with room takes it into its slice; on return, a point inside the box has a new buffer entry, and a full leaf is split with every point of its slice inside its box entered again |
| Octree.BurstOctree.AddToLeaf | Assets/Scripts/Octree.cs:117-127 | the point's index is appended to the buffer and the leaf's slice grows by one, its start set on the first point |
| Octree.InterleavedSlice | Assets/Scripts/Octree.cs:119-124 | a leaf's slice of the shared buffer names another leaf's point, and misses its own, once the two take points alternately |
| Octree.BurstOctree.Subdivide | Assets/Scripts/Octree.cs:143-191 | the node gets eight new children after the existing nodes |
| Octree.BurstOctree.CreateOctants | Assets/Scripts/Octree.cs:181-188 | eight nodes with the octant boxes are appended and their indices returned |
| Octree.BurstOctree.CreateNode | Assets/Scripts/Octree.cs:193-198 | one new leaf is appended and its index returned |
| Octree.BurstOctree.RedistributePoints | Assets/Scripts/Octree.cs:200-217 | when it returns, the node holds no points of its own, and every point of its old slice inside its box has a new buffer entry |
| Octree.BurstOctree.WrittenInsert | Assets/Scripts/Octree.cs:100-106 | as written, on a subdivided root: a point in octant 0 never returns successfully; a point whose octant number names a node whose box misses it is reported stored while nodes and buffer stay unchanged |
| Octree.BurstOctree.WrittenInsertPoint | Assets/Scripts/Octree.cs:108-141 | as written, with the octant number taken as the next node index: the ignored and leaf cases as in `InsertPoint`; re-entering the subdivided root never succeeds; a point sent to a node whose box misses it is dropped with success reported |
| Octree.BurstOctree.WrittenRedistributePoints | Assets/Scripts/Octree.cs:200-217 | as written, routing each point by its octant number: the arena stays well-formed and only grows, and on success the node holds no points of its own |
| Octree.ReentryExample | Assets/Scripts/Octree.cs:138-139 | on a subdivided unit root, inserting (0.25, 0.25, 0.25) as written fails for every fuel |
| Octree.DropExample | Assets/Scripts/Octree.cs:138-139 | on a subdivided unit root, inserting (0.75, 0.25, 0.25) as written reports success while the index buffer stays empty |
| Octree.BurstOctree.FindNearest | Assets/Scripts/Octree.cs:228-234 | the result is -1 or an index of a point, the one the recursive search names |
| Octree.BurstOctree.FindNearestRecursive | Assets/Scripts/Octree.cs:236-268 | the recursion computes the specified search |
| Octree.BurstOctree.ScanLeaf | Assets/Scripts/Octree.cs:242-250 | the leaf loop computes the specified scan |
| Octree.BurstOctree.VisitChildren | Assets/Scripts/Octree.cs:252-266 | the children loop computes the specified search over the eight children |
| GridHash.KeyCell | Assets/Scripts/Common/GridHashList.cs:118-126 | a position lies in the cell whose corner `KeyToPosition` gives for its key |
| GridHash.FloorCell | Assets/Scripts/Common/GridHashList.cs:118-120 | flooring divides the axis into half-open cells of the world size |
| GridHash.Bucket | Assets/Scripts/Common/GridHashList.cs:28-36 | a key's values are no more than the whole map |
| GridHash.FirstWithinSpec | Assets/Scripts/Common/GridHashList.cs:89-102 | the check returns a value of the key that is within the distance, and returns nothing exactly when none is |
| GridHash.CheckedKeys | Assets/Scripts/Common/GridHashList.cs:54-86 | the search checks the own cell first and at most three more cells |
| GridHash.CheckedKeysAreFaces | Assets/Scripts/Common/GridHashList.cs:61-83 | every extra cell checked shares a face with the own cell |
| GridHash.FirstAmongSpec | Assets/Scripts/Common/GridHashList.cs:54-102 | the result is a value within range in one of the checked cells, and there is no result exactly when no checked cell has one |
| GridHash.FirstAmongAppend | Assets/Scripts/Common/GridHashList.cs:61-83 | once the cells checked so far have nothing, checking more cells is checking only those |
| GridHash.FirstAmongPrefix | Assets/Scripts/Common/GridHashList.cs:55-83 | once a cell gives a value, further cells are not consulted |
| GridHash.FirstWithinPrefix | Assets/Scripts/Common/GridHashList.cs:92-97 | the first in-range value of the key, in enumeration order, is the one returned |
| GridHash.FirstWithinSticks | Assets/Scripts/Common/GridHashList.cs:92-97 | a value found in a prefix of the enumeration is the overall result |
| GridHash.DiagonalMiss | Assets/Scripts/Common/GridHashList.cs:61-83 | a value within range in the diagonal cell is not found: the search checks faces only |
| GridHash.DiagonalCells | Assets/Scripts/Common/GridHashList.cs:118-122 | the cells of that example, and the three cells checked |
| GridHash.DiagonalSearch | Assets/Scripts/Common/GridHashList.cs:61-83 | the search of that example's cells finds nothing |
| GridHash.Without | Assets/Scripts/Common/GridHashList.cs:108-110 | removing never grows the map |
| GridHash.BucketWithout | Assets/Scripts/Common/GridHashList.cs:108-110 | removing a value deletes its copies from its own key's values and leaves every other key as it was |
| GridHash.BucketAppend | Assets/Scripts/Common/GridHashList.cs:104-106 | inserting appends the value to its key's values only |
| GridHash.GridHashList.constructor | Assets/Scripts/Common/GridHashList.cs:11-14 | a new grid is empty, with the given world size |
| GridHash.GridHashList.GetValues | Assets/Scripts/Common/GridHashList.cs:28-36 | the list is the key's values in enumeration order |
| GridHash.GridHashList.KeyDistanceCheck | Assets/Scripts/Common/GridHashList.cs:89-102 | the loop returns the specified first value within range |
| GridHash.GridHashList.AxisCheck | Assets/Scripts/Common/GridHashList.cs:61-83 | one axis step checks the neighbour cells the position is near |
| GridHash.GridHashList.ClosestValue | Assets/Scripts/Common/GridHashList.cs:54-86 | the result is the specified search over the own cell and its near face neighbours |
| GridHash.GridHashList.ClosestValueAt | Assets/Scripts/Common/GridHashList.cs:50-52 | the same search, from the position's own key |
| GridHash.GridHashList.InsertIfFree | Assets/Scripts/Common/GridHashList.cs:42-48 | the value is added exactly when the search finds nothing near it, and then it is appended under its key |
| GridHash.GridHashList.Insert | Assets/Scripts/Common/GridHashList.cs:104-106 | the value is appended under its key |
| GridHash.GridHashList.Remove | Assets/Scripts/Common/GridHashList.cs:108-110 | the value's copies are removed from its key |
| GridPrefilter.PrefilterSkip | Assets/Scripts/Storage/GridHashStorage.cs:245-251 | a sample is skipped exactly when a later sample of the batch lies within its density |
| GridPrefilter.LastNeverSkipped | Assets/Scripts/Storage/GridHashStorage.cs:245-251 | the last sample of a batch is never skipped |
| GridPrefilter.PrefilterUpdate | Assets/Scripts/Storage/GridHashStorage.cs:253-260 | an update carries a stored value within density from a checked cell, and its copy with the sample's timestamp |
| GridPrefilter.PrefilterInsert | Assets/Scripts/Storage/GridHashStorage.cs:261-269 | an insertion carries the sample, and no checked cell holds a value within density |
| GridPrefilter.PrefilterNearIsUpdate | Assets/Scripts/Storage/GridHashStorage.cs:253-260 | an unskipped sample near a value in a checked cell becomes an update |
| GridPrefilter.PrefilterOne | Assets/Scripts/Storage/GridHashStorage.cs:242-271 | job `index` computes the specified classification |
| GridPrefilter.PrefilterBatch | Assets/Scripts/Storage/GridHashStorage.cs:237-271 | the batch has one result per sample |
| GridPrefilter.GridPrefilterJob | Assets/Scripts/Storage/GridHashStorage.cs:237-271 | the parallel job gives the specified batch |
| GridPrefilter.GridPrefilterApplyJob | Assets/Scripts/Storage/GridHashStorage.cs:279-289 | corrected: the grid becomes the specified application of the batch, where an update removes the stored copy it found |
| GridPrefilter.InsertMarkAppends | Assets/Scripts/Storage/GridHashStorage.cs:287 | an insertion appends its value to its own key only |
| GridPrefilter.ExceptContents | Assets/Scripts/Common/GridHashList.cs:108-110 | removing a value deletes exactly its copies |
| GridPrefilter.ExceptAbsent | Assets/Scripts/Common/GridHashList.cs:108-110 | removing a value that is not there changes nothing |
| GridPrefilter.UpdateLeavesStaleCopy | Assets/Scripts/Storage/GridHashStorage.cs:283-287 | as written, an update removes the refreshed value, which is not stored, so the old copy stays beside the new one |
| GridPrefilter.StaleCopyExample | Assets/Scripts/Storage/GridHashStorage.cs:283-287 | a one-point grid updated with a new timestamp ends with both copies |
| GridPrefilter.UpdateSwaps | Assets/Scripts/Storage/GridHashStorage.cs:283-287 | corrected: removing the stored value and inserting the refreshed one swaps them and keeps the key's size |
| GridPrefilter.UpdateElsewhere | Assets/Scripts/Storage/GridHashStorage.cs:283-287 | the corrected update leaves every other key as it was |
| GridPrefilter.UpdateMarkSwaps | Assets/Scripts/Storage/GridHashStorage.cs:283-287 | an update mark applied to the grid it was computed on leaves no stale copy of the point it found |
| GridStorage.Kept | Assets/Scripts/Storage/GridHashStorage.cs:298-315 | the cleanup never grows the grid |
| GridStorage.KeptContents | Assets/Scripts/Storage/GridHashStorage.cs:304 | an entry survives cleanup exactly when it was in the grid and has not expired |
| GridStorage.ExpiredContents | Assets/Scripts/Storage/GridHashStorage.cs:303-305 | the removal list holds exactly the expired entries |
| GridStorage.RemoveAllIsDrop | Assets/Scripts/Storage/GridHashStorage.cs:311-313 | removing the listed values one by one removes exactly the listed entries |
| GridStorage.DropExpired | Assets/Scripts/Storage/GridHashStorage.cs:311-313 | removing the expired entries leaves the unexpired ones in order |
| GridStorage.ExpiredConsistent | Assets/Scripts/Storage/GridHashStorage.cs:303-305 | expired entries keep the key of their own position |
| GridStorage.KeptConsistent | Assets/Scripts/Storage/GridHashStorage.cs:298-315 | the cleanup keeps every entry under the key of its own position |
| GridStorage.ApplyAllConsistent | Assets/Scripts/Storage/GridHashStorage.cs:279-289 | applying a batch keeps every entry under the key of its own position |
| GridStorage.CountAndCleanupJob | Assets/Scripts/Storage/GridHashStorage.cs:298-315 | the grid keeps exactly its unexpired entries, and the count is their number |
| GridStorage.BlankEntry | Assets/Scripts/Storage/GridHashStorage.cs:182-186 | a new render entry has room for a page and holds no points |
| GridStorage.SizedEntries | Assets/Scripts/Storage/GridHashStorage.cs:122-124 | sizing gives the required number of entries, or one more when there were more before (lines 156-171) |
| GridStorage.EntriesSuffice | Assets/Scripts/Storage/GridHashStorage.cs:122 | after sizing there are at least as many entries as pages |
| GridStorage.CopyOverRead | Assets/Scripts/Storage/GridHashStorage.cs:219-221 | a single full page leaves one entry, so the copy job's step to the next entry reads past the list |
| GridStorage.SizedList | Assets/Scripts/Storage/GridHashStorage.cs:122-124 | sizing keeps every entry big enough for a page |
| GridStorage.GridHashStorage.Init | Assets/Scripts/Storage/GridHashStorage.cs:46-50 | a new storage has an empty grid, no pending data and no render entries |
| GridStorage.GridHashStorage.Insert | Assets/Scripts/Storage/GridHashStorage.cs:52-54 | the insertion is queued and nothing else changes |
| GridStorage.GridHashStorage.RunInsertionJob | Assets/Scripts/Storage/GridHashStorage.cs:85-107 | the queued batch is prefiltered and applied, the queue is emptied and the storage marked dirty |
| GridStorage.GridHashStorage.CopyAndRebuild | Assets/Scripts/Storage/GridHashStorage.cs:109-141 | corrected: the grid keeps its unexpired points, the entries are sized to the page count, and the points are packed into them page by page with the corrected copy |
| GridStorage.GridHashStorage.EnsureVfxEntries | Assets/Scripts/Storage/GridHashStorage.cs:156-160 | entries are appended until there are at least `count` |
| GridStorage.GridHashStorage.CreateNewVfxEntry | Assets/Scripts/Storage/GridHashStorage.cs:173-187 | one blank entry is appended |
| GridStorage.GridHashStorage.DeleteUnusedVfxEntries | Assets/Scripts/Storage/GridHashStorage.cs:162-171 | the list is cut to the specified prefix, which keeps one entry beyond `count` |
| GridCopy.Copied | Assets/Scripts/Storage/GridHashStorage.cs:195-232 | the copy keeps the number of entries |
| GridCopy.CopyDataJob | Assets/Scripts/Storage/GridHashStorage.cs:195-232 | as written, the job's entries are the specified copy, given an entry for every page it opens |
| GridCopy.CopyPoint | Assets/Scripts/Storage/GridHashStorage.cs:203-212 | one point's two slots are written and the box grows to reach it |
| GridCopy.CopyStep | Assets/Scripts/Storage/GridHashStorage.cs:201-223 | one iteration keeps the job's state: final pages before the open one, the open page's slots, the bounds grown from the origin |
| GridCopy.CloseLastPage | Assets/Scripts/Storage/GridHashStorage.cs:225-231 | storing the last open page completes the specified copy |
| GridCopy.StoreFullPage | Assets/Scripts/Storage/GridHashStorage.cs:214-222 | a full page is stored with count and bounds, and the next entry opens |
| GridCopy.CopyMatchesMirror | Assets/Scripts/Storage/GridHashStorage.cs:204-208 | slots and counts match the tree's packing, except that a page without points keeps its old count |
| GridCopy.CopyBoundsLeak | Assets/Scripts/Storage/GridHashStorage.cs:208-212 | as written, each page's box holds the origin and every point of the earlier pages |
| GridCopy.CopyBoundsExample | Assets/Scripts/Storage/GridHashStorage.cs:208-212 | one point at (1,1,1) gets the box from the origin, where the tree's job gives the point box |
| GridCopy.CopyDataCorrected | Assets/Scripts/Storage/GridHashStorage.cs:195-232 | corrected: the grid's values packed as the tree's job packs them |
| Paging.HullFromIsLeast | Assets/Scripts/Jobs/MirrorTreeToVfxJob.cs:41-44 | growing a box over points gives the least box covering the start box and the points |
| Paging.HullIsLeast | Assets/Scripts/Jobs/MirrorTreeToVfxJob.cs:41-44 | a page's box is the least box enclosing its points |
| Paging.HullSnoc | Assets/Scripts/Jobs/MirrorTreeToVfxJob.cs:44 | adding a point to a page grows its box with `Encapsulate` |
| Paging.PageSlice | Assets/Scripts/Jobs/MirrorTreeToVfxJob.cs:29-50 | a page holds at most 16384 points |
| Paging.PageCountBounds | Assets/Scripts/Storage/GridHashStorage.cs:122 | the page count is the ceiling of points over capacity, and zero only for no points |
| Paging.PageExists | Assets/Scripts/Jobs/MirrorTreeToVfxJob.cs:37 | page `k` exists exactly when some point's index reaches it |
| Paging.PageSizes | Assets/Scripts/Jobs/MirrorTreeToVfxJob.cs:30-39 | every page but the last is full, the last holds the rest, later pages are empty |
| Paging.PageOfIndex | Assets/Scripts/Jobs/MirrorTreeToVfxJob.cs:46-49 | point `j` is in page `j / 16384` at position `j % 16384` |
| Paging.PagesCoverAll | Assets/Scripts/Jobs/MirrorTreeToVfxJob.cs:29-50 | the pages in order are all the points |
| Paging.ConcatPrefix | Assets/Scripts/Jobs/MirrorTreeToVfxJob.cs:29-50 | the first `m` pages are the first `m * 16384` points |
| Paging.Write | Assets/Scripts/Jobs/MirrorTreeToVfxJob.cs:46-48 | writing a page keeps the buffer's size |
| Paging.WriteContents | Assets/Scripts/Jobs/MirrorTreeToVfxJob.cs:46-48 | slot `s` holds point `s`'s position, slot `s + 16384` its colour and timestamp, and every other slot keeps its value |
| Paging.WriteSnoc | Assets/Scripts/Jobs/MirrorTreeToVfxJob.cs:46-49 | writing one more point sets exactly its two slots |
| MirrorTreeToVfx.Mirrored | Assets/Scripts/Jobs/MirrorTreeToVfxJob.cs:15-58 | the packing keeps the number of entries |
| MirrorTreeToVfx.MirrorSlots | Assets/Scripts/Jobs/MirrorTreeToVfxJob.cs:29-50 | point `j` is in page `j / 16384`, with its position and its colour and timestamp in the two slots |
| MirrorTreeToVfx.MirrorCounts | Assets/Scripts/Jobs/MirrorTreeToVfxJob.cs:19-23 | full pages count 16384, the last page its remainder, unused pages 0 (lines 30-39 and 52-57) |
| MirrorTreeToVfx.MirrorBounds | Assets/Scripts/Jobs/MirrorTreeToVfxJob.cs:41-44 | a page's box is the least box around its own points; an unused page keeps data and box |
| MirrorTreeToVfx.MirrorKeepsRest | Assets/Scripts/Jobs/MirrorTreeToVfxJob.cs:46-48 | slots past a page's points keep their old contents |
| MirrorTreeToVfx.MirrorTreeToVfxJob | Assets/Scripts/Jobs/MirrorTreeToVfxJob.cs:15-58 | an empty tree leaves the entries alone; otherwise the entries become the specified packing |
| MirrorTreeToVfx.MirrorPoints | Assets/Scripts/Jobs/MirrorTreeToVfxJob.cs:15-58 | the same, over a list of points |
| MirrorTreeToVfx.ResetCounts | Assets/Scripts/Jobs/MirrorTreeToVfxJob.cs:19-23 | every count becomes 0 and nothing else changes |
| MirrorTreeToVfx.PackPoints | Assets/Scripts/Jobs/MirrorTreeToVfxJob.cs:25-50 | the loop stores every full page and leaves the last page open with its slots and box |
| MirrorTreeToVfx.FlushPage | Assets/Scripts/Jobs/MirrorTreeToVfxJob.cs:30-39 | a full page is stored as specified, and no other entry changes |
| MirrorTreeToVfx.AddToPage | Assets/Scripts/Jobs/MirrorTreeToVfxJob.cs:41-49 | one point's slots are written and the box grows to the page's hull |
| MirrorTreeToVfx.LaterPagesEmpty | Assets/Scripts/Jobs/MirrorTreeToVfxJob.cs:52-57 | no page after the last open one holds points |
| BalancedTreeCleanup.CompareReal | Assets/Scripts/Jobs/BalancedTreeCleanup.cs:237-253 | the comparison is -1, 0 or 1 and agrees with `<` and `==` |
| BalancedTreeCleanup.ComparersOrderByAxis | Assets/Scripts/Jobs/BalancedTreeCleanup.cs:237-253 | each comparer orders by its axis and is antisymmetric |
| BalancedTreeCleanup.CopyAndFilter | Assets/Scripts/Jobs/BalancedTreeCleanup.cs:142-147 | the copy holds exactly the survivors in order |
| BalancedTreeCleanup.SwapRemove | Assets/Scripts/Jobs/BalancedTreeCleanup.cs:33-35 | a swap-remove shortens the list by one |
| BalancedTreeCleanup.SwapRemoveContents | Assets/Scripts/Jobs/BalancedTreeCleanup.cs:33-35 | a swap-remove loses exactly the removed point |
| BalancedTreeCleanup.SampleContents | Assets/Scripts/Jobs/BalancedTreeCleanup.cs:26-36 | sampling draws `count` points, and sample and remainder together are the live points |
| BalancedTreeCleanup.SampleLoop | Assets/Scripts/Jobs/BalancedTreeCleanup.cs:31-36 | the loop computes the specified sampling |
| BalancedTreeCleanup.Assemble | Assets/Scripts/Jobs/BalancedTreeCleanup.cs:169-219 | an empty region gives nothing, a single one its point; a larger one splits at its median into two halves of sizes differing by at most one, parented to it |
| BalancedTreeCleanup.LevelCount | Assets/Scripts/Jobs/BalancedTreeCleanup.cs:194-219 | the points emitted by a level plus the sizes of the next regions equal the sizes of this level's regions |
| BalancedTreeCleanup.LevelProgress | Assets/Scripts/Jobs/BalancedTreeCleanup.cs:194-219 | a level with points left emits at least one point |
| BalancedTreeCleanup.BalancedOrderLength | Assets/Scripts/Jobs/BalancedTreeCleanup.cs:88-122 | the level loop inserts exactly as many points as the regions hold |
| BalancedTreeCleanup.BalancedOrderStep | Assets/Scripts/Jobs/BalancedTreeCleanup.cs:93-121 | the order is this level's emitted points followed by the order of the next level |
| BalancedTreeCleanup.BalancedOrderDone | Assets/Scripts/Jobs/BalancedTreeCleanup.cs:88 | with no points left the loop inserts nothing |
| BalancedTreeCleanup.BalancedBuildLength | Assets/Scripts/Jobs/BalancedTreeCleanup.cs:52-133 | the balanced build inserts as many points as it was given |
| BalancedTreeCleanup.NotAPermutation | Assets/Scripts/Jobs/BalancedTreeCleanup.cs:194-218 | three points sorted per axis can be inserted as b, c, b: the medians of the per-axis copies need not be a permutation of the points |
| BalancedTreeCleanup.ConstructBalancedTree | Assets/Scripts/Jobs/BalancedTreeCleanup.cs:52-133 | the tree is the one built from the balanced order, with as many points as given |
| BalancedTreeCleanup.LevelLoop | Assets/Scripts/Jobs/BalancedTreeCleanup.cs:88-122 | the level loop inserts the whole balanced order |
| BalancedTreeCleanup.LevelTurn | Assets/Scripts/Jobs/BalancedTreeCleanup.cs:93-121 | one level inserts its emitted points and returns the next regions |
| BalancedTreeCleanup.AssembleLevel | Assets/Scripts/Jobs/BalancedTreeCleanup.cs:93-101 | the parallel step gives the specified results |
| BalancedTreeCleanup.ApplyLevel | Assets/Scripts/Jobs/BalancedTreeCleanup.cs:102-115 | the results are inserted in order and the splits collected |
| BalancedTreeCleanup.ApplyOne | Assets/Scripts/Jobs/BalancedTreeCleanup.cs:104-115 | one result inserts its point and yields its regions |
| BalancedTreeCleanup.InsertEach | Assets/Scripts/Jobs/BalancedTreeCleanup.cs:151-159 | the points are inserted in order |
| BalancedTreeCleanup.BalanceAndCleanup | Assets/Scripts/Jobs/BalancedTreeCleanup.cs:15-50 | the tree is the balanced build of the sample followed by the remaining live points, and it holds as many points as survive |
| ReadWriteLock.IdleInv | Assets/Scripts/Common/AsyncReadWriteLock.cs:6-10 | the idle lock satisfies the invariant |
| ReadWriteLock.EnterReadInv | Assets/Scripts/Common/AsyncReadWriteLock.cs:12-23 | a reader is admitted exactly when no writer is active or waiting, otherwise it is queued; the invariant holds |
| ReadWriteLock.EnterWriteInv | Assets/Scripts/Common/AsyncReadWriteLock.cs:38-49 | a writer is admitted exactly when no writer is active and no reader holds the lock, otherwise it is queued; the invariant holds |
| ReadWriteLock.ExitReadInv | Assets/Scripts/Common/AsyncReadWriteLock.cs:25-36 | the last reader hands the lock to the first waiting writer, if any; the invariant holds |
| ReadWriteLock.ExitWriteInv | Assets/Scripts/Common/AsyncReadWriteLock.cs:51-74 | a leaving writer hands over to the first waiting writer, or else admits every waiting reader at once; the invariant holds |
| ReadWriteLock.NoStranding | Assets/Scripts/Common/AsyncReadWriteLock.cs:29-31 | when nobody holds the lock, nobody waits (handovers at lines 58-60) |
| ReadWriteLock.StepFifo | Assets/Scripts/Common/AsyncReadWriteLock.cs:46 | one operation: writers woken so far plus those still waiting are the writers queued so far, in order (dequeues at lines 30 and 59) |
| ReadWriteLock.RunInv | Assets/Scripts/Common/AsyncReadWriteLock.cs:12-74 | any legal sequence of operations keeps the invariant |
| ReadWriteLock.RunFifo | Assets/Scripts/Common/AsyncReadWriteLock.cs:38-74 | over any sequence, writers are woken in the order they queued |
| ReadWriteLock.AsyncReadWriteLock.constructor | Assets/Scripts/Common/AsyncReadWriteLock.cs:6-10 | a new lock is idle |
| ReadWriteLock.AsyncReadWriteLock.EnterReadLock | Assets/Scripts/Common/AsyncReadWriteLock.cs:12-23 | the method performs the specified read entry |
| ReadWriteLock.AsyncReadWriteLock.ExitReadLock | Assets/Scripts/Common/AsyncReadWriteLock.cs:25-36 | the method performs the specified read exit |
| ReadWriteLock.AsyncReadWriteLock.EnterWriteLock | Assets/Scripts/Common/AsyncReadWriteLock.cs:38-49 | the method performs the specified write entry |
| ReadWriteLock.AsyncReadWriteLock.ExitWriteLock | Assets/Scripts/Common/AsyncReadWriteLock.cs:51-74 | the method performs the specified write exit |
| RateLimit.LimitCases | Assets/Scripts/Common/RateLimiter.cs:16-20 | a call passes exactly when the time has reached the gate, and then moves the gate one interval past the time |
| RateLimit.SecondCallFails | Assets/Scripts/Common/RateLimiter.cs:16-20 | with a positive interval, a second call at the same time is refused |
| RateLimit.FirstCallPasses | Assets/Scripts/Common/RateLimiter.cs:6 | a fresh limiter lets the first call through at any time from 0 on |
| RateLimit.PassesSpaced | Assets/Scripts/Common/RateLimiter.cs:16-20 | the passing calls of any run are at least one interval apart, none is before the start gate |
| RateLimit.RateLimiter.FromInterval | Assets/Scripts/Common/RateLimiter.cs:8-10 | the interval is the given rate, and the gate starts at 0 |
| RateLimit.RateLimiter.FromFrequency | Assets/Scripts/Common/RateLimiter.cs:12-14 | the interval is the inverse of the given frequency |
| RateLimit.RateLimiter.Limit | Assets/Scripts/Common/RateLimiter.cs:16-20 | the result and the new gate are the specified step |

## Left out

- Floating point is not modelled. Coordinates, timestamps and densities are mathematical reals, and rounding, NaN and infinities are not covered. The source's "no best yet" sentinel `float.MaxValue` is modelled as -1 or `None`.
- Distances are compared squared throughout. `math.distance(a, b) > d` is modelled as `DistGt`, which is `d < 0 || |a - b|² > d²`. This is exact for reals.
- Octree.BurstOctree.FindNearest: the result is proved to be a stored point that only improves strictly during the search. It is not proved to be the global nearest. A leaf reads its points as a slice of the shared index buffer, and that slice is contiguous only while no other leaf takes a point in between (`InterleavedSlice`).
- Octree.BurstOctree.InsertPoint: the recursion is bounded by a `fuel` parameter. Running out of fuel returns `ok == false`. That is how the model represents a recursion that does not return, as with more than eight points at one position, which split without end. Insertion routes through `RoutedChild`, the corrected routing of the Findings. The routing as written is kept apart as `WrittenInsertPoint` and `WrittenRedistributePoints`.
- Octree.BurstOctree.InsertPoint: the point's entry is proved to exist in the buffer, not to lie in the leaf's slice, for the reason given under `FindNearest`.
- GridStorage.GridHashStorage.CopyAndRebuild: packs with `CopyDataCorrected`, the corrected copy of the Findings, not with the source's `CopyDataJob` (`Copied`, proved separately). So it does not show three behaviours of the source's copy. (1) Each page's box grows from the origin box over every earlier point; here it starts at the page's first point. (2) The spare entry that sizing keeps past the last page keeps its old count; here every count is cleared first. That entry is never uploaded, since the upload loop stops at the page count. (3) The source reads one entry past the list when the live count is a positive multiple of 16384 and the list held no more entries than needed (`CopyOverRead`). It also reads `entries[0]` of an empty list when no point is left. Here neither read happens.
- GridPrefilter.GridPrefilterApplyJob: models the corrected update of the stale-copy finding. The mark carries a `stored` field, the point the search found, which the source's `PrefilterGridData` does not have. The update as written is kept apart as `WrittenStep`.
- The `NativeParallelMultiHashMap` behind `GridHashList` is modelled as a list of (key, value) pairs in insertion order. The model does not capture the real enumeration order of the hash map, which is unspecified.
- `PointData` equality, used by `GridHashList.Remove`, is taken to be field-by-field equality.
- Non-positive world sizes are excluded from key computation (`requires worldSize > 0.0`), since the storage always uses a cell size of 0.5.
- Allocators, `Dispose`, initial capacities and `NativeList` growth are not modelled.
- Render entries are values, so the aliasing between a `PointRenderEntry` and its `NativeArray` is not modelled. `ApplyBuffer`, textures and VFX graph calls are left out. `CreateNewVfxEntry` is modelled only as appending a blank entry.
- The default `MinMaxAABB` is taken to be the box with both corners at the origin.
- `Random`, `Time.time` and the library sort are parameters: the sample's random picks, the clock reading, and the three sorted copies, each with its sortedness and permutation stated in a `requires`.
- Async tasks, `await`, `UniTaskCompletionSource` resumption and job scheduling are not modelled. Each job is modelled as a method that runs to completion, and parallel-for jobs become a loop over the indices. The lock's tokens stand for its completion sources.
- `FixedUpdate`, `LidarEnvironment`, `PointRaycaster`, `PlayerActions`, `PlayerMovement`, `PointContainer` and `PointRenderContainer` are not modelled beyond the constants they define. They are front-end code that drives the storage.
- GridStorage.RequiredEntries: computes `ceil(count / 16384)` exactly on integers, not with the source's float division.
- RateLimit.RateLimiter.FromFrequency requires a non-zero rate. With rate 0 the C# float division gives infinity, which has no real counterpart.
- SkinnedMeshStorage.Truncate: the `uint` cast of a negative vertex tag is not modelled. Only whole, non-negative tags arise (`SampledIndexExact`).
- Stopwatch timing and `Debug.Log` output are left out.
- `Common.KdTree` is not part of this model. It is taken to have `BurstKdTree`'s shape and is modelled by `KdTree.BurstKdTree`.
- The `GetValueEnumerator` and `GetEnumerator` overloads of `GridHashList` are modelled only through `Bucket` and the pair list.
- BalancedTreeCleanup.ConstructBalancedTree: the resulting contents are stated against `BalancedBuild`, not against the input multiset. As `NotAPermutation` shows, the two can differ.

## Findings

| source | as written | input that shows it | evidently intended | confidence | as-written member | corrected member |
|---|---|---|---|---|---|---|
| Assets/Scripts/Octree.cs:138-139 | the octant number from `GetChildIndex` (0-7) is passed to `InsertPoint` as a node index; `RedistributePoints` does the same at lines 208-209 | a subdivided unit root and the point (0.25, 0.25, 0.25) in octant 0: the call re-enters node 0, the root, forever; the point (0.75, 0.25, 0.25) in octant 1 goes to node 1, whose box is octant 0, and is dropped | route to the node index `node.Child<k>` of that octant | high, not executed | Octree.ReentryExample | Octree.RoutedChild |
| Assets/Scripts/Storage/GridHashStorage.cs:283-287 | an update first removes `v`, the stored value with its refreshed timestamp, which is not in the grid; the old copy stays beside the one inserted after it | a one-point grid and an update of that point at a new time: the grid ends with two copies | keep the found value in the mark, remove it, then insert the refreshed one | high, not executed; assumes `PointData` equality compares every field | GridPrefilter.StaleCopyExample | GridPrefilter.UpdateSwaps |
| Assets/Scripts/Storage/GridHashStorage.cs:208-212 | `currentCount` is incremented before the `currentCount == 0` test, so the bounds never restart; every page's box grows from the origin over all earlier pages | one point at (1,1,1): the page box is (0,0,0)-(1,1,1), where the tree's job gives (1,1,1)-(1,1,1) | start the box at each page's first point, as `MirrorTreeToVfxJob` does | high, not executed | GridCopy.CopyBoundsExample | GridCopy.CopyDataCorrected |
| Assets/Scripts/Storage/GridHashStorage.cs:219-221 | after a full page the job reads `entries[currentIndex + 1]` even when it was the last page | exactly 16384 live points: sizing leaves one entry, and the read is one past the list | open the next entry only when more points follow | medium, not executed | GridStorage.CopyOverRead | GridCopy.CopyDataCorrected |
