# Verified models of PostgreSQL contrib modules

This project models the parts of the PostgreSQL 15.6 contrib modules kept in this repository
that have an algorithm worth proving, and proves what those parts are for. It is written in
Dafny 4.11; `dafny verify dfyconfig.toml` checks all of it.

Code that changes things step by step is modelled by methods on arrays, fields and loops, each
proved equal to a function or a relation; the theorems are about those. Code made of
expressions is modelled by functions.

## What is modelled

**B-tree verifier** (`amcheck/verify_nbtree.c`, as run by `bt_index_parent_check`: nothing
else changes the index). An index is a fixed sequence of pages. `BtreeKey` has the order of
tuples, in which attributes that are missing count as minus infinity, and the three checks
built on one comparison. `BtreeCheck` states every check as a function, in the order in which
the program raises its errors; `BtreeVerifier` is the program with its state, proved to
compute those functions. `BtreeLeftmost`, `BtreeChain`, `BtreeLevel`, `BtreeParent`, `BtreeTree`,
`BtreeBounds` and `BtreeWhole` prove what success means, on one level, on two, at any depth, and for
the whole index, and `BtreeTermination` exactly when the link walks end: on every file, whatever
deletions and splits were interrupted in it and whatever downlinks are null. `BtreeHealthy` says what
a healthy index is, without naming a check, and proves that every check passes on it;
`BtreeInterrupted` and `BtreeDeletion` prove which sound files are reported all the same. `BtreeGaps`
has indexes that pass although something is wrong.

**Bloom index** (`bloom/*`). `BloomRandom` and `BloomSignature` go from the generator to the
fact that a scan misses no row, and `BloomBits` to exactly which bits a signature has and which tuples
a scan reports; `BloomPage` has one page in place, `BloomStore`, `BloomIndex`,
`BloomBuild` and `BloomScan` the whole index with its metapage list and free space map, one
operation at a time. `BloomConcurrent` takes insertions, VACUUM and a scan apart into the steps
made under one lock each; `BloomRuns` and `BloomHistory` prove what every interleaving keeps, and
`BloomAlone` that from every state an insertion can complete, and that one left alone comes to the
same in both models. `BloomReclaim` follows a page from insertion to reuse: none is lost.

**GiST for ordered values** (`btree_gist/btree_utils_var.c`, `btree_utils_num.c`). `GistSearch`
has the pruned search of any GiST; `GistVar`, `GistVarSplit` and `GistVarLayout` the truncated
interval keys of the type `bytea`, and `GistVarTree` the trees that unions and splits build from
them; `GistNum` the exact interval keys of any totally ordered type and their trees.

**GiST for cubes** (`cube/cube.c`). `Cube`, `CubeDistance` and `CubeSplit`: boxes of differing
dimension over exact numbers, their union and tests, distance bounds, and Guttman's split;
`CubeTree`: the trees that unions and splits build, and the search in them. `CubeMeaning` says what
the tests and sizes mean for the points of the boxes, `CubeMetric` what the distances are, and
`CubeOrder` where the comparison is an order.

**Heap verifier** (`amcheck/verify_heapam.c`). `HeapXid` and `HeapStatus`: widening of
transaction ids and the check against a cached range. `HeapToast`: the check of the chunks of a
toasted value.

**GIN for ordered values** (`btree_gin/btree_gin.c`). `GinScan`: the entry to start from and
the comparison that stops the scan.

**Metaphone** (`fuzzystrmatch/fuzzystrmatch.c`). `MetaphoneCode` has the code of a word
without a limit, `MetaphoneProgram` the loops that compute it into a buffer, and `MetaphoneSounds`
what the letters sound like.

`Integers`, `Sequences`, `Outcomes` and `GistOperators` hold what several of these share.

## Where the code does not do what it says

Each of these has a lemma with a concrete input and one with the exact condition.

- A page of a lower level may lack a downlink without the B-tree verifier noticing: not only where a
  split or a deletion was interrupted, but also if it is flagged as a root
  (`BtreeGaps.StrayRootAccepted`). The chain of right links is exactly the list of downlinks up to the
  first null one if and only if every page that need not have a downlink has one there
  (`BtreeTree.ChildLevelChain`).
- A null downlink at the start of a level is taken for the end of the tree
  (`BtreeGaps.NullDownlinkAccepted`): the verifier gets down to the leaf level if and only if no level
  above begins with one (`BtreeGaps.LeavesReachedExactly`). A null downlink further on ends the walk
  along the children, which starts afresh at the next one, and what lies beneath that may never be
  looked at (`BtreeGaps.CutOffAccepted`). On a level, every page beneath a downlink is looked at if and
  only if every downlink right after a null one leads to the chain of the next level
  (`BtreeTree.LookedAtExactly`); for the whole index, `BtreeWhole.AllLookedAtExactly`.
- The flag of an incomplete split turns off the comparison of a child's high key with the parent, even
  if the right half has its downlink: an item may lie beyond the pivot that bounds it
  (`BtreeGaps.UnsplitAccepted`). So it may in a child without a high key, the rightmost of its level,
  that is bounded all the same because a null downlink follows its own (`BtreeGaps.CutOffAccepted`;
  only then, by `BtreeTree.RightmostBeforeNull`). Every downlink on the way to a page bounds its items
  if and only if those do whose child is of these two kinds (`BtreeBounds.UpperBoundsExactly`); such a
  child is bounded if and only if its last item is (`BtreeBounds.ChildBetweenPivots`).
- Items of one level are not compared across an empty page, and a pivot not with what lies beneath its
  child's first downlink. A whole index passes in which leaves on both sides of an empty one are out of
  order and an item lies below a pivot above it (`BtreeGaps.DisorderAccepted`). A level is in order if
  and only if it is across the gaps of empty pages (`BtreeLevel.LevelInOrderExactly`); the pivots on
  the way to a page bound its items if and only if those do at which the way turns to a first downlink
  (`BtreeBounds.LowerBoundsExactly`). Pages beneath two downlinks of one page are in order, empty ones
  between them or not, on ways without such turns and such children (`BtreeBounds.SubtreesInOrder`).
- The walks of the verifier can go round for ever (`BtreeTermination.LevelWalkCanRunForever`). A check
  that raises no error ends if and only if the right links do, from each level's first block and from
  the downlinks on it (`BtreeTermination.LevelCheckEndsExactly`, `EveryLevelEndsExactly`).
- `amcheck.sgml` says that no error raised "should ever be a false positive" (lines 541 to 542). But a
  page deletion that a crash has interrupted after its first stage is reported: the half-dead leaf's
  high key, which has been overwritten with an empty one, is compared with a pivot of the parent
  (`BtreeDeletion.EmptyLeafReported`; the comment at verify_nbtree.c:2273-2276 counts on the opposite). For every healthy index and every leaf that may be taken out,
  what the first stage leaves passes if and only if the leaf is the first one of all
  (`BtreeDeletion.InterruptedExactly`); the same comparison reports the top of an interrupted deletion
  of several levels, whose separator is gone, too (`BtreeInterrupted.UnmatchedIsReported`). So is an
  interrupted split of the root (`BtreeInterrupted.SplitRootReported`, `RootSplitIsReported`): what is
  sound otherwise passes if and only if its first page is flagged as the root
  (`BtreeInterrupted.RootFlagExactly`).
- `gbt_var_picksplit` cuts both halves to the longer of two lengths; on an internal page this can
  hide a row (`GistVarTree.SplitHidesRow`). A half hides nothing if and only if the cut is safe for it
  or its merged lower bound is a prefix of the upper one (`GistVarSplit.SplitHidesNothingExactly`, and
  `GistVarTree.SafeHalfExactly` for the keys that such halves leave behind); on leaf pages every cut
  is safe.
- The comment in `mySrand` promises the range [1, 0x7ffffffe]; `next` may in fact be negative
  (`BloomRandom.NegativeState`). The promise holds for exactly the seeds below 2^31 and one more
  (`BloomRandom.PromisedRangeExactly`), and for two seeds `next` is 0 (`BloomRandom.SeedRange`). Then
  the program shifts by a negative number (`BloomSignature.FirstColumnOutside`), in every column for
  exactly two hashes (`BloomSignature.StuckExactly`).
- For cubes, the leaf and internal forms of "contained by" treat dimensions that a box does not
  have in different ways, so that a search can miss a box (`Cube.ContainedByMisses`); a matching box is
  reached below every key if and only if the query includes zero in those dimensions
  (`Cube.ContainedByExactly`).
- `cube_cmp`, from which the B-tree operator class of cubes takes its order, compares the common
  dimensions of two boxes first. For dimensions m < n, both at least 1, there are three boxes each of
  which is greater than the next, the last one being greater than the first (`CubeOrder.Cycle`): the
  transitive law of btree.sgml (lines 122 to 134) fails. On boxes with dimensions from a given set it
  holds if and only if these are all the same, except for 0 (`CubeOrder.TransitiveExactly`).
- An id that has been clamped to the first normal one, accepted against a cached range, turns
  into another id as the next id advances (`HeapXid.ClampedIsAccepted`); an accepted id is stable if
  and only if it was not clamped (`HeapXid.AcceptedIsStable`).

## Model

| member | source | states |
|---|---|---|
| BtreeKey.LessTransitive | postgresql-15.6/contrib/amcheck/verify_nbtree.c:2878-2886 | the order of tuples, with missing attributes as minus infinity, is transitive |
| BtreeKey.LessTotal | postgresql-15.6/contrib/amcheck/verify_nbtree.c:2878-2886 | any two tuples are ordered or the same |
| BtreeKey.CompareMeaning | postgresql-15.6/contrib/amcheck/verify_nbtree.c:2878-2886 | the three outcomes of a comparison in terms of that order: a scan key that runs out first compares as equal |
| BtreeKey.InvariantLMeaning | postgresql-15.6/contrib/amcheck/verify_nbtree.c:2860-2912 | the upper bound check accepts exactly the pairs in strict order, truncated keys included |
| BtreeKey.InvariantLeqMeaning | postgresql-15.6/contrib/amcheck/verify_nbtree.c:2923-2937 | the "at most" check accepts exactly the pairs in the non-strict order |
| BtreeKey.InvariantGMeaning | postgresql-15.6/contrib/amcheck/verify_nbtree.c:2946-2966 | the lower bound check, made from the other side, accepts exactly the pairs in order |
| BtreeLeftmost.NoRepeat | postgresql-15.6/contrib/amcheck/verify_nbtree.c:940-975 | no block repeats on a chain of steps that the walk to the left has accepted |
| BtreeLeftmost.ChainFits | postgresql-15.6/contrib/amcheck/verify_nbtree.c:931-983 | such a chain is never longer than the file, however corrupt its links, so the walk ends |
| BtreeLeftmost.LeftmostExactly | postgresql-15.6/contrib/amcheck/verify_nbtree.c:931-983 | the walk answers yes if and only if a chain of agreeing half-dead pages leads left to the end of the level |
| BtreeCheck.WalkGoesOneDown | postgresql-15.6/contrib/amcheck/verify_nbtree.c:725-910 | a successful level walk hands on a level numbered one lower, so the descent over levels ends |
| BtreeChain.EndsSoon | postgresql-15.6/contrib/amcheck/verify_nbtree.c:725-910 | right links that end do so over distinct blocks, within as many steps as the file has blocks |
| BtreeChain.ChainIsOne | postgresql-15.6/contrib/amcheck/verify_nbtree.c:698-910 | the chain of a level is unique, its blocks are distinct, and they are fewer than the file has |
| BtreeLevel.LevelIsChain | postgresql-15.6/contrib/amcheck/verify_nbtree.c:698-910 | a level checked with success is, in every file, one chain of right links over distinct blocks, fewer than the file has; none is deleted or names itself as its left sibling, left links of live pages agree, and every page passed unless it is half-dead |
| BtreeLevel.HighKeyBounds | postgresql-15.6/contrib/amcheck/verify_nbtree.c:1429-1501 | every real item of a page that passed is bounded by its high key, strictly on internal pages |
| BtreeLevel.SiblingsInOrder | postgresql-15.6/contrib/amcheck/verify_nbtree.c:1554-1610 | the last item of a page comes before the first real item of the live page that the search to the right finds |
| BtreeLevel.LiveRightIsNext | postgresql-15.6/contrib/amcheck/verify_nbtree.c:1656-1740 | that search skips exactly the half-dead pages: it ends at the next live page of the level |
| BtreeLevel.LevelInOrderExactly | postgresql-15.6/contrib/amcheck/verify_nbtree.c:1157-1638 | the real items of any stretch of a level are in order if and only if, for every two pages that are not empty and have only empty or half-dead ones between them, a live one among these, the last item on the left comes before the first on the right |
| BtreeLevel.LevelInOrder | postgresql-15.6/contrib/amcheck/verify_nbtree.c:1157-1638 | in particular, on a stretch without an empty live page the real items of all live pages, read from left to right, are in order, strictly so with heap pointers as tie-breakers |
| BtreeParent.WeaveExact | postgresql-15.6/contrib/amcheck/verify_nbtree.c:1935-2167 | a chain of distinct children that are the downlinks in order, or else pages that need not have a downlink, is exactly the downlinks if every such page has one |
| BtreeParent.ExcusedExactly | postgresql-15.6/contrib/amcheck/verify_nbtree.c:2347-2540 | a live page that is not right of an incomplete split may lack a downlink if and only if it is flagged as a root, or its first downlinks lead to a half-dead leaf that names it as its top parent |
| BtreeParent.ExcusedLeaf | postgresql-15.6/contrib/amcheck/verify_nbtree.c:2347-2540 | a live leaf that is not right of an incomplete split may lack a downlink exactly if it is flagged as a root |
| BtreeParent.VisitedChild | postgresql-15.6/contrib/amcheck/verify_nbtree.c:1981-2155 | a child that the walk passes over without a downlink is half-dead or deleted, right of an incomplete split, a root or the top of an interrupted deletion; one under the downlink has the high key that the parent says, unless its split is incomplete |
| BtreeParent.WalkAlong | postgresql-15.6/contrib/amcheck/verify_nbtree.c:1935-2167 | the walk from one downlink to the next follows the chain of the child level, passing only pages that need not have a downlink |
| BtreeParent.CheckAlong | postgresql-15.6/contrib/amcheck/verify_nbtree.c:1935-2167 | one check takes the walk from a place in the child level to the child of the next downlink, or for a null one to the end of the level, passing only pages that need not have a downlink |
| BtreeParent.StepsWeave | postgresql-15.6/contrib/amcheck/verify_nbtree.c:1935-2167 | from any place in the child level on, the right links visit the downlinks up to the next null one in order, and else only pages that need not have one |
| BtreeParent.PageSteps | postgresql-15.6/contrib/amcheck/verify_nbtree.c:1157-1638 | the check of an internal page goes from each of its downlinks to the next, null or not; each child beneath one that is not null has the high key and the lower bound that the page says |
| BtreeTree.NextLevelStart | postgresql-15.6/contrib/amcheck/verify_nbtree.c:794-833 | the next level is numbered one lower and starts, null or not, at the first downlink of the first live page, which is leftmost; below the leaf level there is none |
| BtreeTree.ChildLevelChain | postgresql-15.6/contrib/amcheck/verify_nbtree.c:1612-1637 | on every file: the right links of the lower level visit the downlinks of the upper one, up to the first null one, in order and else only pages that need not have one; they are exactly those downlinks if and only if every such page has one among them |
| BtreeTree.RunIsWoven | postgresql-15.6/contrib/amcheck/verify_nbtree.c:1935-2167 | the same for every run of downlinks after a null one, from the block that its first one names |
| BtreeTree.LookedAtExactly | postgresql-15.6/contrib/amcheck/verify_nbtree.c:1612-1637 | pages beneath downlinks before the first null one are all on the chain of the next level, which is what is looked at; all others are if and only if every downlink right after a null one leads there |
| BtreeTree.RightmostBeforeNull | postgresql-15.6/contrib/amcheck/verify_nbtree.c:1981-2005 | a child that is the rightmost of its level, though a pivot or high key bounds its downlink, is followed by a null downlink |
| BtreeTree.RunsStartLeftmost | postgresql-15.6/contrib/amcheck/verify_nbtree.c:2010-2019 | the child beneath the first downlink of a level, and beneath each one after a null downlink, is the first of its level: only agreeing half-dead pages lead left from it to the end |
| BtreeTree.LinkedIsLive | postgresql-15.6/contrib/amcheck/verify_nbtree.c:2256-2286 | beneath every downlink of a page that was looked at, except its first one, there is a page that is not deleted |
| BtreeBounds.LowerBoundHolds | postgresql-15.6/contrib/amcheck/verify_nbtree.c:2182-2332 | every real item of a child comes after the pivot of its downlink, strictly so with heap pointers as tie-breakers |
| BtreeBounds.ChildBetweenPivots | postgresql-15.6/contrib/amcheck/verify_nbtree.c:2182-2332 | for two pages that were looked at: every real item of the child comes after the pivot of its downlink; all are bounded by the next pivot or high key if and only if the child is neither flagged as having an incomplete split nor rightmost on its level, or is empty, or its last item is bounded |
| BtreeBounds.UpperBoundsExactly | postgresql-15.6/contrib/amcheck/verify_nbtree.c:1900-2167 | at any depth, along pages that were looked at: every downlink on the way bounds the real items of the page at its end if and only if those downlinks do whose child is so flagged or rightmost on its level |
| BtreeBounds.UnderUpperBound | postgresql-15.6/contrib/amcheck/verify_nbtree.c:1900-2167 | in particular, they are bounded by the next pivot of the first downlink's page, or by that page's high key, if no downlink on the way that something bounds has such a child |
| BtreeBounds.LowerBoundsExactly | postgresql-15.6/contrib/amcheck/verify_nbtree.c:2182-2332 | at any depth, along pages that were looked at: the real items of the page at the end come after every pivot on the way if and only if they come after those at which the way goes on with a first downlink |
| BtreeBounds.AboveLowerBound | postgresql-15.6/contrib/amcheck/verify_nbtree.c:2182-2332 | in particular, on a way that takes no page's first downlink they come after the first pivot |
| BtreeBounds.SubtreesInOrder | postgresql-15.6/contrib/amcheck/verify_nbtree.c:1157-1638 | so the items beneath two downlinks of one page are in order, at any depth and with empty pages between them or not, if the high keys on the way to the left one were compared and the way to the right one takes no first downlink |
| BtreeWhole.AllLookedAtExactly | postgresql-15.6/contrib/amcheck/verify_nbtree.c:566-610 | an index that passes was looked at beneath all its downlinks, on all levels, if and only if on every level each downlink right after a null one is null or leads to a page of the next level |
| BtreeWhole.PathsAreSeen | postgresql-15.6/contrib/amcheck/verify_nbtree.c:566-610 | then every path of downlinks to a live page leads over pages that were looked at, so that the results on paths hold for it |
| BtreeWhole.WholeIndexExactly | postgresql-15.6/contrib/amcheck/verify_nbtree.c:566-610 | without null downlinks, at any depth: the bounds from above hold if and only if those do whose child is flagged as having an incomplete split, and those from below if and only if those do where the way turns to a first downlink |
| BtreeTermination.DescentFinishes | postgresql-15.6/contrib/amcheck/verify_nbtree.c:2347-2540 | the descent to a leaf ends within as many steps as the file has blocks, whatever the downlinks say |
| BtreeTermination.HighKeyFinishes | postgresql-15.6/contrib/amcheck/verify_nbtree.c:1935-2167 | the walk along a child level ends if the right links do, and then leaves the cursor where they end too |
| BtreeTermination.LevelCheckFinishes | postgresql-15.6/contrib/amcheck/verify_nbtree.c:698-910 | the check of a level ends if the right links do, from its first block and from its downlinks, within about twice as many iterations as the file has blocks, whatever else is wrong with the file |
| BtreeTermination.LevelCheckEndsExactly | postgresql-15.6/contrib/amcheck/verify_nbtree.c:698-910 | on every file, a check of a level that raises no error ends if and only if those right links end |
| BtreeTermination.EveryLevelEndsExactly | postgresql-15.6/contrib/amcheck/verify_nbtree.c:566-610 | the same for the check of the whole index, on all levels that it gets to |
| BtreeTermination.EveryLevelFinishes | postgresql-15.6/contrib/amcheck/verify_nbtree.c:566-610 | if the right links of the file form no cycle, the check of the whole index ends, with success or an error |
| BtreeTermination.LevelWalkCanRunForever | postgresql-15.6/contrib/amcheck/verify_nbtree.c:725-910 | a ring of a live and a half-dead page keeps the walk going for any number of iterations |
| BtreeTermination.ChildRingIsFound | postgresql-15.6/contrib/amcheck/verify_nbtree.c:2031-2037 | a walk along the children that comes back to where it set out does not go on: an error is raised |
| BtreeTermination.SelfRingIsFound | postgresql-15.6/contrib/amcheck/verify_nbtree.c:861-866 | nor does the walk along a level stay at a half-dead page whose right link names itself |
| BtreeVerifier.BtreeCheckState.LeftmostIgnoringHalfDead | postgresql-15.6/contrib/amcheck/verify_nbtree.c:931-983 | the loop computes the walk to the left and ends on every file |
| BtreeVerifier.BtreeCheckState.ChildHighKeyCheck | postgresql-15.6/contrib/amcheck/verify_nbtree.c:1935-2167 | the loop gives the outcome specified and leaves the right link and split flag of the last child in the state |
| BtreeVerifier.BtreeCheckState.ChildCheck | postgresql-15.6/contrib/amcheck/verify_nbtree.c:2182-2332 | the loop over a child's items gives the outcome specified |
| BtreeVerifier.BtreeCheckState.RightPageCheckScankey | postgresql-15.6/contrib/amcheck/verify_nbtree.c:1656-1849 | the walk over ignorable siblings finds the first real key to the right, if any |
| BtreeVerifier.BtreeCheckState.TargetPageCheck | postgresql-15.6/contrib/amcheck/verify_nbtree.c:1157-1638 | the loop over the items of a page gives the outcome and the state specified |
| BtreeVerifier.BtreeCheckState.CheckLevelFromLeftmost | postgresql-15.6/contrib/amcheck/verify_nbtree.c:698-910 | the loop over the pages of a level, with its changing state, gives the outcome specified |
| BtreeVerifier.BtreeCheckState.CheckEveryLevel | postgresql-15.6/contrib/amcheck/verify_nbtree.c:566-610 | the loop over levels gives the outcome specified |
| BtreeGaps.NullDownlinkAccepted | postgresql-15.6/contrib/amcheck/verify_nbtree.c:591-610 | an internal root page with a null downlink passes without a leaf being looked at |
| BtreeGaps.LeavesReachedExactly | postgresql-15.6/contrib/amcheck/verify_nbtree.c:566-610 | the check of an index that passes has got down to the leaf level if and only if no level on the way begins with a null downlink |
| BtreeGaps.StrayRootAccepted | postgresql-15.6/contrib/amcheck/verify_nbtree.c:2363-2365 | an index passes whose chain of leaves is not its list of downlinks |
| BtreeGaps.UnsplitAccepted | postgresql-15.6/contrib/amcheck/verify_nbtree.c:2044-2050 | an index passes in which an item beneath a downlink lies beyond the next pivot, because its page is flagged as having an incomplete split |
| BtreeGaps.DisorderAccepted | postgresql-15.6/contrib/amcheck/verify_nbtree.c:1554-1610 | a whole index passes, without half-dead pages, flags or null downlinks, whose leaves are out of order across an empty one and of which one has an item below a pivot above it |
| BtreeGaps.CutOffAccepted | postgresql-15.6/contrib/amcheck/verify_nbtree.c:1981-1990 | a whole index passes, without half-dead pages and flags, in which a null downlink between two others keeps a leaf from being looked at and leaves another without its upper bound |
| BtreeHealthy.ItemCheckExactly | postgresql-15.6/contrib/amcheck/verify_nbtree.c:1429-1638 | a real item passes if and only if it is bounded by the high key, where equality is allowed on leaf pages, and comes before the next item, or if it is the last one before the first real item to the right |
| BtreeHealthy.LowerBoundPasses | postgresql-15.6/contrib/amcheck/verify_nbtree.c:2182-2332 | a child whose real items all come after the pivot passes the check of its lower bound |
| BtreeHealthy.HealthyLevelPasses | postgresql-15.6/contrib/amcheck/verify_nbtree.c:698-910 | a level of linked pages with their items in order and bounded, whose downlinks are the pages of the next level with the high keys and bounds that they promise, passes, and hands that level on |
| BtreeHealthy.HealthyIndexPasses | postgresql-15.6/contrib/amcheck/verify_nbtree.c:566-610 | no false alarm: a healthy index of any number of levels passes every check, within as many iterations as the file has blocks |
| BtreeHealthy.SoundIsHealthy | postgresql-15.6/contrib/amcheck/verify_nbtree.c:1453-1463 | such an index, with a leaf whose high key is a copy of its last item |
| BtreeInterrupted.PassedOverExactly | postgresql-15.6/contrib/amcheck/verify_nbtree.c:2047-2155 | the walk passes over a half-dead child if and only if its high key is the pivot at which the walk has arrived |
| BtreeInterrupted.UnmatchedIsReported | postgresql-15.6/contrib/amcheck/verify_nbtree.c:2047-2155 | on every file: a page of the child level with neither a downlink nor an incomplete split, whose high key is no key of the level above, makes the check of that level fail |
| BtreeInterrupted.ChildrenFitBelow | postgresql-15.6/contrib/amcheck/verify_nbtree.c:2021-2037 | a level that was checked: every page of the child level, without a downlink or with one, can be read, has the next lower number, and does not name itself as its left sibling |
| BtreeInterrupted.RootSplitIsReported | postgresql-15.6/contrib/amcheck/verify_nbtree.c:787-792 | whatever else the file holds, it fails if the page that the metapage names is not flagged as the root |
| BtreeInterrupted.RootFlagExactly | postgresql-15.6/contrib/amcheck/verify_nbtree.c:787-792 | an index that is healthy but for that flag passes if and only if the flag is there |
| BtreeInterrupted.SplitRootReported | postgresql-15.6/postgresql-15.6/src/backend/access/nbtree/nbtinsert.c:1546-1552 | the two halves of a root whose split was interrupted are reported |
| BtreeDeletion.DownlinksAfter | postgresql-15.6/postgresql-15.6/src/backend/access/nbtree/nbtpage.c:2197-2216 | the first stage of a deletion takes exactly the leaf's downlink out of those of the level above |
| BtreeDeletion.FirstLeafLeavesHealthy | postgresql-15.6/postgresql-15.6/src/backend/access/nbtree/nbtpage.c:2085-2283 | if the leaf was the first one, what is left without it is a healthy index |
| BtreeDeletion.InterruptedExactly | postgresql-15.6/contrib/amcheck/verify_nbtree.c:2047-2155 | for every healthy index and every leaf that may be taken out: after the first stage of the deletion the check passes if and only if the leaf was the first one of all |
| BtreeDeletion.EmptyLeafReported | postgresql-15.6/postgresql-15.6/src/backend/access/nbtree/nbtpage.c:2218-2239 | an index with three leaves passes, and is reported when the deletion of the empty one has been interrupted |
| BloomRandom.Generator.Srand | postgresql-15.6/contrib/bloom/blutils.c:248-254 | the state after seeding, in C's signed arithmetic: in range, and zero for exactly two seeds |
| BloomRandom.Generator.Rand | postgresql-15.6/contrib/bloom/blutils.c:221-246 | the next state and the number returned, for every state that seeding can leave |
| BloomRandom.RandInRange | postgresql-15.6/contrib/bloom/blutils.c:237-240 | every intermediate result fits in 32 bits |
| BloomRandom.FollowingIsProduct | postgresql-15.6/contrib/bloom/blutils.c:221-246 | from every state but zero the generator multiplies by 16807 modulo 2^31 - 1, and the new state lies in [1, 2^31 - 2] |
| BloomRandom.SeedRange | postgresql-15.6/contrib/bloom/blutils.c:248-254 | the state after seeding lies strictly between -(2^31 - 1) and 2^31 - 1, and is zero for exactly two seeds |
| BloomRandom.SeededMeaning | postgresql-15.6/contrib/bloom/blutils.c:248-254 | the state after seeding, in arithmetic without signs: seeds from 2^31 up count as negative |
| BloomRandom.PromisedRangeExactly | postgresql-15.6/contrib/bloom/blutils.c:248-254 | the range that the comment promises holds for exactly the seeds below 2^31 and one more |
| BloomRandom.NegativeState | postgresql-15.6/contrib/bloom/blutils.c:248-254 | a seed that leaves a negative state |
| BloomSignature.BitsInside | postgresql-15.6/contrib/bloom/blutils.c:259-287 | every bit lies inside the signature, unless the seed is one of those two: then every position is -1 |
| BloomSignature.StuckExactly | postgresql-15.6/contrib/bloom/blutils.c:259-287 | in every column exactly two hashes lead to those seeds |
| BloomSignature.BitsOutside | postgresql-15.6/contrib/bloom/blutils.c:259-287 | for every column and length, a hash whose positions are all -1 |
| BloomSignature.FirstColumnOutside | postgresql-15.6/contrib/bloom/blutils.c:259-287 | such a hash, in figures, for the first column |
| BloomSignature.SignValue | postgresql-15.6/contrib/bloom/blutils.c:259-287 | the loop sets exactly the bits of the value, or meets a negative shift exactly if the generator is stuck |
| BloomSignature.FormSignature | postgresql-15.6/contrib/bloom/blutils.c:292-311 | the signature has the bits of all columns that are not null |
| BloomSignature.NoFalseNegatives | postgresql-15.6/contrib/bloom/blscan.c:90-155 | a tuple whose columns have the hashes of the keys passes the test of the scan |
| BloomBits.SetBitExactly | postgresql-15.6/contrib/bloom/blutils.c:29-33 | SETBIT sets bit i % 16 of word i / 16, and no other bit |
| BloomBits.SetAllExactly | postgresql-15.6/contrib/bloom/blutils.c:281-286 | after a value has been added, a bit is set if and only if it was before or is one of the value's positions |
| BloomBits.SignColumnsExactly | postgresql-15.6/contrib/bloom/blutils.c:292-311 | a tuple's signature has exactly the positions of its columns that are not null |
| BloomBits.SignKeysExactly | postgresql-15.6/contrib/bloom/blscan.c:90-116 | a query has exactly the positions of its keys |
| BloomBits.MatchesExactly | postgresql-15.6/contrib/bloom/blscan.c:147-155 | the test lets a signature through if and only if it has every bit of the query |
| BloomBits.PassesExactly | postgresql-15.6/contrib/bloom/blscan.c:90-155 | a row passes if and only if each position of each key is one of its columns': false positives come from shared positions and from nothing else |
| BloomBits.ReportedExactly | postgresql-15.6/contrib/bloom/blscan.c:118-171 | a scan reports the pointers of exactly those tuples of the index that have every bit of every key |
| BloomBits.PositionIs | postgresql-15.6/contrib/bloom/blutils.c:221-287 | the j-th position of a value is 16807^(j+1) times the seeded state, modulo 2^31 - 1, less 1, modulo the number of bits |
| BloomBits.ColumnNumberIs | postgresql-15.6/contrib/bloom/blutils.c:266-279 | a column's hashes are mixed with 16807 times one more than its number, less 1 |
| BloomPage.LegalLengths | postgresql-15.6/contrib/bloom/blutils.c:492-494 | the option's rounding gives exactly the lengths from 1 to 256 words |
| BloomPage.FreeSpaceMeansRoom | postgresql-15.6/contrib/bloom/bloom.h:152-155 | the test for free space lets in exactly as many tuples as fit before the special area |
| BloomPage.DefaultCapacity | postgresql-15.6/contrib/bloom/bloom.h:96-155 | with the default length of 80 bits a page has room for 510 tuples |
| BloomPage.EmptyPageHasRoom | postgresql-15.6/contrib/bloom/blinsert.c:100-104 | for every legal length an empty page has room for at least 15 tuples |
| BloomPage.BloomPageBuffer.AddItem | postgresql-15.6/contrib/bloom/blutils.c:317-345 | adds the tuple at the end and moves pd_lower, or fails exactly if the page is full and changes nothing; never overruns the page |
| BloomPage.BloomPageBuffer.Place | postgresql-15.6/contrib/bloom/blinsert.c:249-269 | a new or deleted page is initialised first; the tuple is then added if there is room |
| BloomPage.BloomPageBuffer.Vacuum | postgresql-15.6/contrib/bloom/blvacuum.c:73-138 | the loop leaves exactly the live tuples in order, with the right count and pd_lower; the page is marked as deleted if that emptied it |
| BloomPage.LiveKeepsExactly | postgresql-15.6/contrib/bloom/blvacuum.c:85-107 | each live tuple is left as often as before, and no dead one |
| BloomPage.LiveKeepsOrder | postgresql-15.6/contrib/bloom/blvacuum.c:85-107 | a live tuple's new place is the number of live tuples before it |
| BloomPage.VacuumedIsValid | postgresql-15.6/contrib/bloom/blvacuum.c:122-131 | a page stays within its room, and is empty if it is marked as deleted |
| BloomStore.VacuumedKeepsExactly | postgresql-15.6/contrib/bloom/blvacuum.c:58-139 | over all pages, exactly the dead tuples disappear |
| BloomStore.InsertedAddsOne | postgresql-15.6/contrib/bloom/blinsert.c:225-357 | an insertion adds its tuple, loses none, and keeps the list in bounds and naming only data blocks |
| BloomIndex.Index.NewBuffer | postgresql-15.6/contrib/bloom/blutils.c:352-401 | a block of the free space map that really is reusable, or a new one at the end if there is none |
| BloomIndex.Index.Insert | postgresql-15.6/contrib/bloom/blinsert.c:196-366 | first attempt and walk over the list together use the first page of the list that has room, else a new one; the error on an empty page does not occur |
| BloomIndex.Index.BulkDelete | postgresql-15.6/contrib/bloom/blvacuum.c:33-161 | all pages are compacted, the tuples removed are counted, and the list holds the first blocks, up to its size, that have both tuples and room |
| BloomIndex.Index.VacuumCleanup | postgresql-15.6/contrib/bloom/blvacuum.c:168-217 | records exactly the reusable blocks as free and counts exactly the tuples of the index |
| BloomBuild.BuildState.Callback | postgresql-15.6/contrib/bloom/blinsert.c:73-115 | what has been written and what is cached are, in order, the tuples received; the error on an empty page does not occur |
| BloomBuild.Build | postgresql-15.6/contrib/bloom/blinsert.c:120-158 | the pages one after another hold the input in order, all full except the last, and the count is the input's length |
| BloomScan.FoundExactly | postgresql-15.6/contrib/bloom/blscan.c:125-168 | the scan finds the tuples of the index that pass the test, and no others |
| BloomScan.EqualRowIsFound | postgresql-15.6/contrib/bloom/blscan.c:80-172 | a row in the index whose columns have the hashes sought is reported |
| BloomScan.Scan.FormQuery | postgresql-15.6/contrib/bloom/blscan.c:90-116 | the query's signature, nothing for a null key |
| BloomScan.Scan.GetBitmap | postgresql-15.6/contrib/bloom/blscan.c:80-172 | reports exactly the tuples that pass, in order, and counts them; a search for a null finds nothing |
| BloomScan.TestTuple | postgresql-15.6/contrib/bloom/blscan.c:147-155 | the loop over the words decides whether all bits of the query are set |
| BloomRuns.StepKeepsShape | postgresql-15.6/contrib/bloom/blinsert.c:225-357 | every step of every process keeps pages within their room, deleted pages empty, nStart <= nEnd <= the list's size, only data blocks listed, and one holder of the lock |
| BloomRuns.StepKeeps | postgresql-15.6/contrib/bloom/blvacuum.c:57-158 | every step conserves each tuple's count, what VACUUM has cleaned, and what a scan has to account for |
| BloomHistory.NothingIsLost | postgresql-15.6/contrib/bloom/blinsert.c:225-357 | in every run the tuples in the index and those removed are those of the beginning and those inserted, copy by copy |
| BloomHistory.LiveTuplesStay | postgresql-15.6/contrib/bloom/blvacuum.c:57-158 | a tuple that no pass of VACUUM wants removed is neither lost nor duplicated in any run |
| BloomHistory.DeadTuplesGo | postgresql-15.6/contrib/bloom/blvacuum.c:53-158 | at the end of a pass a dead tuple is left at most as often as it was inserted since the pass began |
| BloomHistory.ScanMissesNothing | postgresql-15.6/contrib/bloom/blscan.c:118-171 | a scan at its end has found every passing tuple there was when it began and of which not all copies were removed since |
| BloomHistory.ScanInventsNothing | postgresql-15.6/contrib/bloom/blscan.c:118-171 | a scan reports only tuples that pass and that are in the index or have been removed from it |
| BloomHistory.EqualRowIsReported | postgresql-15.6/contrib/bloom/blscan.c:90-171 | a row equal to the keys that VACUUM leaves alone is reported, whatever else goes on |
| BloomAlone.AloneIsInserted | postgresql-15.6/contrib/bloom/blinsert.c:225-357 | an insertion whose steps are not interleaved with others does, once done, exactly what the operation as a whole is specified to do |
| BloomAlone.InsertionCompletes | postgresql-15.6/contrib/bloom/blinsert.c:225-357 | progress: from every state that a run can reach, an insertion that finds the lock free, or has it, completes by at most five steps of its own more than the list has entries, and frees the lock |
| BloomAlone.AloneCompletes | postgresql-15.6/contrib/bloom/blinsert.c:225-357 | so an insertion left alone does complete, with the outcome of the operation as a whole |
| BloomReclaim.InsertionGoesToFirst | postgresql-15.6/contrib/bloom/blinsert.c:225-357 | after an insertion the list begins with the page that took the tuple as its last one, and no other page has changed; that is the first page of the list with room, and the list has lost only full pages, or, if there is none, a page not in use |
| BloomReclaim.EmptiedExactly | postgresql-15.6/contrib/bloom/blvacuum.c:122-131 | a page can be reused after VACUUM if and only if it could be before, or had tuples of which none is left |
| BloomReclaim.FreedExactly | postgresql-15.6/contrib/bloom/blvacuum.c:168-217 | after both parts of VACUUM the blocks recorded as free are exactly those |
| BloomReclaim.ListedExactly | postgresql-15.6/contrib/bloom/blvacuum.c:113-120 | the blocks found with both tuples and room are each listed once, in order |
| BloomReclaim.CappedExactly | postgresql-15.6/contrib/bloom/blvacuum.c:113-120 | the metapage takes the first 2004 of them |
| BloomReclaim.EachAccountedFor | postgresql-15.6/contrib/bloom/blvacuum.c:57-217 | after VACUUM every data block is recorded as free, found with room, or full |
| BloomReclaim.NoPageIsLost | postgresql-15.6/contrib/bloom/blvacuum.c:57-217 | in every run, however the steps interleave, no page becomes one that has no tuples and is not marked as deleted either |
| BloomReclaim.AloneVacuums | postgresql-15.6/contrib/bloom/blvacuum.c:57-158 | a pass of VACUUM that is not disturbed visits each page once and ends with the pages and the list that the operation as a whole is specified to leave |
| ByteStrings.CommonPrefixShrinks | postgresql-15.6/contrib/btree_gist/btree_utils_var.c:120-163 | moving the lower bound down cannot lengthen the common prefix |
| GistSearch.SearchIsScan | postgresql-15.6/contrib/btree_gist/btree_utils_var.c:553-612 | in any tree whose keys cover what lies beneath, a search that enters every key covering a hit returns exactly what a scan returns, in order |
| GistVar.TruncationCovers | postgresql-15.6/contrib/btree_gist/btree_utils_var.c:203-228 | cutting the union of some keys two bytes beyond the common prefix hides nothing that one of them covers |
| GistVar.UnionCovers | postgresql-15.6/contrib/btree_gist/btree_utils_var.c:321-357 | a union covers whatever one of its keys covers, truncated ones included |
| GistVar.MergeIsTight | postgresql-15.6/contrib/btree_gist/btree_utils_var.c:231-278 | the bounds before truncation are bounds of some of the keys |
| GistVar.UnionIsShort | postgresql-15.6/contrib/btree_gist/btree_utils_var.c:203-228 | both bounds are cut to at most two bytes beyond the common prefix, which keeps its length |
| GistVar.OperatorsMean | postgresql-15.6/contrib/btree_gist/btree_utils_var.c:566-605 | on stored values the six operators are those of the order: each is the negation of another, and <= is < or = |
| GistVar.InnerExactly | postgresql-15.6/contrib/btree_gist/btree_utils_var.c:566-605 | a key is entered if and only if some value that it may stand for would match, where < and > count as <= and >= |
| GistVar.InnerNotEqual | postgresql-15.6/contrib/btree_gist/btree_utils_var.c:602-605 | for <> a key is entered unless both its bounds are the value itself |
| GistVarTree.DerivedKeyReaches | postgresql-15.6/contrib/btree_gist/btree_utils_var.c:321-357 | a key stands for every value that it was derived from, however often keys were united, split so that nothing is hidden, and cut |
| GistVarTree.LeafHalfIsProper | postgresql-15.6/contrib/btree_gist/btree_utils_var.c:457-547 | the halves of every split of a leaf page are among the keys so derived |
| GistVarTree.HarmlessHalfIsProper | postgresql-15.6/contrib/btree_gist/btree_utils_var.c:457-547 | so is, on a page of values and unions, every half that hides nothing |
| GistVarTree.SafeHalfExactly | postgresql-15.6/contrib/btree_gist/btree_utils_var.c:529-612 | halves of any keys: the search enters the half's key for every query that matches a value which an entry stands for, if and only if the half is safe in the sense that the trees ask for |
| GistVar.CoveredIsConsistent | postgresql-15.6/contrib/btree_gist/btree_utils_var.c:553-612 | a key that covers a match is judged consistent, for all six strategies |
| GistVarTree.SearchIsScan | postgresql-15.6/contrib/btree_gist/btree_utils_var.c:553-612 | in any tree whose keys come from unions and safe splits of the values beneath them, the pruned search returns exactly what a scan returns |
| GistVar.NodeCpLen | postgresql-15.6/contrib/btree_gist/btree_utils_var.c:120-163 | the loop computes the length of the longest common prefix |
| GistVar.UnionMethod | postgresql-15.6/contrib/btree_gist/btree_utils_var.c:321-357 | the loop computes the union whose covering is proved |
| GistVarSplit.Picksplit | postgresql-15.6/contrib/btree_gist/btree_utils_var.c:457-547 | the sorted entries are divided in the middle, each side's key is the merge of its entries, cut at the longer of the two prefix lengths |
| GistVarSplit.EachEntryOnce | postgresql-15.6/contrib/btree_gist/btree_utils_var.c:511-527 | every entry goes to exactly one side |
| GistVarSplit.SplitHidesNothingExactly | postgresql-15.6/contrib/btree_gist/btree_utils_var.c:529-612 | for every query and strategy that a value beneath an entry matches, the half's key is judged consistent, if and only if the cut is safe or the merged lower bound is a prefix of the upper one |
| GistVarSplit.LeafSplitCovers | postgresql-15.6/contrib/btree_gist/btree_utils_var.c:529-544 | on leaf pages every cut is safe |
| GistVarSplit.LongerHalfCovers | postgresql-15.6/contrib/btree_gist/btree_utils_var.c:529-544 | the half with the longer common prefix is always safe |
| GistVarTree.SplitHidesRow | postgresql-15.6/contrib/btree_gist/btree_utils_var.c:529-544 | an internal page with keys that unions produce, whose split hides a row |
| GistVarTree.TheKeysAreDerived | postgresql-15.6/contrib/btree_gist/btree_utils_var.c:321-357 | those keys do come from unions, and the hidden row lies beneath one of them |
| GistVarTree.TheKeysAreSorted | postgresql-15.6/contrib/btree_gist/btree_utils_var.c:442-455 | and the sort leaves them in the order in which that split takes them |
| GistVarLayout.LeafRoundTrip | postgresql-15.6/contrib/btree_gist/btree_utils_var.c:56-87 | a leaf key reads back as the value it was made from |
| GistVarLayout.CopyRoundTrip | postgresql-15.6/contrib/btree_gist/btree_utils_var.c:56-103 | an interval key reads back as its bounds, and never as a leaf |
| GistNum.Union | postgresql-15.6/contrib/btree_gist/btree_utils_num.c:171-203 | the loop leaves the least lower and the greatest upper bound |
| GistNum.DerivedKeySpans | postgresql-15.6/contrib/btree_gist/btree_utils_num.c:171-384 | whatever way a tree was built by unions and splits, a key holds the least and the greatest value beneath it |
| GistNum.OperatorsMean | postgresql-15.6/contrib/btree_gist/btree_utils_num.c:262-308 | on stored values the six operators are those of the order |
| GistNum.InnerExactly | postgresql-15.6/contrib/btree_gist/btree_utils_num.c:262-308 | a key is entered if and only if some value between its bounds would match, where < and > count as <= and >= |
| GistNum.SearchIsScan | postgresql-15.6/contrib/btree_gist/btree_utils_num.c:262-308 | in any tree so built, for any total order and all six strategies, the pruned search equals a scan |
| GistNum.DistanceIsLowerBound | postgresql-15.6/contrib/btree_gist/btree_utils_num.c:315-335 | the distance to a key never exceeds that to anything it encloses |
| GistNum.DistanceIsLeast | postgresql-15.6/contrib/btree_gist/btree_utils_num.c:315-335 | the distance to a key is the distance to some value between its bounds, and none is nearer |
| GistNum.DerivedKeyIsNearer | postgresql-15.6/contrib/btree_gist/btree_utils_num.c:315-335 | in any tree so built the distance to a key never exceeds that to a value beneath it |
| GistNum.Picksplit | postgresql-15.6/contrib/btree_gist/btree_utils_num.c:338-384 | the sorted entries are cut in the middle, nothing is lost, and both keys are exact |
| Cube.Union | postgresql-15.6/contrib/cube/cube.c:747-804 | in every dimension, with zero where a box has none, the least lower and greatest upper bound; a point exactly if these are the same everywhere |
| Cube.UnionAll | postgresql-15.6/contrib/cube/cube.c:423-448 | the smallest box around several entries, none for a single one |
| Cube.ContainsLoop | postgresql-15.6/contrib/cube/cube.c:1123-1158 | the loops decide containment of zero-padded boxes |
| Cube.OverlapLoop | postgresql-15.6/contrib/cube/cube.c:1193-1229 | the loops decide overlap, excess dimensions being taken at zero |
| Cube.Compare | postgresql-15.6/contrib/cube/cube.c:936-1013 | the loops order boxes by the first difference of their bounds, common dimensions first |
| Cube.CompareIsSame | postgresql-15.6/contrib/cube/cube.c:936-1013 | two boxes compare as equal exactly if they are the same box |
| CubeOrder.CompareFlips | postgresql-15.6/contrib/cube/cube.c:936-1013 | swapping the boxes changes the sign |
| CubeOrder.LowerComesFirst | postgresql-15.6/contrib/cube/cube.c:936-1013 | the box with the lower first bound comes first |
| CubeOrder.FewerComesFirst | postgresql-15.6/contrib/cube/cube.c:936-1013 | of boxes with the same intervals the one with fewer dimensions comes first |
| CubeOrder.Cycle | postgresql-15.6/contrib/cube/cube.c:936-1013 | for any two dimensions, both at least 1, three boxes that the comparison puts in a circle |
| CubeOrder.TransitiveExactly | postgresql-15.6/contrib/cube/cube.c:936-1013 | on boxes with dimensions from a given set the comparison is transitive if and only if they are all the same, except for 0 |
| Cube.EnclosingIsConsistent | postgresql-15.6/contrib/cube/cube.c:678-729 | a key above a matching box is judged consistent, whatever their dimensions |
| Cube.ContainedByExactly | postgresql-15.6/contrib/cube/cube.c:678-729 | for "contained by" that holds if and only if the query includes zero in the dimensions that the box does not have |
| Cube.ContainedByMisses | postgresql-15.6/contrib/cube/cube.c:678-729 | a box on a line and a query in the plane: the leaf test matches and the internal test of the same box does not |
| CubeMeaning.ContainsMeaning | postgresql-15.6/contrib/cube/cube.c:1123-1158 | a box contains another if and only if it has all its points |
| CubeMeaning.OverlapMeaning | postgresql-15.6/contrib/cube/cube.c:1193-1229 | two boxes overlap if and only if they have a point in common |
| CubeMeaning.EnteredExactly | postgresql-15.6/contrib/cube/cube.c:678-729 | a key is entered if and only if some box within it would match (and, for "contained by", the query includes zero where that box has no dimension) |
| CubeMeaning.EnteredForSame | postgresql-15.6/contrib/cube/cube.c:678-729 | for equality that holds of keys with the query's dimension |
| CubeTree.DerivedKeyEncloses | postgresql-15.6/contrib/cube/cube.c:510-804 | however often keys were united and divided, each encloses every box it was made from |
| CubeTree.SearchIsScan | postgresql-15.6/contrib/cube/cube.c:390-417 | in any tree so built the pruned search over boxes of mixed dimensions equals a scan; for "contained by", if the query includes zero in the dimensions that matching boxes do not have |
| CubeTree.DerivedKeyIsNearer | postgresql-15.6/contrib/cube/cube.c:1474-1498 | in any tree so built, for all three metrics, a key is no farther from the query than any box beneath it |
| CubeTree.DerivedKeyComesFirst | postgresql-15.6/contrib/cube/cube.c:1404-1473 | nor does it come after one in the order by a signed coordinate |
| CubeDistance.DistanceLoop | postgresql-15.6/contrib/cube/cube.c:1252-1394 | the loops of all three metrics compute the distance of zero-padded boxes |
| CubeMetric.GapIsLeast | postgresql-15.6/contrib/cube/cube.c:1502-1515 | the distance in one dimension is the least one between numbers of the two intervals |
| CubeMetric.ChebyshevIsGreatest | postgresql-15.6/contrib/cube/cube.c:1341-1394 | every gap is at most the Chebyshev distance, which is 0 or one of them |
| CubeMetric.RoundTheCorner | postgresql-15.6/contrib/cube/cube.c:1252-1394 | going round a corner takes the sum of two taxicab distances, the greater of two Chebyshev distances, and for squared Euclidean distances obeys the theorem of Pythagoras |
| CubeMetric.OneGap | postgresql-15.6/contrib/cube/cube.c:1252-1394 | where only one dimension has a gap, each distance is that gap |
| CubeMetric.ZeroExactly | postgresql-15.6/contrib/cube/cube.c:1252-1394 | each distance is zero if and only if the boxes overlap |
| CubeMetric.MetricsInOrder | postgresql-15.6/contrib/cube/cube.c:1252-1394 | Chebyshev, Euclidean and taxicab distance grow in this order |
| CubeMetric.PointsOnALine | postgresql-15.6/contrib/cube/cube.c:1252-1394 | between points on a line each of them is the difference |
| CubeDistance.KeyIsNearer | postgresql-15.6/contrib/cube/cube.c:1474-1498 | for all three metrics a key is no farther from the query than any box beneath it |
| CubeDistance.CoordMeaning | postgresql-15.6/contrib/cube/cube.c:1404-1473 | what the ordering by a signed coordinate yields on leaf and internal pages |
| CubeDistance.KeyComesFirst | postgresql-15.6/contrib/cube/cube.c:1404-1473 | for every signed coordinate a key never comes after what lies beneath it |
| CubeSplit.Size | postgresql-15.6/contrib/cube/cube.c:908-931 | the loop computes the volume of a box, zero for points |
| CubeMeaning.UnitVolume | postgresql-15.6/contrib/cube/cube.c:908-931 | a box of width 1 in every dimension has the volume 1 |
| CubeMeaning.StretchedVolume | postgresql-15.6/contrib/cube/cube.c:908-931 | stretching a box in one dimension multiplies its volume |
| CubeSplit.Intersection | postgresql-15.6/contrib/cube/cube.c:822-894 | in every dimension the greatest lower and least upper bound, zero-padded |
| CubeMeaning.MeetMeaning | postgresql-15.6/contrib/cube/cube.c:822-894 | in one dimension: the length of the common part of two intervals, or the gap between them |
| CubeMeaning.WasteMeaning | postgresql-15.6/contrib/cube/cube.c:555-563 | two boxes waste the volume of their union less that of their intersection |
| CubeSplit.Seeds | postgresql-15.6/contrib/cube/cube.c:545-577 | the first pair that wastes most volume among those looked at |
| CubeMeaning.PrefersLeftMeaning | postgresql-15.6/contrib/cube/cube.c:621-641 | a box that is not a seed goes to the side whose volume would grow less, to the right if both grow the same |
| CubeSplit.Picksplit | postgresql-15.6/contrib/cube/cube.c:510-654 | each entry goes to exactly one side, both sides are non-empty and increasing, writes and sentinel stay in the arrays, each side's key is the hull of its members, and each entry went to the side that its volume grows less |
| HeapXid.DifferenceIsNear | postgresql-15.6/contrib/amcheck/verify_heapam.c:1596-1613 | the 32-bit difference leads to the one id near the next one that has the given low bits |
| HeapXid.WideningUndoesTruncation | postgresql-15.6/contrib/amcheck/verify_heapam.c:1580-1617 | widening gives back exactly the normal ids from 2^31 - 1 below to 2^31 above the next one |
| HeapXid.WidenedIsNormal | postgresql-15.6/contrib/amcheck/verify_heapam.c:1607-1616 | a normal id stays normal and keeps its low bits unless it is clamped, which happens only in epoch 0 |
| HeapXid.ClampedIsLarge | postgresql-15.6/contrib/amcheck/verify_heapam.c:1599-1611 | clamped ids lie more than 2^31 above the next one, which is itself below 2^31 |
| HeapXid.AcceptedIsStable | postgresql-15.6/contrib/amcheck/verify_heapam.c:1649-1654 | an id accepted against a cached range widens to the same value under every later next id, less than 2^31 above the oldest, if and only if it was not clamped |
| HeapXid.ClampedIsAccepted | postgresql-15.6/contrib/amcheck/verify_heapam.c:1599-1654 | a clamped id that a cached range accepts and that does not keep its value |
| HeapStatus.HeapCheckContext.constructor | postgresql-15.6/contrib/amcheck/verify_heapam.c:390-397 | the range and the widened oldest id of the table after set-up; the oldest id is replaced by the table's, the start of the range is not |
| HeapStatus.HeapCheckContext.UpdateCachedXidRange | postgresql-15.6/contrib/amcheck/verify_heapam.c:1622-1634 | the cached range is the cluster's present one, widened by its next id |
| HeapStatus.HeapCheckContext.GetXidStatus | postgresql-15.6/contrib/amcheck/verify_heapam.c:1714-1782 | outcome, commit status and the whole new cache; the range is read anew exactly if the id is outside it |
| HeapStatus.JudgedAsFullId | postgresql-15.6/contrib/amcheck/verify_heapam.c:1731-1749 | the outcome for 32 bits is that of comparing the full id with the two ranges and the table's oldest id |
| HeapStatus.SpecialIds | postgresql-15.6/contrib/amcheck/verify_heapam.c:1722-1735 | the invalid id is reported, the bootstrap and frozen ids pass |
| HeapStatus.ValidIdPasses | postgresql-15.6/contrib/amcheck/verify_heapam.c:1697-1709 | an id that may occur in the table passes, if fewer than 2^31 ids were assigned since the oldest of the cached range, as in every run |
| HeapStatus.ValidIdPassesExactly | postgresql-15.6/contrib/amcheck/verify_heapam.c:1731-1749 | without that bound: it passes if and only if the cached range, should it take the low bits for an id of its own, takes them for one not too old for the table |
| HeapStatus.BadIdIsReported | postgresql-15.6/contrib/amcheck/verify_heapam.c:1744-1749 | an id outside both ranges, or too old for the table, is reported |
| HeapStatus.VeryStaleRangeFailsValidId | postgresql-15.6/contrib/amcheck/verify_heapam.c:1731-1749 | that bound cannot be dropped: with a range 2^32 ids old, which no run can have, a valid id would be reported |
| HeapToast.ToastCheck.CheckToastTuple | postgresql-15.6/contrib/amcheck/verify_heapam.c:1162-1246 | the reports on one chunk and the number expected next |
| HeapToast.ToastCheck.CheckToastedAttribute | postgresql-15.6/contrib/amcheck/verify_heapam.c:1468-1519 | the reports on all chunks of a value, in order |
| HeapToast.SilentExactly | postgresql-15.6/contrib/amcheck/verify_heapam.c:1162-1246 | nothing is reported if and only if the chunks are numbered from 0 to the last, none is null, and each has its expected size |
| HeapToast.SilentMeansWholeValue | postgresql-15.6/contrib/amcheck/verify_heapam.c:1468-1519 | then the sizes add up to the size in the toast pointer |
| HeapToast.ExpectedIsNext | postgresql-15.6/contrib/amcheck/verify_heapam.c:1162-1191 | after any chunks, right or wrong, the number expected is the one after the last number found |
| HeapToast.OneBreakOneReport | postgresql-15.6/contrib/amcheck/verify_heapam.c:1162-1246 | if one chunk, not the last, is missing or comes twice, exactly one report is made |
| HeapToast.EndMissing | postgresql-15.6/contrib/amcheck/verify_heapam.c:1506-1519 | if chunks are missing only at the end, just that is reported |
| GinScan.OperatorsMean | postgresql-15.6/contrib/btree_gin/btree_gin.c:120-166 | the five operators are those of the ordering: each is the negation of another, <= is < or =, and = is <= and >= |
| GinScan.StopsForGood | postgresql-15.6/contrib/btree_gin/btree_gin.c:108-171 | a key that stops the scan is followed by no key wanted |
| GinScan.JudgedRightly | postgresql-15.6/contrib/btree_gin/btree_gin.c:108-171 | at or after the entry, 0 is answered exactly for the keys wanted |
| GinScan.ScanIsFilter | postgresql-15.6/contrib/btree_gin/btree_gin.c:55-171 | the scan collects, in order, exactly the keys wanted that are not below the entry |
| GinScan.ScanIsExact | postgresql-15.6/contrib/btree_gin/btree_gin.c:55-171 | for every operator that is all keys wanted if and only if, for < and <=, none of them lies left of the leftmost value |
| GinScan.MarkIsLeftmost | postgresql-15.6/contrib/btree_gin/btree_gin.c:389-430 | the mark for a missing least value extends the ordering and is below every key |
| GinScan.MarkedScanIsExact | postgresql-15.6/contrib/btree_gin/btree_gin.c:389-480 | so for those types every operator finds exactly the keys wanted |
| MetaphoneCode.CodesMean | postgresql-15.6/contrib/fuzzystrmatch/fuzzystrmatch.c:112-147 | the bits of the table are the sets of letters that their names say |
| MetaphoneCode.Encode | postgresql-15.6/contrib/fuzzystrmatch/fuzzystrmatch.c:477-697 | a letter never skips past the end of the word and adds at most two sounds |
| MetaphoneCode.EncodeSame | postgresql-15.6/contrib/fuzzystrmatch/fuzzystrmatch.c:477-697 | a letter's code depends only on the letters around it; all other characters are alike |
| MetaphoneCode.CaseDoesNotMatter | postgresql-15.6/contrib/fuzzystrmatch/fuzzystrmatch.c:300-312 | the code of a word is that of the word in upper case |
| MetaphoneCode.OtherCharactersDoNotMatter | postgresql-15.6/contrib/fuzzystrmatch/fuzzystrmatch.c:92-93 | characters other than letters before and after a word do not count |
| MetaphoneCode.VowelsOnlyAtFront | postgresql-15.6/contrib/fuzzystrmatch/fuzzystrmatch.c:408-448 | a code consists of sixteen sounds, and only its first may be a vowel instead |
| MetaphoneSounds.CodeOfAlternating | postgresql-15.6/contrib/fuzzystrmatch/fuzzystrmatch.c:477-697 | for words in which every second letter, and the first and last, is an A: the code is an A and then each other letter's own sound |
| MetaphoneSounds.Gumbo | postgresql-15.6/contrib/fuzzystrmatch/expected/fuzzystrmatch.out:56-60 | the documented example, GUMBO, has the code KM |
| MetaphoneSounds.GroupsWithSoftC | postgresql-15.6/contrib/fuzzystrmatch/fuzzystrmatch.c:499-535 | the codes of CIA, CE and SCE |
| MetaphoneSounds.GroupsWithCH | postgresql-15.6/contrib/fuzzystrmatch/fuzzystrmatch.c:499-643 | the codes of CH, CHR, SCH and SCHW |
| MetaphoneSounds.GroupsWithDAndG | postgresql-15.6/contrib/fuzzystrmatch/fuzzystrmatch.c:537-585 | the codes of DGE, DG, GE and GG |
| MetaphoneSounds.GroupsWithGN | postgresql-15.6/contrib/fuzzystrmatch/fuzzystrmatch.c:554-585 | the codes of GN at the end of a word, in GNED and elsewhere |
| MetaphoneSounds.GroupsWithH | postgresql-15.6/contrib/fuzzystrmatch/fuzzystrmatch.c:489-619 | the codes of GH, H, TH, CK, PH and MB |
| MetaphoneSounds.GroupsWithOthers | postgresql-15.6/contrib/fuzzystrmatch/fuzzystrmatch.c:475-690 | the codes of SIO, SIA, SH, TIO, TIA, TH, W, Y and of doubled letters |
| MetaphoneSounds.Beginnings | postgresql-15.6/contrib/fuzzystrmatch/fuzzystrmatch.c:389-453 | the special beginnings AE, GN, KN, PN, WR, WH and W before a vowel |
| MetaphoneSounds.OtherBeginnings | postgresql-15.6/contrib/fuzzystrmatch/fuzzystrmatch.c:389-453 | X and vowels at the beginning, and letters that are not special there |
| MetaphoneProgram.Phonizer.Lookahead | postgresql-15.6/contrib/fuzzystrmatch/fuzzystrmatch.c:317-329 | the letter so many places on, or NUL; never reads past the end |
| MetaphoneProgram.Phonizer.CodeLetter | postgresql-15.6/contrib/fuzzystrmatch/fuzzystrmatch.c:466-697 | the switch appends a letter's code, cut at the limit, and sets the number of letters to skip |
| MetaphoneProgram.Phonizer.CodeFirstLetter | postgresql-15.6/contrib/fuzzystrmatch/fuzzystrmatch.c:389-453 | the special rules of the first letter |
| MetaphoneProgram.Phonizer.CodeRest | postgresql-15.6/contrib/fuzzystrmatch/fuzzystrmatch.c:457-698 | the loop ends, stays inside word and buffer, and appends the rest of the code, cut at the limit |
| MetaphoneProgram.Phonizer.Run | postgresql-15.6/contrib/fuzzystrmatch/fuzzystrmatch.c:343-701 | the result is the code without limit, cut at the limit, and ends with a NUL inside the buffer |
| MetaphoneProgram.Metaphone | postgresql-15.6/contrib/fuzzystrmatch/fuzzystrmatch.c:255-288 | the errors for bad lengths, the empty word, and else the code cut at the limit |

## Left out

B-tree verifier

- Non-readonly checks, posting lists, the heapallindexed fingerprint and rootdescend; so "every leaf key is found from the root" is not claimed for trees of three levels or more.
- Line pointers, tuple sizes and the limits on items per page are not modelled: a page is its flags, links and a sequence of tuples, and the model accepts wherever the code does. Attribute values are ranks in their column's order, without nulls or collations.
- `_bt_compare` (nbtsearch.c) and `_bt_check_natts` (nbtutils.c) are modelled for the items that the verifier passes to them, without posting lists and INCLUDE columns. The number of attributes of negative infinity items is not checked.
- Pivots are compared as keys where the program compares their bytes.
- The loops that a corrupt file can keep going for ever take a number of iterations, `fuel`, and end as `Unfinished` when it runs out. The theorems hold for all values of it, except that those on termination ask for more than twice as many iterations as the file has blocks, and those on the concrete indexes of `BtreeGaps` for one to three.
- The metapage's magic number and version are one flag of the metapage's page.
- BtreeHealthy.HealthyIndexPasses: is about indexes in which half-dead pages lie only to the left of a level's first page, and no page in use is flagged as having an incomplete split or lacks its downlink. What a crash may leave otherwise is followed only for one leaf taken out of such an index (`BtreeDeletion.InterruptedExactly`) and for the root (`BtreeInterrupted.RootFlagExactly`).
- BtreeDeletion.InterruptedExactly: the leaf is not the only child of its parent; that nothing but the links and keys given changes is taken from `_bt_mark_page_halfdead` (nbtpage.c), and its second stage is not modelled.
- BtreeBounds.SubtreesInOrder: is about two downlinks of one page. Between pages beneath different parents, of which the right one is reached by a first downlink, nothing orders items across an empty page (`BtreeGaps.DisorderAccepted`).
- BtreeBounds.UpperBoundsExactly: is about pages that were looked at. About those that a null downlink cuts off (`BtreeGaps.CutOffAccepted`) the checks say nothing, and `BtreeWhole.AllLookedAtExactly` says when there are none.

Bloom index

- Buffers, write-ahead logging and locks as objects: a step is what is done under one lock, and an aborted change to a page is one that is not written back. Relation extension locks and failed conditional locks only make the program try again.
- Hash functions: a column's value is its 32-bit hash or null. A bitmap is the sequence of pointers added to it; the recheck is left to the executor.
- BloomSignature.SignValue: where C leaves a negative shift undefined the method reports it and sets no bit, though bits may have been set before in other columns.
- BloomHistory.ScanMissesNothing: the free space map is any choice of reusable block, and vacuum cleanup, which changes nothing else, has no step of its own.

GiST

- Penalties, compress, fetch and the types' own files; the bit type's transform, inet and timetz keys, multibyte collations.
- The library's sort: a split takes the order that it leaves behind, and requires that it is one.
- GistVar.UnionMethod: reuses of memory by the original, which copies bounds only when they change, are not seen.

Cubes

- Floating point: coordinates are exact, so NaN, infinities and rounding are not modelled. The Euclidean distance is taken before the square root.
- `cube_enlarge`, subset and input/output.

Heap verifier

- Tuple headers, visibility, attribute layout, compressed data and multixact ids. The greatest chunk size is a parameter, of at least 3; heaptoast.h is not part of this model.
- HeapStatus.ValidIdPasses: bounds the age of the cached range. The program keeps to it because its snapshot, taken before the range is first read, holds the cluster's oldest id back; that part of the server is not part of this model.
- HeapStatus.HeapCheckContext.GetXidStatus: the commit log and the list of running transactions are one function of the id, and a cached status may be out of date, as in the program.

GIN and metaphone

- GIN's own search and entry tree are the contract of a partial match scan, stated as functions.
- Locale: `isalpha` and `toupper` are those of ASCII. The traditional variant that is not compiled, soundex and levenshtein.

Other parts of the repository

- The web application (`src`, `server`, `wsgi.py`) and the contrib modules dblink, file_fdw, adminpack, basic_archive, basebackup_to_shell, auto_explain, auth_delay and earthdistance: input and output, configuration, or floating point.
