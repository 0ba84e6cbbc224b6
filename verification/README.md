# Verified models of the diff renderer, the pager index and the scanners

This project models in Dafny ten small algorithms of the `dog` and `bro` directories and proves what they are for. It
verifies with `dafny verify dfyconfig.toml` (Dafny 4.11).

The code changes buffers, arrays and cursors in place, and so do the methods here: each source loop is a method with
the same branches, proved equal to a specification, and the laws are lemmas about the specification.

| files | what they model |
|---|---|
| `Bytes`, `Tokens` | byte buffers, lines of a byte string, diff-marked text |
| `Pairing`, `Regions`, `RegionLaws`, `RegionShape`, `LineMachine`, `TraceShape`, `BodyLaws`, `Renderer`, `Patch` | the unified-diff renderer of `dog/HUNK.c`: line similarity and greedy pairing, the flush of one region, the two open lines fed byte by byte, and what the printed headers and body say about both versions |
| `Brackets` | the three bracket algorithms of `dog/BRCT.c`, and their agreement on a three-kind Dyck grammar |
| `PagerSegments`, `PagerInline`, `PagerRows`, `PagerScreen`, `PagerIndex`, `PagerNav`, `PagerOrder`, `PagerRuns` | the pager's line index of `bro/BRO.c`: segments and blocks, soft-wrapped rows and what they show, counting and writing the index, moving through it, when its offsets ascend, and how changes are numbered |
| `Ragel`, `JsontGrammar`, `JsontTables`, `Jsont` | table lookup of the generated scanners, and the JSON scanner of `dog/JSONT.rl.c` against the grammar it was generated from |
| `Dpath` | the path segment automaton of `dog/DPATH.rl.c` against the encoding of RFC 3629, section 3 |
| `Keyw` | the keyword hash of `dog/KEYW.c` |
| `Igno`, `IgnoLaws` | the ignore matcher of `dog/IGNO.c`, and what its patterns mean for the components of a path |
| `Branches`, `Home` | branch paths of `dog/DPATH.h` and the branch session of `dog/HOME.c` |
| `Frag` | the percent codec of `dog/FRAG.rl.c` |

Marked text is a sequence of bytes with sides: unmarked, inserted, removed. The old version is what is not inserted,
the new version what is not removed. Where a promise fails, the lemma says for which inputs exactly, and another one
gives an input.

Where the code and its comments disagree, the model follows the code:

- `dog/HUNK.c:357-365` promises a body that `patch` can apply. Pairing can print removed lines in another order
  (`BodyLaws.OldOrderCanBreak`); `BodyLaws.OldVersionReadsBack` says for which texts exactly it does not.
- `bro/BRO.c:1018-1022` promises the largest row at or before the offset. Offsets start over inside a modified block and
  the loop stops at the first row beyond, so it can return an earlier one (`PagerOrder.PromisedRowCanDiffer`);
  `PagerOrder.PromiseKeptIffBlocksAscend` says for which hunks exactly it does not.
- `dog/HOME.h:137-141` says that the first call decides whether a session is writable. It is the first one granted
  (`Home.FirstOpenDecides`): a call refused because its path is too long decides nothing (`Home.FirstCallCanFail`), and
  `Home.FirstCallDecides` says that nothing else refuses a first call.
- `bro/BRO.h:148` promises the place of a run among all. Runs that no row shows are not counted
  (`PagerRuns.NumberCanDiffer`); `PagerRuns.NumberIsPlace` says when exactly that matters.
- The scanner accepts more than RFC 8259, as its grammar does: leading zeros, raw control bytes in strings. The laws are
  about the grammar, not about that RFC.

## Model

| member | source | states |
|---|---|---|
| `BodyLaws.NewVersionReadsBack` | dog/HUNK.c:385-488 | For every marked text: the body read back from its bytes without its `-` lines is exactly the lines of the new version, in order, if and only if either the two open lines agree at each unmarked newline and at the end and no region middle has more than 4096 added lines, or cuts cancel: one line is cut in all, the text ends in an old line beside which no new one is open, each new line before the cut is shown as it is, and each from the cut on equals the line shown next |
| `BodyLaws.CutsCancelExactly` | dog/HUNK.c:385-488 | The second case is just when the lines handed over without the one cut are the new version's; both conditions of the first case then fail |
| `BodyLaws.CutsCancelInTheText` | dog/HUNK.c:385-488 | Where the open lines agree at every unmarked newline, the second case is: one line cut in all, an old line left open alone at the end, and every new line from the cut on equal to it |
| `BodyLaws.FailuresCanCancel` | dog/HUNK.c:385-488 | A text of the second case: both conditions fail, one line is cut and one is spurious, and the new version still reads back |
| `BodyLaws.NewLineCanBeLost` | dog/HUNK.c:394-444 | The open-lines condition is needed: on `a`, removed newline, `b`, newline the new line `ab` is lost |
| `BodyLaws.OldVersionKept` | dog/HUNK.c:385-488 | Without its `+` lines the body has the old version's lines, each as often, if and only if no region middle has more than 4096 removed lines |
| `BodyLaws.OldVersionReadsBack` | dog/HUNK.c:385-488 | For every marked text: without its `+` lines the body is exactly the lines of the old version, in order, if and only if in every region no removed line is cut from the middle and the pairing moves removed lines only to places of equal ones |
| `BodyLaws.OldVersionReadsBackInOrder` | dog/HUNK.c:385-488 | Where the removed lines of every middle differ from each other, that is if and only if none is cut and in every region the paired ones come first, in the order of their partners |
| `BodyLaws.OldOrderCanBreak` | dog/HUNK.c:357-365 | The body cannot always be applied as a patch: of the removed lines `x`, `aaab` before the inserted `aaac` the second is printed first |
| `BodyLaws.HeaderCounts` | dog/HUNK.c:501-522 | Each count of the `@@` line equals the number of body lines of its side if and only if no region is cut on that side |
| `BodyLaws.BodyReads` | dog/HUNK.c:385-488 | The bytes of the body determine its lines: splitting at newlines and taking off prefixes gives back what was rendered |
| `PatchLaws.PatchSaysWhatItHolds` | dog/HUNK.c:490-524 | The output for a hunk with changes, read as a patch: the names stand in front, old before new; both starts are the hunk's line; the number behind `-` equals the old lines of the bytes behind the `@@` line if and only if no region is cut on that side, the number behind `+` likewise |
| `PatchLaws.HeaderReads` | dog/HUNK.c:490-522 | A reader that knows only lines, digits and signs finds the two names, then start and old count, start and new count, then the body |
| `PatchLaws.DecimalReads` | dog/HUNK.c:508-516 | The digits written read back as the number |
| `PatchLaws.TitleReads` | dog/HUNK.c:328-352 | A hunk without changes starts with its URI between dashes |
| `TraceShape.RegionsTakeTurns` | dog/HUNK.c:420-488 | Regions and context lines take turns: one region before each context line and one at the end, and there are as many context lines as lines of which nothing is changed |
| `TraceShape.PlainLinesAreContext` | dog/HUNK.c:421-444 | A line of which nothing is changed, ended by an unmarked newline, is printed as context, behind exactly the old lines and as many new lines as the text has in front of it |
| `LineMachine.RunMirrors` | dog/HUNK.c:371-457 | After any text the state mirrors both versions read so far: open lines are their unfinished lines, flags say whether a marked byte is in them, counts are the lines handed over, and the old lines handed over are the old version's |
| `LineMachine.NewLinesHandedOver` | dog/HUNK.c:385-457 | The new lines handed over so far are the new version's complete lines if and only if the open lines agreed at every unmarked newline so far |
| `LineMachine.OldLinesTraced` | dog/HUNK.c:385-488 | Every old line is handed over, in order, on every text; the counts are the numbers of lines handed over |
| `LineMachine.NewLinesTraced` | dog/HUNK.c:385-488 | Every new line, the partial last one included, is handed over in order if and only if the open lines agree throughout |
| `LineMachine.FinishTrace` | dog/HUNK.c:460-488 | What the end of the text adds to each side, case by case |
| `RegionLaws.RegionNewSide` | dog/HUNK.c:191-297 | A flushed region reads back the added lines, in order, when its middle has at most 4096 of them, and fewer lines otherwise |
| `RegionLaws.RegionOldSide` | dog/HUNK.c:191-297 | A flushed region has the removed lines as a multiset when its middle has at most 4096 of them, and fewer lines otherwise |
| `RegionLaws.RegionOldOrder` | dog/HUNK.c:181-190 | A flushed region has the removed lines in their own order if and only if none is cut from its middle and the pairing moves only equal ones |
| `RegionLaws.MiddleOldOrder` | dog/HUNK.c:274-283 | The same for the middle alone |
| `RegionLaws.InOrderMovesNothing` | dog/HUNK.c:274-283 | A pairing in order moves nothing; where the removed lines differ from each other, only such a pairing does |
| `RegionLaws.InOrderIsIdentity` | dog/HUNK.c:274-283 | The printed order of the removed lines is their own order if and only if the paired ones come first and in the order of their partners |
| `RegionLaws.MiddlePermutes` | dog/HUNK.c:274-283 | No pairing loses, doubles or invents a removed line of the middle |
| `RegionShape.LeadIsContext` | dog/HUNK.c:197-210 | Leading lines both sides of a region have in common are printed as context, first of all |
| `RegionShape.EndIsContext` | dog/HUNK.c:212-231 | Trailing lines in common, as far as the leading ones leave them, are printed as context, last of all |
| `RegionShape.MiddleHasNoContext` | dog/HUNK.c:274-283 | Between them nothing is context |
| `RegionShape.PairsStandTogether` | dog/HUNK.c:181-190 | Every added line of the middle stands behind those before it; right in front of it stands its partner, or, without one, no removed line |
| `RegionShape.UnpairedComeLast` | dog/HUNK.c:280-283 | Behind the last added line stand the unpaired removed lines, in their own order |
| `Lines.SplitSpells` | dog/HUNK.c:126-140 | Splitting at newlines loses nothing: the complete lines and the rest spell the bytes again, and no line holds a newline |
| `Regions.FlushRegion` | dog/HUNK.c:191-297 | On buffers that hold prefixed lines, the flush appends the region's rendering (common head, paired middle, common tail) and empties both buffers |
| `Regions.MatchPrefix` | dog/HUNK.c:197-210 | Prints exactly the longest common run of leading lines as context and leaves the rest |
| `Regions.CompareLast` | dog/HUNK.c:215-228 | Finds where the last line on each side starts and whether the two are equal |
| `Regions.MatchSuffix` | dog/HUNK.c:212-231 | Moves both ends back over exactly the longest common run of trailing lines that does not reach into the matched prefix |
| `Regions.TakeLines` | dog/HUNK.c:132-140 | Takes the middle's lines off the buffer, the first 4096 at most |
| `Regions.EmitLine` | dog/HUNK.c:173-179 | Appends prefix, line and newline |
| `Regions.EmitPairs` | dog/HUNK.c:274-283 | Prints the middle in the order of the added lines, each behind its partner, then the unpaired removed lines |
| `Regions.EmitTail` | dog/HUNK.c:285-294 | Prints the common trailing lines as context |
| `Regions.FlushMiddle` | dog/HUNK.c:233-283 | Takes, pairs and prints the middle |
| `BodyLines.ParseRender` | dog/HUNK.c:173-179 | Parsing rendered lines gives them back when they hold no newline |
| `Similarity.SharedBytes` | dog/HUNK.c:147-157 | Counts the bytes of the common prefix and of the common suffix behind it |
| `Similarity.IsSmallEdit` | dog/HUNK.c:162-169 | Whether the shared bytes are at least three quarters of the longer line |
| `Similarity.SharedIsMost` | dog/HUNK.c:142-157 | The shared count is the largest p + s such that the lines start with the same p bytes and end with the same s others: some p and s reach it, none pass it |
| `Similarity.SmallEditIff` | dog/HUNK.c:159-169 | Two lines are a small edit if and only if some such p + s is at least three quarters of either line |
| `Similarity.SharedSymmetric` | dog/HUNK.c:142-169 | Neither measure depends on which line is the old one |
| `Similarity.SharedBounds` | dog/HUNK.c:147-157 | The shared count is at most either length, and equals both exactly for equal lines |
| `Pairing.PairLines` | dog/HUNK.c:245-272 | The loop terminates with the two arrays equal to the pairing specified |
| `Pairing.FindBest` | dog/HUNK.c:254-268 | One scan finds the first free small edit with the largest shared count, or that there is none |
| `Pairing.NoBlockingPair` | dog/HUNK.c:245-272 | The two arrays are mutually inverse, pair only small edits that share bytes, and every small edit passed over has an end paired at a shared count at least as large |
| `Pairing.PairingIsUnique` | dog/HUNK.c:245-272 | Any pairing that is stable, ties going to the first pair, is the one the loop finds |
| `Matching.StableIsUnique` | dog/HUNK.c:250-272 | Two stable matchings of the same weights are equal |
| `Matching.StableExists` | dog/HUNK.c:250-272 | Every fair partial matching extends to a stable one |
| `Matching.JoinBest` | dog/HUNK.c:269-271 | Joining the best free pair keeps the matching fair |
| `Matching.BestExists` | dog/HUNK.c:253-268 | While a free candidate is left there is a best one |
| `Renderer.FeedLineBased` | dog/HUNK.c:321-532 | The whole output: title and text for a hunk without changes, else headers with the counts of the line machine and the body of its trace |
| `Renderer.LineRenderer.FeedByte` | dog/HUNK.c:391-455 | One byte takes the concrete buffers, flags and counters where the line machine's step says |
| `Renderer.LineRenderer.Close` | dog/HUNK.c:459-488 | The end of the text does what the machine's finish says |
| `Renderer.LineRenderer.Flush` | dog/HUNK.c:438-438 | A flush hands the pending lines over and empties them |
| `Renderer.HasDiff` | dog/HUNK.c:55-60 | Whether some token has a side |
| `BracketEngine.Match` | dog/BRCT.c:31-67 | Returns the mate by counting one kind: the first place where the kind's height returns, -1 exactly when there is none or the token is no bracket |
| `BracketEngine.ScanForward` | dog/BRCT.c:40-51 | The forward scan finds the mate of an opening bracket or proves there is none |
| `BracketEngine.ScanBackward` | dog/BRCT.c:52-63 | The backward scan finds the mate of a closing bracket or proves there is none |
| `BracketSpec.MatchIsInvolution` | dog/BRCT.c:31-67 | On every stream, balanced or not: the mate of the mate is the bracket itself |
| `BracketSpec.MatchIsFunction` | dog/BRCT.c:31-67 | The stream determines the answer |
| `BracketEngine.Check` | dog/BRCT.c:110-130 | OK if and only if the brackets form a word of the three-kind Dyck grammar nested at most 256 deep |
| `BracketSpec.StackDecidesBalance` | dog/BRCT.c:110-130 | The 256-deep stack machine ends empty without a mismatch or overflow if and only if a derivation tree of nesting at most 256 exists |
| `BracketSpec.PairsAreMates` | dog/BRCT.c:31-67 | The pair the stack pops together is the pair the one-kind count finds |
| `BracketSpec.PartnerExists` | dog/BRCT.c:110-130 | Every bracket of a derivable stretch has its partner in it |
| `BracketSpec.MatchFindsPartner` | dog/BRCT.c:31-130 | On balanced streams the one-kind count returns the stack partner of every bracket |
| `BracketEngine.DepthAt` | dog/BRCT.c:132-144 | Returns the depth before a token, or at the end of a shorter stream |
| `BracketSpec.DepthIs` | dog/BRCT.c:132-144 | On every stream the depth is how far the height stands above its lowest point so far |
| `BracketSpec.BalancedDepth` | dog/BRCT.c:132-144 | On a balanced stream it is the number of open brackets |
| `BracketEngine.Inner` | dog/BRCT.c:69-89 | Succeeds exactly when a nearest unclosed bracket with a mate not before `at` exists, and returns that pair |
| `BracketSpec.InnerExistsWhereDeep` | dog/BRCT.c:69-89 | On balanced streams an enclosing pair exists if and only if the depth is positive |
| `BracketSpec.InnerEncloses` | dog/BRCT.c:69-89 | On balanced streams the nearest unclosed bracket and its stack partner enclose the position |
| `BracketSpec.InnerIsInnermost` | dog/BRCT.c:69-89 | On balanced streams the pair found is enclosing and inside every other enclosing pair |
| `BracketEngine.Outer` | dog/BRCT.c:91-108 | Terminates because `from` decreases; the pair returned has no pair around its opening bracket, encloses the position and opens at depth 0 on balanced streams |
| `BracketSpec.DepthZeroIsOutermost` | dog/BRCT.c:91-108 | An enclosing pair that opens at depth 0 lies outside every other enclosing pair |
| `PagerSegments.PagerShowsVersion` | bro/BRO.c:517-595 | Read in one pass, the spans of the walk show all bytes of that version in order if and only if no modified block has bytes of the version behind the last newline the pass sees and none lie beyond the 8192 segments kept |
| `PagerScreen.ScreenShowsVersion` | bro/BRO.c:483-595 | The same for the wrapped rows: what the rows of a pass and of unchanged text show, from top to bottom, is the version under just those conditions |
| `PagerScreen.RowsShowSpan` | bro/BRO.c:483-496 | The wrapped rows of a span show together what the span shows |
| `PagerSegments.BlockShows` | bro/BRO.c:552-590 | In a modified block the rows of a pass show exactly the pass's bytes up to the last newline it sees there; the groups skipped hold none |
| `PagerSegments.BlockShown` | bro/BRO.c:552-590 | What a whole block, both passes, shows of one version |
| `PagerSegments.OtherPassShowsNothing` | bro/BRO.c:552-590 | The rows of one pass show nothing of the other version |
| `PagerSegments.WalkShows` | bro/BRO.c:517-595 | From any segment on, the spans account for every byte of a version: shown, or in a block's tail |
| `PagerSegments.SegmentsPartition` | bro/BRO.c:384-416 | The segments are consecutive, end at newlines, count their bytes by side, and reach the end of the text |
| `PagerInline.InlineIff` | bro/BRO.c:441-541 | Told from the marked text alone: the walk hands over a stretch as it stands, in the normal pass, if and only if it lies between newlines, the one behind it is unmarked or the text ends, none of its bytes or fewer than a quarter are changed, and fewer than 8192 newlines are in front of it; nothing else is handed over in that pass |
| `PagerInline.NoEmptyRows` | bro/BRO.c:552-590 | Every row of an old or a new pass shows at least one byte of its version |
| `PagerSegments.WalkGood` | bro/BRO.c:418-422 | Every span ends at a newline its pass sees or at the end of the text, and sees none before |
| `PagerSegments.NothingBeyond` | bro/BRO.c:384-416 | With at most 8192 segments nothing is beyond them |
| `PagerSegments.ShownCanMiss` | bro/BRO.c:552-590 | A text one of whose removed bytes is shown in no row |
| `PagerRows.ClassifyLines` | bro/BRO.c:384-416 | Fills the array with the segments of the text, the first 8192 at most |
| `PagerRows.RowsTile` | bro/BRO.c:483-496 | The rows of a span start where it starts, each where the one before ended, strictly increasing, and the last reaches the end |
| `PagerRows.RowAt` | bro/BRO.c:483-496 | Where row k starts and ends |
| `PagerRows.RowsEndWithSpan` | bro/BRO.c:483-496 | If no character reaches across a newline, the last row ends exactly where the span ends |
| `PagerRows.RowWidth` | bro/BRO.c:329-352 | A row has at most `cols` visible characters, and fewer only when it ends at a visible newline or with the text |
| `PagerRows.StepsOverCharacters` | bro/BRO.c:329-352 | A row steps over each character of UTF-8 as a whole, whatever scalar value it encodes |
| `PagerRows.RowEndPlain` | bro/BRO.c:309-319 | The row end of the normal pass |
| `PagerRows.RowEndPass` | bro/BRO.c:329-352 | The row end of any pass, by a token cursor that only moves forward |
| `PagerRows.CountRows` | bro/BRO.c:498-510 | Counts exactly the rows of a span |
| `PagerRows.SkipTokens` | bro/BRO.c:337-340 | Finds the first token that ends beyond an offset |
| `PagerIndex.PackingIsExact` | bro/BRO.c:196-214 | Offset (below 2^24) and pass survive packing, and no packed row is a title |
| `PagerIndex.AppendRows` | bro/BRO.c:483-496 | Writes the rows of a span behind the first entries as far as there is room |
| `PagerIndex.WalkHunk` | bro/BRO.c:517-595 | Hands the walk's spans to the sink, once each and in order |
| `PagerIndex.WalkPass` | bro/BRO.c:552-590 | Hands over the spans of one pass of a block |
| `PagerIndex.FindBlockEnd` | bro/BRO.c:543-550 | Finds the end of a modified block |
| `PagerIndex.RowSink.Emit` | bro/BRO.c:597-625 | Counts or writes the rows of one span; counts are the entries it stands for |
| `PagerIndex.CountLines` | bro/BRO.c:659-668 | Returns the length of the index |
| `PagerIndex.CountHunk` | bro/BRO.c:606-609 | Returns the number of entries of a hunk's text |
| `PagerIndex.AppendLines` | bro/BRO.c:2591-2604 | Extends the first entries by the index of the hunks given, as far as there is room, and leaves those entries alone |
| `PagerIndex.AppendHunk` | bro/BRO.c:2595-2602 | Writes title and rows of one hunk |
| `PagerIndex.AppendTitle` | bro/BRO.c:2596-2599 | Writes the title row when there is a title and room |
| `PagerIndex.AppendText` | bro/BRO.c:627-657 | Writes the rows of a hunk's text |
| `PagerIndex.CountedRoomSuffices` | bro/BRO.c:659-668 | With as much room as was counted the whole index is written |
| `PagerIndex.IndexSplits` | bro/BRO.c:2591-2604 | The index of a stretch of hunks is that of its first part followed by that of the rest |
| `PagerIndex.AppendingIsRebuilding` | bro/BRO.c:2591-2604 | Appending hunks in two calls leaves the same entries as one rebuild, whatever the room |
| `PagerIndex.FilledIsPrefix` | bro/BRO.c:2591-2604 | Less room gives a prefix of what more room gives |
| `PagerNav.LineForOff` | bro/BRO.c:1023-1035 | The last row of the hunk reached before the first one beyond the offset, none exactly when no row is |
| `PagerNav.LineForOffMonotone` | bro/BRO.c:1023-1035 | Monotone in hunk and offset on every index ordered by hunk, although offsets start over inside modified blocks |
| `PagerNav.PromisedRowIffParted` | bro/BRO.c:1018-1035 | The row is the one its comment promises if and only if the hunk's rows at or before the offset all come before those beyond it |
| `PagerOrder.PromisedRowCanDiffer` | bro/BRO.c:1018-1035 | On the index built for `ab`, `cd` with `a` and `c` removed the lookup at offset 0 finds row 0, where the last row at or before it is row 2 |
| `PagerOrder.PromiseKeptIffBlocksAscend` | bro/BRO.c:1018-1035 | On a built index the comment holds at every offset of a hunk if and only if in no modified block a new row starts before the last old one |
| `PagerOrder.PromiseKeptIffParted` | bro/BRO.c:1018-1035 | On any ordered index it holds at every offset if and only if rows are parted at every offset |
| `PagerScreen.WalkAscends` | bro/BRO.c:517-595 | The rows of a hunk start in ascending order if and only if in no modified block a new row starts before the last old one |
| `PagerNav.TitledIff` | bro/BRO.c:2594-2599 | A hunk has a title row in the index if and only if it has a title; that row is the first of the hunk's |
| `PagerNav.IndexIsOrdered` | bro/BRO.c:2591-2604 | The index built is ordered by hunk, so the navigation laws apply to it |
| `PagerNav.RunLinesMonotone` | bro/BRO.c:1079-1147 | Runs in order have lines in order |
| `PagerNav.RunsAreMaximal` | bro/BRO.c:1079-1085 | Every changed token lies in exactly one run: tokens of one side, behind a token of another side or at the start |
| `PagerNav.HiliNextLine` | bro/BRO.c:1115-1129 | The least line of a change run beyond `mid`, none exactly when there is none: the early exit is exact |
| `PagerNav.HiliPrevLine` | bro/BRO.c:1131-1147 | The greatest line of a change run below `mid`, none exactly when there is none |
| `PagerNav.HiliIndexAt` | bro/BRO.c:1097-1113 | The number of runs whose line is at most `at` |
| `PagerRuns.NumberIsPlace` | bro/BRO.h:148-150 | That number is the place among all runs of the latest one whose line is at most `at` if and only if every run before it has a line |
| `PagerRuns.NumberCanDiffer` | bro/BRO.h:148-150 | Behind a hunk of two runs and no row the third run of all gets another number than 3 |
| `PagerRuns.HiliCount` | bro/BRO.c:1087-1095 | The number of all runs |
| `PagerNav.NoMoreRuns` | bro/BRO.c:1108-1109 | Past a run beyond `at` no run counts, so stopping early loses none |
| `PagerNav.HunkNextLine` | bro/BRO.c:1037-1044 | The first start of a hunk behind a row |
| `PagerNav.HunkPrevLine` | bro/BRO.c:1046-1058 | The last start of a hunk before a row |
| `PagerNav.HunkCount` | bro/BRO.c:1060-1066 | The number of hunks that have rows |
| `PagerNav.HunkIndexAt` | bro/BRO.c:1068-1075 | The number of hunks that have rows up to a row |
| `Jsont.Lexer` | dog/JSONT.rl.c:125-337 | Terminates; the tokens reported are adjacent from the first byte and each is the longest one the grammar has there. OK: they cover the input. BAD: no token of the grammar starts behind them, and the input is left at the byte that rules one out. Refused: it stops at the end of the refused token |
| `JsontMachine.FinishesExactly` | dog/JSONT.c.rl:15-73 | The automaton has read a token of a kind if and only if the grammar says the bytes are one |
| `JsontMachine.Strings` | dog/JSONT.c.rl:20-59 | Strings: quotes around any number of escapes and other bytes |
| `JsontMachine.Numbers` | dog/JSONT.c.rl:61-62 | Numbers: sign, digits, fraction, exponent |
| `JsontMachine.Keywords` | dog/JSONT.c.rl:64-65 | true, false and null |
| `JsontMachine.Spaces` | dog/JSONT.c.rl:70-71 | Runs of white space |
| `JsontMachine.Puncts` | dog/JSONT.c.rl:67-68 | The six punctuation bytes |
| `Jsont.NextTransition` | dog/JSONT.rl.c:164-230 | The transition looked up in the generated tables, or the one at the end of the input, is the one the automaton makes |
| `JsontTables.AllTabulated` | dog/JSONT.rl.c:19-79 | The generated tables hold the rows of every state |
| `JsontTables.EffectIs` | dog/JSONT.rl.c:81-93 | What each transition's target and action are |
| `Jsont.GoesOn` | dog/JSONT.rl.c:225-242 | A transition that ends no token keeps what the loop knows: where a number last ended and that nothing longer was read |
| `Jsont.CompletesHere` | dog/JSONT.rl.c:243-269 | A token finished by the byte read has no longer one |
| `Jsont.StopsHere` | dog/JSONT.rl.c:270-287 | A token that the next byte cannot prolong is the longest |
| `Jsont.FallsBack` | dog/JSONT.rl.c:288-296 | A number given up on ended where `te` says, and is the longest there |
| `Jsont.OneTag` | dog/JSONT.c.rl:56-73 | No run of bytes is two kinds of token |
| `Jsont.CutsAgree` | dog/JSONT.rl.c:125-337 | There is one way to cut an input into longest tokens |
| `Jsont.CuttableIsNotStuck` | dog/JSONT.rl.c:125-337 | An input that can be cut to its end is one the scanner accepts |
| `Jsont.PackedOffsetsAreTrue` | dog/HUNK.c:569-577 | Because the tokens are adjacent, the summed lengths the callback packs are the true end offsets, and the packed tokens tile the text |
| `Jsont.LettersNameKinds` | dog/JSONT.c:5-33 | The letter packed with a token says whether its bytes are a string, a number, a keyword, punctuation or white space |
| `Ragel.SearchSingles` | dog/JSONT.rl.c:180-201 | Binary search among single keys finds the key or that it is missing |
| `Ragel.SearchRanges` | dog/JSONT.rl.c:203-223 | Binary search among key ranges finds the range or that none holds the byte |
| `Ragel.Lookup` | dog/JSONT.rl.c:176-226 | Both searches give the row's target |
| `Keyw.KeywordSet.Has` | dog/KEYW.c:32-44 | True if and only if the token is one of the keywords in the table; the wrapping probe ends |
| `Keyw.KeywordSet.Open` | dog/KEYW.c:14-30 | From any table: FULL for more than 64 keywords, leaving everything alone; SHORT at the first keyword under two bytes, with those before it in the table; otherwise the table holds the list, duplicates and all |
| `Keyw.KeywordSet.Place` | dog/KEYW.c:25-27 | Puts a keyword into the first free slot of its probe; the probe ends |
| `Keyw.BuiltGrows` | dog/KEYW.c:25-27 | Filling the slot a probe ended at keeps every keyword where its own probe finds it |
| `Keyw.MetOnTheWay` | dog/KEYW.c:37-42 | A keyword in the table is met before the first free slot |
| `Keyw.Missed` | dog/KEYW.c:37-43 | A probe that ends at a free slot without meeting the token proves that it is no keyword |
| `Keyw.ProbeEnds` | dog/KEYW.c:26-26 | There is a free slot within one lap of every start |
| `Dpath.Verify` | dog/DPATH.h:29-37 | OK if and only if the name is nonempty, well-formed UTF-8, free of NUL, `/` and `\`, and not `.`, `..` or a case variant of `.git` or `.be`; FAIL if and only if it is empty |
| `Dpath.DrainSeg` | dog/DPATH.rl.c:78-174 | The same for the draining form, which takes the whole input on OK and leaves it alone otherwise |
| `Dpath.AcceptsExactly` | dog/DPATH.h:11-23 | The automaton accepts exactly the names described |
| `Dpath.TextIsUtf8` | dog/DPATH.rl.c:11-69 | From a state between characters the rest is accepted if and only if it is the UTF-8 encoding of some scalar values without a forbidden byte |
| `Dpath.ReadPoint` | dog/DPATH.rl.c:11-69 | What is read from one such state to the next is the encoding of one scalar value |
| `Dpath.WritePoint` | dog/DPATH.rl.c:11-69 | The encoding of a scalar value leads from one such state to the next |
| `Dpath.PrefixStates` | dog/DPATH.rl.c:11-69 | A state inside `.`, `.b`, `.gi` accepts what plain text does but for the end of that name |
| `Dpath.DotPrefix` | dog/DPATH.rl.c:11-69 | Behind a leading dot everything is accepted but the ends of the reserved names |
| `Dpath.Transition` | dog/DPATH.rl.c:105-155 | The transition searched in the tables is the automaton's step |
| `DpathMachine.AllTabulated` | dog/DPATH.rl.c:11-69 | The generated tables hold the rows of every state |
| `Glob.Match` | dog/IGNO.c:15-51 | Terminates and is true if and only if the text falls into one piece per pattern element |
| `Glob.MatchDouble` | dog/IGNO.c:20-29 | A double star is tried in front of every rest of the text |
| `Glob.MatchStar` | dog/IGNO.c:30-37 | A star is tried in front of every rest up to the first slash |
| `Glob.OnlyStarsLeft` | dog/IGNO.c:49-50 | Where the text is used up, exactly the patterns of stars fit |
| `Glob.LevelsMatch` | dog/IGNO.c:15-51 | Without a double star a match has as many slashes as the pattern |
| `Glob.LiteralIsItself` | dog/IGNO.c:45-47 | A pattern without wildcards fits its own text only |
| `IgnoLaws.DoubleStarIsAny` | dog/IGNO.c:20-29 | A double star matches every text, slashes and all |
| `IgnoLaws.DoubleStarEndsIn` | dog/IGNO.c:20-29 | A double star, a slash and a plain text match exactly the nonempty texts that end in it, within a component or not |
| `Igno.TryMatch` | dog/IGNO.c:54-113 | True if and only if the pattern is about the path: by its last component, from its root, or from some component on |
| `IgnoLaws.AppliesIff` | dog/IGNO.c:54-113 | In components, for every pattern: anchored it is matched with the whole path, without inner slash with the last component, otherwise with the path from some component on; for directories only it is about no file |
| `IgnoLaws.LiteralApplies` | dog/IGNO.c:54-113 | Without wildcards: an anchored pattern is about exactly the path with its components, one without inner slash about exactly the paths whose last component it is, any other about exactly the paths that end in its components |
| `Igno.MatchOne` | dog/IGNO.c:247-254 | True if and only if the last pattern that applies is not a negated one |
| `Igno.IsMeta` | dog/IGNO.c:227-241 | True if and only if some whole component is `.git`, `.be` or `..be.idx` |
| `IgnoLaws.MetaIff` | dog/IGNO.c:227-241 | A path is metadata if and only if `.git`, `.be` or `..be.idx` is among its components |
| `Igno.IsIgnored` | dog/IGNO.c:256-277 | True if and only if the path is nonempty and metadata, ignored itself, or below an ignored directory |
| `Igno.IgnoredDirectoryHidesAll` | dog/IGNO.c:265-275 | If a directory is ignored every path below it is, whatever the negated patterns say |
| `Igno.NegatedOnly` | dog/IGNO.c:247-254 | Negated patterns alone ignore nothing but metadata |
| `Branches.NormFeed` | dog/DPATH.h:53-74 | Feeds the canonical form; fails exactly when it does not fit |
| `Branches.NormIsCanonical` | dog/DPATH.h:41-50 | The form is canonical, whatever comes in |
| `Branches.CanonicalIsFixed` | dog/DPATH.h:53-74 | Normalising leaves a path alone if and only if it is canonical, so it is idempotent |
| `Branches.SlashesDoNotMatter` | dog/DPATH.h:55-58 | Slashes around a path do not matter |
| `Branches.TrunkIffNamed` | dog/DPATH.h:43-72 | A path is the trunk if and only if it is nothing, `main`, `master` or `trunk`, or one of these three behind `heads/`, with any slashes around it |
| `Branches.AncestorIsPartialOrder` | dog/DPATH.h:79-84 | Reflexive, transitive, antisymmetric, with the trunk below everything |
| `Branches.AncestorIsLevelPrefix` | dog/DPATH.h:76-84 | On canonical paths a byte prefix is a prefix in levels |
| `Branches.HasLevels` | dog/DPATH.h:41-50 | Every canonical path is the path of some levels |
| `Home.HomeState.OpenBranch` | dog/HOME.c:287-324 | Answers and changes the state as the session model says, in the order of the checks; only a granted open changes anything |
| `Home.HomeState.WriteBranch` | dog/HOME.c:327-334 | The branch of slot 0 if and only if the session is writable |
| `Home.HomeState.BranchVisible` | dog/HOME.c:336-342 | True if and only if the branch is an ancestor of an open one |
| `Home.RunIsSound` | dog/HOME.c:287-324 | After every run of opens: branches canonical, pairwise distinct, at most 16, at most 1024 bytes, and a writable session has one |
| `Home.FirstOpenDecides` | dog/HOME.c:306-323 | After the first granted open, and for good: the session is writable if and only if that open asked for it, and slot 0 is its branch |
| `Home.FirstCallDecides` | dog/HOME.h:137-141 | The first call decides for good whether the session is writable if and only if its canonical path has at most 256 bytes |
| `Home.FirstCallCanFail` | dog/HOME.h:137-141 | A first call that decides nothing: a name of 256 bytes opened for writing is refused, and after the trunk is opened for reading the session is never writable |
| `Home.WritableIffGranted` | dog/HOME.c:308-323 | A session is writable if and only if its first granted open was for writing, and no later open for writing is granted |
| `Home.BranchesStay` | dog/HOME.c:287-324 | Open branches stay open, in their slots |
| `Home.OpenedOnce` | dog/HOME.c:296-304 | A branch once open is never opened again, however it is spelled, and which refusal it gets |
| `Home.GrantedIff` | dog/HOME.c:287-324 | Over runs, told from the answers before: call k is granted if and only if its canonical path has at most 256 bytes, was not granted before, fewer than 16 calls were, their bytes and its own come to at most 1024, and it is for reading or the first; and which refusal it gets otherwise |
| `Home.VisibilityIsClosed` | dog/HOME.c:336-342 | Ancestors of a visible branch are visible, and stay so |
| `Home.GrantedIsVisible` | dog/HOME.c:336-342 | A granted open makes its branch and every branch above it visible |
| `Home.NextIsSound` | dog/HOME.c:287-324 | Every open keeps the session sound |
| `Frag.RoundTrip` | dog/FRAG.rl.c:295-342 | Decoding undoes encoding, for every byte string |
| `Frag.RoundTripBack` | dog/FRAG.rl.c:295-342 | Encoding undoes decoding if and only if the string is one the encoder writes |
| `Frag.EscapedIsClean` | dog/FRAG.rl.c:295-313 | The escaped form is longer by two for each byte escaped, and has only legal printable bytes and complete escapes |
| `Frag.EscapedIsItself` | dog/FRAG.rl.c:295-313 | A string is its own escaped form if and only if it has only printable bytes, and neither `#` nor `%` |
| `Frag.FirstEscape` | dog/FRAG.rl.c:322-342 | Decoding leaves everything in front of the first escape as it is, makes that one byte, and goes on behind it; incomplete escapes stay |
| `Frag.DigitsOfEitherCase` | dog/FRAG.rl.c:315-320 | The sixteen hexadecimal digits of either case, in order, and no other byte |
| `Frag.Esc` | dog/FRAG.rl.c:295-313 | Succeeds if and only if there is any room and the whole form fits; writes the form, a prefix of it on failure, and nothing before it |
| `Frag.Unesc` | dog/FRAG.rl.c:322-342 | The same for decoding |

## Left out

- Room in the renderer's buffers: they grow as needed here; the source allocates fixed sizes and ignores failed feeds.
- `hunk_loc` and the URI parser: path and line number are parameters of `Renderer.FeedLineBased`.
- `utf8sFeed10` and `UTF8_LEN` of the `abc` library are not part of this model; decimal digits, and the usual length table by the high half of the first byte, stand for them.
- Guards of the flush against a line without a newline: the buffers are proved to hold whole lines only, so they never fire.
- PagerIndex.RowSink.Emit: stands for the two emit callbacks of the walk, which the source passes as arguments.
- The custom bit that `bro_hunk_append` sets in tokens for the terminal's styling.
- Token words: `tok32` is a record here; its packing is not modelled, and ends are below 2^24 as the format demands.
- PagerNav.IndexIsOrdered: speaks of indexes of fewer than 2^32 rows, as row numbers are 32 bits wide.
- PagerScreen.ScreenShowsVersion: speaks of texts none of whose characters reaches across a newline, as in well-formed UTF-8; elsewhere a row can run into the next line.
- PagerOrder.PromiseKeptIffBlocksAscend: speaks of texts below 2^24 bytes, as row offsets have 24 bits.
- Jsont.Lexer: the callback is a function of the tokens reported so far and the one reported; its effects are its own.
- `_nacts` loops of the scanner: every action list in the tables has at most one action, which is proved, so the model takes that one.
- `ts = 0` between tokens: the next token sets it before it is read.
- JSONT's other instances, the lexers of the remaining languages: the same engine with larger tables.
- `PATHu8sBase` and `$eachseg` are not part of this model: the base is taken to be what follows the last slash, and components what lies between slashes.
- `IGNOLoad`: reading and parsing the ignore file; patterns come with their flags.
- Branches.Pad.Feed: `u8bFeed` is not part of this model; it is taken to feed everything or, without room, nothing.
- `FRAGu8sDrain`, which parses line numbers and extensions of a fragment.
- TLV records, `HUNKu8sFeedText`, `HUNKu32sClip` and `HUNKu8sMakeURI`.
- The terminal half of the pager: rendering, keys, prompts, pipes.
- Repository discovery, configuration and process arguments of `dog/HOME.c` and the command line tools.
