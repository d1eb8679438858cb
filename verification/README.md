# Verified models of the tooling cores

Dafny models of the algorithmic cores in the TypeScript and Python tooling around the engine, and proofs about them.
Each module follows one source component. Code that works in place is a method or a class, proved against a
specification function; the promises of the component are lemmas about that function. `dafny verify dfyconfig.toml`
checks the whole project.

- **Polygon clipping** (`Clipping`, `ClipArea`, `ClipIntersection`, `FaceOverlap`, `SurfaceIssues`): Sutherland-Hodgman
  clipping over exact reals, what it conserves, that it computes the intersection, where the program's tolerances break
  that, and the log of issues by key.
- **NBT** (`Bytes`, `ModifiedUtf8`, `NbtFormat`, `NbtWire`, `NbtReader`, `NbtRoundTrip`, `NbtView`): the reader object,
  a reference grammar byte by byte, a reference encoder and the round trip between them.
- **Packed storage** (`Words`, `BitStorage`, `ChunkSection`): n-bit slots in signed 64-bit words as a plain sequence.
- **First-party pack** (`ShortCodes`, `Png`): shortest unique prefixes, stored-block zlib and PNG.
- **Asset packs** (`Newlines`, `AssetPack`, `PackMeaning`, `PackAgreement`): entries, manifest, archive, verification,
  fingerprints.
- **Figure checks** (`BoxGap`, `Components`, `GeometryAnalysis`, `Accounting`): gap search, connected components, and
  the accounting of issues against exceptions and baselines.
- **Animation** (`FigureAnimation`, `FigureMeaning`, `FigurePose`, `FigureScene`, `GroundContact`): sampling, what the
  keys give a part at a time, the memoised pose evaluator, the stateful preview that refines it, and the ground contact
  projection.
- **Structure builder** (`StructureModel`, `StructureScripts`, `ScriptMeaning`, `StructureBuilder`, `StructureAssets`):
  the voxel builder as a script of calls, what its leaf calls leave, canonical blocks and the validator.
- **Liquid fixtures** (`Decimals`, `LiquidWorld`, `StateKeys`, `LiquidTicks`, `LiquidFixture`, `LiquidMeaning`): world
  lookup, palette interning, comparison by key and, for plain names, by state.
- **Source rewriter** (`JavaPieces`, `BraceMatching`, `Splicing`, `NestedRewrites`, `VariableRenaming`): brace matching
  over pieces of Java text, offset-based splicing of ranges apart or nested, and the renaming of variables in them.
- Shared: `Outcomes` (options and results), `Sorting` (stable sorting, what it keeps and when it forgets the order),
  `Halving` (what 18 halvings leave of an interval) and `Numbers`.

JavaScript numbers in geometry and animation are `real`; integers that wrap are written out. Matrices, quaternions, box
intersection, the digest, the CRC, JSON, collation and file contents are parameters, with the laws a lemma needs in its
`requires`: associative matrix products, a total preorder for collation, a monotone or symmetric intersection test. A
callback of the structure builder is a script: what one build does, with `Attempt` where it catches an error.

Where a promise turned out not to hold for all inputs, the code is modelled as it is, and both the exact condition under
which it holds and, where it helps, a failing input are proved:

- compound fields named `__proto__` are lost (`KeptIff`, `DocumentRoundTripIff`);
- the palette width is the least one up to 2^32 entries (`PaletteBitsIsLeastIff`);
- clipping stays within the subject unless a step escapes in the tolerance band (`StepStaysIff`, `ClippingStaysIff`,
  `AuthoredClippingMayEscape`);
- PNG dimensions may exceed the range of the format (`PngRoundTripIff`);
- a CR ending before an empty LF line is taken for a CRLF (`LineEndingsNormaliseIff`);
- nested rewrite ranges keep the end they had before the inner edits (`EachIsExactIff`, `RewritesAreExactIff`,
  `NestedRenamingIff`, `NestedRenamingFails`);
- palette entries that a later one of the same key shadows go unchecked (`PaletteIsLegalIff`, `AcceptedSpecIsValidIff`,
  `ShadowedStateIsAccepted`);
- block state keys are joined without escapes (`KeyIff`, `CommasCollide`);
- tick lists are told apart by their order when targets tie under the collation (`TiesIff`, `TicksCompareIff`,
  `TicksCompareByContentIff`).

## Model

| member | source | states |
|---|---|---|
| Clipping.ClipConvexPolygon | tools/asset-lab/src/surface-analysis.ts:532-556 | The nested loops compute the fold of one-edge passes that all clipping lemmas are about, for any polygons and tolerances |
| Clipping.CrossingAt | tools/asset-lab/src/surface-analysis.ts:567-588 | Unless the step is parallel to the edge, the emitted crossing is the point of the step at which the signed side vanishes |
| Clipping.AuthoredPassIsWithinTolerance | tools/asset-lab/src/surface-analysis.ts:532-588 | With the 1e-10 and 1e-12 tolerances, each pass over one edge emits only vertices whose side is at least minus their sum |
| Clipping.StepStaysIff | tools/asset-lab/src/surface-analysis.ts:532-588 | Whatever one step emits lies on it, unless both ends are outside the edge, one of them within the inside tolerance, and their sides differ by more than the parallel tolerance |
| Clipping.ClippingStaysIff | tools/asset-lab/src/surface-analysis.ts:532-588 | Over the whole loop, every vertex each pass emits lies on a step of its input iff no step of any pass escapes |
| Clipping.ClippingIsSound | tools/asset-lab/src/surface-analysis.ts:532-588 | Then the result lies in the convex hull of the subject and within the two tolerances of every clip edge |
| Clipping.ExactClippingIsSound | tools/asset-lab/src/surface-analysis.ts:532-588 | With tolerances zero no step escapes, so every output vertex is inside every clip edge and a convex combination of subject vertices |
| ClipArea.PolygonArea | tools/asset-lab/src/surface-analysis.ts:590-598 | The shoelace loop gives half the absolute value of the signed area the lemmas below conserve |
| ClipArea.EarIsCut | tools/asset-lab/src/surface-analysis.ts:590-598 | The area of a polygon is the cross product of its first triangle plus the area of what cutting that ear leaves; with less than three vertices it is zero (`NoAreaBelowThree`), which leaves one function |
| ClipArea.NoAreaBelowThree | tools/asset-lab/src/surface-analysis.ts:590-598 | Fewer than three vertices have no area |
| ClipArea.CutConservesArea | tools/asset-lab/src/surface-analysis.ts:532-588 | What is kept of a polygon on one side of a line and what is kept on the other side have areas adding up to the whole, for every polygon |
| ClipArea.ClippingConservesArea | tools/asset-lab/src/surface-analysis.ts:532-588 | Over the whole loop the subject area is the area of the result plus the pieces cut away edge by edge |
| ClipArea.ClippingKeepsInside | tools/asset-lab/src/surface-analysis.ts:532-565 | A polygon inside every edge comes back unchanged, with any tolerance |
| ClipArea.ExactClippingIsIdempotent | tools/asset-lab/src/surface-analysis.ts:532-588 | Clipping a second time by the same polygon changes nothing |
| ClipArea.ClearClippingIsExact | tools/asset-lab/src/surface-analysis.ts:532-588 | When no vertex met lies in the tolerance band, clipping with the program tolerances gives the result of exact clipping |
| ClipArea.AuthoredClippingMayEscape | tools/asset-lab/src/surface-analysis.ts:457-471 | With the program tolerances it can fail: a rectangle turned by less than a billionth, clipped by a unit face centred at the origin, gains a vertex 0.7 units outside an edge already clipped |
| ClipIntersection.OnePassIsIntersection | tools/asset-lab/src/surface-analysis.ts:532-565 | For a convex polygon of either orientation, the hull of what one exact pass emits is the part of its hull inside the edge |
| ClipIntersection.ClippedIsConvex | tools/asset-lab/src/surface-analysis.ts:532-565 | An exact pass keeps a convex polygon convex, and its orientation |
| ClipIntersection.ExactClippingIsIntersection | tools/asset-lab/src/surface-analysis.ts:532-588 | For a convex subject exact clipping gives a convex polygon whose hull is exactly the part of the subject hull inside all clip edges |
| ClipIntersection.AuthoredClippingIsIntersection | tools/asset-lab/src/surface-analysis.ts:532-588 | So does clipping with the program tolerances when nothing met lies in their band |
| FaceOverlap.FaceOverlapIsIntersection | tools/asset-lab/src/surface-analysis.ts:457-471 | Clipping one face by another seen from the front gives exactly what the two have in common, whichever way the first is turned: without tolerances, or with them outside their band |
| FaceOverlap.FaceArea | tools/asset-lab/src/surface-analysis.ts:590-598 | The area of a face is four times the cross product of its half sides: width times height, for a rectangle |
| SurfaceIssues.IssueLog.RecordIssue | tools/asset-lab/src/surface-analysis.ts:194-232 | One report updates the entry of its key and no other: count up, and the measures replaced when the report is worse |
| SurfaceIssues.IssueLog.RecordAll | tools/asset-lab/src/surface-analysis.ts:144-171 | Reporting a list of issues folds the single step over them |
| SurfaceIssues.WorseIff | tools/asset-lab/src/surface-analysis.ts:207-231 | Worse is to leave less of a required margin; with equal or no margins to overlap more; and a margin counts before none |
| SurfaceIssues.LogSummarisesReports | tools/asset-lab/src/surface-analysis.ts:194-232 | After any reports a key is present iff reported, counts its reports, keeps the rule, parts and faces of the first one and has gap, margin and overlap of the first worst one |
| ModifiedUtf8.EncodeModifiedUtf8 | oracle/lib/anvil/nbt.ts:242-258 | The encoder loop concatenates the one, two or three byte form of each code unit |
| ModifiedUtf8.DecodeModifiedUtf8 | oracle/lib/anvil/nbt.ts:198-240 | The decoder loop follows the reference decoding, including every error and its position |
| ModifiedUtf8.DecodeInvertsEncode | oracle/lib/anvil/nbt.ts:198-258 | Decoding an encoded string gives it back, for every sequence of code units |
| ModifiedUtf8.EncodeIsInjective | oracle/lib/anvil/nbt.ts:242-258 | Different strings have different encodings |
| ModifiedUtf8.EncodeInvertsDecodeIff | oracle/lib/anvil/nbt.ts:198-258 | Encoding what was decoded gives the bytes back iff every character was in its shortest form |
| NbtWire.CharacterForms | oracle/lib/anvil/nbt.ts:198-240 | One, two and three byte characters, with the bits each byte contributes, and no others |
| NbtWire.EncodedForms | oracle/lib/anvil/nbt.ts:242-258 | A code unit takes one byte from 1 to 127, two for zero and up to 2047, three beyond, with the bits in each byte |
| NbtFormat.ReadValue | oracle/lib/anvil/nbt.ts:77-150 | Every value read consumes at least one byte, so parsing ends on all input |
| NbtWire.SignedNumbers | oracle/lib/anvil/nbt.ts:77-110 | One, two, four and eight byte numbers are two's complement, most significant byte first |
| NbtWire.NumberTags | oracle/lib/anvil/nbt.ts:77-110 | Tags 1 to 4 hold numbers of one, two, four and eight bytes |
| NbtWire.FloatTags | oracle/lib/anvil/nbt.ts:77-110 | Tags 5 and 6 hold four and eight bytes, kept as they are |
| NbtWire.ArrayTags | oracle/lib/anvil/nbt.ts:111-146 | Tags 7, 11 and 12 hold a count and so many numbers of one, four and eight bytes |
| NbtWire.StringTag | oracle/lib/anvil/nbt.ts:69-75 | Tag 8 holds a two-byte length and so many bytes of text |
| NbtWire.ListTag | oracle/lib/anvil/nbt.ts:152-167 | Tag 9 holds a tag, a count and so many values of that tag |
| NbtWire.CompoundTag | oracle/lib/anvil/nbt.ts:169-179 | Tag 10 holds tag, name and value of each field, up to a zero byte |
| NbtWire.RootIsACompound | oracle/lib/anvil/nbt.ts:186-196 | A document begins with tag 10, its name and the fields |
| NbtReading.NbtReader.ReadValue | oracle/lib/anvil/nbt.ts:77-150 | The stateful reader gives the value or error of the reference grammar and moves its offset just past the value |
| NbtReading.NbtReader.ReadString | oracle/lib/anvil/nbt.ts:69-75 | Length, then that many bytes decoded; the offset ends behind them, and the bytes come from the buffer, not the view |
| NbtReading.NbtReader.ReadList | oracle/lib/anvil/nbt.ts:152-167 | Element tag, count and that many values; a count of zero or less gives an empty list, a positive count of end tags is an error |
| NbtReading.NbtReader.ReadCompoundBody | oracle/lib/anvil/nbt.ts:169-179 | Entries up to the end tag, later ones replacing earlier ones of the same name |
| NbtReading.DecodeNbt | oracle/lib/anvil/nbt.ts:186-196 | Root tag, name and value, or the error met first; together with the consumed length |
| NbtRoundTrip.ReadPayload | oracle/lib/anvil/nbt.ts:77-179 | Reading the payload of any encodable tag gives its value with number widths erased and stops exactly at its end |
| NbtRoundTrip.KeptIff | oracle/lib/anvil/nbt.ts:169-179 | Assigning entries to an object loses nothing of a tree iff no compound of it has a field named __proto__ |
| NbtRoundTrip.DocumentRoundTrip | oracle/lib/anvil/nbt.ts:186-196 | Decoding an encoded document consumes all of it and gives its name and erased tree, short of __proto__ fields |
| NbtRoundTrip.DocumentRoundTripIff | oracle/lib/anvil/nbt.ts:186-196 | The whole tree comes back iff no field is named __proto__ |
| NbtView.DocumentIsReadWithinView | oracle/lib/anvil/nbt.ts:69-75 | Although strings are read from the underlying buffer, bytes beyond the view never decide whether or to what a document decodes |
| BitStorages.PaletteBitsFor | oracle/lib/util/bit-storage.ts:1-16 | The shift loop, with its reduction to 32 bits, ends and returns the modelled width |
| BitStorages.PaletteBitsInRange | oracle/lib/util/bit-storage.ts:1-16 | The width is between 1 and 32 for every palette size |
| BitStorages.PaletteBitsIsLeastIff | oracle/lib/util/bit-storage.ts:1-16 | For two or more entries, 2^(b-1) < n <= 2^b holds iff n <= 2^32 |
| BitStorages.LeastWidthIsUnique | oracle/lib/util/bit-storage.ts:1-16 | No other width satisfies that inequality |
| BitStorages.RightLengthIs | oracle/lib/util/bit-storage.ts:23-46 | If n slots fit a word and n + 1 do not, the words accepted are as many as hold size slots with one word less being too few |
| BitStorages.SlotsAreLaidOut | oracle/lib/util/bit-storage.ts:48-54 | With n slots a word, element c * n + k is the unsigned word c divided by 2^(k * bits), modulo 2^bits; only the program's values are |
| BitStorages.BitStorage.Create | oracle/lib/util/bit-storage.ts:23-46 | Raw words of any size are reduced to signed 64-bit ones, or zeroed words are made; widths outside 1..32 and raw words of any but the right number are rejected |
| BitStorages.BitStorage.Get | oracle/lib/util/bit-storage.ts:48-54 | Reads the element at the index of the sequence laid out in the words |
| BitStorages.BitStorage.Set | oracle/lib/util/bit-storage.ts:56-65 | The sequence is updated at one index; every error leaves the words alone |
| BitStorages.BitStorage.GetAndSet | oracle/lib/util/bit-storage.ts:67-71 | Returns the old element and sets the new one |
| BitStorages.BitStorage.GetAll | oracle/lib/util/bit-storage.ts:85-112 | The word-by-word shift loop returns the whole sequence laid out in the words |
| BitStorages.UpdateTouchesOnlyItsSlot | oracle/lib/util/bit-storage.ts:56-65 | Setting a slot leaves every other field of every word as it was, padding bits included |
| BitStorages.UpdateSetsOneSlot | oracle/lib/util/bit-storage.ts:56-65 | On words, masking and filling one slot is a sequence update of the values |
| BitStorages.UnpackBitStorage | oracle/lib/util/bit-storage.ts:115-117 | Accepts the right number of words and gives the sequence laid out in them |
| ChunkSection.DecodeSection | oracle/lib/anvil/chunk.ts:108-138 | Succeeds iff the words hold 4096 indices of the palette, at 4 bits for up to 16 entries and else the least width that holds the palette, and gives those; sections without data are all zero |
| ChunkSection.DecodedIsPlain | oracle/lib/anvil/chunk.ts:108-138 | For palettes of up to 2^32 entries: the indices are those laid out in the words at that width, whenever there are such |
| ChunkSection.PackedHoldsValues | oracle/lib/util/bit-storage.ts:56-65 | Setting all slots in turn leaves words that hold exactly the values set |
| ChunkSection.PackIndices | oracle/lib/util/bit-storage.ts:56-65 | A storage object filled slot by slot holds the values |
| ChunkSection.SectionRoundTrip | oracle/lib/anvil/chunk.ts:108-138 | In-range indices packed at the width of their palette, over whatever the words held, are decoded unchanged for palettes of up to 2^32 entries |
| ShortCodes.AssignShortCodes | tools/minecraft_assets/first_party_pack.py:94-125 | Ends on every input; succeeds iff every id has a unique prefix of its own, and then assigns each the shortest of at least four characters |
| ShortCodes.CodesArePrefixFree | tools/minecraft_assets/first_party_pack.py:94-125 | No assigned code is a prefix of another |
| ShortCodes.CodesAreDetermined | tools/minecraft_assets/first_party_pack.py:94-125 | There is one such assignment, so codes depend on the set of ids only, not on order or repetition |
| ShortCodes.DistinctDigestsResolve | tools/minecraft_assets/first_party_pack.py:94-125 | With pairwise distinct digests of one length of at least four, every id can be resolved |
| ShortCodes.RoundAdvances | tools/minecraft_assets/first_party_pack.py:104-124 | A round that raises exactly the colliding lengths keeps every length either final or at the round, with all shorter prefixes shared |
| ShortCodes.CodesInPlainTerms | tools/minecraft_assets/first_party_pack.py:94-125 | A code begins its digest, is no beginning of another's, has at least four characters, and one character less would begin another's |
| ShortCodes.ResolvableInPlainTerms | tools/minecraft_assets/first_party_pack.py:94-125 | An id can be resolved iff some beginning of four characters or more of its digest is no other's |
| Png.ZlibStore | tools/minecraft_assets/first_party_pack.py:154-166 | The loop emits header, stored blocks of at most 65535 bytes and the checksum |
| Png.StoredRoundTrip | tools/minecraft_assets/first_party_pack.py:154-166 | A reference reader of RFC 1950 and RFC 1951 stored blocks accepts the stream and returns the data, for every data |
| Png.StoredSize | tools/minecraft_assets/first_party_pack.py:154-166 | Five bytes a block, one block for every 65535 bytes or part of them, one for no data |
| Png.AdlerIs | tools/minecraft_assets/first_party_pack.py:154-166 | The checksum is one plus the sum of the bytes, and the number of bytes plus the sum of all their partial sums, both modulo 65521 |
| Png.ImageDataSize | tools/minecraft_assets/first_party_pack.py:128-166 | The packed image data have a size given by width and height alone: a filter byte a row and the stored blocks |
| Png.EncodedBegins | tools/minecraft_assets/first_party_pack.py:128-151 | The signature, and a header with width, height, eight bits, RGBA and no interlacing |
| Png.EncodedEnds | tools/minecraft_assets/first_party_pack.py:128-151 | Behind the header one chunk with the packed data, of the size the dimensions give, and the empty end chunk |
| Png.EncodeSucceedsIff | tools/minecraft_assets/first_party_pack.py:128-151 | The encoder fails iff the payload has the wrong size, or a dimension or the packed size, a function of the dimensions, does not fit 32 bits |
| Png.PngRoundTripIff | tools/minecraft_assets/first_party_pack.py:128-151 | A reference PNG reader recovers width, height and pixels iff the image is not empty and within the 31-bit limits of the format, which the writer does not check |
| BoxGaps.BoxGap | tools/asset-lab/src/geometry-analysis.ts:234-252 | Zero for boxes that meet; else the upper end of a bracket a 2^18th of the doubled bound wide, apart below, meeting above or at the cap 20.48 |
| BoxGaps.GapDecides | tools/asset-lab/src/geometry-analysis.ts:234-261 | For monotone meeting, comparing the gap with a threshold decides whether the boxes meet at that margin, up to the resolution |
| Components.CollectComponent | tools/asset-lab/src/geometry-analysis.ts:113-125 | The worklist moves exactly what is reachable from the first part out of the remaining parts |
| Components.FindComponents | tools/asset-lab/src/geometry-analysis.ts:110-128 | The result partitions the parts, and two parts share a component iff a chain of links joins them; each component is sorted |
| GeometryAnalysis.LinkParts | tools/asset-lab/src/geometry-analysis.ts:97-108 | The adjacency sets hold exactly the pairs whose gap is at most the threshold |
| GeometryAnalysis.LinksAre | tools/asset-lab/src/geometry-analysis.ts:97-108 | Those links form a symmetric graph, two different parts being linked iff near in either order |
| GeometryAnalysis.LinksDecideMeeting | tools/asset-lab/src/geometry-analysis.ts:97-108 | With the gaps of the search, linked parts meet at the threshold and parts not linked are apart a resolution below it |
| GeometryAnalysis.NearestGap | tools/asset-lab/src/geometry-analysis.ts:136-146 | The least gap over component times main component, with the main part of the first pair that attains it |
| GeometryAnalysis.ApartAcross | tools/asset-lab/src/geometry-analysis.ts:102-106 | Parts of different components are further apart than the threshold |
| GeometryAnalysis.VolumeAdds | tools/asset-lab/src/geometry-analysis.ts:201-206 | The volume of a component is the sum over its parts |
| GeometryAnalysis.AnalyzeFigureGeometry | tools/asset-lab/src/geometry-analysis.ts:93-155 | No issue iff the graph is connected; else main and reported components are exactly the components, main has the largest volume, the reports follow by volume with their parts in order, and each reported gap is the least one and exceeds the threshold |
| Accounting.Reconcile | tools/asset-lab/src/surface-analysis.ts:312-328 | The splice loop sets each issue off against the first matching exception, else the first baseline entry of its key |
| Accounting.ReconciledBalances | tools/asset-lab/src/surface-analysis.ts:305-336 | For every key acknowledged is the minimum of issues and exceptions, baseline the minimum of the rest and the baseline entries, and the three remainders are exactly what is left |
| Accounting.ReconciledConserves | tools/asset-lab/src/surface-analysis.ts:305-336 | Every issue ends in one place, every exception and baseline entry is used once or left over |
| Accounting.PassesIff | tools/asset-lab/src/surface-analysis.ts:338-359 | The assertion passes iff for every key exceptions and baseline entries together are as many as the issues, and every exception has a key |
| Accounting.EvaluateFigureSurfaces | tools/asset-lab/src/surface-analysis.ts:305-336 | The surface evaluation is that reconciliation, with the exceptions of the surface rules |
| Accounting.EvaluateFigureGrounding | tools/asset-lab/src/ground-analysis.ts:104-136 | Issues and exceptions are set off part by part: acknowledged is the minimum of the two, the rest is left over on either side |
| Accounting.GroundMatchesByKey | tools/asset-lab/src/ground-analysis.ts:104-136 | Matching an exception that names just the part is matching by key, as keys of different parts differ |
| Accounting.EvaluateFigureGeometry | tools/asset-lab/src/geometry-analysis.ts:157-179 | No baseline stage: issues and exceptions are set off by their sets of parts, the minimum acknowledged and the rest left over on either side |
| Accounting.SamePartSetIsSetEquality | tools/asset-lab/src/geometry-analysis.ts:208-214 | On lists without repeats the comparison is equality of sets |
| Accounting.SamePartSetIsSetEqualityIff | tools/asset-lab/src/geometry-analysis.ts:208-214 | Against lists without repeats the comparison is equality of sets iff the left list has no repeats either |
| FigureAnimation.LoopedTime | tools/asset-lab/src/figure-pose.ts:107-115 | A looping clip is sampled at a time in its period, a whole number of periods from the given one, negative times included |
| FigureMeaning.LocalTimeIs | tools/asset-lab/src/figure-pose.ts:107-119 | With d the greatest key time or zero: a clip that does not loop, or has no duration, is sampled at 0 before, at the time itself within 0..d, and at d after; one that loops, in 0..d a whole number of periods away; and at no other time |
| FigureAnimation.PrepareKeys | tools/asset-lab/src/figure-pose.ts:121-132 | Keys grouped by part and stably sorted by time |
| FigureMeaning.PartKeysAreChannelKeys | tools/asset-lab/src/figure-pose.ts:121-148 | What is sampled for a channel of a part are the part's values for it, by time, those of one time in the order written |
| FigureAnimation.ChannelSpan | tools/asset-lab/src/scene.ts:549-579 | The left/right loop finds the last key at or before the time and the first after it, with the proportion between them |
| FigureMeaning.SpanIsBetween | tools/asset-lab/src/figure-pose.ts:150-180 | The values around a time and the share of the way between them: none before the first key and from the last |
| FigureAnimation.SampleHitsKeys | tools/asset-lab/src/figure-pose.ts:134-180 | At a key's time the sample is the value of the last key with that time |
| FigureAnimation.SampleHoldsEnds | tools/asset-lab/src/figure-pose.ts:134-180 | Before the first key and after the last the end values are held |
| FigureAnimation.SampleInterpolates | tools/asset-lab/src/figure-pose.ts:134-180 | Between neighbouring keys the sample is as far between their values as the time is between theirs |
| FigureAnimation.PartSamplesFollowTheirKeys | tools/asset-lab/src/figure-pose.ts:121-180 | All three for each channel of each part of a clip, whatever order its keys were written in |
| FigurePose.PoseEvaluator.Resolve | tools/asset-lab/src/figure-pose.ts:28-71 | With its cache and visiting set, the recursion gives the root-to-part product of local matrices and keeps every cached matrix right |
| FigurePose.EvaluateFigurePose | tools/asset-lab/src/figure-pose.ts:14-73 | Fails iff the clip is unknown or its time not finite; else every part stands by its keys at the sampled time: parent matrix times position, rotation and scale as they give them, offset by the joint pivot or else the part's own |
| FigureScenes.FigureScene.SetClip | tools/asset-lab/src/scene.ts:138-142 | Changes the active clip or throws for an unknown one, and touches no group |
| FigureScenes.FigureScene.Update | tools/asset-lab/src/scene.ts:143-152 | Every group has position, pivot added, rotation and scale as the part's keys of the active clip give them at the sampled time; a time that is not finite fails after the reset |
| FigureScenes.FigureScene.ApplyClip | tools/asset-lab/src/scene.ts:500-538 | On groups at rest, overwrites exactly the keyed channels of the parts that have keys, with what their keys give at the sampled time |
| FigureScenes.CreateFigureScene | tools/asset-lab/src/scene.ts:53-161 | A new scene has every clip prepared and shows the rest pose, or throws for an unknown clip |
| FigureScenes.Run | tools/asset-lab/src/scene.ts:136-153 | Any sequence of calls on the object, failing ones included, follows the state machine |
| FigureScenes.ActiveIsLastSet | tools/asset-lab/src/scene.ts:138-142 | The active clip after any run is the last one set by a call that did not throw |
| FigureScenes.LastClipIs | tools/asset-lab/src/scene.ts:138-142 | The clip last set by any run is the one the last call names that sets one |
| FigureScenes.NoClipSet | tools/asset-lab/src/scene.ts:138-142 | It is the clip at the start if no call sets one |
| FigureScenes.HistoryIsForgotten | tools/asset-lab/src/scene.ts:136-153 | What is shown after any run depends only on the last update's time and the clip active at it |
| FigureScenes.SceneRefinesEvaluator | tools/asset-lab/src/scene.ts:500-579 | Composed root to part, the transforms shown equal the pure evaluator's matrix for every part of an acyclic figure, given that matrix products associate |
| FigureScenes.SceneShowsThePose | tools/asset-lab/src/scene.ts:136-153 | After any run ending in an update that did not throw, every part's composed matrix is the one the evaluator returns for the clip active then and that time |
| GroundContact.IsAncestorPart | tools/asset-lab/src/dsl.ts:1464-1477 | True iff the name is met on the way up from the part's parent |
| GroundContact.ValidateGroundContactConstraint | tools/asset-lab/src/dsl.ts:1425-1462 | Accepts exactly a box part, a proper ancestor of it and bounds around zero; then joint and contact are different parts |
| GroundContact.FindNearestGroundRoot | tools/asset-lab/src/dsl.ts:1543-1575 | The one-degree scan and the bisection, turning the shared frame at every evaluation, compute the nearest root and leave the frame turned by some correction |
| GroundContact.Bisect | tools/asset-lab/src/dsl.ts:1559-1568 | The halving loop, for any number of halvings |
| GroundContact.NearestRootMeans | tools/asset-lab/src/dsl.ts:1543-1575 | No root iff every sample up to the limit penetrates; else the root is clear, within the limit, and a correction at most a 2^18th of a degree closer to zero penetrates |
| GroundContact.NearestRootInPlainTerms | tools/asset-lab/src/dsl.ts:1543-1575 | None iff every whole degree short of the limit, and the limit, penetrates; else the root is clear, at most the first clear sample and less than a degree short of it, and next to a penetrating correction |
| GroundContact.Defaults | tools/asset-lab/src/dsl.ts:1479-1506 | X axis, ground at zero, 75 degrees either way and a preserved contact rotation where a constraint does not say |
| GroundContact.ProjectGroundContact | tools/asset-lab/src/dsl.ts:1479-1541 | The frame afterwards is the projected one, or the one with its sampled angles made explicit when it throws |
| GroundContact.ProjectionMeans | tools/asset-lab/src/dsl.ts:1479-1541 | Within a millionth of the ground the sampled angles stay; else projection fails iff no sample of either direction is clear, and otherwise lifts the box to the ground by the smaller of the two roots, the negative one of two as small, within the bounds |
| GroundContact.CorrectionIsLocal | tools/asset-lab/src/dsl.ts:1508-1516 | A correction turns the joint about one axis and, if preserved, the contact part back by as much, so their sum is conserved; no other part or channel changes |
| StructureModel.UniqueIds | tools/structure-lab/src/dsl.ts:298-307 | The collecting loop accepts exactly lists of safe ids without a repeated one |
| StructureModel.ValidateStructureSpec | tools/structure-lab/src/dsl.ts:245-296 | Accepts exactly valid specifications |
| StructureModel.AssertValidAuthoredStructure | tools/structure-lab/src/dsl.ts:194-243 | Accepts exactly assets whose specification is valid with the last palette entry of each key, with legal distinct block positions, indices into the whole palette, known components, legal markers and sockets |
| StructureModel.PaletteIsLegalIff | tools/structure-lab/src/dsl.ts:202-215 | All palette entries of an accepted asset are legal iff the states of its shadowed ones, which merging drops before the check, are |
| StructureModel.AcceptedSpecIsValidIff | tools/structure-lab/src/dsl.ts:194-206 | The specification of an accepted asset is itself valid iff its palette repeats no key |
| StructureModel.ShadowedStateIsAccepted | tools/structure-lab/src/dsl.ts:202-215 | Any entry at all put in front of an accepted palette, under a key it has, is accepted, even with every block using it |
| StructureModel.CanonicalSpecIsValid | tools/structure-lab/src/dsl.ts:167-190 | Trimming and sorting a specification keeps it valid and keeps its components |
| StructureModel.CanonicalSpecIs | tools/structure-lab/src/dsl.ts:167-190 | Title and description lose the white space around them and nothing else; palette, components, themes and tags are the same entries by name |
| StructureBuilders.StructureBuilder.Set | tools/structure-lab/src/dsl.ts:141-148 | Writes one block with the active components, or throws and writes nothing |
| StructureBuilders.StructureBuilder.Fill | tools/structure-lab/src/dsl.ts:101-121 | The three loops paint the whole box, or the call throws and nothing is written |
| ScriptMeaning.PlaysItsLeaves | tools/structure-lab/src/dsl.ts:85-163 | A script that catches nothing throws nothing iff its components are declared and not nested in themselves and its leaf calls are accepted; it then plays its leaf calls in order, each with the components around it |
| ScriptMeaning.WriteAcceptedIff | tools/structure-lab/src/dsl.ts:101-148 | A set, box or line is accepted iff it touches a position, all it touches are inside the size, and the palette has its key |
| ScriptMeaning.NestedThrows | tools/structure-lab/src/dsl.ts:86-100 | A component inside one of its id, at any depth, throws after what comes before it, and nothing behind it is played |
| ScriptMeaning.ScriptLaysDown | tools/structure-lab/src/dsl.ts:85-163 | The reference trace puts at each position what the last leaf call that touches it puts there: its key, and the ids around it in order; and the markers and sockets of the leaves |
| StructureBuilders.StructureBuilder.Perform | tools/structure-lab/src/dsl.ts:85-163 | Each call lays down what the leaf calls it plays put where they touch, with the component ids around each of them, throws what they throw, and leaves the component stack as it was |
| StructureBuilders.StructureBuilder.Run | tools/structure-lab/src/dsl.ts:85-163 | Any run of calls, nested components and caught errors included, lays down what its leaf calls put, and restores the component stack whether or not it throws |
| StructureAssets.OverwrittenIsLastWrite | tools/structure-lab/src/dsl.ts:141-148 | A position holds a block iff some write covers it, and the block is that of the last such write |
| StructureAssets.ScriptIsLegal | tools/structure-lab/src/dsl.ts:85-163 | Every write of any script is in bounds, under a known palette key and distinct sorted declared components; markers and sockets are legal and socket ids new |
| StructureAssets.RenderingIsUnique | tools/structure-lab/src/dsl.ts:165-166 | Two canonical block lists are equal iff their scripts agree on the last write at every position |
| StructureAssets.DisjointWritesCommute | tools/structure-lab/src/dsl.ts:141-148 | Scripts that touch no common position give the same blocks in either order |
| StructureAssets.Structure | tools/structure-lab/src/dsl.ts:54-192 | Fails exactly on an invalid specification or with what the script throws; else a block stands where some leaf call touches and nowhere else, with the key of the last such leaf and the sorted ids around it, markers and sockets are those of the leaves, and the final validation accepts |
| StructureAssets.IncreasingIff | tools/structure-lab/src/dsl.ts:352-358 | The order of the blocks: strictly by x, then y, then z |
| LiquidWorld.CloneKeepsKey | oracle/lib/integration/liquid-fixture.ts:206-212 | Copying a block state with sorted properties keeps its key |
| StateKeys.KeyIff | oracle/lib/integration/liquid-fixture.ts:206-212 | For plain names and values and a collation that tells the property names apart, two keys are equal iff the names are and the same properties have the same values |
| StateKeys.CommasCollide | oracle/lib/integration/liquid-fixture.ts:206-212 | A value with a comma can have the key of two properties |
| StateKeys.CloneIsSame | oracle/lib/integration/liquid-fixture.ts:286-294 | A copy has the name, and the properties with their values |
| LiquidWorld.ChunkAtIsLast | oracle/lib/integration/liquid-fixture.ts:97-100 | Of chunks at one place the last listed counts |
| LiquidWorld.SectionAtIsFirst | oracle/lib/integration/liquid-fixture.ts:251-284 | Of sections at one height the first listed counts |
| LiquidWorld.SectionsTileTheWorld | oracle/lib/integration/liquid-fixture.ts:251-284 | The block of a section at local coordinates is found at sixteen times chunk and section coordinates plus the local ones, negative coordinates included |
| LiquidWorld.PositionOfIndex | oracle/lib/integration/liquid-fixture.ts:319-328 | The index of a place in the bounds leads back to the place |
| LiquidWorld.IndexOfPosition | oracle/lib/integration/liquid-fixture.ts:319-328 | Every index below the volume names a place in the bounds and is that place's index |
| LiquidWorld.IndicesGoByLayer | oracle/lib/integration/liquid-fixture.ts:319-328 | Indices are in order of y, then z, then x |
| LiquidTicks.TickKeyIsInjective | oracle/lib/integration/liquid-fixture.ts:330-332 | The joined key tells any two ticks apart, whatever characters a target holds |
| LiquidTicks.NormalizedInOrder | oracle/lib/integration/liquid-fixture.ts:214-223 | The same ticks by delay, priority from extremely high to extremely low, target in collation order, x, y and z |
| LiquidTicks.CompareLiquidTicks | oracle/lib/integration/liquid-fixture.ts:225-249 | No difference iff the sorted key lists are equal; else the first index at which they differ, as missing or extra |
| LiquidTicks.NoDiffMeansSameTicks | oracle/lib/integration/liquid-fixture.ts:214-249 | No difference means equal multisets of ticks, under any collation |
| LiquidTicks.TiesIff | oracle/lib/integration/liquid-fixture.ts:214-223 | Two different ticks tie iff they differ only in targets that collate alike |
| LiquidTicks.TicksCompareByContentIff | oracle/lib/integration/liquid-fixture.ts:214-249 | A list compares equal to all its reorderings iff no two different ticks of it tie; then any list compares equal to it iff it holds the same ticks as often |
| LiquidTicks.TicksCompareIff | oracle/lib/integration/liquid-fixture.ts:214-249 | Of any two lists: no difference iff each tick has the same ties in both, in the same order |
| LiquidFixture.FileChunks | oracle/lib/integration/liquid-fixture.ts:97-100 | The map by joined key finds the chunk last listed at any coordinates |
| LiquidFixture.HeaderErrorIff | oracle/lib/integration/liquid-fixture.ts:81-96 | Chunks pass iff all are full and of the first one's version; the first that is not is reported |
| LiquidFixture.TicksAreNear | oracle/lib/integration/liquid-fixture.ts:123-143 | A tick is kept iff it is at most the margin away from some position of the bounds in each direction, as often as the chunks list it |
| LiquidFixture.BuildLiquidRegionFixture | oracle/lib/integration/liquid-fixture.ts:76-145 | The three loops intern the world's block keys in index order and keep the ticks in and near the bounds; failures name the first block not found, or the first bad chunk |
| LiquidFixture.FixtureRepresentsTheWorld | oracle/lib/integration/liquid-fixture.ts:296-308 | A built fixture decodes to the key of the world's block at each index; palette keys are distinct, all used and in order of first occurrence |
| LiquidMeaning.FixtureHoldsStates | oracle/lib/integration/liquid-fixture.ts:76-145 | By state: the fixture holds the world's state, name and properties, at each position, and its palette no state twice |
| LiquidFixture.CompareBlocks | oracle/lib/integration/liquid-fixture.ts:189-200 | The first block difference, at its world position |
| LiquidFixture.CompareLiquidRegion | oracle/lib/integration/liquid-fixture.ts:175-204 | Bounds first, then decoding errors, then the first block difference followed by the first tick difference |
| LiquidFixture.NoDifferenceIff | oracle/lib/integration/liquid-fixture.ts:175-204 | No difference iff decoded blocks agree, whatever the palettes, and the same ticks are listed, ties in the same order; without ties that is equality as multisets |
| LiquidMeaning.NoDifferenceByState | oracle/lib/integration/liquid-fixture.ts:175-204 | By state: no difference iff each index has the same name and the same properties with the same values, and the same ticks are listed |
| LiquidFixture.FixturesCompareWorlds | oracle/lib/integration/liquid-fixture.ts:76-204 | Fixtures of two worlds over one scenario show no difference iff each block key in the bounds agrees and the same ticks are in and near them, ties listed in the same order; without ties in any order |
| LiquidMeaning.WorldsCompareByState | oracle/lib/integration/liquid-fixture.ts:76-204 | By state: fixtures of two worlds show no difference iff the worlds have the same state at each position of the bounds and the same ticks in and near them |
| BraceMatching.FindMatchingBrace | scripts/apply-parchment.py:163-211 | Ends on every text; a position is returned iff the text up to it is a brace, pieces of Java whose code is balanced, and a brace: code without quotes and slashes, literals with escapes, comments and lone slashes; so there is at most one, and the search fails iff there is none |
| BraceMatching.ClosesIff | scripts/apply-parchment.py:163-211 | The character-by-character lexer closes where such pieces do, so literals, escapes and comments leave the depth alone |
| BraceMatching.SkipLiteral | scripts/apply-parchment.py:172-195 | Skips exactly a literal: quote, units that are a character or a backslash and any character, quote; or runs out of text |
| BraceMatching.SkipBlock | scripts/apply-parchment.py:201-206 | Skips a block comment or runs out of text |
| BraceMatching.ClosingIsLocal | scripts/apply-parchment.py:163-211 | Neither the text before the open brace nor that after the closing one decides where it closes |
| BraceMatching.PlainTextCountsBraces | scripts/apply-parchment.py:163-211 | In text without quotes and slashes the reference depth counts the braces |
| Splicing.ApplyRewrites | scripts/apply-parchment.py:290-296 | The loop splices the rewrites from the last start to the first |
| Splicing.DisjointRewritesAreExact | scripts/apply-parchment.py:290-296 | For disjoint ranges, collected in any order, splicing is rewriting all ranges of the original at once |
| Splicing.OutsideIsKept | scripts/apply-parchment.py:290-296 | Text outside every range is kept and moves by what the ranges before it grow |
| Splicing.InsideIsEdited | scripts/apply-parchment.py:290-296 | Each range holds the edit of its original text |
| NestedRewrites.EachIsExactIff | scripts/apply-parchment.py:290-304 | For ranges nested to any depth, the text is as it should be after every splice iff each range has a stale end that does no harm: its edit leaves alone what the end cuts off an inner text that grew, or takes in behind one that shrank |
| NestedRewrites.OutermostIsExactIff | scripts/apply-parchment.py:290-304 | With whatever is inside and behind a range spliced exactly, the splice of the range is exact iff its stale end does no harm |
| NestedRewrites.RewritesAreExactIff | scripts/apply-parchment.py:290-304 | That condition for the whole list of a file, ranges apart or nested and collected in any order; it makes the final text the nested rewriting of the original |
| NestedRewrites.KeptLengthsAreHarmless | scripts/apply-parchment.py:290-304 | Edits that keep the length leave every end valid, at any depth |
| NestedRewrites.NestedIsExactIff | scripts/apply-parchment.py:290-304 | One range nested in another and nothing else: the final text is right iff the outer end does no harm |
| NestedRewrites.NestedRewriteIsExact | scripts/apply-parchment.py:290-296 | A nested range whose edit keeps its length does not disturb the outer one |
| VariableRenaming.RenamedAppend | scripts/apply-parchment.py:57-57 | Renaming whole var words works piece by piece, wherever a text is divided between words |
| VariableRenaming.WholeWordIsRenamed | scripts/apply-parchment.py:57-57 | A whole word becomes the table's name for it iff it is var and digits and in the table; other text is kept |
| VariableRenaming.NestedRenamingIff | scripts/apply-parchment.py:290-304 | With the program's renaming, nested to any depth, and stale ends between words, every splice is exact iff no range has a variable of its own in its misplaced piece |
| VariableRenaming.NestedRenamingFails | scripts/apply-parchment.py:290-304 | A concrete pair of nested ranges with renamed var words that comes out wrong, its stale end inside a word |
| Newlines.NormalizingIsIdempotent | tools/minecraft_assets/asset_pack.py:96-97 | The result has no CR and no new byte but LF, equals the input iff that had no CR, and is left alone by a second pass |
| Newlines.LineEndingsNormaliseIff | tools/minecraft_assets/asset_pack.py:96-97 | Lines with any mixture of endings normalise to the same lines ended by LF iff no CR ending is followed by an empty line ended by LF |
| AssetPack.BuildEntries | tools/minecraft_assets/asset_pack.py:178-194 | Each entry records its path below the prefix, its source with that one's size and digest, and storing for images or deflating for the rest; fails iff a pack path is invalid |
| PackMeaning.PathIsValidIff | tools/minecraft_assets/asset_pack.py:149-158 | A path is valid iff it is not the manifest's, has no backslash, and no stretch between slashes is empty or two dots |
| PackMeaning.PackedBytes | tools/minecraft_assets/asset_pack.py:96-116 | Text suffixes are normalised, other files packed as they are |
| AssetPack.AssertUniqueEntries | tools/minecraft_assets/asset_pack.py:204-209 | Passes exactly entries, in any order, without a repeated path |
| AssetPack.FingerprintRecords | tools/minecraft_assets/asset_pack.py:274-299 | The loop over the sorted entries gives the fingerprints of their contents |
| PackMeaning.PortableRecordIs | tools/minecraft_assets/asset_pack.py:231-264 | JSON that parses is hashed in canonical form, other text normalised, and other files are excluded |
| PackMeaning.FingerprintsInOrder | tools/minecraft_assets/asset_pack.py:274-299 | Each file is hashed or excluded, in order, and its payload recorded |
| PackAgreement.ManifestDescribesEntries | tools/minecraft_assets/asset_pack.py:329-348 | The manifest lists each entry once and in path order, counts them, fingerprints or excludes each, and for fresh sources sums up their sizes |
| AssetPack.WritePack | tools/minecraft_assets/asset_pack.py:351-371 | The archive holds the manifest, then the contents read from the sources in path order; the sidecar is the manifest |
| AssetPack.VerifyPack | tools/minecraft_assets/asset_pack.py:387-418 | Accepts exactly an undamaged archive with a readable manifest, every declared file as declared, nothing undeclared, and an equal sidecar |
| PackMeaning.FileIsAsDeclaredIff | tools/minecraft_assets/asset_pack.py:398-412 | A file passes iff the archive has it in the declared size, compression and digest |
| PackMeaning.FindsTheLast | tools/minecraft_assets/asset_pack.py:387-418 | Of members of one name the last counts |
| AssetPack.PackFingerprintManifests | tools/minecraft_assets/asset_pack.py:421-448 | The fingerprints of the declared files as the archive holds them, or the first missing one |
| PackAgreement.WrittenPackVerifiesIff | tools/minecraft_assets/asset_pack.py:351-418 | A written pack is accepted iff each entry still records the size and digest of its source as it was when written |
| PackAgreement.BuildPack | tools/minecraft_assets/asset_pack.py:595-612 | From entries to a verified pack: succeeds iff paths are unique and every source is still as its entry records it when the archive is written, and returns the manifest of the entries |
| PackAgreement.FingerprintsAgree | tools/minecraft_assets/asset_pack.py:274-448 | Reading a written pack back gives the contents fingerprinted from the entries, fresh or not |
| PackAgreement.SummaryAgrees | tools/minecraft_assets/asset_pack.py:302-348 | The summary in the manifest is that of the fingerprints read back from the archive |
| PackAgreement.OneManifestOneContent | tools/minecraft_assets/asset_pack.py:387-418 | Two archives accepted under one manifest hold the same names, and contents that agree in size and digest |
| PackAgreement.LineEndingsDoNotMatter | tools/minecraft_assets/asset_pack.py:96-116 | Trees whose text files have the same unambiguous lines give the same entries, manifest and archive |

## Left out

- Floating-point rounding, NaN and infinities in geometry and animation: arithmetic is exact; only the explicit finiteness checks are modelled.
- IEEE values in NBT: float and double payloads are kept as their bytes, in both directions.
- JavaScript objects: besides fields named `__proto__`, prototype behaviour and the enumeration order of keys are not modelled.
- Memory and call-stack limits, such as very long strings, very deep tags or very large arrays.
- Collation: `localeCompare` is a parameter for palettes, sockets, components, themes, property names and ticks; where the model sorts issue or part names it uses code-unit order.
- Part trees with a cycle of parents: validation rejects self-parenting only, and the lookups are modelled for trees.
- Symmetry of the box gap: component analysis takes it as given, as the intersection test of two expanded boxes does not depend on their order.
- GroundContact.ProjectGroundContact: one constraint on one frame; several constraints on a frame run one after the other and may undo each other's contact. The bottom of the box is an arbitrary function of the frame.
- GroundContact.ValidateGroundContactConstraint: the checks for a known axis and finite bounds are in the types.
- AssetPack.VerifyPack: which undeclared name is reported, and repeated checksum failures; DEFLATE, CRC-32 and the ZIP container are a list of members with an intact flag.
- PackAgreement.ManifestDescribesEntries: the fields that name the version, the tool and the source roots are one text carried through.
- PackAgreement.OneManifestOneContent: concludes equal digests and not equal bytes, since the digest is an arbitrary function.
- StructureModel.AssertValidAuthoredStructure: which of the structural errors of a bad asset comes first is not told apart; the builder's own errors are.
- StructureModel.ValidateStructureSpec: the list of material roles and the grammar of block states and theme materials are parameters.
- Accounting.EvaluateFigureGeometry: exceptions repeat no part: figure validation rejects those that do (`tools/asset-lab/src/dsl.ts:515-518`).
- Positions given to the structure builder that are not integers: they are rejected by its first check.
- LiquidFixture.BuildLiquidRegionFixture: the scenario's descriptive fields are one text carried through; bounds are compared as values where the program compares their JSON text, which also depends on the order of fields.
- StateKeys.KeyIff: for names without `[`, property names without `=` or `,`, values without `,`, each property once, and no two property names that collate alike; other states can share a key, as the program joins them without escapes. The lemmas of `LiquidMeaning` inherit this; those of `LiquidFixture`, by key, do not.
- Decoding liquid ticks from NBT, `decodeHeightmaps`, light layers and biomes: straight conversions.
- Splicing.ApplyRewrites: the edit of a range is an arbitrary function, and `VariableRenaming` states the program's own; its word characters are the ASCII ones, and collecting ranges by regular expression is not modelled.
- VariableRenaming.NestedRenamingIff: for a stale end between words; where one falls inside a word, `NestedRewrites.EachIsExactIff` has the condition.
- Face projection, coverage sampling and the choice of articulated pairs in the surface analysis; the pairs reported are a list.
- Cycle waveforms, follow-through and locomotion of the figure language; textures, palettes, labels and other validation.
- Locks, staging directories, publishing, review pages, video, viewport and the command lines: file and process plumbing.
