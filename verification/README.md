# go-draco: a verified model

go-draco encodes meshes and point clouds in the Draco format. This project models the parts of it where
an encoder and a decoder run in opposite directions over mutable state, and proves that one undoes the
other, or exactly when it does. The modules follow the repository's components:

- **Connectivity** (`Corners`, `CornerTable`, `Connectivity`, `SymbolEffects`, `StartFaces`, `Boundaries`, `ConnectivityDecoder`, `Compaction`): the Edgebreaker decoder, as a state machine on values with an invariant for every step, and as the array program that follows it; what each symbol does to the boundary, and when vertices are fans and holes.
- **Valence contexts** (`Valence`, `ValenceCounts`, `Tracking`, `ValenceCoder`, `ValenceDecoder`): recording symbols by context and replaying them, and what a valence counts.
- **Encoder tables** (`HalfEdges`, `VertexFans`, `BaseTable`, `FaceEdges`, `FaceOrientation`, `Seams`): matching half-edges, splitting vertices into fans, orienting faces, cutting seams.
- **kd-tree** (`KdTree`, `KdRoundTrip`, `KdEncode`, `KdDecode`, `KdStreams`, `KdCodec`, `KdCoder`, `KdMeaning`, `KdFormats`): the recursive codec, the stack machines that refine it, the bytes, and what they say about the points.
- **Entropy coding** (`Rans`, `RansDecoder`, `RansBit`, `RansBitCoder`, `DirectBit`, `FoldedBit`, `LsbStream`, `Probabilities`, `SymbolStreams`, `SymbolCoder`, `ByteFormats`): range coders, probability tables and symbol schemes, and the formats byte by byte.
- **Prediction** (`Wrap`, `Prediction`, `Predictors`, `CreaseFlags`, `ConstrainedCoder`, `TexCoords`, `TexCoder`, `IntegerCodec`, `IntegerCoder`, `PredictionMeaning`, `TexGeometry`, `AttributeFormats`): corrections, side data and whole integer attributes, and when predictions are exact.
- **Normals** (`Octahedron`, `OctahedronMeaning`, `NormalTransform`, `NormalCodec`, `NormalAttribute`).

`Bits` and `Stream` hold arithmetic and byte framing. Code that the source writes as loops over slices and
object fields is written so here, each method proved against a function on values; the laws are lemmas about
those functions. Choices that the source makes with floating point (probabilities, shares, masks,
orientations, scheme sizes, component comparisons) are parameters, so a law holds for every choice.

`dafny verify dfyconfig.toml --resource-limit 2000000` checks the project.

## Findings

Properties that the code does not have, each with an input or its exact condition:

- An S symbol whose two boundaries meet in one vertex merges that vertex with itself (edgebreaker_decode.go:1050-1061): a split event after E makes this happen, and a vertex that owns a corner loses its left-most corner (`StartFaces.SelfMergeExample`; `Connectivity.StepKeeps` has the exact condition).
- A start face whose three boundary edges do not close a triangle is accepted (edgebreaker_decode.go:1141-1160): after E and R the decoded table has glued edges that join different vertices (`StartFaces.OpenStartExample`; `StartFaces.FaceStartKeeps` has the exact condition).
- The kd-tree decoder's final check (internal/codec/kdtree/dynamic.go:346-358, internal/entropy/rans_bit.go:230-232) rejects the encoder's own output when a binary stream ends in a rare bit: 126 points at 0 and one at 1, 32 bits, compression level 2 (`KdCodec.RejectedExample`, `KdCoding.EncodeRejected`; `KdCodec.EstimatedRoundTrip` has the exact condition on the counts).
- The wrap transform accepts bounds at which corrections overflow 32 bits and values are lost (internal/transform/wrap.go:49-63): bounds 0 and 2^31-2, value 2^30-2 (`Wrapping.LossyBounds`; `Wrapping.WrapIsLossless` has the exact condition).
- intSqrt returns its first guess when that is too small (mesh_prediction_texcoord.go:292-318): 4 for 31 (`TexCoords.IntSqrtShort`; `TexCoords.IntSqrtExact` has the exact condition). Both sides compute the same number, so nothing is lost.
- Normals without prediction are stored as they are (integer_codec.go:516-519, 548-558) and read as signed numbers (integer_codec.go:78-92, 165-176): only zero coordinates come back (`NormalAttribute.PlainNormals`).
- With valence coding, more symbols than faces can make the decoder index its valences at -1 (edgebreaker_decode.go:384-417): nothing compares the two counts before (edgebreaker_decode.go:690-728, 836), and with three vertices and no face one E is accepted (`ValenceDecoding.OverrunExample`). It happens exactly when there are more symbols than faces and the first numFaces + 1 are accepted (`ValenceDecoding.ReplaySymbols`, `ValenceDecoding.IndexInRange`).
- Unused vertices can make the encoder refuse valid faces (edgebreaker_encode.go:2911-2951, 3073-3081): (0,1,2) and (0,3,4) over six positions leave no id for the second fan (`BaseTables.BuildRefused`; `VertexFans.ComputeVertexCorners` has the exact condition).
- Bytes with a difference method and no entries make the decoder slice a row off an empty buffer (integer_codec.go:203-227): for three components the bytes 0, 1, 1 and eight zeros (`IntegerCodec.SlicesEmptyExample`; `IntegerCodec.SlicesEmpty` is the condition on the bytes, and `IntegerCoding.DecodeAttribute` fails there exactly when reused buffers have less room than one row).

## Model

| member | source | states |
|---|---|---|
| Connectivity.StepKeeps | edgebreaker_decode.go:928-1111 | every symbol step, for any symbol and split events, keeps the opposite table a fixed-point-free symmetric matching with every decoded corner labelled; edge agreement, a left-most corner of its own for every owning vertex and the exact corner index survive if and only if the step is not an S that merges a vertex with itself |
| Connectivity.RunKeeps | edgebreaker_decode.go:928-1115 | the same invariant over every run of symbols |
| Connectivity.SelfMergeBreaks | edgebreaker_decode.go:1050-1061 | merging a vertex with itself takes away the left-most corner of a vertex that still owns a corner |
| Connectivity.StepSKeeps | edgebreaker_decode.go:1017-1062 | an S joins two boundaries, merges two vertices and keeps the whole invariant unless the two vertices are one |
| Connectivity.StepCKeeps | edgebreaker_decode.go:950-980 | a C, whatever the boundaries around it, keeps the whole invariant when it is accepted |
| Connectivity.StepSideKeeps | edgebreaker_decode.go:981-1016 | an R or L, which adds one vertex, keeps the whole invariant |
| Connectivity.StepEKeeps | edgebreaker_decode.go:1063-1079 | an E, a triangle with three new vertices, keeps the whole invariant |
| SymbolEffects.RightBuilds | edgebreaker_decode.go:981-1016 | R keeps the vertex that the gate's edge comes from and leads it to a new vertex; the old gate is opposite the previous corner of the new one, and nothing else changes |
| SymbolEffects.LeftBuilds | edgebreaker_decode.go:981-1016 | L is the mirror image: the edge comes from a new vertex and keeps where it leads to; the old gate is opposite the next corner of the new one |
| SymbolEffects.CloseBuilds | edgebreaker_decode.go:950-980 | C replaces the gate's edge and the boundary edge that leads to it by one edge, and the vertex between them is the third corner of the face |
| SymbolEffects.TriangleBuilds | edgebreaker_decode.go:1063-1079 | E puts a triangle of three new vertices, without neighbours, on top of the stack |
| SymbolEffects.JoinBuilds | edgebreaker_decode.go:1017-1062 | S makes one edge of the gate's and that of the boundary it joins, and one vertex of the two between them, everywhere in the table |
| SymbolEffects.SplitsTaken | edgebreaker_decode.go:1088-1113 | after R, L and E exactly the events of this symbol are taken, and each later symbol gets the edge after the gate from a right event and the edge before it from a left one, the last event deciding |
| SymbolEffects.StartTaken | edgebreaker_decode.go:1118-1172 | start-face bits are for the boundaries from the top of the stack down; an interior face is glued to the gate with its first corner, a hole changes nothing |
| SymbolEffects.SymbolNumbers | edgebreaker_decode.go:949-1082 | the symbols are the numbers 0, 1, 3, 5 and 7, and any other number is refused |
| Boundaries.GlueCounts | edgebreaker_topology.go:283-294 | gluing two corners takes one left end and one right end of a fan from each side of the edge |
| Boundaries.StepFanned | edgebreaker_decode.go:928-1111 | every symbol that merges no vertex with itself keeps each vertex one fan, open exactly while its hole flag is set and then stored by its left end |
| Boundaries.RunFanned | edgebreaker_decode.go:928-1115 | so does every run |
| Boundaries.FaceStartFanned | edgebreaker_decode.go:1133-1172 | a start face that closes its triangle closes the fans of all three vertices, and clears their flags |
| StartFaces.FaceStartKeepsLoose | edgebreaker_decode.go:1133-1162 | a start face keeps the matching on any table |
| StartFaces.FaceStartKeeps | edgebreaker_decode.go:1133-1162 | a start face keeps left-most corners and the index, and keeps edges agreeing exactly when the three boundary edges close a triangle |
| StartFaces.DecodedMatching | edgebreaker_decode.go:928-1178 | for any symbols, events and start-face bits, an accepted table is a symmetric matching without fixed points over all corners |
| StartFaces.DecodedTable | edgebreaker_decode.go:928-1178 | when no vertex was merged with itself and every start face closes, glued corners face the same two vertices in opposite directions, owning vertices have left-most corners of their own, and the index is exact |
| Boundaries.DecodedFans | edgebreaker_decode.go:889-1178 | in a decoded table two corners share a vertex exactly when swings join them, a vertex is marked as a hole exactly when its fan is open, and then its stored corner is the left end, unless a vertex was merged with itself or a start face did not close |
| StartFaces.TooManySymbols | edgebreaker_decode.go:1174-1178 | no start-face bits, events or vertex limit make more symbols than faces decodable |
| StartFaces.SelfMergeExample | edgebreaker_decode.go:1017-1062 | the symbols E, S with one split event merge a vertex with itself: vertex 1 keeps a corner and loses its left-most corner |
| StartFaces.OpenStartExample | edgebreaker_decode.go:1133-1162 | the symbols E, R with one interior start face are accepted, and glued edges of the decoded table join different vertices |
| ConnectivityDecoding.DecodeSymbol | edgebreaker_decode.go:928-1111 | one symbol on the arrays reaches the machine state of the step, and is refused exactly when the step is |
| ConnectivityDecoding.DecodeS | edgebreaker_decode.go:1017-1062 | the arrays after an S are those of the step: the second boundary comes from the stack or from a split |
| ConnectivityDecoding.DecodeSymbols | edgebreaker_decode.go:928-1115 | for any number of symbols, more than faces included, the symbol loop leaves the arrays, hole flags and locals of the whole run, and fails exactly when the run does |
| ConnectivityDecoding.DecodeStarts | edgebreaker_decode.go:1118-1172 | the start-face loop pops every boundary and ends where the machine does |
| Compaction.FindLeftEnd | edgebreaker_topology.go:378-398 | the leftward search ends, at the left end of the fan or back at its start |
| Compaction.RenumberedMeaning | edgebreaker_decode.go:1180-1215 | renumbering keeps which corners share a vertex, uses every number, and keeps agreeing edges |
| Compaction.RenumberedOrder | edgebreaker_decode.go:1196-1211 | a smaller new number is used first |
| Compaction.Renumber | edgebreaker_decode.go:1180-1211 | in-place renumbering yields exactly that renaming and fails exactly when a corner has no vertex |
| Compaction.LeftEndsAreHomes | edgebreaker_decode.go:1213-1231 | after compaction the stored corner of each vertex belongs to that vertex, given agreeing edges |
| Compaction.CompactVertices | edgebreaker_decode.go:1180-1231 | renumbering, stored corners at left ends and moved hole flags together |
| Compaction.DecodeConnectivity | edgebreaker_decode.go:889-1251 | the whole decoder, for any symbols: success exactly when the machine succeeds and every corner has a vertex; without dropped vertices the arrays and hole flags are the machine's, otherwise they are its renumbering, with stored corners at left ends and hole flags moved along |
| CornerTables.MergeIsFullScan | edgebreaker_decode.go:1253-1290 | splicing the corner lists relabels exactly the corners a full scan relabels, and keeps the index exact |
| CornerTables.IndexedMap | edgebreaker_topology.go:266-281 | mapping an unmapped corner keeps every list exactly the corners of its vertex |
| CornerTables.CornerTable.MergeVertexFan | edgebreaker_decode.go:1253-1290 | the merge on linked lists held in arrays, for any two vertex numbers, terminates, relabels and splices as the list model does, and reports an error exactly when it does |
| CornerTables.CornerTable.MapCornerToVertex | edgebreaker_topology.go:266-281 | the corner is mapped to any vertex number as the list model maps it; an unmapped corner becomes the head of its vertex's list, and the lists stay acyclic |
| CornerTables.CornerTable.AddNewVertex | edgebreaker_topology.go:344-352 | a new vertex, or -1 with the table unchanged when it is full |
| Corners.SwingInverse | edgebreaker_topology.go:224-248 | the two swings are mutually inverse partial functions on any matching |
| Corners.RightWalkOn | edgebreaker_topology.go:224-235 | a rightward walk can only come back to its first corner, so it ends |
| Corners.LeftWalkOn | edgebreaker_topology.go:237-248 | the same for leftward walks |
| Corners.AgreeingSwings | edgebreaker_topology.go:224-248 | with agreeing edges, swinging stays at one vertex |
| Corners.SwingsAgree | edgebreaker_topology.go:224-248 | conversely, labels that swings keep make edges agree |
| Valence.ReplayInStep | edgebreaker_encode.go:3380-3532 | replaying the stored lists walks through the recorded states and reads the recorded symbols one by one |
| Valence.ValenceRoundTrip | edgebreaker_decode.go:354-425 | for every symbol sequence that starts with E and that the recorder accepts, the replay ends in the recorder's state, has read the same symbols and has used up every list |
| Valence.TakeFiled | edgebreaker_decode.go:354-382 | taking from the end of a stored list gives the symbol that was filed at that point |
| Tracking.UntrackStep | edgebreaker_decode.go:1253-1290 | a step on a table without corner lists is the same step, as long as the index is exact |
| Tracking.UntrackRecord | edgebreaker_encode.go:3380-3425 | the recorder, whose table has no lists, walks and files as the decoder's tracked table does |
| Tracking.RecordThenReplay | edgebreaker_encode.go:3380-3532 | symbols recorded on a plain table and replayed on a tracked one come back with all lists used up, when no vertex is merged with itself |
| ValenceCoding.ActiveCovered | edgebreaker_decode.go:384-417 | the connectivity invariant keeps the three valence indices of an active face of the table in range |
| ValenceCounts.StepCounted | edgebreaker_decode.go:384-425 | as long as no vertex is merged with itself, every symbol keeps the valence of every vertex with corners at the number of its corners and open fans |
| ValenceCounts.ContextCounts | edgebreaker_decode.go:404-416 | the next context is that number, at the vertex that the gate's edge comes from, kept within 2 and 7, less 2 |
| ValenceCounts.RecordCounted | edgebreaker_encode.go:3479-3522 | all through a recording the valences and contexts are those numbers |
| ValenceCounts.ReplayCounted | edgebreaker_decode.go:354-425 | and all through a replay of any lists |
| ValenceCounts.LastTaken | edgebreaker_decode.go:354-382 | lists are used up from their ends, the numbers 0 to 4 stand for C, S, L, R and E, and the first symbol is E |
| ValenceCoding.ValenceContextRecorder.NewActiveCornerReached | edgebreaker_encode.go:3479-3522 | files the next symbol under the context of the corner just reached |
| ValenceCoding.ValenceTraversalDecoder.DecodeSymbol | edgebreaker_decode.go:354-382 | takes the last unused symbol of the active context; errors exactly where the model has none |
| ValenceDecoding.ReplaySymbols | edgebreaker_decode.go:889-1115 | the symbol loop driven by the traversal decoder, for any number of symbols: it ends with the arrays, counts and counters of the replay and fails exactly when it does; with more symbols than faces it never succeeds, and a valence index leaves its range exactly when the replay accepts one symbol more than there are faces |
| ValenceDecoding.CoveredExactly | edgebreaker_decode.go:384-417 | after any accepted symbol the active corner's vertices index the valences exactly when its face lies in the table, and otherwise they are -1 |
| ValenceDecoding.IndexInRange | edgebreaker_decode.go:384-417 | over whole runs: the index is in range after symbol i exactly when i is below the number of faces |
| ValenceDecoding.OverrunExample | edgebreaker_decode.go:384-417 | with three vertices and no face one E is accepted and the active corner has vertex -1 |
| ValenceDecoding.RecordSymbols | edgebreaker_encode.go:3380-3425 | the symbol loop driven by the recorder files the lists of the recording walk |
| ValenceDecoding.RecordAndReplay | edgebreaker_encode.go:3380-3425 | recording and then replaying through both objects and both tables returns the symbols |
| HalfEdges.ComputeOpposites | edgebreaker_encode.go:2953-3047 | bucket matching never fails and leaves a symmetric, fixed-point-free, maximal matching of oppositely directed edges of faces with different tips, in which each corner takes the lowest free one before it |
| HalfEdges.RoomLeft | edgebreaker_encode.go:3019-3043 | a bucket never overfills: stored half-edges and the new one have distinct successors, all corners of the source vertex |
| HalfEdges.Insert | edgebreaker_encode.go:3027-3043 | a free slot is found and the bucket then holds one half-edge more |
| VertexFans.ComputeVertexCorners | edgebreaker_encode.go:3049-3127 | success exactly when the vertices, and the fans beyond the first of each used vertex, number no more than the ids; then two corners share a vertex exactly when they are on one fan, a vertex's first fan keeps its number and the others are numbered in the order of their first corners, each fan's stored corner is its left end if it has one, and corners share a vertex only if they did before |
| VertexFans.SplitFan | edgebreaker_encode.go:3066-3121 | a whole fan is visited once, in both directions, and renamed |
| VertexFans.IdsSuffice | edgebreaker_encode.go:3073-3088 | when every vertex is used there is an id left for the next fan |
| BaseTables.Build | edgebreaker_encode.go:2911-2951 | faces without repeated or unknown vertices succeed exactly when ids suffice for their fans, as they do whenever every vertex is used; a success is a maximal edge matching, each corner with the lowest free one before it, whose vertices have been split into single fans numbered in order |
| BaseTables.BuildRefused | edgebreaker_encode.go:2911-2951 | valid faces are refused: (0,1,2) and (0,3,4) over six positions, one of them unused |
| FaceEdges.BuildDense | edgebreaker_encode.go:1351-1427 | the dense index is used exactly for 1 to 2048 vertices whose square is within the limit and whose numbers are known up to the first third use of an edge; used, it finds exactly the shared edges and refuses exactly a third use; entries made before it gives up are sound |
| FaceEdges.BuildSorted | edgebreaker_encode.go:1463-1528 | any sorted order of edges gives the same neighbour table, and refuses exactly a third use |
| FaceEdges.BuildNeighbors | edgebreaker_encode.go:1444-1529 | both builders together |
| FaceOrientation.Search | edgebreaker_encode.go:1531-1593 | the breadth-first search fails exactly when no set of flips is consistent |
| FaceOrientation.OrientFaces | edgebreaker_encode.go:1439-1602 | success exactly when no edge has three uses and some set of flips makes every shared edge run in opposite directions; the result is such a set of flips applied |
| FaceOrientation.OrientedFaces | edgebreaker_encode.go:1439-1602 | in oriented faces no directed edge belongs to two faces |
| Seams.CutSwings | edgebreaker_topology.go:603-621 | swings of the cut table are the base swings that cross no seam |
| Seams.AttributeConnectivity.MarkSeam | edgebreaker_topology.go:495-526 | marks both sides of an edge and its end points, and only those |
| Seams.RecomputeVertices | edgebreaker_topology.go:528-601 | on a base table of single fans with boundary edges marked it never errors, and the attribute vertices are exactly the fans of the cut table, stored at left ends and numbered in the order of the base vertices: two corners share one exactly when swings crossing no seam join them |
| Seams.FindFirst | edgebreaker_topology.go:545-563 | the first corner of a vertex on a seam is the left end of a piece of its fan |
| Seams.CutFan | edgebreaker_topology.go:565-577 | the rightward walk numbers a corner by the seams crossed on the way |
| Seams.MarkSeams | edgebreaker_encode.go:3129-3160 | seams are exactly boundary edges and edges across which an entry changes |
| Seams.SameEntry | edgebreaker_encode.go:3129-3160 | corners of one attribute vertex have the same attribute entry |
| KdTree.PartitionSorts | internal/codec/kdtree/dynamic.go:890-910 | the two-pointer partition is a permutation with the small points in front |
| KdTree.ExhaustedAxis | internal/codec/kdtree/dynamic.go:806-851 | when the chosen axis has no bits left no axis has, for both policies |
| KdMeaning.MinAxisFirst | internal/codec/kdtree/dynamic.go:812-820 | the axis taken is the first of the least-split ones |
| KdMeaning.BestAxisFirst | internal/codec/kdtree/dynamic.go:822-850 | among the axes still to be halved the first one with the largest side is chosen |
| KdMeaning.AxisBitsLeast | internal/codec/kdtree/dynamic.go:882-888 | an axis takes the bits of the largest axis number, and at least four |
| KdMeaning.AxisTaken | internal/codec/kdtree/dynamic.go:853-880 | the decoder takes the axis after the last, or on level 6 the first least-split one below 64 points and the one that the stream names above |
| KdMeaning.TreeInCell | internal/codec/kdtree/dynamic.go:673-804 | on any streams all rows of a node lie in its cell |
| KdMeaning.HalfBitMeaning | internal/codec/kdtree/dynamic.go:773-804 | the number in the stream, of the bits of the count less one, is what the smaller half lacks to the middle; the half bit is set exactly when the half below the middle is the smaller one, and the rows above the middle come first |
| KdMeaning.LeafOrder | internal/codec/kdtree/dynamic.go:547-572 | a leaf's components are written from the chosen axis on in a cycle, leaving out exhausted axes |
| KdTree.CellSplit | internal/codec/kdtree/dynamic.go:577-601 | both halves of a cell are cells one level deeper and nothing overflows 32 bits |
| KdRoundTrip.SplitRoundTrip | internal/codec/kdtree/dynamic.go:583-596 | the sizes of both halves come back from the distance to the middle and the half bit |
| KdRoundTrip.TreeRoundTrip | internal/codec/kdtree/dynamic.go:496-804 | for every dimension, bit length, cell and list of points in it and both axis policies, the decoder rebuilds a permutation of the points and leaves what was written afterwards |
| KdEncode.PartitionPoints | internal/codec/kdtree/dynamic.go:890-910 | the in-place partition is the recursive one, and nothing outside the range moves |
| KdEncode.EncodePoints | internal/codec/kdtree/dynamic.go:496-609 | the explicit stack with shared buffer slots terminates and writes exactly what the recursion writes |
| KdDecode.TreeInRange | internal/codec/kdtree/dynamic.go:673-804 | on any streams a node of n points yields exactly n rows with every component below 2^bitLength, or an error |
| KdDecode.StaleRow | internal/codec/kdtree/dynamic.go:744-768 | a leaf row does not depend on what its reused buffer held |
| KdDecode.DecodePoints | internal/codec/kdtree/dynamic.go:673-804 | on any streams the stack machine with its reused slots terminates, stays within its stack, and returns the rows and streams of the recursive decoder, or its error |
| KdCodec.ReadFollows | internal/codec/kdtree/dynamic.go:29-75 | each real bit decoder gives back the next write while it follows the written ones |
| KdCodec.TreeMatches | internal/codec/kdtree/dynamic.go:673-804 | running on the real decoders is running on the written numbers |
| KdFormats.HeaderRead | internal/codec/kdtree/dynamic.go:624-670 | the bit length comes before the count, more than 32 bits are refused, nothing follows without points, and level 6 alone selects axes |
| KdFormats.StreamsRead | internal/codec/kdtree/dynamic.go:319-344 | numbers, remaining bits, axes and half bits follow in this order, all direct below level 2 |
| KdFormats.NumbersRead | internal/codec/kdtree/dynamic.go:275-317 | on levels 2 and 3 the numbers are one binary stream, from level 4 on 32 columns and a stream of single bits |
| KdFormats.FoldedRead | internal/entropy/folded_bit.go:151-169 | bit i of a number is read from column i |
| KdFormats.HighBitFirst | internal/entropy/rans_bit.go:210-228 | numbers are read from their highest bit on |
| KdCodec.CodecRoundTrip | internal/codec/kdtree/dynamic.go:455-804 | for every compression level and admissible probability, as long as stream sizes fit their 32-bit fields, decoding the bytes followed by anything gives the points up to order and stops at the suffix exactly when the last bit of every binary coder in use is at least two slots wide; otherwise the final check rejects the encoder's output |
| KdCodec.EstimatedRoundTrip | internal/codec/kdtree/dynamic.go:346-358 | with the probabilities the encoder estimates, that is exactly when no binary coder's bits end in a one after almost only zeros, or in a zero after almost only ones |
| KdCodec.RejectedExample | internal/codec/kdtree/dynamic.go:346-358 | 126 points at 0 and one at 1, with 32 bits, at compression level 2: the decoder rejects what the encoder writes |
| KdCodec.ExampleFits | internal/codec/kdtree/dynamic.go:455-494 | the sizes of those points' streams fit their fields |
| KdCoding.EncodeRejected | internal/codec/kdtree/dynamic.go:455-494 | running the encoder and then the decoder on those points ends in an error |
| KdCoding.Encode | internal/codec/kdtree/dynamic.go:455-609 | the encoder's bytes are an encoding of the points in the order given, at every level, sizes taken modulo 2^32 |
| KdCoding.Decode | internal/codec/kdtree/dynamic.go:611-804 | every rejection and every accepted stream is the format's |
| Rans.EncodeStepRange | internal/entropy/rans_encoder.go:36-43 | every step brings the state back into [4*2^k, 1024*2^k) |
| Rans.FillAfterEmit | internal/entropy/rans.go:166-178 | reading back pulls in exactly the bytes that a step emitted |
| Rans.StepInverse | internal/entropy/rans.go:166-178 | one read undoes one write |
| Rans.StartOfFinish | internal/entropy/rans_encoder.go:45-60 | a final state always gets a tail, and opening reads it back |
| Rans.RoundTrip | internal/entropy/rans.go:57-178 | for every table summing to 2^k, 12 to 20 bits, and every sequence of symbols of positive probability, the state stays in its interval and opening plus repeated reads returns the sequence |
| ByteFormats.SlotsRead | internal/entropy/rans.go:166-178 | slot j of a symbol in round q of the slots is read as that symbol and leaves slot j of the q-th round of its own slots, the symbols standing in the order of their numbers |
| ByteFormats.TailsRead | internal/entropy/rans.go:57-100 | the two high bits of the last byte tell how many bytes make up the first state, counted from four times the precision |
| ByteFormats.BytesPulled | internal/entropy/rans.go:166-178 | a state below its interval takes bytes from the end of the buffer as its low bytes |
| Rans.RansEncoder.WriteSymbol | internal/entropy/rans_encoder.go:36-43 | the uint32 arithmetic is the mathematical step: nothing wraps |
| Rans.RansEncoder.Bytes | internal/entropy/rans_encoder.go:45-60 | a tail is always written |
| RansDecoding.RansDecoder.BuildLookup | internal/entropy/rans.go:102-154 | after any history of calls, success is exactly a table that sums to the precision, and the installed tables are those of a fresh build: each slot names the one symbol whose interval contains it |
| RansDecoding.RansDecoder.Init | internal/entropy/rans.go:57-100 | opens exactly the buffers the model opens, with their state |
| RansDecoding.RansDecoder.ReadSymbol | internal/entropy/rans.go:166-178 | on any bytes the uint32 state cannot wrap, and a read is the model's |
| Probabilities.ForcedSum | internal/entropy/rans_encoder.go:82-91 | rounding and giving each present symbol a slot takes at most one slot more for each symbol than its exact share |
| Probabilities.Reduce | internal/entropy/rans_encoder.go:106-143 | the fix-up loops terminate, keep every present symbol at one slot or more, and reach the right sum exactly when there are no more present symbols than slots |
| Probabilities.Stuck | internal/entropy/rans_encoder.go:106-143 | when the largest symbol is down to one slot and the sum is still too large, more symbols are present than there are slots |
| Probabilities.BuildTable | internal/entropy/rans_encoder.go:62-155 | for any rounding, any order the sort may give and any ascending scaling: success exactly when a symbol is present and there are no more present symbols than slots, and then the table sums to the precision and gives slots to exactly the present symbols |
| Probabilities.EntriesRoundTrip | internal/entropy/rans_encoder.go:157-203 | table entries come back from their bytes, zero runs of any length included |
| ByteFormats.EntriesRead | internal/entropy/symbols.go:307-394 | an entry has 6, 14 or 22 bits, told by the low two bits of its first byte, the lowest first |
| ByteFormats.ZerosRead | internal/entropy/symbols.go:307-394 | a run of zeros is one more than the upper six bits of its byte |
| Probabilities.TableRoundTrip | internal/entropy/symbols.go:307-394 | a table with its size comes back and the reader stops after it |
| Probabilities.WriteTable | internal/entropy/rans_encoder.go:157-203 | the writer's loop writes exactly those bytes and refuses exactly tables with too large an entry |
| RansBit.BitStepInverse | internal/entropy/rans_bit.go:252-349 | a binary step keeps the state in [4096, 2^20) and is undone by reading |
| RansBit.StartBitsOfFinish | internal/entropy/rans_bit.go:276-329 | one to three tail bytes always suffice, so "state too large" is unreachable, and opening reads the state back |
| RansBit.DecodePrefix | internal/entropy/rans_bit.go:331-349 | after any number of leading bits the decoder stands where the encoder of the rest would |
| RansBit.BitRoundTrip | internal/entropy/rans_bit.go:86-349 | for every probability byte 1 to 255 and every bit sequence the bits come back, and the end check passes exactly when there is none or the last bit's interval is at least two wide |
| ByteFormats.BitSlotsRead | internal/entropy/rans_bit.go:331-349 | of 256 slots the low ones, one less for each unit of the probability byte, stand for ones |
| RansBit.EstimatedEnd | internal/entropy/rans_bit.go:91-104 | with the estimated probability the last interval is one slot wide exactly when 512 zeros >= 509 total and the last bit is one, or 512 zeros < 3 total and it is zero |
| RansBitCoding.RansBitEncoder.EncodeBit | internal/entropy/rans_bit.go:31-49 | appends one bit; full words move to the list |
| RansBitCoding.RansBitEncoder.EncodeLeastSignificantBits32 | internal/entropy/rans_bit.go:51-84 | appends the low bits of a number, high first, over any word boundary |
| RansBitCoding.RansBitEncoder.EndEncoding | internal/entropy/rans_bit.go:86-143 | writes the stream of all bits, for any admissible probability |
| RansBitCoding.RansBitWriter.Write | internal/entropy/rans_bit.go:252-274 | one binary step in uint32 arithmetic, which never wraps |
| RansBitCoding.RansBitWriter.End | internal/entropy/rans_bit.go:276-291 | the tail, of one to three bytes; never an error |
| RansBitCoding.RansBitDecoder.StartDecoding | internal/entropy/rans_bit.go:162-200 | opens exactly the streams the model opens |
| RansBitCoding.RansBitDecoder.DecodeLeastSignificantBits32 | internal/entropy/rans_bit.go:210-228 | reads bits high first, and refuses exactly bad counts |
| RansBitCoding.RansBitDecoder.EndDecoding | internal/entropy/rans_bit.go:230-232 | true exactly when the state is back at its start and no read failed |
| DirectBit.OpenOfDirect | internal/entropy/direct_bit.go:109-132 | a stream opens to its bits followed by the zeros that fill its last word, and leaves the suffix |
| ByteFormats.DirectRead | internal/entropy/direct_bit.go:109-194 | the size, then words of four bytes, the lowest first, whose bits are read from the top |
| DirectBit.DirectBitEncoder.EncodeLeastSignificantBits32 | internal/entropy/direct_bit.go:39-70 | appends the low bits of a number, high first, in 32-bit words filled from the top |
| DirectBit.DirectBitEncoder.EndEncoding | internal/entropy/direct_bit.go:72-93 | writes a stream of all bits, always with one more word |
| DirectBit.DirectBitDecoder.DecodeLeastSignificantBits32 | internal/entropy/direct_bit.go:155-194 | reads within a word or over a boundary, and fails exactly when bits are missing |
| DirectBit.DirectBitDecoder.DecodeNextBit | internal/entropy/direct_bit.go:134-153 | reads one bit; past the end it returns false without an error |
| FoldedBit.FoldedBitEncoder.EncodeLeastSignificantBits32 | internal/entropy/folded_bit.go:62-77 | bit i of a number goes to coder i; a bad count fails the coder for good and writes nothing |
| FoldedBit.FoldedBitEncoder.EndEncoding | internal/entropy/folded_bit.go:79-95 | the streams of all coders in order, or an error exactly after a bad count; the coder is empty afterwards either way |
| FoldedBit.FoldedBitDecoder.DecodeLeastSignificantBits32 | internal/entropy/folded_bit.go:151-169 | column by column, high bit first, columns beyond the width untouched; a bad count fails the decoder for good and reads nothing |
| LsbStream.BitWriter.WriteBitsLSB | internal/core/writer.go:83-101 | appends the low bits of a number, lowest first |
| LsbStream.ReadBitsLSB | internal/entropy/symbols.go:249-277 | reads them at any offset, and fails exactly past the end |
| ByteFormats.PackedRead | internal/entropy/symbols.go:249-277 | packed bits are read from the lowest bit of each byte |
| Stream.VarUint32RoundTrip | internal/core/varint.go:5-43 | a 32-bit number comes back from its variable-length bytes |
| Stream.VarUint64RoundTrip | internal/core/varint.go:45-83 | the same for 64 bits |
| ByteFormats.SevenBits | internal/core/varint.go:23-83 | seven bits a byte, the lowest first, all bytes but the last being 128 or more |
| ByteFormats.FourBytes | internal/core/reader.go:85-93 | four bytes, the lowest first |
| SymbolStreams.CoderRoundTrip | internal/entropy/symbols.go:307-394 | table, size and payload open to the table, the encoder's last state and the suffix |
| SymbolStreams.RawRoundTrip | internal/entropy/symbols.go:279-305 | the raw scheme returns the symbols and stops at the suffix |
| ByteFormats.RawRead | internal/entropy/symbols.go:19-30 | raw symbols are read with a table of 12 bits where up to 8 bits are named, of 20 for 14 or more, and of half as much again, rounded down, in between |
| ByteFormats.TaggedRead | internal/entropy/symbols.go:205-247 | tagged symbols are number 0 and have a table of 12 bits for the tags |
| SymbolStreams.GroupsRoundTrip | internal/entropy/symbols.go:205-247 | tags and value bits, group after group, return the symbols |
| SymbolStreams.TaggedRoundTrip | internal/entropy/symbols.go:205-247 | the tagged scheme returns the symbols and stops at the suffix, for any group size that divides the length |
| SymbolStreams.SymbolsRoundTrip | internal/entropy/symbol_encoding.go:25-79 | whatever scheme and table the encoder chose, decoding its bytes followed by anything returns the symbols and stops exactly at what follows |
| SymbolStreams.SymbolsCounted | internal/entropy/symbols.go:181-203 | a successful read on any bytes returns as many symbols as were asked for |
| SymbolCoding.PayloadBound | internal/entropy/symbol_encoding.go:207-269 | a payload takes at most three bytes for each symbol and four more |
| SymbolCoding.EncodeSymbols | internal/entropy/symbol_encoding.go:25-79 | success gives an encoding, and symbols are refused exactly for a bad group size or scheme, or for more than 18 bits in the raw scheme: no table ever runs out of slots |
| SymbolCoding.DecodeSymbols | internal/entropy/symbols.go:181-203 | every outcome, errors included, is the format's |
| SymbolCoding.UniqueBits | internal/entropy/symbol_encoding.go:212-238 | the table width is the bit length of the symbol count, shifted by the level and kept within 1 and 18 |
| SymbolCoding.LevelWidths | internal/entropy/symbol_encoding.go:212-238 | the width is the bit length of the count, two less on levels up to 3, one less on 4 and 5, one more on 8 and 9 and two more above, within 1 and 18 |
| SymbolCoding.LevelsFit | internal/entropy/symbol_encoding.go:212-238 | at every compression level the table has slots for all different symbols |
| Wrapping.CorrectionRange | internal/transform/wrap.go:107-117 | corrections lie between the bounds for corrections and determine the value modulo the range |
| PredictionMeaning.CorrectionLeast | internal/transform/wrap.go:107-117 | a correction is the difference to the prediction, taken into the bounds, modulo their width, from minus half of it up to but without plus half of it |
| Wrapping.WrapIsLossless | internal/transform/wrap.go:107-143 | every value in bounds comes back for every prediction exactly when max+maxCorrection and min+minCorrection stay within 32 bits |
| Wrapping.LossyBounds | internal/transform/wrap.go:34-65 | bounds 0 and 2^31-2 are accepted and lose the value 2^30-2 |
| Wrapping.Wrap.InitFromValues | internal/transform/wrap.go:34-65 | the tightest bounds, refused exactly when two values are 2^31-1 or more apart |
| Wrapping.Wrap.ComputeCorrection | internal/transform/wrap.go:107-117 | writes the correction of every component |
| Wrapping.Wrap.ComputeOriginalValue | internal/transform/wrap.go:119-129 | writes the original of every component |
| Prediction.VisitsFan | mesh_prediction.go:163-194 | the walk around an entry's corner visits every corner of its fan once and no other, and ends |
| PredictionMeaning.VisitOrder | mesh_prediction.go:159-191 | the walk goes to the left and, where that ends at a boundary, on to the right of its first corner |
| PredictionMeaning.FirstFour | mesh_prediction.go:193-207 | no more than the first four parallelograms of that walk count |
| Prediction.LooksBack | mesh_prediction.go:128-293 | difference, first, average and masked predictions are settled by the rows before their entry |
| PredictionMeaning.ParallelogramsPredict | mesh_prediction.go:128-157 | where every face around an entry forms a parallelogram with the one across its edge, the first, the average of all and the average of any chosen ones predict the entry exactly, as long as their sums stay in 32 bits |
| PredictionMeaning.ParallelogramsCorrect | mesh_prediction.go:295-319 | and then its correction is zero in every component |
| PredictionMeaning.RowsBefore | mesh_prediction.go:295-319 | the first entry is predicted by zeros; differences, and all methods where no parallelogram is known, predict the row before |
| Prediction.PredictionRoundTrip | mesh_prediction.go:295-358 | for every mesh, method and choice of masks, values in bounds that wrap losslessly are restored exactly |
| Prediction.DifferenceIsLossless | integer_codec.go:611-627 | difference prediction restores all one-component values with given tight bounds exactly when no correction at those bounds leaves 32 bits |
| Predictors.BuildContext | mesh_prediction.go:69-126 | each entry gets the corner of the first point that maps to it and has one |
| Predictors.CollectFlaps | mesh_prediction.go:196-211 | the first parallelograms of the walk, up to a limit |
| Predictors.FirstParallelogramPrediction | mesh_prediction.go:213-246 | the prediction of the first parallelogram around the entry, found exactly when one exists |
| Predictors.AverageParallelogramPrediction | mesh_prediction.go:248-277 | the truncated average of the predictions of the first four |
| Predictors.ComputeCorrections | mesh_prediction.go:295-319 | the loop from the last entry to the second leaves the corrections of all entries |
| Predictors.RestoreValues | mesh_prediction.go:321-358 | the loop from the first entry on restores into a buffer that may hold anything |
| CreaseFlags.CollectedBackwards | mesh_prediction.go:523-530 | writing the collected flags by groups from the end puts the entries in ascending order and keeps the order inside a group |
| CreaseFlags.FlagsGiveMasks | mesh_prediction.go:437-504 | the reader finds enough flags in every context and gets every entry's mask back |
| PredictionMeaning.MaskMeaning | mesh_prediction.go:437-504 | an entry with g parallelograms finds its flags in the g-th context after those of the earlier entries with as many, and a set flag leaves its parallelogram out |
| PredictionMeaning.NoneChosen | mesh_prediction.go:437-504 | leaving all of them out predicts the row before |
| CreaseFlags.ConstrainedRoundTrip | mesh_prediction.go:360-504 | constrained prediction restores the values for every choice of masks |
| CreaseFlags.FlagsRoundTrip | mesh_prediction.go:506-564 | all four contexts' flags come back from their bytes |
| ConstrainedCoding.ComputeConstrainedCorrections | mesh_prediction.go:360-435 | corrections and flags collected from the last entry to the second, for any choice of masks |
| ConstrainedCoding.RestoreConstrained | mesh_prediction.go:437-504 | on any corrections and flags: restored rows, or an error exactly when some context has too few flags |
| ConstrainedCoding.EncodeFlags | mesh_prediction.go:506-536 | writes the count and, group by group from the end, the whole groups of each context's flags, for flags of any number |
| ConstrainedCoding.WholeGroups | mesh_prediction.go:506-536 | flags in whole groups are written as the reader expects them |
| ConstrainedCoding.DecodeFlags | mesh_prediction.go:538-564 | reads them, and fails exactly when the format does |
| TexCoords.IntSqrtExact | mesh_prediction_texcoord.go:292-318 | intSqrt never exceeds the root and is the root rounded down exactly when the value is below the square after its first guess's |
| TexCoords.IntSqrtShort | mesh_prediction_texcoord.go:292-318 | the root of 31 comes out as 4 |
| TexCoding.ComputeIntSqrt | mesh_prediction_texcoord.go:292-318 | for every 64-bit value the iteration ends with that number, without any overflow |
| TexCoords.PlanLooksBack | mesh_prediction_texcoord.go:152-263 | whether there is a choice, and between what, depends on earlier rows only |
| TexGeometry.SimilarCandidates | mesh_prediction_texcoord.go:152-243 | where the triangle in the texture is similar to the one in space, foot and height are whole, the root is exact and nothing wraps, one candidate is the coordinate itself and the other its mirror image over the edge; the side of the edge tells which is first |
| TexGeometry.CandidatesExample | mesh_prediction_texcoord.go:152-243 | over the edge from (0,0) to (4,0) a tip at (0,4) is offered as (0,-4) and then (0,4) |
| TexGeometry.Fallbacks | mesh_prediction_texcoord.go:245-262 | without both neighbours, or with coinciding positions, the next one's row, else the previous one's, else the row before, else zeros |
| TexGeometry.LastPopped | mesh_prediction_texcoord.go:226-240 | a choice pops the last orientation, and true stands for the first candidate |
| TexCoords.TexRoundTrip | mesh_prediction_texcoord.go:43-92 | whichever candidates are picked, the values are restored and every orientation is popped |
| TexCoords.OrientationsRoundTrip | mesh_prediction_texcoord.go:94-150 | orientations come back from their repeat bits |
| TexGeometry.BitsRepeat | mesh_prediction_texcoord.go:122-150 | a set bit repeats the orientation before, the first being compared with true |
| TexCoding.ComputeTexCorrections | mesh_prediction_texcoord.go:43-65 | the loop fails exactly when some lookup does, and otherwise leaves corrections and pushed orientations |
| TexCoding.RestoreTexValues | mesh_prediction_texcoord.go:67-92 | on any corrections and orientations: restored rows, or an error exactly when a lookup fails or orientations run out |
| TexCoding.EncodeOrientations | mesh_prediction_texcoord.go:94-120 | writes the orientations, and refuses exactly more than an int32 can count |
| TexCoding.DecodeOrientations | mesh_prediction_texcoord.go:122-150 | reads them |
| IntegerCodec.SymbolsAreNumbers | integer_codec.go:24-40 | the two conversions are inverse bijections between int32 and uint32, and small magnitudes give small symbols |
| IntegerCodec.RawSymbolsRoundTrip | integer_codec.go:42-69 | uncompressed symbols come back at the width that their union of bits needs |
| IntegerCodec.AttributeRoundTrip | integer_codec.go:593-754 | for every prediction method and every choice made on the way, decoding the attribute's bytes followed by anything returns the values and stops there |
| AttributeFormats.MethodsRead | integer_codec.go:71-347 | 0 is differences, 1 the first parallelogram, 2 the average of all, 4 that of chosen ones and 5 texture coordinates; the symbols come first, then the method's data, then the bounds |
| AttributeFormats.PlainRead | integer_codec.go:71-176 | method 254 takes the symbols as the values |
| AttributeFormats.BoundsRead | internal/transform/wrap.go:67-105 | the smaller bound comes first, and bounds in the wrong order or too far apart are refused |
| AttributeFormats.SymbolsRead | integer_codec.go:71-176 | a zero is followed by a width of 1 to 4 bytes and numbers, anything else by the entropy coder |
| AttributeFormats.FlagsRead | mesh_prediction.go:538-564 | each context's flags are their number and, unless it is zero, a binary stream |
| IntegerCodec.SlicesEmptyExample | integer_codec.go:203-227 | eleven bytes lead to a difference method without entries |
| IntegerCoding.EncodeAttribute | integer_codec.go:593-754 | the decision follows the selected method with its choices and the tightest bounds, and is no prediction exactly when asked for, without values or with values too far apart; success gives the bytes of that decision, and failure means that a texture lookup fails or that the symbols of those very residuals are refused |
| IntegerCoding.DecodeAttribute | integer_codec.go:71-347 | every outcome is the format's, whatever the value buffer held, except that a difference method without entries slices a row off the reused buffers and fails exactly when they have no room |
| Octahedra.CanonicalChoice | internal/transform/octahedron.go:53-75 | canonicalisation picks one point of each set of border points that stand for one normal |
| OctahedronMeaning.CanonicalSide | internal/transform/octahedron.go:53-75 | of equivalent border points the near half of the left and bottom sides and the far half of the right and top sides is kept, and the last corner |
| OctahedronMeaning.AxesAt | internal/transform/octahedron.go:143-163 | the centre is the x axis, the middles of the sides are the y and z axes, the corner is the negative x axis |
| Octahedra.InvertedMirrors | internal/transform/octahedron.go:81-121 | inverting exchanges the inside and the outside of the diamond |
| OctahedronMeaning.InvertedUnfolds | internal/transform/octahedron.go:81-121 | on the octahedron inverting is the mirror image that negates the folded component |
| Octahedra.InvertedTwice | internal/transform/octahedron.go:81-121 | inverting twice is the identity exactly at canonical coordinates |
| Octahedra.RotationLeads | internal/transform/normal.go:156-200 | the rotation leads into the bottom left quadrant and is undone |
| Octahedra.CorrectionRange | internal/transform/normal.go:94-111 | corrections lie in [0, maxQuantizedValue) |
| OctahedronMeaning.PlainCorrection | internal/transform/normal.go:94-111 | against a prediction in the bottom left of the diamond the correction is the difference modulo 2c + 1 |
| OctahedronMeaning.TurnedCorrection | internal/transform/normal.go:94-111 | against any other prediction it is the correction of both points mirrored and turned there in the same way |
| OctahedronMeaning.QuarterTurns | internal/transform/normal.go:189-200 | rotation counts are quarter turns |
| Octahedra.NormalRoundTrip | internal/transform/normal.go:94-140 | for 2 to 30 bits and any prediction on the square, the original comes back exactly when it is canonical or the prediction lies in the diamond |
| Octahedra.CoordinatesUnfold | internal/transform/octahedron.go:143-163 | coordinates of a vector on the octahedron are canonical and unfold to it |
| Octahedra.QuantizedOnOctahedron | internal/transform/octahedron.go:175-190 | whatever rounding gives, the quantised vector lies on the octahedron |
| OctahedronMeaning.QuantizedShares | internal/transform/octahedron.go:175-190 | the first component is kept, the second gives up the excess, and the third is what is left with the chosen sign |
| Octahedra.ScaledOnOctahedron | internal/transform/octahedron.go:197-217 | scaling any integer vector leads onto the octahedron |
| OctahedronMeaning.ScaledShares | internal/transform/octahedron.go:197-217 | the first two components are their exact shares rounded towards zero, and all keep their signs |
| NormalTransform.NormalOctahedron.InvertDiamond | internal/transform/octahedron.go:81-121 | for any 32-bit point the unsigned arithmetic is the reflection, doubled, wrapped to 32 bits and halved |
| NormalTransform.NormalOctahedron.SetMaxQuantizedValue | internal/transform/octahedron.go:32-38 | 2^q-1 is understood exactly; another odd number silently becomes the next such value |
| NormalTransform.NormalOctahedron.ComputeCorrection | internal/transform/normal.go:94-111 | for any 32-bit original and prediction, the 32-bit correction |
| NormalTransform.NormalOctahedron.ComputeOriginalValue | internal/transform/normal.go:113-140 | for any 32-bit prediction and correction, the 32-bit original |
| NormalTransform.CorrectionExact | internal/transform/normal.go:94-111 | for points on the square the 32-bit arithmetic is exact |
| NormalTransform.OriginalExact | internal/transform/normal.go:113-140 | for predictions on the square and corrections below the modulus it is exact too, and the result is on the square |
| NormalTransform.NormalOctahedron.QuantizeNormal | internal/transform/octahedron.go:175-194 | quantised normals are canonical |
| NormalCodec.DifferencesUndone | integer_codec.go:506-515 | a sequence of normals comes back exactly when each one is canonical or follows one inside the diamond |
| NormalCodec.UndoneOnSquare | integer_codec.go:215-227 | corrections below the modulus never lead off the square |
| NormalCodec.RestoreNormalDifferences | integer_codec.go:203-227 | restores normals from any corrections, in 32-bit arithmetic |
| NormalCodec.UndoneExact | integer_codec.go:203-227 | for corrections below the modulus nothing wraps in a whole sequence |
| NormalCodec.GeometricRoundTrip | mesh_prediction_geometric_normal.go:48-144 | for every predicted vector and flip the prediction is canonical and a canonical normal comes back |
| NormalAttribute.NormalsRoundTrip | integer_codec.go:480-591 | with prediction, canonical normals come back from the attribute's bytes, which are read up to the suffix |
| NormalAttribute.PlainNormals | integer_codec.go:516-519 | without prediction decoding succeeds and gives the normals back exactly when every coordinate is zero |
| AttributeFormats.NormalsRead | integer_codec.go:71-347 | transform 3 with method 0 for differences and 6 for prediction from the geometry, whose flips come last; every outcome on any bytes |

## Left out

- RansDecoding.RansDecoder.BuildLookup: takes tables whose values are below 2^22 only, which is all that the table reader can produce; above that a uint32 sum could wrap around and meet the precision by accident.
- Octahedra.NormalRoundTrip: needs canonical originals or predictions in the diamond; quantising always gives canonical ones (NormalTransform.NormalOctahedron.QuantizeNormal).
- NormalAttribute.NormalsRoundTrip: the bytes are stated as functions; of the loops behind them only those for differences are modelled, and the vector predicted from the geometry is arbitrary. The older, not canonicalised transform for normals, which is only decoded, is not modelled.
- IntegerCoding.DecodeAttribute: reads the wrap transform; normals are read by their own function.
- KdCodec.CodecRoundTrip: needs stream sizes that fit their 32-bit fields; the source converts them without a check, as KdCoding.Encode does.
- KdCoding.Encode: takes fewer than 2^32 points, the most that the header can count.
- KdCodec.EstimatedRoundTrip: takes the share of zeros as an exact fraction; the source computes it in double precision.
- Probabilities.BuildTable: shares and scaled shares are any numbers within the bounds that rounding and scaling keep; double precision itself is not modelled.
- Readers and writers as objects: a reader is the sequence of bytes not read yet, a writer's output a sequence. Allocation limits, context cancellation, scratch pools and buffer reuse between calls are not modelled, and the binary encoder's output buffer is taken to be large enough.
- Rows: value slices, kd-tree points and the base and level buffers are arrays of rows instead of flat slices; aliasing of a row between slots is not modelled.
- The kd-tree writes go into a log per stream that is then fed to the bit coders, instead of calls interleaved with the traversal.
- Which probability, share, mask, candidate, orientation or scheme floating point picks: any admissible one is covered.
- The complete Edgebreaker encoder traversal, attribute seam bits, hole bookkeeping in the encoder, and the predictive traversal.
- Sorting: any sorted order of the edges or symbols.
- Float quantisation of positions and normals; only what happens to their integer results.
- Bitstreams before version 2.2, headers, options, metadata, attribute containers and mesh cleanup.
- Attributes with explicit mappings: both sides are given the same prediction context.
- Building the generic corner table that prediction uses: any matching of corners is covered.
