# faceprints: the face index's arithmetic, listing filters and classifier

`faceprints` is a command-line face index. Each label is a directory of
sample face images. Next to them sits an `avg.faceprint` file, which holds
the average ("centroid") of the samples' 768-long Vision feature-print
embeddings. `classify` detects the faces in an image and embeds each one.
It scores every face against every label's centroid by cosine similarity
and reports the best label: for the first face in plaintext mode, for every
face in the JSON response.

This project models the computational core of that program and proves its
properties:

- `vector_math.dfy`, module `VectorMath`: the zipped sums and products, the
  magnitudes and `cosineSimilarity`. It also holds the IEEE 754 outcomes of a
  division by zero (`Score`) and IEEE `<` (`Less`).
- `collections.dfy`, module `Collections`: Swift's `filter` and `compactMap`
  over arrays, as functions on sequences.
- `paths.dfy`, module `Paths`: the `http` routing of `inputImagePathToURL`, the
  sample filter of `imagesForLabel` and the label listing of `getLabels`. URLs
  are modelled by their path strings. `hasDirectoryPath`, `lastPathComponent`
  and `pathExtension` are written out as Foundation computes them for file
  URLs.
- `averaging.dfy`, module `Averaging`: the centroid computation of
  `recalculateAverageEmbedding`. It covers the `compactMap`/`try?` over the
  samples, the `reduce` of `zip(acc, embedding).map(+)` from 768 zeros, and
  the division by the number of embeddings.
- `classify.dfy`, module `Classify`: `Classify.run`. It covers the no-face
  guard, the loops that build one label→score map per face, and the
  `max { $0.value < $1.value }!` selection of the top label in both output
  modes.

Swift's `Float` is modelled as `real`. The one IEEE 754 behaviour the
program depends on is kept: a division whose divisor is zero yields an
infinity or NaN (`Div`). This happens when there are no embeddings to
average, or when a magnitude is zero. The square root is a parameter
`sqrt: real -> real` of every member that needs it. A result about it
therefore holds for every square-root function, unless the member's
`requires` says what it assumes of `sqrt`.

The rest of the program is not modelled; each member takes its results as
inputs:

- Vision (`facesForImage`, `embeddingForImage`) and CoreImage cropping: the
  detected faces are a `Result<seq<Face>, Error>`. Cropping a face and
  embedding it together are one function,
  `Face -> Result<seq<real>, Error>`, and an extraction that throws is a
  `Failure`.
- The file system: every directory listing is a `seq<Url>`.
- `getFaceprints()`: the label to centroid map is a
  `map<string, seq<real>>`.

A Swift dictionary's iteration order is not specified, so the model's loops
over a map pick their next key with `:|`. Every contract holds for every
order in which the keys can be picked.

The program has no sample identifiers and no dimension-mismatch or
zero-magnitude errors. It does not sort its ranking or break ties by name,
and it has no per-label locking or atomic writes. Where one might expect
these, the model follows the code:
- `zip` silently truncates to the shorter vector;
- a zero magnitude, or no embeddings at all, yields NaN or an infinity
  rather than an error;
- `classify` reports one top label per face, chosen by `max`, with ties
  resolved by however the dictionary iterates;
- an empty index makes that `max` return `nil`, so the force-unwrap traps
  (`Trapped`) instead of raising an error.

## Model

| member | source | states |
|---|---|---|
| VectorMath.Div | Sources/faceprints/helpers.swift:118 | IEEE division of finite operands: a quotient for a non-zero divisor, and for a zero divisor an infinity by the sign of the dividend or NaN for 0/0; used by the average and by the similarity (helpers.swift:147), and specified through `AverageOfNoEmbeddings`, `AverageIsMean` and `ZeroVectorGivesNaN` |
| VectorMath.Less | Sources/faceprints/commands/classify.swift:41 | IEEE `<` on scores, false whenever either side is NaN; specified by `LessIsStrictTotalOrder` and used by `TopLabel` |
| VectorMath.LessIsStrictTotalOrder | Sources/faceprints/commands/classify.swift:41 | Away from NaN, the IEEE `<` that `max` compares scores with is irreflexive, transitive and total |
| VectorMath.DotPairsPrefix | Sources/faceprints/helpers.swift:144 | The dot product depends only on the components up to the shorter vector's length |
| VectorMath.DotIgnoresUnpairedTail | Sources/faceprints/helpers.swift:144 | Components of the longer vector past the shorter one's length do not enter the dot product |
| VectorMath.SumSquaresAppend | Sources/faceprints/helpers.swift:145-146 | A magnitude counts every component of its vector, including those past the other vector's length |
| VectorMath.DotSymmetric | Sources/faceprints/helpers.swift:144 | The zipped dot product is symmetric |
| VectorMath.CosineSimilarity | Sources/faceprints/helpers.swift:143-148 | `cosineSimilarity`: the zipped dot product over the product of the two full magnitudes, unguarded; specified by `CosineSimilaritySymmetric`, `DotPairsPrefix`, `DotIgnoresUnpairedTail`, `SumSquaresAppend`, `SelfSimilarity` and `ZeroVectorGivesNaN` |
| VectorMath.CosineSimilaritySymmetric | Sources/faceprints/helpers.swift:143-148 | `cosineSimilarity(a, b) == cosineSimilarity(b, a)` for every pair of vectors and every square root, including when the vectors have different lengths |
| VectorMath.SelfSimilarity | Sources/faceprints/helpers.swift:143-148 | A vector of non-zero squared magnitude has similarity exactly 1 with itself, given a square root exact at that magnitude |
| VectorMath.ZeroVectorGivesNaN | Sources/faceprints/helpers.swift:145-147 | The zero magnitude is unguarded: a zero vector has similarity NaN with every vector when `sqrt(0) == 0` |
| Paths.InputImagePathToUrl | Sources/faceprints/helpers.swift:18-24 | A path takes the remote-URL branch exactly when it starts with "http", and otherwise the file-path branch; the string is passed on unchanged |
| Paths.HasDirectoryPath | Sources/faceprints/helpers.swift:45 | `hasDirectoryPath`: the entry's path ends in '/'; specified by `LastPathComponentOfChild`, which ties it to how the entry was created |
| Paths.LastPathComponent | Sources/faceprints/helpers.swift:45 | The last path component holds no '/', except for the root path, which is its own last component |
| Paths.PathExtension | Sources/faceprints/helpers.swift:53-54 | `pathExtension`: what follows the last '.' of the last path component, or nothing; specified by `ExtensionOfFile` |
| Paths.IsImage | Sources/faceprints/helpers.swift:53-55 | The case-sensitive test for `jpg`, `jpeg` or `png`; specified by `ExtensionOfFile`, `AvgFaceprintIsNotImage` and `AddedFaceprintIsNotImage` |
| Paths.ImagesForLabel | Sources/faceprints/helpers.swift:53-55 | The sample images of a label directory's listing; specified by `ImagesForLabelKeepsImages` and `ImagesForLabelAppend` |
| Paths.ImagesForLabelKeepsImages | Sources/faceprints/helpers.swift:53-55 | The samples are exactly the listed entries whose extension is `jpg`, `jpeg` or `png`, and there are no more of them than entries |
| Paths.ImagesForLabelAppend | Sources/faceprints/helpers.swift:53-55 | The sample filter works entry by entry, so it keeps the listing's order |
| Paths.ExtensionOfFile | Sources/faceprints/helpers.swift:53-54 | A file `stem.ext` with a non-empty stem and a dot-free extension has extension `ext`, wherever it is |
| Paths.AvgFaceprintIsNotImage | Sources/faceprints/helpers.swift:120 | The centroid file `avg.faceprint` is never taken for a sample image |
| Paths.AddedFaceprintIsNotImage | Sources/faceprints/commands/add.swift:45-47 | The `<UUID>.faceprint` file that `add` writes for a new embedding is never taken for a sample image |
| Paths.GetLabels | Sources/faceprints/helpers.swift:45 | `getLabels` on a listing: the last components of its directory entries; specified by `GetLabelsOfDirectories`, `GetLabelsAppend`, `LabelsOfLabelDirectories` and `FileIsNotLabel` |
| Paths.GetLabelsOfDirectories | Sources/faceprints/helpers.swift:45 | A string is a label exactly when it is the last path component of some directory entry of the listing |
| Paths.GetLabelsAppend | Sources/faceprints/helpers.swift:45 | The label listing works entry by entry, so it keeps the listing's order |
| Paths.LastPathComponentOfChild | Sources/faceprints/helpers.swift:36 | The entry that `appendingPathComponent(name)` creates has `name` as its last component and a directory path exactly when it is a directory |
| Paths.LabelsOfLabelDirectories | Sources/faceprints/helpers.swift:35-46 | Listing the label directories created under the index gives back their names, in order |
| Paths.FileIsNotLabel | Sources/faceprints/helpers.swift:45 | A plain file in the index directory is never listed as a label |
| Averaging.SumEmbeddings | Sources/faceprints/helpers.swift:116-117 | Folding `zip(acc, embedding).map(+)` yields a result no longer than the accumulator or any embedding, and exactly as long as one of them |
| Averaging.SumEmbeddingsComponents | Sources/faceprints/helpers.swift:116-117 | Each component of the fold is the accumulator's component plus the sum of that component over all embeddings |
| Averaging.AverageEmbedding | Sources/faceprints/helpers.swift:116-118 | The average is the minimum of 768 and every embedding's length long, and its component `i` is the sum of component `i` over the embeddings, divided by their number with IEEE semantics |
| Averaging.AverageOfNoEmbeddings | Sources/faceprints/helpers.swift:116-118 | With no embeddings the 768 zeros are divided by zero: the vector computed before the write is 768 NaN components |
| Averaging.AverageIsMean | Sources/faceprints/helpers.swift:118 | With at least one embedding every component is the finite mean of that component |
| Averaging.ExtractedEmbeddings | Sources/faceprints/helpers.swift:112-114 | The embeddings of the sample images whose extraction succeeded; specified by `DivisorCountsSampleImages`, `DivisorCountsOnlyExtracted`, `FailedExtractionIsSkipped`, `ExtractedEmbeddingsAppend` and `NewSampleIsExtracted` |
| Averaging.RecalculateAverageEmbedding | Sources/faceprints/helpers.swift:108-119 | `recalculateAverageEmbedding` from the listing to the vector computed before the write; specified by `NonImageIsIgnored`, `FailedExtractionIsIgnored`, `AvgFaceprintIsIgnored`, `AddedFaceprintIsIgnored`, `NewSampleEntersAverage` and `ListingOrderIsIrrelevant` |
| Averaging.DivisorCountsSampleImages | Sources/faceprints/helpers.swift:112-114 | When every sample's extraction succeeds, the divisor is the number of samples, and the embeddings are theirs in listing order |
| Averaging.DivisorCountsOnlyExtracted | Sources/faceprints/helpers.swift:114 | The divisor never exceeds the number of samples, and falls below it exactly when some extraction failed |
| Averaging.FailedExtractionIsSkipped | Sources/faceprints/helpers.swift:114 | An entry whose extraction throws contributes no embedding, wherever it stands in the listing |
| Averaging.FailedExtractionIsIgnored | Sources/faceprints/helpers.swift:114-118 | An image whose extraction throws changes neither the sums nor the divisor of the average |
| Averaging.NonImageIsIgnored | Sources/faceprints/helpers.swift:112-118 | An entry that is not a sample image does not change the average, wherever it stands |
| Averaging.AvgFaceprintIsIgnored | Sources/faceprints/helpers.swift:120 | The `avg.faceprint` written into the averaged directory never feeds back into the average |
| Averaging.AddedFaceprintIsIgnored | Sources/faceprints/commands/add.swift:45-47 | The `<UUID>.faceprint` file that `add` writes into a label directory never enters that label's average |
| Averaging.ExtractedEmbeddingsAppend | Sources/faceprints/helpers.swift:112-114 | The embeddings of a listing are those of its two halves, in order |
| Averaging.NewSampleIsExtracted | Sources/faceprints/helpers.swift:112-114 | A sample image whose extraction succeeds contributes its embedding at its own place in the listing, wherever it stands |
| Averaging.NewSampleEntersAverage | Sources/faceprints/helpers.swift:112-118 | Wherever it stands in the listing, a sample image whose extraction succeeds enters the average as one more embedding among those of the other entries, which keep their order; read backwards, with `ListingOrderIsIrrelevant` for the order of the listing read afterwards, this is what removing it does |
| Averaging.ComponentSumInsert | Sources/faceprints/helpers.swift:116-117 | Inserting an embedding anywhere among the others adds its component to each component sum |
| Averaging.AverageWithOneMore | Sources/faceprints/helpers.swift:116-118 | Averaging one more embedding, placed anywhere among the others, adds its components to the component sums and one to the divisor, and cannot make the average longer than that embedding |
| Averaging.ComponentSumPermutation | Sources/faceprints/helpers.swift:116-117 | A component sum is the same for every order of the same embeddings |
| Averaging.AveragePermutation | Sources/faceprints/helpers.swift:116-118 | The average is the same for every order of the same embeddings, length and divisor included |
| Collections.FilterCompactMapPermutation | Sources/faceprints/helpers.swift:112-114 | Two listings with the same entries in different orders give the same embeddings, in some order |
| Averaging.ListingOrderIsIrrelevant | Sources/faceprints/helpers.swift:50-51 | `contentsOfDirectory` returns its entries in no defined order, and the average is the same for every order of the same entries |
| Classify.FaceRanks | Sources/faceprints/commands/classify.swift:31-35 | A face's ranking: for every label of the index, the similarity of the face's embedding to that label's centroid; the loop `BuildFaceRanks` is proved to build exactly this map |
| Classify.BuildFaceRanks | Sources/faceprints/commands/classify.swift:31-35 | A face's map has exactly the labels of the faceprints as keys, and each value is the cosine similarity of the face's embedding to that label's centroid, whatever the iteration order |
| Classify.RankFaces | Sources/faceprints/commands/classify.swift:27-37 | On success `ranks` holds one map per face, in face order, and every face's embedding succeeded; otherwise the error is that of the first face whose cropping or embedding threw |
| Classify.TopLabel | Sources/faceprints/commands/classify.swift:41 | `max { $0.value < $1.value }` is `nil` exactly for an empty map, and otherwise returns a key whose score no other score exceeds under IEEE `<`, whatever the iteration order and even with NaN scores |
| Classify.ReplacedMaximumStaysMaximal | Sources/faceprints/commands/classify.swift:41 | When `max` replaces its running maximum, no score already passed exceeds the new one, NaN included |
| Classify.TopScoreIsUnique | Sources/faceprints/commands/classify.swift:41-42 | Without NaN scores all possible top labels carry the same score, so the reported distance does not depend on the iteration order |
| Classify.TopIsMaximum | Sources/faceprints/commands/classify.swift:41-42 | When all scores are finite, the top label's score is greater than or equal to every score of the map |
| Classify.MatchingFaceScoresOne | Sources/faceprints/commands/classify.swift:33 | A face whose embedding is a label's centroid scores exactly 1 against that label, given a square root exact at its squared magnitude |
| Classify.BuildReports | Sources/faceprints/commands/classify.swift:49-63 | The JSON faces hold one report per face, in order, with its box, its confidence, its whole ranking, a top label and that label's score; the force-unwrap traps exactly when some face's ranking is empty |
| Classify.Run | Sources/faceprints/commands/classify.swift:19-69 | A detection error is caught; no face is `noFaceFound`; an embedding error is caught as the first failing face's; an empty index traps; otherwise plaintext prints the first face's top label with its similarity, and JSON prints a report for every face |
| Classify.UnitVectorScores | Sources/faceprints/helpers.swift:143-148 | Each plane unit vector has similarity 1 with itself and 0 with the other, when `sqrt(1) == 1` |
| Classify.ExampleTopLabel | Sources/faceprints/commands/classify.swift:41 | With centroids alice `[1, 0]` and bob `[0, 1]`, a face embedded as `[1, 0]` has alice as its only top label, with score 1 |
| Classify.ClassifyExample | Sources/faceprints/commands/classify.swift:38-43 | In that index, plaintext `classify` of a one-face image matching alice prints alice with similarity 1 |

## Left out

- Vision and CoreImage (`performRequest`, `facesForImage`, `embeddingForImage`, `saveCroppedFace`) are foreign framework calls. Their results are inputs of the model.
- `croppedFace` and `getFaceprints` are called by `classify`, but their definitions are not modelled. Cropping and embedding are one input function; the label to centroid map is an input.
- FileManager work is I/O and not modelled: `createDirectoryIfNotExists`, `contentsOfDirectory` and writing `avg.faceprint`. A listing is a given sequence of URLs.
- The JSON output and `printDict` are not modelled; `Run` returns the values that would be printed. So is `JSONSerialization` refusing NaN and infinities; on such a score the program would stop at `try!` rather than print.
- `URL(string:)!` is not modelled: it fails at run time on a malformed "http" string. `InputImagePathToUrl` only models the choice of branch.
- Foundation's URL path normalisation is not modelled: resolving `..`, percent-encoding and symbolic links. The path functions cover the plain paths a directory listing returns.
- `pathExtension` is modelled as case-sensitive, as the comparison in the source is. Other extension forms that Foundation treats specially are not modelled.
- Float rounding, non-associative summation and overflow are not modelled, because every value is a `real`. Only the zero-divisor outcomes of IEEE division are kept. For the same reason `ListingOrderIsIrrelevant` holds of the model exactly; with `Float` sums a different listing order can change the last bits of the average.
- The real square root is a parameter, not a definition. Properties that need it state their assumption about `sqrt` as a `requires`.
- SelfSimilarity: requires a non-zero squared magnitude rather than a non-zero vector, because the solver does not reliably derive, from a non-zero component, that a sum of real squares is non-zero.
- Cosine similarity's range of [-1, 1] is not proved. It rests on the Cauchy–Schwarz inequality and on properties of the real square root that the model leaves abstract.
- The ArgumentParser command structs are CLI wiring, not computation: `add`, `remove`, `list`, `extract` and the `faceprints` entry point.
- The call that `remove` makes to `recalculateAverageEmbedding` (Sources/faceprints/commands/remove.swift:20) is not modelled as a command. Its effect on the average is what `NewSampleEntersAverage` and `AverageWithOneMore` state read backwards for a removed sample image anywhere in the listing, and what `NonImageIsIgnored` and `FailedExtractionIsIgnored` state for any other removed entry. The listing read after the removal need not keep the other entries' order; `ListingOrderIsIrrelevant` shows that the average does not depend on that order.
- `add` does not call `recalculateAverageEmbedding`, although its header comment says it averages the label directory. It writes the new embedding as `<UUID>.faceprint`, and `AddedFaceprintIsIgnored` shows that this file never enters any average: an embedding added by `add` reaches a centroid only if the average is recomputed from sample images.
- RecalculateAverageEmbedding: with no embeddings the computed vector is 768 NaN components, and the `try! JSONSerialization.data` of the write refuses NaN, so the program stops and `avg.faceprint` keeps its old content (removing a label's last sample leaves a stale centroid). The model returns the computed vector and does not model the failed write.
- InputImagePathToUrl: tests the "http" prefix on code points, while Swift's `starts(with:)` compares characters (grapheme clusters); for a path such as "http" followed by a combining accent the model takes the remote branch and Swift the file-path branch.
- Which of several equally scored labels `max` returns depends on dictionary iteration order, which Swift leaves unspecified. The model allows every order and asserts no particular winner on a tie.
