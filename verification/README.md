# Hebrew OCR page decomposition, modelled in Dafny

This project models the deterministic core of the Hebrew OCR backend and proves properties about it. The core is the code that cuts a scanned page into text lines and character glyphs, groups glyphs by their cluster label, and maps characters to class indices and back. It also covers the upload filename check and the dataset bookkeeping around training.

Each module follows one source file or concern:

| module | file | what it models |
|---|---|---|
| `Wrappers` | `wrappers.dfy` | `Option`, `Result` and the exceptions the code raises (`ValueError`, `KeyError`, `ZeroDivisionError`, library rejections) |
| `Seqs` | `seqs.dfy` | stable sort by key (Python's `sorted`), key filters, distinctness, sums |
| `Arith` | `arith.dfy` | monotonicity and floor-division facts used by the size arithmetic |
| `Raster` | `raster.dfy` | greyscale images as rectangular `seq<seq<int>>` of 0..255, NumPy slicing, inverse and plain binary thresholds, blur kernel size, `invert_if_needed`, `remove_borders`, `resize_image` |
| `Lines` | `lines.dfy` | `LineSegmenter.segment_lines`: the horizontal projection, the band scan, `_merge_close_lines` and the line records |
| `Glyphs` | `glyphs.dfy` | `CharacterSegmenter`: `segment_characters`, the k-means/DBSCAN label assignment, `group_characters_by_similarity`, `sort_characters_reading_order`, `merge_character_groups` |
| `Encoder` | `encoder.dfy` | `CharacterEncoder` and the `HEBREW_CHARS` alphabet |
| `Upload` | `upload.dfy` | `allowed_file` and `ALLOWED_EXTENSIONS` |
| `Tally` | `tally.dfy` | the counting behind `get_class_distribution`: occurrences, the ascending order of `np.unique`, the insertion-ordered dictionary |
| `Training` | `training.dfy` | `TrainingDataset.prepare_data`, the not-prepared guards, `get_class_distribution`, the pad/crop arithmetic of `DataAugmenter.scale` |

Library calls whose results the code only passes along become inputs to the model:
- connected-component statistics;
- cluster labels;
- the resized image;
- the random scale factor.

Images that training only carries around become opaque sample names.

The model follows the code where it differs from the written description of the system:
- A pixel counts as ink when its intensity is at most 127, not strictly below. `THRESH_BINARY_INV` at 127 maps 127 to white.
- The band that reaches the bottom of the image is kept whatever its height. Only bands closed by a blank row must be at least `min_line_height` tall.

## Model

| member | source | states |
|---|---|---|
| Raster.BinarizeInv | backend/services/line_segmentation.py:22 | keeps the image's shape; a pixel becomes 255 exactly when it is at most 127 (ink) and 0 otherwise |
| Raster.BinarizeInvIsComplement | backend/services/line_segmentation.py:22 | the inverse binarisation at 127 is the pixelwise complement of the plain binarisation at 127 |
| Raster.Threshold | backend/services/image_processing.py:53-54 | keeps the shape; a pixel above the threshold becomes 255 and every other pixel 0 |
| Raster.ThresholdIdempotent | backend/services/image_processing.py:53-54 | thresholding an already thresholded image again at the same level, whatever the level, changes nothing |
| Raster.BlurKernelSize | backend/services/image_processing.py:40-42 | no blur exactly when the strength is not positive; otherwise the kernel is odd, is the strength or one more, and is the least odd size at least the strength |
| Raster.Crop | backend/services/character_grouping.py:46 | a slice is never larger than the image, and a slice inside the image has its size and shows the image's pixels shifted by its corner |
| Raster.Invert | backend/services/image_processing.py:176 | keeps the shape and maps every pixel v to 255 - v |
| Raster.InvertSum | backend/services/image_processing.py:174-176 | inverting turns the pixel sum s of an image with n pixels into 255·n - s |
| Raster.InvertIfNeeded | backend/services/image_processing.py:172-177 | inverts exactly the images whose mean is below 127 and returns the others unchanged; the result never has a mean below 127 |
| Raster.InvertIfNeededIdempotent | backend/services/image_processing.py:172-177 | applying the check twice gives the same image as applying it once |
| Raster.ContentWindow | backend/services/image_processing.py:141-149 | when some pixel is below the threshold, the bounds hold every such pixel and each of the four edges touches one |
| Raster.RemoveBorders | backend/services/image_processing.py:138-153 | an image without a pixel below the threshold comes back unchanged; otherwise the result is never larger than the input |
| Raster.RemoveBordersShows | backend/services/image_processing.py:148-152 | with content present, the result is exactly the content window of the input shifted to the origin |
| Raster.RemoveBordersEdges | backend/services/image_processing.py:148-152 | with content present, the first and last rows and columns of the result all hold content, so no blank border is left |
| Raster.RemoveBordersIdempotent | backend/services/image_processing.py:138-153 | removing borders twice gives the same image as removing them once |
| Raster.RemoveBordersFixed | backend/services/image_processing.py:141-152 | an image whose four edges all hold content is returned unchanged |
| Raster.ResizeTarget | backend/services/image_processing.py:106-109 | computed in exact arithmetic, the target size fits within both limits and reaches one of them; for an image that does not fit it is no larger than the image on either side |
| Raster.FittedSide | backend/services/image_processing.py:107-109 | a side scaled exactly by the smaller ratio and truncated stays within its own limit, and within its original length when the image overflows |
| Raster.ResizeImage | backend/services/image_processing.py:99-111 | an image that fits is returned as is; division by zero happens exactly for an empty image that does not fit; a zero limit is rejected; any other result is the library resize at the exact target size, which lies within the limits and reaches one of them |
| Lines.Projection | backend/services/line_segmentation.py:22-25 | one value per image row, positive exactly when the row holds an ink pixel |
| Lines.FindBandsSpec | backend/services/line_segmentation.py:28-49 | the scan finds exactly the maximal runs of ink rows that are at least the minimum height or reach the bottom of the image, disjoint and top to bottom |
| Lines.MergeClose | backend/services/line_segmentation.py:68-88 | empty exactly for empty input, never longer than the input, keeps the first start and the last end, and leaves consecutive bands more than `max_gap` apart |
| Lines.MergeCloseSpec | backend/services/line_segmentation.py:73-86 | for ordered input the merged bands are ordered, every input band lies inside a merged band, and every merged band runs from an input start to an input end |
| Lines.InsideUnique | backend/services/line_segmentation.py:79-86 | a non-empty band lies inside at most one merged band |
| Lines.BandsEmpty | backend/services/line_segmentation.py:32-52 | a projection without ink yields no line at all |
| Lines.SegmentLines | backend/services/line_segmentation.py:9-65 | lines are numbered by position, hold exactly the image rows they span, start and end on ink, run top to bottom more than `max_gap` apart, and together cover every kept run of ink; a page without ink has no lines |
| Lines.ProjectionExample | backend/services/line_segmentation.py:32-88 | with minimum height 2 and maximum gap 1, a projection with ink rows 2-4 and 7-8 gives the two bands [2,5) and [7,9), left apart because their gap of 2 rows exceeds 1 |
| Glyphs.Kept | backend/services/character_grouping.py:35-39 | the component labels kept are exactly the non-background ones whose area is within the bounds, in increasing order |
| Glyphs.GlyphImage | backend/services/character_grouping.py:40-53 | a glyph carries its component's box and area, no group, and an image that shows exactly the page's pixels under the box |
| Glyphs.SegmentCharacters | backend/services/character_grouping.py:31-57 | the i-th glyph is built from the i-th kept component and has id i |
| Glyphs.SegmentCharactersSpec | backend/services/character_grouping.py:35-55 | every glyph has a consecutive id, no group and an area in range, and every component in range yields a glyph |
| Glyphs.ClusterCount | backend/services/character_grouping.py:144-151 | the cluster count never exceeds the number of glyphs, equals the request capped by that number, and is at least one when chosen automatically |
| Glyphs.AutoClusterCount | backend/services/character_grouping.py:145-147 | with three or more glyphs and a positive cap, the automatic count is a third of the glyphs, capped |
| Glyphs.Tag | backend/services/character_grouping.py:157-158 | every glyph keeps its data and takes its own label as group |
| Glyphs.ClusterKMeans | backend/services/character_grouping.py:121-160 | fails exactly when there are glyphs and fewer than one cluster is requested; otherwise every glyph is tagged with its label |
| Glyphs.ClusterDbscan | backend/services/character_grouping.py:163-199 | every glyph is tagged with its label, noise label -1 included |
| Glyphs.Cluster | backend/services/character_grouping.py:214-219 | an unknown method name raises; success always means the glyphs tagged with their labels |
| Glyphs.ReadingOrder | backend/services/character_grouping.py:280-298 | a permutation of the glyphs, top to bottom and right to left (or left to right) within a row, with glyphs at the same position kept in input order |
| Glyphs.FirstSeenSpec | backend/services/character_grouping.py:222-227 | the group keys are distinct and are exactly the labels that occur |
| Glyphs.MembersSpec | backend/services/character_grouping.py:222-227 | a label's member list is non-empty exactly when some glyph carries it |
| Glyphs.MembersLabelled | backend/services/character_grouping.py:222-227 | every member of a group is one of the glyphs and carries the group's label |
| Glyphs.GroupUpToSpec | backend/services/character_grouping.py:222-227 | the dictionary has one group per label, in order of first occurrence, holding that label's glyphs in input order |
| Glyphs.GroupUpToTotal | backend/services/character_grouping.py:222-227 | the group sizes add up to the number of glyphs |
| Glyphs.SortGroups | backend/services/character_grouping.py:230 | the groups are permuted into non-increasing size, with groups of equal size kept in insertion order |
| Glyphs.SortGroupsPartition | backend/services/character_grouping.py:222-230 | the sorted groups have distinct labels, are non-empty, each holds exactly its label's glyphs, every glyph's label has a group, and sizes do not increase |
| Glyphs.SortGroupsTotal | backend/services/character_grouping.py:222-230 | no glyph is lost or duplicated: the sizes add up to the number of glyphs |
| Glyphs.SortGroupsAtMost | backend/services/character_grouping.py:153-158 | with labels in [0, k), as k-means gives, there are at most k groups |
| Glyphs.GroupBySimilarity | backend/services/character_grouping.py:202-232 | an unknown method raises; k-means fails exactly for a request below one; DBSCAN always succeeds; on success the groups partition the tagged glyphs by label, largest first, and hold every glyph once |
| Glyphs.MergeGroupsAsWritten | backend/services/character_grouping.py:301-321 | the merge as written can only fail with a missing key for the first label |
| Glyphs.MergeSameIdFails | backend/services/character_grouping.py:313-319 | merging a present group with itself as written deletes it and then fails to look it up |
| Glyphs.MergeAsWrittenAgrees | backend/services/character_grouping.py:313-321 | for two different labels the merge as written equals the corrected merge |
| Glyphs.MergeGroupsSpec | backend/services/character_grouping.py:313-321 | merging two different present labels keeps labels distinct and the glyph count equal, removes exactly the second group, gives the first both member lists re-tagged, and leaves all other groups in place; otherwise nothing changes |
| Encoder.CharToIdx | backend/models/ocr_model.py:242 | the keys are exactly the listed characters, each mapped to the last position holding it |
| Encoder.IdxToChar | backend/models/ocr_model.py:243 | the keys are exactly the positions, each mapped to the character there |
| Encoder.Encode | backend/models/ocr_model.py:246-248 | -1 exactly for a character not in the list, otherwise a position of that character with no later one |
| Encoder.Decode | backend/models/ocr_model.py:250-252 | the character at a valid position, the empty string for any other index |
| Encoder.EncodeBatch | backend/models/ocr_model.py:254-256 | one code per character, in order |
| Encoder.DecodeBatch | backend/models/ocr_model.py:258-260 | one character per index, in order |
| Encoder.NumClasses | backend/models/ocr_model.py:242-244 | the class count is the number of entries of `idx_to_char`; `char_to_idx` has at most that many, and exactly that many when the alphabet has no repeats; every code is below the count, every index at or above it decodes to the empty string, and every index below it decodes to a known character |
| Encoder.CharToIdxSize | backend/models/ocr_model.py:242 | `char_to_idx` has at most one entry per position of the alphabet, and exactly one per position when the alphabet has no repeats |
| Encoder.EncodePosition | backend/models/ocr_model.py:242-248 | in a list without repeats each character encodes to its own position |
| Encoder.DecodeEncode | backend/models/ocr_model.py:246-252 | decoding the code of a known character gives it back, and an unknown character comes back as the empty string |
| Encoder.EncodeDecode | backend/models/ocr_model.py:242-252 | encoding the decoded index gives every index back exactly when the character list has no repeats |
| Encoder.BatchRoundTrip | backend/models/ocr_model.py:254-260 | decoding the encoded batch of known characters gives the batch back |
| Encoder.IndexBatchRoundTrip | backend/models/ocr_model.py:254-260 | for a list without repeats, encoding the decoded batch of valid indices gives the indices back |
| Encoder.HebrewCharsDistinct | backend/config.py:48-53 | the alphabet has 35 entries and no repeats |
| Encoder.HebrewEncoder | backend/config.py:48-54 | the recogniser's encoder has 35 classes and each character encodes to its own position, alef to 0 |
| Encoder.HebrewSentinels | backend/models/ocr_model.py:246-252 | a Latin letter encodes to -1, and -1 and 35 decode to the empty string |
| Upload.LastDot | backend/routes/upload.py:17 | the position of the last '.' in the prefix, or none when the prefix has no '.' |
| Upload.Extension | backend/routes/upload.py:17 | the suffix after the last '.', which contains no '.' |
| Upload.AllowedFile | backend/routes/upload.py:14-17 | a name without a '.' is refused; otherwise it passes exactly when its lower-cased extension is allowed |
| Upload.AllowedFileSplit | backend/routes/upload.py:16-17 | a name passes exactly when it splits as stem, '.', and a dot-free extension that lower-cases to an allowed one |
| Upload.FinalExtension | backend/routes/upload.py:17 | whatever the stem, dots included, only the final extension decides |
| Upload.CaseInsensitive | backend/routes/upload.py:17 | two names equal up to ASCII case pass or fail together |
| Upload.UpperCaseExample | backend/config.py:29 | "SCAN.PNG" passes |
| Upload.ExeLastExample | backend/routes/upload.py:17 | "a.png.exe" is refused |
| Upload.PngLastExample | backend/routes/upload.py:17 | "a.exe.png" passes |
| Upload.TrailingDotExample | backend/routes/upload.py:17 | "scan." is refused: its extension is empty |
| Upload.BareExtensionExample | backend/routes/upload.py:16-17 | ".png" passes |
| Upload.NoDotExample | backend/routes/upload.py:16 | "scan" is refused |
| Tally.OccursIff | backend/models/training.py:207 | a value has a positive count exactly when it occurs among the labels |
| Tally.Present | backend/models/training.py:207 | the values listed occur among the labels and are strictly increasing |
| Tally.PresentComplete | backend/models/training.py:207 | every label value in the scanned range is listed |
| Tally.DictSetFresh | backend/models/training.py:212 | assigning a key not yet in the dictionary appends it at the end |
| Tally.DistributionIsTable | backend/models/training.py:207-212 | when different label values decode to different characters, the loop builds one entry per value present, ascending, each its character and its count |
| Tally.TableSum | backend/models/training.py:207-212 | the counts of those entries add up to the number of labels in the scanned range |
| Training.Copies | backend/models/training.py:150-151 | no extra copies without augmentation, `augment_factor` copies with it, none for a factor below one |
| Training.PrepareShape | backend/models/training.py:135-155 | images and labels have the same length, the number of known items times one plus the copies |
| Training.PrepareLabels | backend/models/training.py:139-155 | every sample comes from a known item and carries that item's code |
| Training.PrepareOrder | backend/models/training.py:145-155 | samples follow item order, and within an item the original comes before its copies |
| Training.PrepareComplete | backend/models/training.py:135-155 | every known item appears with its original and all its copies |
| Training.PrepareData | backend/models/training.py:121-163 | keeps items and encoder, marks the dataset prepared, and stores samples that are complete, ordered and labelled |
| Training.SplitGuard | backend/models/training.py:186-187 | raises "not prepared" exactly when no data was prepared, and otherwise passes the prepared data on |
| Training.ClassDistribution | backend/models/training.py:202-205 | raises "not prepared" exactly when no data was prepared |
| Training.PreparedCoded | backend/models/training.py:139-147 | every stored label is a class index that its own character encodes back to |
| Training.CodedKeys | backend/models/ocr_model.py:246-252 | such labels decode to different characters whenever they differ |
| Training.PreparedKeys | backend/models/training.py:139-158 | after preparation, different label values decode to different characters |
| Training.DistributionSum | backend/models/training.py:207-214 | when different label values decode to different characters, the counts add up to the number of labels |
| Training.DistributionEntries | backend/models/training.py:207-214 | the distribution lists each label value present once, ascending, with its character and its count |
| Training.PresentCovers | backend/models/training.py:207 | every label value is among the classes the distribution lists |
| Training.DistributionTotal | backend/models/training.py:202-214 | for a prepared dataset, the distribution exists and its counts add up to the number of labels |
| Training.ClassDistributionSpec | backend/models/training.py:202-214 | after `prepare_data`, the distribution exists and its counts add up to the number of samples |
| Training.KeyedDistribution | backend/models/training.py:202-214 | the distribution of a prepared dataset is the table of its present classes |
| Training.GuardsAfterPrepare | backend/models/training.py:186-187 | both guards raise before preparation and pass after it |
| Training.ScaledSide | backend/models/training.py:27 | a factor below one shrinks every positive side, and a factor of one or more shrinks none |
| Training.ScalePlan | backend/models/training.py:29-44 | no change exactly when a scaled side is zero; padding splits the shortfall with the smaller half on top or left; a crop window lies inside the scaled image |
| Training.ScaledShape | backend/models/training.py:29-47 | a zero side returns the input size; padding brings a shrunk side back to the original and leaves an enlarged side enlarged; cropping gives the original size |
| Training.ScaleKeepsShape | backend/models/training.py:23-47 | for every scale factor the augmented image keeps the original size |

## Left out

- Connected components, k-means, DBSCAN, HOG features, `StandardScaler`, `cv2.resize`, `cv2.copyMakeBorder` and `train_test_split` are library calls. Their results enter the model as parameters: component statistics, labels, the resized image.
- The random choices are not modelled: the scale factor, rotation angle, noise and brightness of `DataAugmenter`. The scale factor is a parameter given as an exact fraction.
- Augmented pixels and `_preprocess_image` (grey conversion, resize, division by 255) are floating point. Training samples are therefore opaque names, an item and a copy number.
- Glyph centroids are floats from the library and are not kept.
- `preprocess_image`'s other steps, `denoise`, `adaptive_threshold`, `auto_rotate`, `convertScaleAbs` and the sharpening filter are library image filters. Only the blur kernel size and the final threshold are modelled.
- `segment_lines_advanced`, the statistics helpers and the drawing and visualisation functions are not part of this model.
- Flask routes, storage, the database and model training itself are I/O and are not part of this model.
- Extra `**kwargs` passed through `group_characters_by_similarity` are modelled as explicit parameters: the requested count, the cap and the labels.
- Upload.LowerChar: lower-cases only ASCII A..Z, while Python's `str.lower` also folds other alphabets. No allowed extension contains a non-ASCII letter, but a name whose extension is non-ASCII and lower-cases to an allowed one is not modelled.
- Training.ScaledSide: takes the factor as an exact fraction `num/den` instead of a float drawn from [0.8, 1.2], so float rounding in `int(h * scale_factor)` is not modelled.
- Tally.Present: `np.unique` returns sorted values. The model scans from the smallest label to the largest and lists the values present, which gives the same ascending order.
- Raster.ResizeTarget: computes the target size in exact arithmetic, while the source divides and multiplies Python floats and truncates. The float result can leave the side that should reach its limit one below it: an image 2105 wide and 1000 high at the default limits of 2000 gets width 1999, where the model gives 2000. So the promise that the target reaches one of the limits holds of the model, not of the source.
- Raster.FittedSide: the same exact arithmetic for the other side; float truncation can make it one smaller than the exact floor.
- Raster.ResizeImage: the resized pixels come from a parameter standing for `cv2.resize`. Because the target is exact, a float side that truncates to zero is not modelled as the library's error. For example, an image 49 wide and 98 high with a width limit of 1 makes the source pass width 0 and raise, while the model resizes to 1 by 2. Only zero limits are shown to fail.
- Glyphs.MergeGroups: groups are an ordered list of (label, glyphs) standing for the insertion-ordered dictionary. The source mutates that dictionary and its glyph dictionaries in place; the model returns new values.

## Findings

| source | as written | input that shows it | evidently intended | confidence | as-written member | corrected member |
|---|---|---|---|---|---|---|
| backend/services/character_grouping.py:313-319 | when both labels are the same and present, the group is extended by itself, then deleted, then looked up again for re-tagging, which raises `KeyError` | groups holding label 0, `merge_character_groups(groups, 0, 0)` | merging a group with itself leaves the groups unchanged | not executed | Glyphs.MergeGroupsAsWritten, Glyphs.MergeSameIdFails | Glyphs.MergeGroupsSpec |
