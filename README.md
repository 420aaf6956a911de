# Satellite image compressor: a verified model of its Huffman coder and quantisers

This project models the two places of the satellite image compression demo
that hold real sequential logic, and proves what they promise.

* The Flask server (`app.py`):
  * the Huffman coder of `huffman_compress`: the byte-frequency table, the
    tree built by repeatedly merging the two lightest nodes of a heap, the
    code table derived by walking the tree, the bit string, its zero
    padding and its packing into bytes, and the reported ratio and
    placeholder metrics;
  * the extension checks `allowed_file` and `is_video_file`;
  * the request checks of `compress_media` and the JPEG quality it saves with;
  * the integer part of `svd_compress`: the number of singular values kept
    and the bit counts behind its ratio.
* The browser component (`components/image-processor.tsx`):
  * the three stand-in "compressors" that copy an RGBA buffer and round
    its colour samples to a step;
  * `calculateMetrics`, which sums squared colour differences and reports
    the PSNR sentinel 100 for a zero MSE.

Modules, one per file:

* `Common` (`common.dfy`) holds bytes, `Option`, `Result`, `Min`/`Max` and
  two division facts.
* `FileTypes` (`file_types.dfy`) models the extension checks.
* `Request` (`request.dfy`) models request validation, dispatch, response
  status and JPEG quality.
* `SvdSize` (`svd_size.dfy`) models the SVD rank and the size arithmetic.
* `HuffmanTree` (`huffman_tree.dfy`) holds the tree, the heap loop and the
  code table.
* `HuffmanCompress` (`huffman_compress.dfy`) holds counting, the bit
  string, padding, packing and the Huffman path of the server.
* `ImageProcessor` (`image_processor.dfy`) holds the canvas `ImageData`
  class, the in-place quantisers and the metrics loop.

The modelling choices follow the form of the code:

* **Imperative code stays imperative.** The heap loop of
  `build_huffman_tree` is a `method` with a `while` loop over a sequence
  heap; `heappop` is a method that removes some element of least
  frequency. The mapping-filling recursion of `build_huffman_codes` is a
  recursive method, proved equal to the function `Codes`. The packing loop
  is a method that appends byte by byte.
* **The browser code works on arrays.** The quantisers overwrite a
  freshly copied `array<Byte>` in place, four bytes at a time, and
  `calculateMetrics` is a nested loop. Each method is proved equal to a
  function on the buffer's contents: `Quantised`, `MetricsOf`. The
  properties the code promises are then proved as lemmas about those
  functions.
* **Ties are left open.** In Python, `HuffmanNode.__lt__` compares only
  frequencies, so which of several equal-weight nodes `heappop` returns is
  not modelled. Every tree property is proved from `PopMin`'s contract
  alone, so it holds for every tie order.
* **Rounding is integer arithmetic.** `Math.round(v / q)` on a
  non-negative quotient is `floor(v/q + 1/2)`, written `(2v + q) / (2q)`.
  Storing into a `Uint8ClampedArray` clamps the result at 255. Python's
  `int()` of a quotient truncates toward zero (`TruncDiv`).
* **Sums stay linear.** The bit count of the encoded string, a sum of
  frequency times code length, is written with `Times`, repeated addition
  that its contract proves equal to the product, and the two kinds of sum
  over a frequency table share one definition through `Weighting`. Neither
  exists in the code; they keep the solver away from nonlinear products.

Some behaviour of the code worth knowing:

* there is no Huffman decoder, and the server returns the input image
  unchanged with `mse = 0` and `psnr = 100`;
* the SVD rank is clamped only from below, at 1;
* `pca` passes validation, but `pca_compress` is never defined, so choosing
  it ends in a NameError and status 500;
* the allowed set holds ten extensions, five for images and five for
  videos.

## Model

| member | source | states |
|---|---|---|
| FileTypes.Extension | app.py:42 | `rsplit('.', 1)[1]` exists exactly when the name contains a '.' |
| FileTypes.AllowedFile | app.py:41-42 | `allowed_file`: a name without a '.' is never allowed; the full characterisation is `AllowedFileIff` |
| FileTypes.IsVideoFile | app.py:44-45 | `is_video_file`: a name without a '.' is never a video; every video name is allowed (`VideoFileIsAllowed`) |
| FileTypes.Lower | app.py:42 | lower-casing keeps the length and lowers each character |
| FileTypes.ExtensionIsAfterLastDot | app.py:42 | `rsplit('.', 1)[1]` exists exactly when the name has a '.', and it is the dot-free suffix after the last '.' |
| FileTypes.AllowedFileIff | app.py:41-42 | `allowed_file` holds iff the name has a last '.' and the lower-cased text after it is one of the allowed extensions |
| FileTypes.VideoFileIsAllowed | app.py:37-45 | every name `is_video_file` accepts is accepted by `allowed_file` |
| FileTypes.AllowedExtensionsCount | app.py:37-39 | five image and five video extensions, disjoint, ten allowed in all |
| Request.MethodOf | app.py:247 | no contract of its own: the `method` field, `auto` when absent; used by `ValidateOkIff` and `ImageMethodChoice` |
| Request.LevelOf | app.py:248 | no contract of its own: the converted `level` field, 50 when absent; used by `ValidateOkIff` and `LevelOutsideRangeRejected` |
| Request.Validate | app.py:236-300 | an accepted request has an allowed file name, a level of 10 to 90, and goes to the video path exactly when the file is a video |
| Request.ValidateOkIff | app.py:236-300 | a request is accepted iff a non-empty allowed name is given, the level is in 10..90, and the method suits the kind of file (auto/ffmpeg for videos, huffman/svd/pca/auto for images) |
| Request.LevelOutsideRangeRejected | app.py:250-251 | an allowed file with a level below 10 or above 90 is rejected for its level |
| Request.ImageMethodOf | app.py:299-300 | no contract of its own: an `auto` image method becomes svd, every other method stays; stated by `ImageMethodChoice` |
| Request.ImageMethodChoice | app.py:295-300 | an accepted image request goes to SVD iff its method is auto (or absent) or svd, to Huffman iff huffman, to PCA iff pca |
| Request.Dispatch | app.py:331-338 | videos go to ffmpeg with the plan's level, huffman exactly to `huffman_compress`, svd exactly to `svd_compress` with the plan's level, and only pca to the undefined name `pca_compress` |
| Request.DispatchOfForm | app.py:265-336 | an accepted request reaches ffmpeg with its level iff it is a video, `svd_compress` with its level iff it is an image with method auto (or none) or svd, and `huffman_compress` iff it is an image with method huffman |
| Request.ResponseStatus | app.py:236-341 | when reading the image, compressing and saving succeed, the status is always 200, 400 or 500 |
| Request.ResponseStatusCases | app.py:236-341 | when reading the image, compressing and saving succeed: the status is 400 iff validation fails, 500 iff an accepted image request asks for pca, and otherwise 200 |
| Request.JpegQuality | app.py:348 | the quality is at least 10 and is 100 - level for every level up to 90 |
| Request.JpegQualityRange | app.py:348 | for every accepted request the quality lies in 10..90 |
| Request.JpegQualityDecreasing | app.py:348 | the quality never rises with the level and falls strictly over the accepted levels |
| SvdSize.TruncDiv | app.py:148 | `int()` of a quotient agrees with floor division on non-negative dividends and is never positive on negative ones |
| SvdSize.TruncDivMonotone | app.py:148 | truncating division is monotone in the dividend |
| SvdSize.SvdRank | app.py:148-149 | at least one singular value is always kept |
| SvdSize.SvdRankBounds | app.py:148-149 | for levels 0..100 and a non-empty image, 1 <= k <= min(height, width) |
| SvdSize.SvdRankMonotone | app.py:148-149 | a higher level never keeps more singular values |
| SvdSize.OriginalBits | app.py:165 | no contract of its own: eight bits for each grey pixel; stated by `SvdSizes` |
| SvdSize.CompressedBits | app.py:166 | no contract of its own: 32 bits for each kept element of `U`, `sigma` and `Vt`; stated by `SvdSizes` |
| SvdSize.SvdRatio | app.py:165-167 | the ratio is undefined (ZeroDivisionError) exactly when the compressed bit count is zero |
| SvdSize.SvdSizes | app.py:148-167 | for levels 0..100 the compressed size is 32 k (h + w + 1) bits against 8 h w, and the ratio is defined |
| HuffmanTree.PopMin | app.py:55-64 | `heappop` removes one element of the heap, and that element has the least frequency |
| HuffmanTree.InitialHeap | app.py:59-60 | the initial heap has one leaf per table entry, holding each key once with the table's whole weight |
| HuffmanTree.MergeStep | app.py:62-70 | popping two nodes and pushing their merge keeps the total weight, keeps each key at exactly one leaf, keeps every tree well formed, and uses up one element per merge |
| HuffmanTree.BuildHuffmanTree | app.py:58-72 | an empty table fails at `heap[0]`; otherwise the root's frequency is the sum of the frequencies, its leaves are exactly the table's keys, each once, every node's frequency is the sum of its children's, and there are n - 1 merges |
| HuffmanTree.LastTree | app.py:62-72 | when the loop stops with one node, that node holds the whole table |
| HuffmanTree.Codes | app.py:74-85 | every code of the table begins with the starting code, and below a merged node every code is longer than it |
| HuffmanTree.BuildCodes | app.py:74-85 | the recursive walk adds to the shared mapping exactly the table `Codes(node, code)` |
| HuffmanTree.BuildHuffmanCodes | app.py:74-85 | the top-level call returns `Codes(tree, "")` |
| HuffmanTree.CodesDomain | app.py:78-83 | the code table has an entry for exactly the symbols at the leaves |
| HuffmanTree.CodeIsPath | app.py:79-83 | every code is the starting code followed by a root-to-leaf path to its symbol (0 left, 1 right) |
| HuffmanTree.PathUnique | app.py:79-83 | with distinct leaf symbols, there is only one path to each symbol |
| HuffmanTree.PathsPrefixFree | app.py:79-83 | a root-to-leaf path that is a prefix of another is that path, to the same leaf |
| HuffmanTree.TreeCodes | app.py:74-85 | with distinct leaves, every leaf symbol has exactly one code, its root-to-leaf path; no code is a prefix of another; all codes are bit strings |
| HuffmanTree.KeysAreDistinct | app.py:59-72 | a tree whose leaves are the keys of a table has distinct leaf symbols |
| HuffmanTree.SingleSymbolCode | app.py:62-85 | a one-symbol table gives a single leaf whose code is the empty string |
| HuffmanCompress.Count | app.py:98 | `Counter` of the data is empty exactly for empty data, and every count in it is at least 1 |
| HuffmanCompress.CountIsMultiset | app.py:98 | `Counter` holds exactly the byte values that occur, each with its number of occurrences |
| HuffmanCompress.TotalOfCount | app.py:98 | the counts add up to the number of bytes |
| HuffmanCompress.EncodeBits | app.py:105 | no contract of its own: the join of the codes of the bytes; stated by `EncodeBitsConcat`, `EncodedLength` and `EncodeBitsAreBits` |
| HuffmanCompress.EncodedLength | app.py:105 | the bit string is as long as the sum over symbols of frequency times code length |
| HuffmanCompress.EncodeBitsConcat | app.py:105 | the bit string of a concatenation is the concatenation of the bit strings, so it is the codes in input order |
| HuffmanCompress.EncodeBitsAreBits | app.py:105 | codes made of bits give a bit string |
| HuffmanCompress.CodeTableFacts | app.py:101-105 | the code table of the tree built from the counts is prefix-free, covers every input byte, and encodes the input in `Cost` bits of '0'/'1' |
| HuffmanCompress.PaddingLength | app.py:108 | the padding is 1..8, a full 8 exactly when the length is already a multiple of 8, and it makes the length a multiple of 8 |
| HuffmanCompress.Zeros | app.py:109 | `'0' * n`: exactly `n` characters, each of them '0' |
| HuffmanCompress.PadBits | app.py:108-109 | the padded string is the bits followed by 1 to 8 zeros and has a length that is a multiple of 8 |
| HuffmanCompress.PaddedLength | app.py:107-109 | the padded string is a positive multiple of 8 long, gives one byte more than the unpadded whole bytes, starts with the unpadded bits and is still bits |
| HuffmanCompress.BitsValue | app.py:115 | `int(s, 2)` of n bits is below 2^n |
| HuffmanCompress.BitsOfValue | app.py:115 | writing out a bit string's value in as many bits gives the bit string back |
| HuffmanCompress.ValueOfBits | app.py:115 | reading back the n bits of a number below 2^n gives the number |
| HuffmanCompress.ByteRoundTrip | app.py:115 | unpacking a byte to 8 bits and packing them again gives the byte |
| HuffmanCompress.PackBits | app.py:112-115 | the packing loop makes one byte per 8-bit chunk (the last possibly short), byte k is the big-endian value of chunk k, and for a length that is a multiple of 8 the bytes unpack to the bits |
| HuffmanCompress.UnpackPacked | app.py:112-115 | bytes holding the value of each 8-bit chunk unpack to exactly the bit string |
| HuffmanCompress.Size | app.py:120 | no contract of its own: `image.size`, the product of the array's dimensions; used in the ratio `HuffmanCompress` states |
| HuffmanCompress.HuffmanCompress | app.py:87-129 | a failed JPEG encoding gives ValueError and empty data the `heap[0]` error; otherwise the tree holds the counts, the codes are its prefix-free table, there are len(bits)/8 + 1 encoded bytes that unpack to the padded bits, and the result is the input image with ratio `size*8 / (bytes*8)`, mse 0, psnr 100 |
| ImageProcessor.ImageData.Copy | components/image-processor.tsx:176 | the copy has the source's width, height and contents, in fresh storage |
| ImageProcessor.QuantiseSample | components/image-processor.tsx:182-184 | no contract of its own: `min(255, round(v/q)*q)` with half-up rounding; stated by `NearestMultiple`, `SampleError` and `SampleIdempotent` |
| ImageProcessor.Quantised | components/image-processor.tsx:180-185 | the quantised buffer has the input's length; its samples are stated by `QuantisedFacts` |
| ImageProcessor.Quantise | components/image-processor.tsx:176-186 | the copy loop leaves `Quantised(input, q)` in a fresh buffer of the same dimensions and does not touch the input |
| ImageProcessor.ApplyHuffmanCompression | components/image-processor.tsx:168-189 | the result is the input quantised with step 10 |
| ImageProcessor.ApplyRLECompression | components/image-processor.tsx:221-239 | the result is the input quantised with step 20 |
| ImageProcessor.DctStep | components/image-processor.tsx:254 | the step is at least 1 and is round(level/10) for every level of 5 or more |
| ImageProcessor.ApplyDCTCompression | components/image-processor.tsx:241-265 | the result is the input quantised with the level's step |
| ImageProcessor.DctStepRange | components/image-processor.tsx:254 | the step never falls as the level rises, and lies in 1..9 for levels 10..90 |
| ImageProcessor.NearestMultiple | components/image-processor.tsx:182-184 | `round(v/q)*q` lies within half a step of v |
| ImageProcessor.SampleError | components/image-processor.tsx:182-184 | a quantised sample is within q/2 of its input and is a multiple of q unless it was clamped to 255 |
| ImageProcessor.SampleIdempotent | components/image-processor.tsx:182-184 | quantising a quantised sample changes nothing |
| ImageProcessor.QuantisedFacts | components/image-processor.tsx:180-185 | alpha samples are kept; colour samples move by at most q/2 and land on a multiple of q or 255; quantising twice is quantising once |
| ImageProcessor.MetricsOf | components/image-processor.tsx:268-285 | the PSNR is the sentinel exactly when the MSE is 0, both are NaN exactly when the compared length is 0 or leaves 1 or 2 bytes over whole pixels (the loop then reads past the shorter buffer), and the MSE is never negative |
| ImageProcessor.ReadsPastEnd | components/image-processor.tsx:270-277 | no contract of its own: the compared length is 0, or its last pixel lacks its green or blue byte; used by `MetricsOf` and `MseZeroIff` |
| ImageProcessor.CalculateMetrics | components/image-processor.tsx:268-285 | the nested loop computes `MetricsOf` of the two buffers |
| ImageProcessor.SquaredDiffs | components/image-processor.tsx:272-278 | no contract of its own: the sum of squared red, green and blue differences over the first n bytes; stated by `SquaredDiffsZero` and `QuantisedDiffs` |
| ImageProcessor.SquaredDiffsZero | components/image-processor.tsx:272-278 | the squared differences vanish exactly when every compared colour sample agrees |
| ImageProcessor.MseZeroIff | components/image-processor.tsx:280-282 | for non-empty buffers the MSE is 0, and the PSNR the sentinel 100, exactly when the loop stays inside both buffers and all compared colour samples are equal |
| ImageProcessor.ColourSamplesCount | components/image-processor.tsx:273-280 | among n bytes there are n - n/4 colour samples, which is 3 per pixel |
| ImageProcessor.QuantisedDiffs | components/image-processor.tsx:180-278 | each colour sample of a quantised buffer adds at most q*q/4 to the squared differences |
| ImageProcessor.MseBound | components/image-processor.tsx:280-281 | a bound on the squared differences per colour sample bounds the MSE |
| ImageProcessor.QuantisationMseBound | components/image-processor.tsx:168-282 | comparing a buffer with its quantised copy gives an MSE of at most q*q/4 (25 for the Huffman stand-in, 100 for the RLE one) |

## Left out

- Flask routing, multipart parsing, `file.save`, uuid file names, `os.path.getsize`, the JSON responses and the `logger.error`/`logger.info` calls are left out. They are I/O; the model keeps only the statuses and the choices they depend on.
- Request.ResponseStatusCases: covers only requests whose image is read and whose compression and save succeed. These other statuses are not modelled: 400 when the image cannot be read (app.py:320-325); 500 when `compress_video` raises (app.py:277-279); 500 when `huffman_compress` or `svd_compress` raises (app.py:339-341); 500 when `cv2.imwrite` fails (app.py:352-354); 500 for any other exception (app.py:376-378). The same holds for Request.ResponseStatus.
- `cv2.imencode`, `cv2.imread`, `cv2.imwrite` and the PIL TIFF conversion are not modelled. They are foreign libraries; the JPEG bytes enter `HuffmanCompress.HuffmanCompress` as a parameter.
- `compress_video` (the ffmpeg subprocess and its CRF from `level * 0.51`) is left out: it is an external process and floating point.
- The singular value decomposition, `np.dot`, `np.clip`, the SVD MSE and its `log10` PSNR are left out. They are floating point in foreign libraries; only the rank and size arithmetic is modelled.
- `rle_compress` and `dct_compress` are empty stubs with nothing to model, and `pca_compress` does not exist. Only its NameError is modelled, as `Request.Dispatch`.
- Request.Validate: a `level` field that `int()` cannot parse raises ValueError and yields status 500. This is not modelled: the form carries the level already converted, and a missing level means 50.
- FileTypes.Lower: lower-cases the ASCII letters only. Python's `str.lower` also lowers other Unicode letters, for instance the Kelvin sign to 'k'.
- HuffmanTree.PopMin: picks some element of least frequency. The exact tie order of `heapq` is not modelled, so neither is the tree shape it gives under ties; every proved property holds for every tie order.
- SvdSize.SvdRatio: states when the ratio is defined, not its floating-point value.
- HuffmanCompress.HuffmanCompress: the ratio is an exact quotient of reals, not a float. Neither the tree, the codes nor the encoded bytes leave the Python function; the model returns them only so that their properties can be stated.
- In components/image-processor.tsx, these parts are not modelled: the float grayscale conversion, the canvas-blur SVD stand-in, the simulated `compressedSize`, the timing, and the React effect, refs, object URLs and progress state. They are floating point, canvas or UI glue.
- ImageProcessor.MetricsOf: the PSNR of a positive MSE, `20 * log10(255 / sqrt(mse))`, is kept symbolic as `FromLog(mse)`. The MSE itself is an exact rational; JavaScript computes it as a double.
- ImageProcessor.CalculateMetrics: requires both buffers to be whole canvas buffers (four bytes per pixel), as canvas `ImageData` always is; the loop method therefore never meets the out-of-bounds read that `MetricsOf` models as NaN.
- `ImageProcessor.QuantiseSample` takes byte samples, so `v / q` is never negative and `Math.round` is `floor(x + 1/2)`; every `Uint8ClampedArray` holds bytes only.
- The UI files (`static/script.js`, the other components and `app/page.tsx`) hold DOM and React state only, and are not modelled.
