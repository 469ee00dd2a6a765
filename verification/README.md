# Pizza classifier demo: upload filter and decision rule

The demo application classifies an uploaded picture as "pizza" or "not
pizza". Almost all of its work is done by a neural-network library, an image
library and a web-UI framework. Two pieces of logic are its own, and this
project models and proves properties of exactly those two:

- **The upload filename filter** (`is_image_file`). A file name is accepted
  exactly when it ends with one of ten fixed extensions: `.jpg`, `.JPG`,
  `.jpeg`, `.JPEG`, `.png`, `.PNG`, `.ppm`, `.PPM`, `.bmp`, `.BMP`. The check
  is Python's `str.endswith`, run over the list in order and stopping at the
  first match (`any`).
- **The decision rule** at the end of `predict`. It turns the two class
  probabilities into one of two literal messages. If class 0's score is
  strictly below class 1's, the message is "It is a Pizza!". Otherwise,
  ties included, it is "It is not a Pizza!". The mapping looks inverted
  (class 0 low means pizza). The model reproduces it as written.

Modules, one file each:

- `Strings` (`strings.dfy`): `EndsWith`, a character-by-character model of
  `str.endswith` for one suffix. It is proved equal to the slice view and to
  the "stem followed by suffix" view.
- `ImageFilter` (`image_filter.dfy`): the extension list, `AnyEndsWith` (the
  `any(...)` scan) and `IsImageFile`, plus lemmas about which names are
  accepted.
- `Decision` (`decision.dfy`): `Verdict` over two `real` scores, plus lemmas
  about ties, swapping and monotonicity.

The scores are `real`s standing in for the floating-point probabilities that
the softmax produces. Only their order is used.

## Model

| member | source | states |
|---|---|---|
| `Strings.EndsWith` | utils.py:47 | `str.endswith` for one suffix: true exactly when the suffix is no longer than the name and the name's last characters equal it, compared case-sensitively; the empty suffix ends every name |
| `Strings.EndsWithIffConcatenation` | utils.py:47 | a name ends with a suffix exactly when it is some stem followed by that suffix |
| `Strings.EndsWithDependsOnTail` | utils.py:47 | whether a suffix of length at most n ends a name depends only on the name's last n characters |
| `ImageFilter.AnyEndsWith` | utils.py:47 | the `any` scan over an extension list is true exactly when some extension in the list ends the name |
| `ImageFilter.IsImageFile` | utils.py:46-47 | a name is accepted exactly when some extension of the ten-element list ends it; the predicate is total |
| `ImageFilter.ExtensionShape` | utils.py:8-10 | every listed extension has 4 or 5 characters, ends in three letters of one case, and ends in g, m or p; its fourth character from the end is the dot, or a `j` in the same case as the last letter |
| `ImageFilter.IsImageFileIffStemPlusExtension` | utils.py:46-47 | a name is accepted exactly when it is a (possibly empty) stem followed by a listed extension |
| `ImageFilter.AcceptsStemPlusExtension` | utils.py:8-10 | every stem, the empty one included, followed by a listed extension is accepted |
| `ImageFilter.AcceptedNameShape` | utils.py:8-10 | an accepted name has at least 4 characters, its last three are all lowercase or all uppercase letters, its last is g, m or p, and its fourth from the end is a dot or a `j` in the same case as the last letter |
| `ImageFilter.RejectsShortNames` | utils.py:8-10 | every name shorter than 4 characters, the empty name included, is rejected |
| `ImageFilter.OnlyFinalCharactersMatter` | utils.py:47 | two names that agree on their last 5 characters are both accepted or both rejected |
| `ImageFilter.PrependingKeepsAcceptance` | utils.py:47 | putting any text in front of an accepted name keeps it accepted |
| `ImageFilter.AcceptedExamples` | utils.py:9 | `x.jpg`, `x.JPG`, `photo.jpeg` and the bare `.jpg` are accepted |
| `ImageFilter.MixedCaseRejected` | utils.py:8-10 | the mixed-case names `x.JpG` and `x.Png` are rejected |
| `ImageFilter.MixedCaseJpegRejected` | utils.py:9 | for every stem, the names ending in `.Jpeg` or `.jPEG` are rejected, although their last three letters share one case |
| `ImageFilter.RejectsOtherFinalCharacter` | utils.py:8-10 | every name whose last character is not g, m or p in either case, the empty name included, is rejected; so a listed extension followed by text ending in another character is rejected |
| `ImageFilter.TrailingTextRejected` | utils.py:47 | the two names `a.jpg.gif` and `a.png ` (trailing space), each a listed extension followed by more text, are rejected |
| `ImageFilter.UnlistedRejected` | utils.py:8-10 | every name ending in `.gif` or `.tiff`, whatever its stem, is rejected, and so is the empty name |
| `Decision.Verdict` | utils.py:31-35 | the result is one of exactly two messages; it is "It is a Pizza!" exactly when class 0's score is strictly below class 1's, and "It is not a Pizza!" exactly when it is not |
| `Decision.TieIsNotPizza` | utils.py:31-34 | equal scores give "It is not a Pizza!" |
| `Decision.SwapFlipsVerdict` | utils.py:31-34 | for distinct scores, exchanging the two scores exchanges the two messages, so between them both messages occur |
| `Decision.VerdictMonotone` | utils.py:31-32 | lowering class 0's score or raising class 1's never turns "It is a Pizza!" into "It is not a Pizza!" |

## Left out

- `load_model` (utils.py:12-17): it builds a network from a module that is not part of this model and moves it to a device. It has no logic of its own. Weight loading is commented out in the source (line 16).
- `load_image` (utils.py:19-21): decoding and RGB conversion happen inside the image library.
- `predict` lines 25-30: tensor conversion, the ImageNet mean/std normalisation, the device move, the batch dimension, the forward pass and the softmax are floating-point numerics inside the network library. Only the decision on the resulting scores is modelled.
- `Decision.Verdict`: takes the two scores directly. The `float(...)` conversion and the indexing of the 1×2 score tensor are not modelled. IEEE floating-point comparison, including NaN, is replaced by the order on `real`.
- `load_device` (utils.py:37-43): probing for an accelerator is environment-dependent I/O.
- The `@st.cache()` memoisation on `load_model`, `predict`, `load_device` and `is_image_file` (utils.py:12, 23, 37, 45): this is the UI framework's caching and does not change any result.
- File names are modelled as Dafny `string`s, sequences of Unicode scalar values. A Python `str` can also hold lone surrogates. This cannot change an answer, because every listed extension is ASCII.
