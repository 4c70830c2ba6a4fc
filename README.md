# wave-break-media, modelled in Dafny

wave-break-media is a pair of small image utilities:

- `transfer_images.py` migrates images between two S3 buckets. It lists the source bucket and fetches each object with PIL. It skips images whose `info` carries transparency and images whose key has no JPEG or PNG extension. Every other image is re-encoded in the format its extension names and put into the destination bucket under the same key. A failure of one item is caught, and the loop goes on.
- `face_detect.py` detects faces in one image file. It first creates the save directory, then checks that the input is an existing file with a `jpg`, `jpeg` or `png` extension. It then writes the crop of each detected box to `face_{i}.jpg` in the save directory and returns the number of boxes.

The model is split into these files:

- `wrappers.dfy` holds `Option` and `Result`.
- `path_text.dfy` (module `PathText`) models the extension test both scripts share, `os.path.splitext(p)[-1].strip(".").lower()`, for POSIX paths.
- `extension_facts.dfy` (module `ExtensionFacts`) states what that test decides in terms of the shape of the path.
- `migrator.dfy` (module `Migrator`) models `transfer_images.py`. The S3 listing is a value. Fetching an object is a function from key to the image `Image.open` returns for it, or to a failure. The reply to `put_object` is a function from key to an HTTP status, or to a raised error. The destination bucket is a class whose stored objects and received put calls change.
- `face_detect.py` is modelled by `face_detect.dfy` (module `FaceDetect`). The file system is a class with a set of directories and a map from path to content. The Haar cascade is a function from the image to its boxes.

Three behaviours of the code are easy to miss:

- A transparent image ends in the generic handler with a `NameError`, not in the `TransparentImage` handler that transfer_images.py:10 and :90 provide for it. It is also not logged: see Findings.
- A failed fetch of the first listed key ends the whole run, although the per-item try/except of transfer_images.py:83-93 is meant to contain it: see Findings.
- An item's image is fetched and opened, and checked for transparency, before its extension is looked at (transfer_images.py:84, 37, 39). So an unfetchable object with a bad extension ends as a fetch failure, not as `InvalidExtension`. `Image.open` reads only the header. A body PIL cannot decode fails later, at `img.save` (line 39), and ends as `OtherError(EncodeFailed)`.

The corrected behaviour of the first two is what `ToS3` and `MoveImages` implement. The as-written behaviour is modelled beside it.

## Model

| member | source | states |
|---|---|---|
| PathText.SplitExt | transfer_images.py:49 | splitext splits the path into a root and an extension that concatenate back to the path |
| PathText.Strip | transfer_images.py:49 | str.strip(c) for one character is never longer than its input |
| PathText.StripSpec | transfer_images.py:49 | str.strip(c) leaves no c at either end, and returns a string with no c at either end unchanged |
| PathText.StripLeadingDrops | transfer_images.py:49 | everything lstrip(c) drops from the front is c |
| PathText.StripTrailingDrops | transfer_images.py:49 | everything rstrip(c) drops from the back is c |
| PathText.StripShape | transfer_images.py:49 | str.strip(c) returns a contiguous middle slice of its input, and every character it drops on either side is c |
| PathText.Lower | transfer_images.py:49 | str.lower() keeps the length and maps each character on its own, ASCII capitals to small letters |
| PathText.Extension | face_detect.py:16 | the normalised extension is never longer than the path; its value is given by ExtensionAfterDot and ExtensionEmpty |
| PathText.StripOfSuffix | transfer_images.py:49 | strip(".") of a suffix that starts with its only dot drops exactly that dot |
| PathText.ExtensionAfterDot | transfer_images.py:49 | when the last dot of the final component follows a non-dot character, the extension is the lower-cased text after it |
| PathText.ExtensionEmpty | transfer_images.py:49 | when splitext finds no such dot, the extension is empty |
| ExtensionFacts.ExtensionOfName | transfer_images.py:49 | the extension of stem "." e is lower(e) |
| ExtensionFacts.ExtensionWithoutDot | transfer_images.py:49 | a final component without a dot has an empty extension |
| ExtensionFacts.ExtensionOfFinalComponent | face_detect.py:16 | dots in directory names never count: only the final component decides the extension |
| ExtensionFacts.ExtensionIgnoresCase | face_detect.py:16 | the extension of a lower-cased path is the extension of the path |
| ExtensionFacts.ExtensionHasNoSeparator | transfer_images.py:49 | the extension never contains a dot or a slash |
| Migrator.SafeExt | transfer_images.py:45-55 | __get_safe_ext: JPEG for jpg or jpeg, PNG for png, InvalidExtension otherwise, on the normalised extension; its contract is stated by the SafeExt lemmas and SameExtensionSameFormat below |
| Migrator.IsTransparent | transfer_images.py:57-58 | the transparency test is membership of "transparency" in the image's info keys; its consequences are stated by Prepare and RejectedKeysNeverPut |
| Migrator.SafeExtOfName | transfer_images.py:45-55 | stem.e maps to JPEG iff lower(e) is jpg or jpeg, to PNG iff lower(e) is png, and raises InvalidExtension iff it is neither |
| Migrator.SafeExtWithoutDot | transfer_images.py:49-55 | a key whose final component has no dot raises InvalidExtension |
| Migrator.SafeExtIgnoresCase | transfer_images.py:49-53 | the format chosen does not depend on the key's letter case |
| Migrator.SafeExtOfFinalComponent | transfer_images.py:49 | only the key's final path component decides the format |
| Migrator.Prepare | transfer_images.py:37-39 | the checks before put_object, in order: transparency first, then the extension, then encoding; on success the format is the one the extension names |
| Migrator.Confirm | transfer_images.py:41-43 | only status 200 counts as copied; any other status is UploadFailed naming the bucket and that status |
| Migrator.ItemOutcome | transfer_images.py:82-93 | one iteration: a failed fetch, a transparent image and a bad extension each end the item; Transferred iff put_object was called and answered 200, in the extension's format |
| Migrator.Bucket.PutObject | transfer_images.py:41 | the call is recorded; the object is stored under its key only on status 200 |
| Migrator.ToS3 | transfer_images.py:33-43 | its outcome is ItemOutcome; put_object is called exactly when every check passes; the destination changes only on Transferred |
| Migrator.MoveImages | transfer_images.py:64-96 | the report has one attempt per listed key in listing order; the put calls and the stored objects are those of the keys in turn |
| Migrator.EveryKeyAttempted | transfer_images.py:82-93 | the report has exactly one entry per listed key, at its position, with that key's outcome |
| Migrator.NoCrossItemInterference | transfer_images.py:83-93 | a key's outcome depends only on that key's fetch and put reply |
| Migrator.ListedKeys | transfer_images.py:73 | the listed keys are empty exactly when the listing has no Contents or empty Contents, and are the Contents otherwise |
| Migrator.EmptyListingDoesNothing | transfer_images.py:73-77 | a listing without Contents, or with an empty one, makes no attempt, no put call and no change |
| Migrator.PutsOfSpec | transfer_images.py:82-85 | the put calls of a batch are exactly the listed keys that pass every check, and there are no more of them than keys |
| Migrator.PutsOfLength | transfer_images.py:82-85 | a batch makes at most one put call per listed key |
| Migrator.PutsOfAt | transfer_images.py:82-85 | a given key is put iff it is listed and passes every check |
| Migrator.RejectedKeysNeverPut | transfer_images.py:37-39 | a key whose image is transparent, or whose extension is invalid, is never put |
| Migrator.StoredAt | transfer_images.py:41-43 | a key is stored after the attempts iff it was stored before or some attempt copied it, in that attempt's format; a key no attempt copied keeps its object |
| Migrator.StoredSpec | transfer_images.py:82-85 | after a batch the destination holds its old objects plus exactly the listed keys that were Transferred, each in its extension's format; every object whose key was not Transferred, listed or not, is untouched |
| Migrator.PrepareAsWritten | transfer_images.py:37-39 | the checks as written differ from the corrected ones exactly on transparent images, and succeed exactly when the corrected ones do |
| Migrator.ItemOutcomeAsWritten | transfer_images.py:57-61 | one iteration as written differs from the corrected one exactly when a fetched image is transparent, and copies exactly when the corrected one does |
| Migrator.RunAsWritten | transfer_images.py:82-95 | as written, the attempts made are a prefix of the listed keys with their as-written outcomes, and a run that aborts does so on a key whose fetch failed |
| Migrator.SameExtensionSameFormat | transfer_images.py:49-55 | keys with the same normalised extension get the same format |
| Migrator.TransparencyRaisesNameError | transfer_images.py:57-61 | as written, a transparent image ends in the generic handler with NameError; corrected, it ends as Transparent; neither reaches put_object |
| Migrator.BoundRunCompletes | transfer_images.py:82-95 | as written, once `img` has been bound, every remaining key is attempted in order |
| Migrator.RunAsWrittenAbortsOnFirstFetch | transfer_images.py:82-95 | as written, the run aborts iff the first key's fetch fails, with only that attempt made; otherwise it attempts every key |
| Migrator.FirstFetchFailureSkipsRest | transfer_images.py:84-95 | for the keys [a, b] where a cannot be fetched: as written, b is never attempted; corrected, both are |
| FaceDetect.Slice | face_detect.py:33 | Python slicing with both bounds clipped to the length: the length is the clipped count, and element i is element lo+i |
| FaceDetect.Crop | face_detect.py:33 | the crop's rows are the image rows from y, clipped; each row holds the columns from x, clipped; each crop pixel is the image pixel shifted by (y, x) |
| FaceDetect.CropInside | face_detect.py:33 | a box inside the image gives a crop of h rows and w columns, whose pixel (r, c) is image pixel (y+r, x+c) |
| FaceDetect.Decimal | face_detect.py:36 | the index is written as a non-empty string of decimal digits; one that starts with '0' is exactly "0", so there is no leading zero |
| FaceDetect.DecimalRoundTrip | face_detect.py:36 | reading back the digits written for n gives n |
| FaceDetect.DecimalInjective | face_detect.py:36 | different indices are written differently |
| FaceDetect.FaceName | face_detect.py:36 | the name of face i starts with the save directory and a slash, and ends in ".jpg" |
| FaceDetect.FaceNamesDistinct | face_detect.py:31-36 | the file names of two different indices differ |
| FaceDetect.Crops | face_detect.py:31-33 | the content saved for box i is the crop of box i, in detector order |
| FaceDetect.FaceFilesNames | face_detect.py:31-36 | the files the loop writes are exactly face_0 .. face_{K-1} in the save directory |
| FaceDetect.FaceFileContent | face_detect.py:31-36 | face_i holds the i-th saved crop |
| FaceDetect.FaceFilesCount | face_detect.py:31-36 | K boxes give exactly K files |
| FaceDetect.FaceRun | face_detect.py:7-40 | the checks in order: makedirs, isfile, extension, decode; on success the result is the number of boxes |
| FaceDetect.RunCountsItsFiles | face_detect.py:28-40 | the returned count is the number of files written; a rejected input writes nothing, and neither does an image with no faces |
| FaceDetect.FileSystem.MakeDirs | face_detect.py:13 | makedirs with exist_ok fails only for an empty path or an existing regular file, and adds the directory otherwise; repeating it changes nothing |
| FaceDetect.FileSystem.Save | face_detect.py:36 | saving writes the file and replaces any earlier content |
| FaceDetect.FileSystem.SaveFaces | face_detect.py:31-36 | the loop adds the face files to the file system, crop i as face_i, and nothing else changes |
| FaceDetect.FileSystem.DetectFaces | face_detect.py:7-40 | the result is FaceRun; the save directory is created whenever makedirs can create it, even when the input is then rejected; the only files added are the face files, and only on success |
| FaceDetect.AcceptedExtension | face_detect.py:16-17 | the extension assertion accepts exactly the paths to which the migrator's `__get_safe_ext` gives a format |
| FaceDetect.AcceptedExtensionOfName | face_detect.py:16-17 | stem.e is accepted iff lower(e) is jpg, jpeg or png, so X.PNG passes and x.gif does not |
| FaceDetect.NoDotRejected | face_detect.py:16-17 | a path whose final component has no dot is rejected |
| FaceDetect.AcceptedIgnoresCase | face_detect.py:16-17 | acceptance does not depend on letter case |

## Left out

- The S3 client is not modelled: its construction, credentials and network calls (transfer_images.py:21-24, 30, 41, 72). The listing, the fetch and the put reply are inputs. `boto3` is never imported in the source, so constructing `S3Images` would itself raise NameError. The model assumes a working client.
- Only the first page of `list_objects` is modelled, as in the source. Pagination is not.
- PIL opening, decoding and encoding are not modelled (`Image.open`, `img.save`, `Image.fromarray`). An image is its `info` keys plus the set of formats `img.save` can write it in, which is empty for a body PIL cannot decode. A saved face file holds its crop grid.
- `cv2.imread` and `cvtColor` are not modelled. A file is either a pixel grid or undecodable. The BGR-to-RGB and grayscale conversions are left out, and the crop is taken from the grid as read.
- The Haar cascade is not modelled (face_detect.py:20, 28). Its box list is an input, and a missing model file is not modelled. Boxes have non-negative coordinates, as the detector returns them. Negative Python indices are not modelled.
- Writing a crop with no pixels is modelled as writing an empty grid. What PIL does with a zero-size image is not modelled. A detector box always lies inside the image.
- `tqdm`, every `print`, and the rejection log append of transfer_images.py:59-60 are left out. The log is unreachable as written.
- `img.close()` is left out apart from the abort it causes when `img` was never bound.
- Both argparse blocks are left out. transfer_images.py:110 reads `args.src_bucket` and `args.region_name`, which the hyphenated positional arguments do not produce.
- `os.makedirs` is modelled as creating one directory. It fails only for an empty path or an existing regular file. Missing parents, a parent that is a file, and permission errors are not modelled.
- Failures of `face.save` are not modelled, for example a target path that is a directory. Path normalisation is not modelled either: `d/` and `d` are different paths.
- Migrator.Bucket.PutObject: the model stores an object only when `put_object` answers 200. The source only looks at the status and cannot tell whether a non-200 reply stored the object.
- PathText.Lower models `str.lower()` for ASCII letters only. Other characters are kept as they are.
- PathText.SplitExt models `os.path.splitext` for POSIX paths only, where `/` is the only separator.
- The `assert` statements of face_detect.py:14 and :17 are modelled as checks that always run. Under `python -O` they would be skipped.

## Findings

| source | as written | input that shows it | evidently intended | confidence | as-written member | corrected member |
|---|---|---|---|---|---|---|
| transfer_images.py:57-61 | `__is_transparent_image` refers to `image_file` and `key`, which are not defined in its scope. A transparent image raises NameError, which only the generic handler catches, and nothing is logged. | any fetched image whose `info` has a "transparency" entry | raise TransparentImage for the item's own key, and log that key | not executed | Migrator.TransparencyRaisesNameError | Migrator.ItemOutcome |
| transfer_images.py:95 | `img.close()` sits after the try/except. When fetching the first listed key fails, `img` is unbound, and the UnboundLocalError ends the whole batch. | the listing [a, b] where fetching a fails | catch the failure for a and go on to b | not executed | Migrator.FirstFetchFailureSkipsRest | Migrator.EveryKeyAttempted |
