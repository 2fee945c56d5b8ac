# DIAL Chat file helpers, modelled in Dafny

This project models the file helpers of DIAL Chat (`src/utils/app/file.ts`).
They are small pure functions used when files are attached to a chat message
or uploaded:

- `getPathNameId` builds a file's id from its relative path and name.
- `getRelativePath` strips the bucket prefix (the first four `/`-separated
  pieces) off an absolute path.
- `getUserCustomContent` turns the files attached to a message into the
  `custom_content.attachments` payload. It skips files that failed or are
  still uploading.
- Four upload validators report the files whose content type is not allowed
  or whose size is over the limit. There is one pair for DIAL store files and
  one pair for browser `File` objects.

The helpers are written with JavaScript built-ins. These are modelled in
module `JsBuiltins` (`js_builtins.dfy`):

- `Array.prototype.filter`, `map`, `toSpliced` and `join`.
- `String.prototype.split` with a one-character separator.

The helpers themselves are in module `FileUtils` (`file_utils.dfy`).
JavaScript's `undefined` is `Option.None` (`wrappers.dfy`). Strings are
`seq<char>`, and arrays are `seq`. The helpers never change their arguments.
The lists they return are new lists, but they hold the input's own file
objects.

The model proves these properties:

- Both round trips between `split` and `join`.
- The exact case table of `getPathNameId`, and that for a non-empty name
  without `/` the name and the relative path can be recovered from the id (an
  absent relative path gives the same id as an empty one).
- That a relative path is exactly what follows the fourth `/`, with an
  if-and-only-if for when it is absent. The worked example in the code's comment is
  also proved.
- That the attachments are exactly the attachable files, in order.
- That each validator reports exactly the offending files, in their original
  order and with their multiplicity, and that each validator is idempotent.

## Model

| member | source | states |
|---|---|---|
| `JsBuiltins.Filter` | src/utils/app/file.ts:15 | the kept elements are no more than the input's and all pass the test |
| `JsBuiltins.FilterMembers` | src/utils/app/file.ts:33-35 | an element is kept if and only if it occurs in the input and passes the test |
| `JsBuiltins.FilterMultiset` | src/utils/app/file.ts:45-75 | a kept element is kept as many times as it occurs in the input; a rejected one zero times |
| `JsBuiltins.FilterSubsequence` | src/utils/app/file.ts:45-75 | the kept elements are a subsequence of the input, so their order is the input's order |
| `JsBuiltins.FilterAppend` | src/utils/app/file.ts:33-35 | filtering a concatenation gives the concatenation of the filtered parts |
| `JsBuiltins.FilterAllPass` | src/utils/app/file.ts:45-75 | a list whose every element passes the test is returned whole |
| `JsBuiltins.FilterIdempotent` | src/utils/app/file.ts:45-75 | filtering a filtered list again with the same test changes nothing |
| `JsBuiltins.FilterStronger` | src/utils/app/file.ts:54-59 | filtering with a stronger test gives the same as filtering the weaker test's result with it |
| `JsBuiltins.MapSeq` | src/utils/app/file.ts:36-40 | the result has the input's length, and element i is the function applied to input element i |
| `JsBuiltins.ToSpliced` | src/utils/app/file.ts:22 | `toSpliced(start, deleteCount)` deletes at most `deleteCount` elements from `start` on (both clamped to the length), keeps those before `start` and shifts those after down |
| `JsBuiltins.JoinAppend` | src/utils/app/file.ts:22 | joining two non-empty lists gives their joins with one separator between them |
| `JsBuiltins.JoinOccurrences` | src/utils/app/file.ts:15 | joining n separator-free parts gives a string with exactly n - 1 separators |
| `JsBuiltins.Split` | src/utils/app/file.ts:22 | `split` gives one more piece than the string has separators, and no piece contains the separator |
| `JsBuiltins.SplitNoSeparator` | src/utils/app/file.ts:22 | a string without the separator splits into itself alone |
| `JsBuiltins.SplitAround` | src/utils/app/file.ts:22 | splitting `a + sep + b` gives the pieces of `a` followed by the pieces of `b` |
| `JsBuiltins.JoinSplit` | src/utils/app/file.ts:22 | joining the pieces of a split gives back the original string |
| `JsBuiltins.SplitJoin` | src/utils/app/file.ts:22 | splitting the join of a non-empty list of separator-free parts gives back the parts |
| `JsBuiltins.SplitLastEmpty` | src/utils/app/file.ts:22 | the last piece is empty if and only if the string is empty or ends with the separator |
| `FileUtils.PathNameIdCases` | src/utils/app/file.ts:14-16 | an absent or empty relative path gives exactly the name; otherwise the id is the relative path, followed by `/` and the name when the name is non-empty |
| `FileUtils.PathNameIdNoStraySeparator` | src/utils/app/file.ts:15 | an empty part adds no `/`: if neither part starts or ends with `/`, neither does the id |
| `FileUtils.PathNameIdRoundTrip` | src/utils/app/file.ts:14-16 | for a non-empty name without `/`, the id's last piece is the name; joining the earlier pieces gives back the relative path, and there are no earlier pieces when the relative path is absent or empty |
| `FileUtils.GetRelativePath` | src/utils/app/file.ts:18-23 | `undefined` gives `undefined`, and the result is never the empty string |
| `FileUtils.RelativePathPieces` | src/utils/app/file.ts:22 | the result is the `/`-pieces after the first four, rejoined with `/`; it is absent when there are no such pieces or they join to the empty string |
| `FileUtils.RelativePathAbsent` | src/utils/app/file.ts:22 | the result is absent if and only if the path has fewer than four `/`, or has exactly four and ends with `/` |
| `FileUtils.RelativePathIsSuffix` | src/utils/app/file.ts:18-23 | a present result is the suffix that follows the path's fourth `/`: before it stand a `/` and a prefix holding exactly three `/` |
| `FileUtils.RelativePathOfPrefixed` | src/utils/app/file.ts:18-23 | conversely, four `/`-free pieces joined with `/`, then `/` and a non-empty rest, give exactly that rest |
| `FileUtils.RelativePathExample` | src/utils/app/file.ts:21-22 | `/users/asd/files/folder-1/folder-2` gives `folder-1/folder-2` |
| `FileUtils.Attachments` | src/utils/app/file.ts:32-40 | there are no more attachments than files; each attachment has an attachable file's content type as type, its name as title and its encoded `absolutePath/name` as url; and every attachable file has its attachment there |
| `FileUtils.AttachmentsOfOne` | src/utils/app/file.ts:33-40 | a single file gives its attachment if its status is neither `FAILED` nor `UPLOADING`, and nothing otherwise |
| `FileUtils.AttachmentsAppend` | src/utils/app/file.ts:32-40 | the attachments of concatenated file lists are the concatenated attachments, so the attachments keep the files' order |
| `FileUtils.GetUserCustomContent` | src/utils/app/file.ts:25-43 | the result is `undefined` if and only if the list is empty; otherwise its `custom_content.attachments` are the attachments of the attachable files |
| `FileUtils.GetDialFilesWithInvalidFileType` | src/utils/app/file.ts:45-52 | `*/*` among the allowed types gives no files; otherwise a file is reported if and only if it is in the list and its content type is not allowed |
| `FileUtils.GetDialFilesWithInvalidFileSize` | src/utils/app/file.ts:54-59 | a file is reported if and only if it is in the list and its length is strictly above the limit, so a file exactly at the limit is never reported |
| `FileUtils.GetFilesWithInvalidFileType` | src/utils/app/file.ts:61-68 | `*/*` among the allowed types gives no files; otherwise a browser file is reported if and only if it is in the list and its type is not allowed |
| `FileUtils.GetFilesWithInvalidFileSize` | src/utils/app/file.ts:70-75 | a browser file is reported if and only if it is in the list and its size is strictly above the limit |
| `FileUtils.DialFileTypeReportExact` | src/utils/app/file.ts:49-51 | without `*/*`, the reported files are in input order, each with its input multiplicity when its type is not allowed and zero times otherwise |
| `FileUtils.DialFileSizeReportExact` | src/utils/app/file.ts:58 | the reported files are in input order, with their input multiplicity when over the limit and zero times otherwise |
| `FileUtils.FileTypeReportExact` | src/utils/app/file.ts:65-67 | the same as `DialFileTypeReportExact`, for browser files |
| `FileUtils.FileSizeReportExact` | src/utils/app/file.ts:74 | the same as `DialFileSizeReportExact`, for browser files |
| `FileUtils.DialFileTypeIdempotent` | src/utils/app/file.ts:45-52 | validating the reported files again reports exactly them |
| `FileUtils.DialFileSizeIdempotent` | src/utils/app/file.ts:54-59 | validating the reported files again reports exactly them |
| `FileUtils.FileTypeIdempotent` | src/utils/app/file.ts:61-68 | validating the reported files again reports exactly them |
| `FileUtils.FileSizeIdempotent` | src/utils/app/file.ts:70-75 | validating the reported files again reports exactly them |
| `FileUtils.DialFileSizeLimitRaised` | src/utils/app/file.ts:54-59 | a higher limit reports exactly those files of a lower limit's report that are also over the higher limit |
| `FileUtils.FileSizeLimitRaised` | src/utils/app/file.ts:70-75 | the same as `DialFileSizeLimitRaised`, for browser files |

## Left out

- `triggerDownload` (src/utils/app/file.ts:3-12): it only creates, clicks and removes a DOM link and revokes an object URL. It computes no result that could be stated.
- `encodeURI` is a JavaScript built-in whose escaping rules are not modelled. Each helper that uses it takes it as a parameter (`encodeUri`), so every property holds for any encoder.
- File sizes, content lengths and size limits are JavaScript numbers. They are modelled as unbounded integers, so `NaN`, infinities and fractional values are not modelled.
- `DialFile` is modelled with only the fields these helpers read: name, absolute path, content type, content length and upload status. The file that declares the type is not part of this model. The status is an optional string, compared with `"FAILED"` and `"UPLOADING"` as the code does.
- The `*/*` wildcard counts only as an exact entry of the allowed-types list. Patterns such as `image/*` are not matched, and the code does not match them either.
- `toSpliced` is modelled for non-negative arguments only. Negative ones (counted from the end in JavaScript) are never passed by these helpers.
- `split` is modelled for a one-character separator only, which is the only kind these helpers use.
- JavaScript strings are sequences of UTF-16 code units, while `seq<char>` holds Unicode scalar values. A lone surrogate therefore cannot be written in the model, so the `URIError` that `encodeURI` throws on one (src/utils/app/file.ts:39) is not modelled.
