/**
 * The DIAL Chat file helpers: building a file's path id, stripping the
 * bucket prefix off an absolute path, turning the files attached to a
 * message into the attachment payload, and finding the files an upload
 * must refuse because of their content type or size.
 *
 * Every helper is a pure expression over strings and lists; JavaScript's
 * `undefined` is `None`, and `encodeURI` is passed in as `encodeUri`.
 */
module FileUtils {
  import opened Wrappers
  import opened JsBuiltins

  /** The path separator of file ids and bucket paths. */
  const Separator: char := '/'

  /** The entry of an allowed-types list that admits every content type. */
  const AnyFileType: string := "*/*"

  /** Upload statuses that keep a file out of a message's attachments. */
  const StatusFailed: string := "FAILED"
  const StatusUploading: string := "UPLOADING"

  /** A file of the DIAL file store, with the fields the helpers read. */
  datatype DialFile = DialFile(
    name: string,
    absolutePath: string,
    contentType: string,
    contentLength: int,
    status: Option<string>)

  /** A browser `File` picked for upload; `mimeType` is its `type`. */
  datatype BrowserFile = BrowserFile(name: string, mimeType: string, size: int)

  /** One attachment of a message; `contentType` is the record's `type`. */
  datatype Attachment = Attachment(contentType: string, title: string, url: string)

  /** `{ custom_content: { attachments } }` of a user message. */
  datatype CustomContent = CustomContent(attachments: seq<Attachment>)
  datatype UserCustomContent = UserCustomContent(customContent: CustomContent)

  // ---------------------------------------------------------------------
  // getPathNameId
  // ---------------------------------------------------------------------

  /** JavaScript's `Boolean(x)` on a string or `undefined`. */
  predicate IsTruthy(part: Option<string>)
  {
    part.Some? && part.value != ""
  }

  /**
   * A file's id: the relative path and the name, those of them that are
   * present and non-empty, joined with `/`.
   */
  function GetPathNameId(name: string, relativePath: Option<string>): string
  {
    var parts := Filter([relativePath, Some(name)], IsTruthy);
    // `join` writes `undefined` as the empty string.
    Join(MapSeq(parts, (part: Option<string>) => part.GetOr("")), Separator)
  }

  /**
   * An absent or empty relative path gives the name; otherwise the id is
   * the relative path, followed by `/` and the name when the name is not
   * empty.
   */
  lemma PathNameIdCases(name: string, relativePath: Option<string>)
    ensures !IsTruthy(relativePath) ==> GetPathNameId(name, relativePath) == name
    ensures IsTruthy(relativePath) && name == "" ==>
      GetPathNameId(name, relativePath) == relativePath.value
    ensures IsTruthy(relativePath) && name != "" ==>
      GetPathNameId(name, relativePath) == relativePath.value + [Separator] + name
  {
    var both := [relativePath, Some(name)];
    assert both[1..] == [Some(name)];
    assert [Some(name)][1..] == [];
    var nameParts := Filter([Some(name)], IsTruthy);
    assert nameParts == if name != "" then [Some(name)] else [];
    var parts := Filter(both, IsTruthy);
    assert parts == (if IsTruthy(relativePath) then [relativePath] else []) + nameParts;
    var texts := MapSeq(parts, (part: Option<string>) => part.GetOr(""));
    if IsTruthy(relativePath) && name != "" {
      assert texts == [relativePath.value, name];
      assert texts[1..] == [name];
      assert Join(texts, Separator) == texts[0] + [Separator] + Join([name], Separator);
    } else if IsTruthy(relativePath) {
      assert texts == [relativePath.value];
    } else if name != "" {
      assert texts == [name];
    } else {
      assert texts == [];
    }
  }

  /**
   * An empty part adds no separator: when neither part begins or ends with
   * `/`, the id neither begins nor ends with `/`.
   */
  lemma PathNameIdNoStraySeparator(name: string, relativePath: Option<string>)
    requires name != "" ==> name[0] != Separator && name[|name| - 1] != Separator
    requires IsTruthy(relativePath) ==>
      relativePath.value[0] != Separator
      && relativePath.value[|relativePath.value| - 1] != Separator
    ensures var id := GetPathNameId(name, relativePath);
      id != "" ==> id[0] != Separator && id[|id| - 1] != Separator
  {
    PathNameIdCases(name, relativePath);
  }

  /**
   * The id splits into the pieces of the relative path followed by the
   * name: a name without `/` is the id's last piece, and joining the pieces
   * before it gives the relative path back.
   */
  lemma PathNameIdRoundTrip(name: string, relativePath: Option<string>)
    requires name != "" && Separator !in name
    ensures var pieces := Split(GetPathNameId(name, relativePath), Separator);
      && pieces[|pieces| - 1] == name
      && (IsTruthy(relativePath) ==>
            Join(pieces[..|pieces| - 1], Separator) == relativePath.value)
      && (!IsTruthy(relativePath) ==> |pieces| == 1)
  {
    PathNameIdCases(name, relativePath);
    SplitNoSeparator(name, Separator);
    if IsTruthy(relativePath) {
      var rel := relativePath.value;
      SplitAround(rel, name, Separator);
      var pieces := Split(rel, Separator) + [name];
      assert pieces[..|pieces| - 1] == Split(rel, Separator);
      JoinSplit(rel, Separator);
    }
  }

  // ---------------------------------------------------------------------
  // getRelativePath
  // ---------------------------------------------------------------------

  /** Number of leading pieces of an absolute path that name the bucket. */
  const BucketPrefixPieces: nat := 4

  /**
   * The path without its first four `/`-separated pieces, or `undefined`
   * when the path is `undefined` or that leaves the empty string.
   */
  function GetRelativePath(absolutePath: Option<string>): (r: Option<string>)
    ensures absolutePath.None? ==> r.None?
    ensures r.Some? ==> r.value != ""
  {
    match absolutePath
    case None => None
    case Some(path) =>
      var joined := Join(ToSpliced(Split(path, Separator), 0, BucketPrefixPieces), Separator);
      if joined == "" then None else Some(joined)
  }

  /** The pieces the relative path keeps are those after the fourth. */
  lemma {:induction false} RelativePathPieces(path: string)
    ensures var pieces := Split(path, Separator);
      GetRelativePath(Some(path)) ==
        if |pieces| <= BucketPrefixPieces || Join(pieces[BucketPrefixPieces..], Separator) == ""
        then None
        else Some(Join(pieces[BucketPrefixPieces..], Separator))
  {
    var pieces := Split(path, Separator);
    var kept := ToSpliced(pieces, 0, BucketPrefixPieces);
    if |pieces| <= BucketPrefixPieces {
      assert kept == [];
    } else {
      assert kept == pieces[BucketPrefixPieces..];
    }
  }

  /**
   * The relative path is absent exactly when the path has fewer than four
   * `/`, or has exactly four and ends with `/`.
   */
  lemma RelativePathAbsent(path: string)
    ensures GetRelativePath(Some(path)).None? <==>
      Occurrences(path, Separator) < 4
      || (Occurrences(path, Separator) == 4 && |path| > 0 && path[|path| - 1] == Separator)
  {
    RelativePathPieces(path);
    var pieces := Split(path, Separator);
    if |pieces| == 5 {
      assert pieces[4..] == [pieces[4]];
      SplitLastEmpty(path, Separator);
      assert Occurrences(path, Separator) == 4;
      if |path| == 0 {
        assert false;
      }
    }
  }

  /**
   * A relative path is what follows the fourth `/` of the path: the path
   * is some prefix holding three `/`, then `/`, then the relative path.
   */
  lemma RelativePathIsSuffix(path: string)
    requires GetRelativePath(Some(path)).Some?
    ensures var rel := GetRelativePath(Some(path)).value;
      var cut := |path| - |rel|;
      && 0 < cut <= |path|
      && path[cut..] == rel
      && path[cut - 1] == Separator
      && Occurrences(path[..cut - 1], Separator) == 3
  {
    RelativePathPieces(path);
    var pieces := Split(path, Separator);
    var rel := GetRelativePath(Some(path)).value;
    var head := pieces[..BucketPrefixPieces];
    var tail := pieces[BucketPrefixPieces..];
    assert pieces == head + tail;
    JoinSplit(path, Separator);
    JoinAppend(head, tail, Separator);
    var prefix := Join(head, Separator);
    assert path == prefix + [Separator] + rel;
    JoinOccurrences(head, Separator);
    assert path[..|prefix|] == prefix;
  }

  /**
   * Conversely, a path made of four `/`-free pieces joined with `/`, then
   * `/` and a non-empty rest, has exactly that rest as its relative path.
   */
  lemma RelativePathOfPrefixed(p0: string, p1: string, p2: string, p3: string, rest: string)
    requires Separator !in p0 && Separator !in p1 && Separator !in p2 && Separator !in p3
    requires rest != ""
    ensures GetRelativePath(Some(p0 + [Separator] + p1 + [Separator] + p2 + [Separator] + p3
      + [Separator] + rest)) == Some(rest)
  {
    var prefix := [p0, p1, p2, p3];
    assert prefix[1..] == [p1, p2, p3] && prefix[2..] == [p2, p3] && prefix[3..] == [p3];
    assert Join(prefix[2..], Separator) == p2 + [Separator] + p3;
    assert Join(prefix[1..], Separator) == p1 + [Separator] + p2 + [Separator] + p3;
    var head := Join(prefix, Separator);
    assert head == p0 + [Separator] + p1 + [Separator] + p2 + [Separator] + p3;
    var path := head + [Separator] + rest;
    SplitAround(head, rest, Separator);
    SplitJoin(prefix, Separator);
    var pieces := Split(path, Separator);
    assert pieces[BucketPrefixPieces..] == Split(rest, Separator);
    JoinSplit(rest, Separator);
    RelativePathPieces(path);
  }

  /** The worked example in the comment of `getRelativePath`. */
  lemma RelativePathExample(path: string)
    requires path == "/users/asd/files/folder-1/folder-2"
    ensures GetRelativePath(Some(path)) == Some("folder-1/folder-2")
  {
    var head := "/users/asd/files";
    assert head == "" + [Separator] + "users" + [Separator] + "asd" + [Separator] + "files";
    assert path == head + [Separator] + "folder-1/folder-2";
    RelativePathOfPrefixed("", "users", "asd", "files", "folder-1/folder-2");
  }

  // ---------------------------------------------------------------------
  // getUserCustomContent
  // ---------------------------------------------------------------------

  /** A file that is neither failed nor still uploading goes into a message. */
  predicate IsAttachable(file: DialFile)
  {
    file.status != Some(StatusFailed) && file.status != Some(StatusUploading)
  }

  /** The attachment record of one file. */
  function ToAttachment(file: DialFile, encodeUri: string -> string): Attachment
  {
    Attachment(file.contentType, file.name, encodeUri(file.absolutePath + [Separator] + file.name))
  }

  /**
   * The attachments of the attachable files, in order (AttachmentsOfOne and
   * AttachmentsAppend fix the order). Each one carries its file's content
   * type, its name as title and the encoded `absolutePath/name` as url.
   */
  function Attachments(files: seq<DialFile>, encodeUri: string -> string): (atts: seq<Attachment>)
    ensures |atts| <= |files|
    ensures forall a :: a in atts ==>
      exists file :: file in files && IsAttachable(file)
        && a.contentType == file.contentType && a.title == file.name
        && a.url == encodeUri(file.absolutePath + [Separator] + file.name)
    ensures forall file :: file in files && IsAttachable(file) ==>
      ToAttachment(file, encodeUri) in atts
  {
    var kept := Filter(files, IsAttachable);
    FilterMembers(files, IsAttachable);
    var atts := MapSeq(kept, (file: DialFile) => ToAttachment(file, encodeUri));
    assert forall a :: a in atts ==> exists i :: 0 <= i < |kept| && a == ToAttachment(kept[i], encodeUri);
    assert forall i :: 0 <= i < |kept| ==> ToAttachment(kept[i], encodeUri) == atts[i];
    atts
  }

  /** One file contributes its attachment exactly when it is attachable. */
  lemma AttachmentsOfOne(file: DialFile, encodeUri: string -> string)
    ensures Attachments([file], encodeUri) ==
      if IsAttachable(file) then [ToAttachment(file, encodeUri)] else []
  {
  }

  /**
   * The attachments of a concatenation are the attachments of its parts:
   * with AttachmentsOfOne this fixes the attachments and their order.
   */
  lemma AttachmentsAppend(a: seq<DialFile>, b: seq<DialFile>, encodeUri: string -> string)
    ensures Attachments(a + b, encodeUri) == Attachments(a, encodeUri) + Attachments(b, encodeUri)
  {
    FilterAppend(a, b, IsAttachable);
  }

  /**
   * `getUserCustomContent`: nothing for no files, otherwise the attachment
   * payload of the attachable files.
   */
  function GetUserCustomContent(files: seq<DialFile>, encodeUri: string -> string)
    : (r: Option<UserCustomContent>)
    ensures r.None? <==> |files| == 0
    ensures r.Some? ==> r.value.customContent.attachments == Attachments(files, encodeUri)
  {
    if |files| == 0 then None
    else Some(UserCustomContent(CustomContent(Attachments(files, encodeUri))))
  }

  // ---------------------------------------------------------------------
  // Upload validators
  // ---------------------------------------------------------------------

  /** `getDialFilesWithInvalidFileType`. */
  function GetDialFilesWithInvalidFileType(files: seq<DialFile>, allowedFileTypes: seq<string>)
    : (invalid: seq<DialFile>)
    ensures AnyFileType in allowedFileTypes ==> invalid == []
    ensures AnyFileType !in allowedFileTypes ==>
      forall file :: file in invalid <==> file in files && file.contentType !in allowedFileTypes
    ensures forall i :: 0 <= i < |invalid| ==> invalid[i].contentType !in allowedFileTypes
  {
    if AnyFileType in allowedFileTypes then []
    else
      var isInvalid := (file: DialFile) => file.contentType !in allowedFileTypes;
      FilterMembers(files, isInvalid);
      Filter(files, isInvalid)
  }

  /** `getDialFilesWithInvalidFileSize`. */
  function GetDialFilesWithInvalidFileSize(files: seq<DialFile>, sizeLimit: int)
    : (invalid: seq<DialFile>)
    ensures forall file :: file in invalid <==> file in files && file.contentLength > sizeLimit
    ensures forall i :: 0 <= i < |invalid| ==> invalid[i].contentLength > sizeLimit
  {
    var isInvalid := (file: DialFile) => file.contentLength > sizeLimit;
    FilterMembers(files, isInvalid);
    Filter(files, isInvalid)
  }

  /** `getFilesWithInvalidFileType`. */
  function GetFilesWithInvalidFileType(files: seq<BrowserFile>, allowedFileTypes: seq<string>)
    : (invalid: seq<BrowserFile>)
    ensures AnyFileType in allowedFileTypes ==> invalid == []
    ensures AnyFileType !in allowedFileTypes ==>
      forall file :: file in invalid <==> file in files && file.mimeType !in allowedFileTypes
    ensures forall i :: 0 <= i < |invalid| ==> invalid[i].mimeType !in allowedFileTypes
  {
    if AnyFileType in allowedFileTypes then []
    else
      var isInvalid := (file: BrowserFile) => file.mimeType !in allowedFileTypes;
      FilterMembers(files, isInvalid);
      Filter(files, isInvalid)
  }

  /** `getFilesWithInvalidFileSize`. */
  function GetFilesWithInvalidFileSize(files: seq<BrowserFile>, sizeLimit: int)
    : (invalid: seq<BrowserFile>)
    ensures forall file :: file in invalid <==> file in files && file.size > sizeLimit
    ensures forall i :: 0 <= i < |invalid| ==> invalid[i].size > sizeLimit
  {
    var isInvalid := (file: BrowserFile) => file.size > sizeLimit;
    FilterMembers(files, isInvalid);
    Filter(files, isInvalid)
  }

  /**
   * Without the wildcard, the files of an invalid type are reported in
   * their original order, each as often as it occurs among the files.
   */
  lemma DialFileTypeReportExact(files: seq<DialFile>, allowedFileTypes: seq<string>)
    requires AnyFileType !in allowedFileTypes
    ensures var invalid := GetDialFilesWithInvalidFileType(files, allowedFileTypes);
      && Subsequence(invalid, files)
      && forall file :: multiset(invalid)[file] ==
           if file.contentType in allowedFileTypes then 0 else multiset(files)[file]
  {
    var isInvalid := (file: DialFile) => file.contentType !in allowedFileTypes;
    FilterSubsequence(files, isInvalid);
    FilterMultiset(files, isInvalid);
  }

  /** The files of a too large size are reported in order, with their multiplicity. */
  lemma DialFileSizeReportExact(files: seq<DialFile>, sizeLimit: int)
    ensures var invalid := GetDialFilesWithInvalidFileSize(files, sizeLimit);
      && Subsequence(invalid, files)
      && forall file :: multiset(invalid)[file] ==
           if file.contentLength > sizeLimit then multiset(files)[file] else 0
  {
    var isInvalid := (file: DialFile) => file.contentLength > sizeLimit;
    FilterSubsequence(files, isInvalid);
    FilterMultiset(files, isInvalid);
  }

  /** As DialFileTypeReportExact, for browser files. */
  lemma FileTypeReportExact(files: seq<BrowserFile>, allowedFileTypes: seq<string>)
    requires AnyFileType !in allowedFileTypes
    ensures var invalid := GetFilesWithInvalidFileType(files, allowedFileTypes);
      && Subsequence(invalid, files)
      && forall file :: multiset(invalid)[file] ==
           if file.mimeType in allowedFileTypes then 0 else multiset(files)[file]
  {
    var isInvalid := (file: BrowserFile) => file.mimeType !in allowedFileTypes;
    FilterSubsequence(files, isInvalid);
    FilterMultiset(files, isInvalid);
  }

  /** As DialFileSizeReportExact, for browser files. */
  lemma FileSizeReportExact(files: seq<BrowserFile>, sizeLimit: int)
    ensures var invalid := GetFilesWithInvalidFileSize(files, sizeLimit);
      && Subsequence(invalid, files)
      && forall file :: multiset(invalid)[file] ==
           if file.size > sizeLimit then multiset(files)[file] else 0
  {
    var isInvalid := (file: BrowserFile) => file.size > sizeLimit;
    FilterSubsequence(files, isInvalid);
    FilterMultiset(files, isInvalid);
  }

  /** Validating the reported files again reports all of them again. */
  lemma DialFileTypeIdempotent(files: seq<DialFile>, allowedFileTypes: seq<string>)
    ensures var invalid := GetDialFilesWithInvalidFileType(files, allowedFileTypes);
      GetDialFilesWithInvalidFileType(invalid, allowedFileTypes) == invalid
  {
    if AnyFileType !in allowedFileTypes {
      FilterIdempotent(files, (file: DialFile) => file.contentType !in allowedFileTypes);
    }
  }

  /** Validating the reported files again reports all of them again. */
  lemma DialFileSizeIdempotent(files: seq<DialFile>, sizeLimit: int)
    ensures var invalid := GetDialFilesWithInvalidFileSize(files, sizeLimit);
      GetDialFilesWithInvalidFileSize(invalid, sizeLimit) == invalid
  {
    FilterIdempotent(files, (file: DialFile) => file.contentLength > sizeLimit);
  }

  /** Validating the reported files again reports all of them again. */
  lemma FileTypeIdempotent(files: seq<BrowserFile>, allowedFileTypes: seq<string>)
    ensures var invalid := GetFilesWithInvalidFileType(files, allowedFileTypes);
      GetFilesWithInvalidFileType(invalid, allowedFileTypes) == invalid
  {
    if AnyFileType !in allowedFileTypes {
      FilterIdempotent(files, (file: BrowserFile) => file.mimeType !in allowedFileTypes);
    }
  }

  /** Validating the reported files again reports all of them again. */
  lemma FileSizeIdempotent(files: seq<BrowserFile>, sizeLimit: int)
    ensures var invalid := GetFilesWithInvalidFileSize(files, sizeLimit);
      GetFilesWithInvalidFileSize(invalid, sizeLimit) == invalid
  {
    FilterIdempotent(files, (file: BrowserFile) => file.size > sizeLimit);
  }

  /**
   * A larger size limit reports exactly the files of the smaller limit's
   * report that also exceed the larger one.
   */
  lemma DialFileSizeLimitRaised(files: seq<DialFile>, lower: int, higher: int)
    requires lower <= higher
    ensures GetDialFilesWithInvalidFileSize(files, higher) ==
      GetDialFilesWithInvalidFileSize(GetDialFilesWithInvalidFileSize(files, lower), higher)
  {
    FilterStronger(files,
      (file: DialFile) => file.contentLength > lower,
      (file: DialFile) => file.contentLength > higher);
  }

  /** As DialFileSizeLimitRaised, for browser files. */
  lemma FileSizeLimitRaised(files: seq<BrowserFile>, lower: int, higher: int)
    requires lower <= higher
    ensures GetFilesWithInvalidFileSize(files, higher) ==
      GetFilesWithInvalidFileSize(GetFilesWithInvalidFileSize(files, lower), higher)
  {
    FilterStronger(files,
      (file: BrowserFile) => file.size > lower,
      (file: BrowserFile) => file.size > higher);
  }
}
