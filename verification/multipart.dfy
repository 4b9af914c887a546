/**
 The two pieces of multipart metadata the upload path reads itself: the
 file name in a part's header value (`handle_header_value`) and the
 boundary in the request's `Content-Type` (`upload_post_handler`).
 */
module Multipart {
  import opened Wrappers
  import opened CString
  import UriPath

  const FileNameKey := "filename=\""
  const BoundaryKey := "boundary="

  /** Size of the `value` buffer, of the global `file_path` and of the `boundary` buffer. */
  const HeaderValueSize := 256
  const FilePathSize := 256
  const BoundarySize := 256

  /**
   The text `snprintf(value, 256, "%.*s", length, at)` leaves in `value` for
   the `length` raw bytes `at` the parser hands over.
   */
  function HeaderValueText(at: string): (v: string)
    ensures NulFree(v)
    ensures |v| < HeaderValueSize
    ensures v <= at
    ensures NulFree(at) && |at| < HeaderValueSize ==> v == at
    ensures |v| < |at| ==> at[|v|] == '\0' || |v| == HeaderValueSize - 1
  {
    Trunc(UpToNul(at), HeaderValueSize)
  }

  /** `strchr(start, '"')`: the text before the first quote, None when there is none. */
  function BeforeQuote(s: string): (r: Option<string>)
    ensures r.Some? ==> |r.value| < |s| && s[|r.value|] == '"' && s[..|r.value|] == r.value
    ensures r.Some? ==> '"' !in r.value
    ensures r.None? <==> '"' !in s
  {
    match IndexOf(s, '"')
    case None => None
    case Some(k) => Some(s[..k])
  }

  /**
   The characters between the first `filename="` and the next `"`; None when
   either is missing.
   */
  function QuotedFileName(value: string): (r: Option<string>)
    ensures r.Some? ==> '"' !in r.value
    ensures r.Some? ==> FindSub(value, FileNameKey).Some?
    ensures r.Some? ==> var start := FindSub(value, FileNameKey).value + 10;
              start + |r.value| < |value| && value[start + |r.value|] == '"' &&
              value[start..start + |r.value|] == r.value
    ensures r.None? <==> FindSub(value, FileNameKey).None? ||
                         '"' !in value[FindSub(value, FileNameKey).value + 10..]
  {
    match FindSub(value, FileNameKey)
    case None => None
    case Some(i) => BeforeQuote(value[i + 10..])
  }

  /**
   `handle_header_value`: the new `file_path`, `MOUNT_POINT "/"` followed by
   the quoted name; None when the value names no file and `file_path` keeps
   its previous contents.
   */
  function ParseFileName(at: string): (r: Option<string>)
    ensures r.Some? <==> QuotedFileName(HeaderValueText(at)).Some?
    ensures r.Some? ==> r.value == UriPath.SdMount + "/" + QuotedFileName(HeaderValueText(at)).value
    ensures r.Some? ==> |r.value| < FilePathSize - 3
  {
    var value := HeaderValueText(at);
    match QuotedFileName(value)
    case None => None
    case Some(name) =>
      assert |name| + 11 <= |value| < 256;
      Some(Trunc(UriPath.SdMount + "/" + name, FilePathSize))
  }

  /** `filename="` first occurs at `i` in the value, and no quote follows it. */
  predicate Unclosed(v: string, i: nat) {
    FirstOccurrence(v, FileNameKey, i) && '"' !in v[i + 10..]
  }

  /**
   `filename="` first occurs at `i` in the value, and the first quote after
   it is at `e`: the name is `v[i + 10..e]`.
   */
  predicate NameSpan(v: string, i: nat, e: nat) {
    FirstOccurrence(v, FileNameKey, i) && i + 10 <= e < |v| && v[e] == '"' && '"' !in v[i + 10..e]
  }

  /**
   The global `file_path` after the callback. Without a key, or without a
   quote after it, `file_path` keeps its contents; otherwise it becomes
   `/sdcard/` followed by the text between the key and the next quote.
   */
  function NextFilePath(filePath: string, at: string): (r: string)
    ensures (forall i :: 0 <= i <= |HeaderValueText(at)| ==> !OccursAt(HeaderValueText(at), FileNameKey, i)) ==>
              r == filePath
    ensures forall i: nat :: Unclosed(HeaderValueText(at), i) ==> r == filePath
    ensures forall i: nat, e: nat :: NameSpan(HeaderValueText(at), i, e) ==>
              r == UriPath.SdMount + "/" + HeaderValueText(at)[i + 10..e]
  {
    QuotedNameInValue(HeaderValueText(at));
    match ParseFileName(at)
    case None => filePath
    case Some(path) => path
  }

  /** Where `strstr` points, there is only one such place. */
  lemma FirstOccurrenceUnique(s: string, pat: string, i: nat, j: nat)
    requires FirstOccurrence(s, pat, i) && FirstOccurrence(s, pat, j)
    ensures i == j
  {
  }

  /** `strchr(s, '"')` finds the quote at `e` when none comes before it. */
  lemma QuoteAt(s: string, e: nat)
    requires e < |s| && s[e] == '"' && '"' !in s[..e]
    ensures BeforeQuote(s) == Some(s[..e])
  {
  }

  /** The quoted name described by the header text rather than by `strstr` and `strchr`. */
  lemma QuotedNameInValue(v: string)
    ensures forall i: nat :: Unclosed(v, i) ==> QuotedFileName(v).None?
    ensures forall i: nat, e: nat :: NameSpan(v, i, e) ==> QuotedFileName(v) == Some(v[i + 10..e])
  {
    forall i: nat | Unclosed(v, i)
      ensures QuotedFileName(v).None?
    {
      FirstOccurrenceUnique(v, FileNameKey, i, FindSub(v, FileNameKey).value);
    }
    forall i: nat, e: nat | NameSpan(v, i, e)
      ensures QuotedFileName(v) == Some(v[i + 10..e])
    {
      FirstOccurrenceUnique(v, FileNameKey, i, FindSub(v, FileNameKey).value);
      var tail := v[i + 10..];
      assert tail[..e - (i + 10)] == v[i + 10..e];
      QuoteAt(tail, e - (i + 10));
    }
  }

  /**
   A header value carrying `filename="<name>"` yields `/sdcard/<name>` when
   nothing before it already spells the key and the closing quote survives
   the 255-character cut.
   */
  lemma {:induction false} FileNameRoundTrip(prefix: string, name: string, rest: string)
    requires forall j :: 0 <= j < |prefix| ==>
               !OccursAt(prefix + FileNameKey + (name + "\"" + rest), FileNameKey, j)
    requires NulFree(prefix) && NulFree(name) && '"' !in name
    requires |prefix| + |FileNameKey| + |name| + 1 < HeaderValueSize
    ensures ParseFileName(prefix + FileNameKey + name + "\"" + rest) == Some(UriPath.SdMount + "/" + name)
  {
    var at := prefix + FileNameKey + name + "\"" + rest;
    var tail := ValueKeepsHead(prefix, name, rest);
    var lead := prefix + FileNameKey;
    NoEarlyKeyIndependentOfTail(lead, name + "\"" + rest, name + "\"" + tail, |prefix|, FileNameKey);
    QuotedNameFound(prefix, name, tail);
    assert QuotedFileName(HeaderValueText(at)) == Some(name);
  }

  /** The value buffer holds the header up to and including the closing quote. */
  lemma ValueKeepsHead(prefix: string, name: string, rest: string) returns (tail: string)
    requires NulFree(prefix) && NulFree(name) && '"' !in name
    requires |prefix| + |FileNameKey| + |name| + 1 < HeaderValueSize
    ensures HeaderValueText(prefix + FileNameKey + name + "\"" + rest) == prefix + FileNameKey + name + "\"" + tail
  {
    var head := prefix + FileNameKey + name + "\"";
    assert prefix + FileNameKey + name + "\"" + rest == head + rest;
    KeyHeadNulFree(prefix, name);
    HeadSurvivesCut(head, rest);
    var value := HeaderValueText(head + rest);
    tail := value[|head|..];
    assert value == head + tail;
  }

  /** The header up to the closing quote holds no NUL when the prefix and the name hold none. */
  lemma KeyHeadNulFree(prefix: string, name: string)
    requires NulFree(prefix) && NulFree(name)
    ensures NulFree(prefix + FileNameKey + name + "\"")
  {
    var head := prefix + FileNameKey + name + "\"";
    assert forall c :: c in head ==> c in prefix || c in FileNameKey || c in name || c == '"';
  }

  /** Whether `pat` starts before `n` depends only on the first `n + |pat|` characters. */
  lemma NoEarlyKeyIndependentOfTail(lead: string, x: string, y: string, n: nat, pat: string)
    requires n + |pat| <= |lead|
    requires forall j :: 0 <= j < n ==> !OccursAt(lead + x, pat, j)
    ensures forall j :: 0 <= j < n ==> !OccursAt(lead + y, pat, j)
  {
    forall j | 0 <= j < n
      ensures !OccursAt(lead + y, pat, j)
    {
      assert !OccursAt(lead + x, pat, j);
      assert (lead + x)[j..j + |pat|] == lead[j..j + |pat|] == (lead + y)[j..j + |pat|];
    }
  }

  /** A NUL-free start shorter than the value buffer survives the `%.*s` copy and the cut. */
  lemma HeadSurvivesCut(head: string, rest: string)
    requires NulFree(head) && |head| < HeaderValueSize
    ensures HeaderValueText(head + rest)[..|head|] == head
  {
    var at := head + rest;
    var u := UpToNul(at);
    assert at[..|head|] == head;
  }

  lemma FirstQuoteEndsName(name: string, tail: string)
    requires '"' !in name
    ensures BeforeQuote(name + "\"" + tail) == Some(name)
  {
    var after := name + "\"" + tail;
    assert after[|name|] == '"';
    assert after[..|name|] == name;
  }

  /** With the key first found after `prefix`, the quoted name is everything up to the next quote. */
  lemma QuotedNameFound(prefix: string, name: string, tail: string)
    requires forall j :: 0 <= j < |prefix| ==>
               !OccursAt(prefix + FileNameKey + (name + "\"" + tail), FileNameKey, j)
    requires '"' !in name
    ensures QuotedFileName(prefix + FileNameKey + name + "\"" + tail) == Some(name)
  {
    var rest := name + "\"" + tail;
    var value := prefix + FileNameKey + rest;
    FindSubAfterPrefix(prefix, FileNameKey, rest);
    var start := |prefix| + 10;
    assert value[start..] == rest;
    FirstQuoteEndsName(name, tail);
    assert value == prefix + FileNameKey + name + "\"" + tail;
  }

  /** The part header a browser sends, `form-data; name="file"; filename="<name>"`. */
  lemma BrowserFileNameRoundTrip(name: string, rest: string)
    requires NulFree(name) && '"' !in name
    requires |name| < 220
    ensures ParseFileName(BrowserPartPrefix + FileNameKey + name + "\"" + rest) == Some(UriPath.SdMount + "/" + name)
  {
    var prefix := BrowserPartPrefix;
    var s := prefix + FileNameKey + (name + "\"" + rest);
    forall j | 0 <= j < |prefix|
      ensures !OccursAt(s, FileNameKey, j)
    {
      assert s[j..j + 10][0] == s[j];
      assert s[j..j + 10][1] == s[j + 1];
      assert s[j..j + 10][4] == s[j + 4];
    }
    FileNameRoundTrip(prefix, name, rest);
  }

  /** The start of a browser's file part header, up to the `filename` key. */
  const BrowserPartPrefix := "form-data; name=\"file\"; "

  /** Why a multipart upload was refused before its body was read. */
  datatype BoundaryError = HeaderMissing | HeaderTooLong | NoBoundary

  datatype Result<T> = Ok(value: T) | Err(error: BoundaryError)

  /**
   `httpd_req_get_hdr_value_str(req, "Content-Type", boundary, 256)` with the
   SDK's documented outcomes: not found, truncated (a value of 256 characters
   or more does not fit), or copied whole. Only the last is `ESP_OK`.
   */
  function ContentTypeValue(header: Option<string>): (r: Result<string>)
    ensures r.Ok? ==> header == Some(r.value) && |r.value| < BoundarySize
    ensures r == Err(HeaderMissing) <==> header.None?
    ensures r == Err(HeaderTooLong) <==> header.Some? && |header.value| >= BoundarySize
    ensures header.Some? && |header.value| < BoundarySize ==> r == Ok(header.value)
  {
    match header
    case None => Err(HeaderMissing)
    case Some(v) => if |v| + 1 > BoundarySize then Err(HeaderTooLong) else Ok(v)
  }

  /** `strstr(boundary, "boundary=") + 9`: everything after the first `boundary=`. */
  function BoundaryOf(value: string): (r: Option<string>)
    ensures r.None? <==> forall j :: 0 <= j <= |value| ==> !OccursAt(value, BoundaryKey, j)
    ensures r.Some? ==> exists i: nat :: FirstOccurrence(value, BoundaryKey, i) && value[..i + 9] + r.value == value
  {
    match FindSub(value, BoundaryKey)
    case None => None
    case Some(i) =>
      assert value[..i + 9] + value[i + 9..] == value;
      Some(value[i + 9..])
  }

  /** The boundary the upload handler passes to the multipart parser, or why it gave up. */
  function UploadBoundary(header: Option<string>): (r: Result<string>)
    ensures r.Ok? ==> header.Some? && |header.value| < BoundarySize && BoundaryOf(header.value) == Some(r.value)
    ensures r == Err(NoBoundary) <==>
              header.Some? && |header.value| < BoundarySize && BoundaryOf(header.value).None?
    ensures header.Some? && |header.value| < BoundarySize && BoundaryOf(header.value).Some? ==> r.Ok?
    ensures ContentTypeValue(header).Err? ==> r == Err(ContentTypeValue(header).error)
  {
    match ContentTypeValue(header)
    case Err(e) => Err(e)
    case Ok(v) =>
      match BoundaryOf(v)
      case None => Err(NoBoundary)
      case Some(b) => Ok(b)
  }

  /** The boundary a client announces is the one the handler extracts. */
  lemma {:induction false} BoundaryRoundTrip(prefix: string, boundary: string)
    requires forall j :: 0 <= j < |prefix| ==> !OccursAt(prefix + BoundaryKey + boundary, BoundaryKey, j)
    requires |prefix| + |BoundaryKey| + |boundary| < BoundarySize
    ensures UploadBoundary(Some(prefix + BoundaryKey + boundary)) == Ok(boundary)
  {
    var v := prefix + BoundaryKey + boundary;
    FindSubAfterPrefix(prefix, BoundaryKey, boundary);
    assert v[|prefix| + 9..] == boundary;
  }

  /** The header a browser sends, `multipart/form-data; boundary=<b>`. */
  lemma BrowserBoundaryRoundTrip(boundary: string)
    requires |boundary| < 200
    ensures UploadBoundary(Some("multipart/form-data; " + BoundaryKey + boundary)) == Ok(boundary)
  {
    var prefix := "multipart/form-data; ";
    var s := prefix + BoundaryKey + boundary;
    forall j | 0 <= j < |prefix|
      ensures !OccursAt(s, BoundaryKey, j)
    {
      assert s[j] != 'b';
      assert s[j..j + 9][0] == s[j];
    }
    BoundaryRoundTrip(prefix, boundary);
  }
}
