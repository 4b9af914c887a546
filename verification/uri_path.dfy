/**
 How the file server turns a request URI into a filesystem path:
 `get_path_from_uri` and the path built by each of the three file handlers.
 */
module UriPath {
  import opened Wrappers
  import opened CString
  import ContentType

  const SdMount := "/sdcard"
  const SpiffsMount := "/spiffs"

  /** Buffer sizes of the handlers' `filepath` arrays. */
  const DeletePathSize := 512
  const GetPathSize := 64 + 1024

  /** Route prefixes skipped by offsetting `req->uri`. */
  const DeleteRoute := "/delete/"
  const ImageRoute := "/image"

  /**
   Length of the path part of `uri`: `strlen(uri)` lowered to the index of
   the first `?` and then to the index of the first `#`.
   */
  function PathLen(uri: string): (n: nat)
    ensures n <= |uri|
    ensures '?' !in uri[..n] && '#' !in uri[..n]
    ensures n < |uri| ==> uri[n] == '?' || uri[n] == '#'
  {
    var n0 := |uri|;
    var n1 := (match IndexOf(uri, '?') case Some(q) => if q < n0 then q else n0 case None => n0);
    var n2 := (match IndexOf(uri, '#') case Some(h) => if h < n1 then h else n1 case None => n1);
    assert uri[..n2] <= uri[..n1] <= uri[..n0];
    n2
  }

  /** What `get_path_from_uri` leaves in `dest`, and the offset into `dest` of the string it returns. */
  datatype FullPath = FullPath(dest: string, pathStart: nat)

  /**
   `get_path_from_uri(dest, base, uri, destsize)`: NULL when base and path
   with the terminator would overflow `destsize` bytes, otherwise `dest`
   holds the base followed by the path, and the result points just past the
   base.
   */
  function GetPathFromUri(base: string, uri: string, destSize: nat): (r: Option<FullPath>)
    ensures r.None? <==> |base| + PathLen(uri) + 1 > destSize
    ensures r.Some? ==> |r.value.dest| + 1 <= destSize
    ensures r.Some? ==> r.value.pathStart == |base| <= |r.value.dest|
    ensures r.Some? ==> r.value.dest[..|base|] == base
    ensures r.Some? ==> r.value.dest[|base|..] <= uri
    ensures r.Some? ==> '?' !in r.value.dest[|base|..] && '#' !in r.value.dest[|base|..]
    ensures r.Some? ==> |r.value.dest| - |base| < |uri| ==>
              uri[|r.value.dest| - |base|] == '?' || uri[|r.value.dest| - |base|] == '#'
  {
    var pathLen := PathLen(uri);
    if |base| + pathLen + 1 > destSize then None
    else
      var dest := base + uri[..pathLen];
      assert dest[..|base|] == base && dest[|base|..] == uri[..pathLen];
      Some(FullPath(dest, |base|))
  }

  /** Cutting again changes nothing: a path already returned maps to itself. */
  lemma PathCutIdempotent(base: string, uri: string, destSize: nat)
    requires GetPathFromUri(base, uri, destSize).Some?
    ensures var fp := GetPathFromUri(base, uri, destSize).value;
            GetPathFromUri(base, fp.dest[fp.pathStart..], destSize) == Some(fp)
  {
    var fp := GetPathFromUri(base, uri, destSize).value;
    var path := fp.dest[fp.pathStart..];
    assert PathLen(path) == |path|;
    assert path[..|path|] == path;
    assert fp.dest == base + path;
  }

  /** The cut keeps the query and the fragment apart: path plus what was dropped is the URI. */
  lemma PathThenQuery(path: string, query: string, base: string, destSize: nat)
    requires '?' !in path && '#' !in path
    requires |base| + |path| + 1 <= destSize
    ensures GetPathFromUri(base, path + "?" + query, destSize) == Some(FullPath(base + path, |base|))
  {
    var uri := path + "?" + query;
    assert uri[..|path|] == path;
    assert uri[|path|] == '?';
  }

  /**
   `delete_post_handler`: `MOUNT_POINT "/%s"` over `req->uri + 8` into a
   512-byte buffer. The offset needs the URI to be at least 8 long.
   */
  function DeletePath(uri: string): (r: string)
    requires |uri| >= |DeleteRoute|
    ensures SdMount + "/" <= r
    ensures |r| < DeletePathSize
    ensures r <= SdMount + "/" + uri[8..]
    ensures r == SdMount + "/" + uri[8..] <==> |uri| < DeletePathSize
    ensures |uri| >= DeletePathSize ==> |r| == DeletePathSize - 1
  {
    Trunc(SdMount + "/" + uri[8..], DeletePathSize)
  }

  /** `http_get_image_handler`: `"/sdcard%s"` over `req->uri + 6` into a 1088-byte buffer. */
  function ImagePath(uri: string): (r: string)
    requires |uri| >= |ImageRoute|
    ensures SdMount <= r
    ensures |r| < GetPathSize
    ensures r <= SdMount + uri[6..]
    ensures r == SdMount + uri[6..] <==> |uri| + 1 < GetPathSize
    ensures |uri| + 1 >= GetPathSize ==> |r| == GetPathSize - 1
  {
    Trunc(SdMount + uri[6..], GetPathSize)
  }

  /** `http_get_handler`: `"/spiffs%s"` over the whole URI (query included) into a 1088-byte buffer. */
  function GetPath(uri: string): (r: string)
    ensures SpiffsMount <= r
    ensures |r| < GetPathSize
    ensures r <= SpiffsMount + uri
    ensures r == SpiffsMount + uri <==> |uri| + 7 < GetPathSize
    ensures |uri| + 7 >= GetPathSize ==> |r| == GetPathSize - 1
  {
    Trunc(SpiffsMount + uri, GetPathSize)
  }

  /** A URI of the delete route names the SD-card file with the route replaced by the mount point. */
  lemma DeleteRouteMapsToSdCard(name: string)
    requires |name| + 8 < DeletePathSize
    ensures DeletePath(DeleteRoute + name) == SdMount + "/" + name
  {
  }

  /** A URI of the image route names the same SD-card file. */
  lemma ImageRouteMapsToSdCard(name: string)
    requires |name| + 8 < GetPathSize
    ensures ImagePath(ImageRoute + "/" + name) == SdMount + "/" + name
  {
  }

  /** Deleting `/delete/<name>` removes the very file `/image/<name>` serves. */
  lemma DeleteRemovesServedImage(name: string)
    requires |name| + 8 < DeletePathSize
    ensures DeletePath(DeleteRoute + name) == ImagePath(ImageRoute + "/" + name)
  {
    DeleteRouteMapsToSdCard(name);
    ImageRouteMapsToSdCard(name);
  }

  /**
   For names of 504 to 1079 characters the two routes part ways: the image
   handler opens the whole name, while the 512-byte delete buffer cuts it.
   */
  lemma DeleteAndImageDiverge(name: string)
    requires DeletePathSize <= |name| + 8 < GetPathSize
    ensures DeletePath(DeleteRoute + name) != ImagePath(ImageRoute + "/" + name)
    ensures |DeletePath(DeleteRoute + name)| == DeletePathSize - 1
  {
    ImageRouteMapsToSdCard(name);
  }

  /** Every handler path can be classified by `set_content_type_from_file` without underflow. */
  lemma HandlerPathsClassifiable(uri: string)
    ensures ContentType.ChainDefined(GetPath(uri), ContentType.Rules)
    ensures |uri| >= 6 ==> ContentType.ChainDefined(ImagePath(uri), ContentType.Rules)
    ensures |uri| >= 8 ==> ContentType.ChainDefined(DeletePath(uri), ContentType.Rules)
  {
    ContentType.ClassifiableWhenLong(GetPath(uri));
    if |uri| >= 6 {
      ContentType.ClassifiableWhenLong(ImagePath(uri));
    }
    if |uri| >= 8 {
      ContentType.ClassifiableWhenLong(DeletePath(uri));
    }
  }

  /** A GET that fits the buffer is typed by the URI's own suffix, the query string included. */
  lemma GetTypeFollowsUri(uri: string)
    requires |uri| >= ContentType.LongestExt
    requires |uri| + 7 < GetPathSize
    ensures ContentType.ChainDefined(GetPath(uri), ContentType.Rules)
    ensures ContentType.ChainDefined(uri, ContentType.Rules)
    ensures ContentType.ContentTypeFor(GetPath(uri)) == ContentType.ContentTypeFor(uri)
  {
    ContentType.TypeDependsOnTail(SpiffsMount, uri);
  }
}
