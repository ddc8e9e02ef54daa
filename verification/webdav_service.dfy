/** The WebDAV remote-asset service: listing a folder of a WebDAV profile and uploading a
    file to it. The WebDAV client, URL parsing, URI encoding and MIME-type handling are
    answered by `Remote`; what is modelled is how the service builds and rewrites URLs and
    which listed resources it returns. */
module WebDavService {
  import opened Wrappers
  import opened Strings

  /** The profile's server base URL and optional public delivery base URL. */
  datatype WebDavProfile = WebDavProfile(baseUrl: string, deliveryBaseUrl: Option<string>)

  /** A resource as a PROPFIND lists it. */
  datatype DavResource = DavResource(path: string, displayName: Option<string>, isDirectory: bool, contentType: Option<string>)

  /** An entry of a listing, as returned to the caller. */
  datatype WebDavItem = WebDavItem(name: string, url: string, folder: bool)

  /** The single exception type both operations throw, wrapping the cause. */
  datatype WebDavException = WebDavException(message: string)

  const ListingError := WebDavException("Error listing resources")
  const UploadError := WebDavException("Error uploading file")

  /** The value of `type` that asks for every item. */
  const FilterAllItems := "item"

  /** The MIME filter of a listing: the wildcard type (match-all), or the MIME type built from the requested type. */
  datatype MimeFilter = MatchAll | OfType(mimeType: string)

  /** What `sardine.exists` answers: a SardineException is told apart from other I/O errors. */
  datatype ExistsReply = Exists | DoesNotExist | SardineFailure | OtherFailure

  /** The code this service calls and this model does not contain.
      - `encode`: `UriUtils.encode` with the service's charset.
      - `acceptsType`: whether `new MimeType(type)` accepts the requested type.
      - `parsesType`: whether `MimeType.valueOf` accepts a content type.
      - `includes`: whether the MIME type built from a requested type includes a content type.
      - `folderExists` (`exists`), `propfind` (None when it throws), `put` (true when it returns normally):
        the Sardine WebDAV client; `createDirectory` is not here because its failures are ignored.
      - `urlPath`: `new URL(u).getPath()`, None when the URL is malformed. */
  datatype Remote = Remote(
    encode: string -> string,
    acceptsType: string -> bool,
    parsesType: string -> bool,
    includes: (string, string) -> bool,
    folderExists: string -> ExistsReply,
    propfind: string -> Option<seq<DavResource>>,
    put: string -> bool,
    urlPath: string -> Option<string>)

  // ---------------------------------------------------------------- listing URL

  /** The non-empty pieces of a list of pieces, in order. */
  function NonEmpty(pieces: seq<string>): (r: seq<string>)
    ensures forall i :: 0 <= i < |r| ==> r[i] != ""
    ensures forall i :: 0 <= i < |r| ==> r[i] in pieces
    ensures forall i :: 0 <= i < |pieces| && pieces[i] != "" ==> pieces[i] in r
  {
    if |pieces| == 0 then []
    else if pieces[0] == "" then NonEmpty(pieces[1..])
    else [pieces[0]] + NonEmpty(pieces[1..])
  }

  /** The folder names of a request path: its non-empty `/`-separated segments. A null or empty
      path has none. */
  function Segments(path: Option<string>): (r: seq<string>)
    ensures forall i :: 0 <= i < |r| ==> r[i] != "" && '/' !in r[i]
  {
    if IsNotEmpty(path) then
      SplitJoin(path.value, '/');
      NonEmpty(Split(path.value, '/'))
    else []
  }

  /** `"/" + encode(segment)` for every segment, in order. */
  function EncodedPath(segments: seq<string>, encode: string -> string): (r: string)
    ensures r == "" <==> |segments| == 0
  {
    if |segments| == 0 then ""
    else "/" + encode(segments[0]) + EncodedPath(segments[1..], encode)
  }

  /** The URL a listing is made at: the base URL verbatim, the encoded segments of the path,
      and a trailing slash when one is missing. */
  function ListPath(baseUrl: string, path: Option<string>, encode: string -> string): (r: string)
    ensures StartsWith(r, baseUrl)
    ensures EndsWith(r, "/")
  {
    AppendIfMissing(baseUrl + EncodedPath(Segments(path), encode), "/")
  }

  // ---------------------------------------------------------------- resource names and URLs

  /** `getUrl`: the resource path with the first occurrence of the base path removed, put
      after the base URL (folders) or after the delivery URL when there is one (files). */
  function GetUrl(resource: DavResource, baseUrl: string, deliveryUrl: Option<string>, basePath: string): (r: string)
    ensures resource.isDirectory || !IsNotEmpty(deliveryUrl) ==> StartsWith(r, baseUrl)
    ensures !resource.isDirectory && IsNotEmpty(deliveryUrl) ==> StartsWith(r, deliveryUrl.value)
  {
    var relativePath := RemoveFirst(resource.path, basePath);
    if resource.isDirectory then baseUrl + relativePath
    else (if IsNotEmpty(deliveryUrl) then deliveryUrl.value else baseUrl) + relativePath
  }

  /** `getName`: the display name when there is one; otherwise the last segment of the path,
      after dropping one trailing slash of a folder's path. */
  function GetName(resource: DavResource): (r: string)
    ensures IsNotEmpty(resource.displayName) ==> r == resource.displayName.value
    ensures !IsNotEmpty(resource.displayName) ==> '/' !in r
  {
    if IsNotEmpty(resource.displayName) then resource.displayName.value
    else
      var path := if resource.isDirectory then RemoveEnd(resource.path, "/") else resource.path;
      SubstringAfterLast(path, '/')
  }

  // ---------------------------------------------------------------- listing

  /** The filter a requested type selects: match-all for a null or empty type and for `item`. */
  function FilterFor(requested: Option<string>): (r: MimeFilter)
    ensures r == MatchAll <==> !IsNotEmpty(requested) || requested.value == FilterAllItems
    ensures r.OfType? ==> requested == Some(r.mimeType)
  {
    if !IsNotEmpty(requested) || requested.value == FilterAllItems then MatchAll
    else OfType(requested.value)
  }

  /** Whether a listed resource passes the filter: folders always do; a file's content type is
      parsed (None when that throws) and tested against the filter, which match-all passes. */
  function Keep(remote: Remote, filter: MimeFilter, resource: DavResource): (r: Option<bool>)
    ensures resource.isDirectory ==> r == Some(true)
    ensures filter.MatchAll? && r.Some? ==> r.value
    ensures r.None? <==> !resource.isDirectory && (resource.contentType.None? || !remote.parsesType(resource.contentType.value))
    ensures !resource.isDirectory && filter.OfType? && r.Some? ==> r.value == remote.includes(filter.mimeType, resource.contentType.value)
  {
    if resource.isDirectory then Some(true)
    else if resource.contentType.None? || !remote.parsesType(resource.contentType.value) then None
    else match filter
      case MatchAll => Some(true)
      case OfType(t) => Some(remote.includes(t, resource.contentType.value))
  }

  /** The context every item of one listing is built in. */
  datatype Listing = Listing(filter: MimeFilter, baseUrl: string, deliveryUrl: Option<string>, basePath: string)

  function ToItem(ctx: Listing, resource: DavResource): WebDavItem
  {
    WebDavItem(GetName(resource), GetUrl(resource, ctx.baseUrl, ctx.deliveryUrl, ctx.basePath), resource.isDirectory)
  }

  /** The map stage of the stream: one item per kept resource, in order. */
  function ToItems(ctx: Listing, kept: seq<DavResource>): (r: seq<WebDavItem>)
    ensures |r| == |kept|
    ensures forall i :: 0 <= i < |kept| ==> r[i] == ToItem(ctx, kept[i])
  {
    if |kept| == 0 then [] else [ToItem(ctx, kept[0])] + ToItems(ctx, kept[1..])
  }

  /** The filter stage of the stream over the listed resources: the resources that pass, in
      order. A content type that cannot be parsed aborts the whole stream. */
  function Select(remote: Remote, filter: MimeFilter, resources: seq<DavResource>): (r: Result<seq<DavResource>, WebDavException>)
    ensures r.Success? <==> forall i :: 0 <= i < |resources| ==> Keep(remote, filter, resources[i]).Some?
    ensures r.Failure? ==> r.error == ListingError
    ensures r.Success? ==> |r.value| <= |resources|
    ensures r.Success? ==> forall x {:trigger x in r.value} :: x in r.value ==> x in resources && Keep(remote, filter, x) == Some(true)
    ensures r.Success? ==> forall x {:trigger x in r.value} :: x in resources && Keep(remote, filter, x) == Some(true) ==> x in r.value
  {
    if |resources| == 0 then Success([])
    else
      var keep := Keep(remote, filter, resources[0]);
      var rest := Select(remote, filter, resources[1..]);
      assert forall i :: 1 <= i < |resources| ==> resources[i] == resources[1..][i - 1];
      assert resources == [resources[0]] + resources[1..];
      if keep.None? then Failure(ListingError)
      else if rest.Failure? then Failure(ListingError)
      else if keep.value then Success([resources[0]] + rest.value)
      else Success(rest.value)
  }

  /** The listing once the folder is taken to exist: parse the base URL's path, PROPFIND the
      folder, and put everything listed except the first entry, the folder itself, through the
      filter. */
  function ListExisting(profile: WebDavProfile, listPath: string, filter: MimeFilter, remote: Remote)
    : (r: Result<seq<WebDavItem>, WebDavException>)
    ensures r.Failure? ==> r.error == ListingError
  {
    match remote.urlPath(profile.baseUrl)
    case None => Failure(ListingError)
    case Some(basePath) =>
      match remote.propfind(listPath)
      case None => Failure(ListingError)
      case Some(resources) =>
        var ctx := Listing(filter, profile.baseUrl, profile.deliveryBaseUrl, basePath);
        var listed := if |resources| == 0 then [] else resources[1..];
        match Select(remote, filter, listed)
        case Failure(e) => Failure(e)
        case Success(kept) => Success(ToItems(ctx, kept))
  }

  /** `list`: build the filter and the listing URL; a folder the server reports absent lists
      nothing, while a failed existence check (a SardineException) is taken as "present". */
  function List(profile: WebDavProfile, path: Option<string>, requested: Option<string>, remote: Remote)
    : (r: Result<seq<WebDavItem>, WebDavException>)
    ensures r.Failure? ==> r.error == ListingError
    ensures FilterFor(requested).OfType? && !remote.acceptsType(FilterFor(requested).mimeType) ==> r.Failure?
    ensures FilterFor(requested).MatchAll? || remote.acceptsType(FilterFor(requested).mimeType) ==>
              var listPath := ListPath(profile.baseUrl, path, remote.encode);
              && (remote.folderExists(listPath) == DoesNotExist ==> r == Success([]))
              && (remote.folderExists(listPath) == OtherFailure ==> r.Failure?)
              && (remote.folderExists(listPath) in {Exists, SardineFailure} ==>
                    r == ListExisting(profile, listPath, FilterFor(requested), remote))
  {
    var filter := FilterFor(requested);
    if filter.OfType? && !remote.acceptsType(filter.mimeType) then Failure(ListingError)
    else
      var listPath := ListPath(profile.baseUrl, path, remote.encode);
      match remote.folderExists(listPath)
      case DoesNotExist => Success([])
      case OtherFailure => Failure(ListingError)
      case Exists => ListExisting(profile, listPath, filter, remote)
      case SardineFailure => ListExisting(profile, listPath, filter, remote)
  }

  // ---------------------------------------------------------------- upload

  /** The folder an upload goes to: the base URL, then a non-empty path with a leading slash
      ensured. */
  function UploadUrl(baseUrl: string, path: Option<string>): (r: string)
    ensures StartsWith(r, baseUrl)
    ensures !IsNotEmpty(path) ==> r == baseUrl
    ensures IsNotEmpty(path) ==> var tail := r[|baseUrl|..];
              StartsWith(tail, "/") && (tail == path.value || tail == "/" + path.value)
    ensures IsNotEmpty(path) && StartsWith(path.value, "/") ==> r == baseUrl + path.value
  {
    if IsNotEmpty(path) then
      baseUrl + (if StartsWith(path.value, "/") then path.value else "/" + path.value)
    else baseUrl
  }

  /** A leading slash on the upload path changes nothing: it is added only when missing. */
  lemma UploadLeadingSlashIgnored(baseUrl: string, path: string)
    requires path != "" && path[0] != '/'
    ensures UploadUrl(baseUrl, Some("/" + path)) == UploadUrl(baseUrl, Some(path))
  {
    assert !StartsWith(path, "/");
  }

  /** The URL handed back after an upload: with a delivery base URL, the first occurrence of the
      base URL is replaced by it; otherwise the file URL as it is. */
  function PublicUrl(fileUrl: string, baseUrl: string, deliveryUrl: Option<string>): (r: string)
    ensures !IsNotEmpty(deliveryUrl) ==> r == fileUrl
    ensures IsNotEmpty(deliveryUrl) && StartsWith(fileUrl, baseUrl) ==>
              r == deliveryUrl.value + fileUrl[|baseUrl|..]
  {
    if IsNotEmpty(deliveryUrl) then
      var r := ReplaceFirst(fileUrl, baseUrl, deliveryUrl.value);
      assert StartsWith(fileUrl, baseUrl) ==> r == deliveryUrl.value + fileUrl[|baseUrl|..] by {
        if StartsWith(fileUrl, baseUrl) {
          ReplaceFirstOfPrefix(fileUrl, baseUrl, deliveryUrl.value);
        }
      }
      r
    else fileUrl
  }

  /** A request the upload sends to the WebDAV server, in order. */
  datatype DavCall = CreateDirectory(url: string) | Put(url: string)

  datatype Upload = Upload(calls: seq<DavCall>, result: Result<string, WebDavException>)

  /** `upload`: create the folder (ignoring failure), put the file under its encoded name, and
      answer its URL re-rooted at the delivery base URL when the profile has one. */
  function UploadFile(profile: WebDavProfile, path: Option<string>, filename: string, remote: Remote): (r: Upload)
    ensures var folder := UploadUrl(profile.baseUrl, path);
            var fileUrl := folder + "/" + remote.encode(filename);
            && r.calls == [CreateDirectory(folder), Put(fileUrl)]
            && (r.result.Success? <==> remote.put(fileUrl))
            && (r.result.Failure? ==> r.result.error == UploadError)
            && (r.result.Success? ==>
                  r.result.value == (if IsNotEmpty(profile.deliveryBaseUrl) then profile.deliveryBaseUrl.value else profile.baseUrl)
                                    + folder[|profile.baseUrl|..] + "/" + remote.encode(filename))
  {
    var folder := UploadUrl(profile.baseUrl, path);
    var fileUrl := folder + "/" + remote.encode(filename);
    var calls := [CreateDirectory(folder), Put(fileUrl)];
    if remote.put(fileUrl) then
      assert fileUrl[|profile.baseUrl|..] == folder[|profile.baseUrl|..] + "/" + remote.encode(filename);
      Upload(calls, Success(PublicUrl(fileUrl, profile.baseUrl, profile.deliveryBaseUrl)))
    else Upload(calls, Failure(UploadError))
  }

  // ---------------------------------------------------------------- listing URL properties

  lemma {:induction false} NonEmptyConcat(a: seq<string>, b: seq<string>)
    ensures NonEmpty(a + b) == NonEmpty(a) + NonEmpty(b)
  {
    if |a| == 0 {
      assert a + b == b;
    } else {
      assert (a + b)[1..] == a[1..] + b;
      NonEmptyConcat(a[1..], b);
    }
  }

  /** The segments on both sides of a slash, one after the other. */
  lemma SegmentsAroundSlash(a: string, b: string)
    ensures Segments(Some(a + "/" + b)) == Segments(Some(a)) + Segments(Some(b))
  {
    SplitConcat(a, b, '/');
    NonEmptyConcat(Split(a, '/'), Split(b, '/'));
    assert Split("", '/') == [""];
  }

  /** A single folder name is its own one segment. */
  lemma SegmentsOfName(a: string)
    requires a != "" && '/' !in a
    ensures Segments(Some(a)) == [a]
  {
    SplitNoSeparator(a, '/');
    assert NonEmpty([a]) == [a] + NonEmpty([]);
  }

  /** Folder names joined by single slashes read back as exactly those names, in order. */
  lemma {:induction false} SegmentsOfJoin(names: seq<string>)
    requires |names| >= 1
    requires forall i :: 0 <= i < |names| ==> names[i] != "" && '/' !in names[i]
    ensures Segments(Some(Join(names, '/'))) == names
  {
    SegmentsOfName(names[0]);
    if |names| > 1 {
      SegmentsOfJoin(names[1..]);
      SegmentsAroundSlash(names[0], Join(names[1..], '/'));
      assert Join(names, '/') == names[0] + "/" + Join(names[1..], '/');
      assert names == [names[0]] + names[1..];
    }
  }

  /** A leading slash contributes nothing to the listing URL. */
  lemma LeadingSlashIgnored(baseUrl: string, path: string, encode: string -> string)
    ensures ListPath(baseUrl, Some("/" + path), encode) == ListPath(baseUrl, Some(path), encode)
  {
    SegmentsAroundSlash("", path);
    assert "" + "/" + path == "/" + path;
    assert Segments(Some("/" + path)) == Segments(Some(path));
  }

  /** A trailing slash contributes nothing to the listing URL. */
  lemma TrailingSlashIgnored(baseUrl: string, path: string, encode: string -> string)
    ensures ListPath(baseUrl, Some(path + "/"), encode) == ListPath(baseUrl, Some(path), encode)
  {
    SegmentsAroundSlash(path, "");
    assert path + "/" + "" == path + "/";
    assert Segments(Some(path)) + [] == Segments(Some(path));
    assert Segments(Some(path + "/")) == Segments(Some(path));
  }

  /** A doubled slash counts as one. */
  lemma DoubledSlashIgnored(baseUrl: string, a: string, b: string, encode: string -> string)
    ensures ListPath(baseUrl, Some(a + "//" + b), encode) == ListPath(baseUrl, Some(a + "/" + b), encode)
  {
    SegmentsDoubledSlash(a, b);
  }

  lemma SegmentsDoubledSlash(a: string, b: string)
    ensures Segments(Some(a + "//" + b)) == Segments(Some(a + "/" + b))
  {
    assert Segments(Some(a + "//" + b)) == Segments(Some(a)) + Segments(Some("/" + b)) by {
      assert a + "//" + b == a + "/" + ("/" + b);
      SegmentsAroundSlash(a, "/" + b);
    }
    assert Segments(Some("/" + b)) == Segments(Some(b)) by {
      assert "" + "/" + b == "/" + b;
      SegmentsAroundSlash("", b);
    }
    SegmentsAroundSlash(a, b);
  }

  /** A path with no segment lists the base URL itself, with a trailing slash added only if it
      lacks one. A null or empty path has no segment, and neither has one made only of slashes
      (`OnlySlashesNoSegments`). */
  lemma NoSegmentsListsBase(baseUrl: string, path: Option<string>, encode: string -> string)
    requires Segments(path) == []
    ensures ListPath(baseUrl, path, encode) == AppendIfMissing(baseUrl, "/")
  {
  }

  /** A path made only of slashes has no segment. */
  lemma {:induction false} OnlySlashesNoSegments(p: string)
    requires forall i :: 0 <= i < |p| ==> p[i] == '/'
    ensures Segments(Some(p)) == []
    decreases |p|
  {
    if |p| > 0 {
      var rest := p[1..];
      assert p == "" + "/" + rest;
      SegmentsAroundSlash("", rest);
      OnlySlashesNoSegments(rest);
    }
  }

  /** An encoding that keeps a non-empty segment non-empty and free of slashes, as URI
      component encoding does. */
  predicate SegmentSafe(segments: seq<string>, encode: string -> string) {
    forall i :: 0 <= i < |segments| ==> encode(segments[i]) != "" && '/' !in encode(segments[i])
  }

  /** The encoded segments, in order. */
  function EncodeAll(segments: seq<string>, encode: string -> string): (r: seq<string>)
    ensures |r| == |segments|
    ensures forall i :: 0 <= i < |r| ==> r[i] == encode(segments[i])
  {
    if |segments| == 0 then [] else [encode(segments[0])] + EncodeAll(segments[1..], encode)
  }

  lemma SegmentSafeTail(segments: seq<string>, encode: string -> string)
    requires |segments| > 0 && SegmentSafe(segments, encode)
    ensures SegmentSafe(segments[1..], encode)
  {
  }

  /** The encoded path, followed by a slash, splits into an empty piece, the encoded segments
      and another empty piece. */
  lemma {:induction false} EncodedPathSplit(segments: seq<string>, encode: string -> string)
    requires SegmentSafe(segments, encode)
    ensures Split(EncodedPath(segments, encode) + "/", '/') == [""] + EncodeAll(segments, encode) + [""]
  {
    if |segments| == 0 {
      assert EncodedPath(segments, encode) + "/" == ['/'] + "";
      SplitLeadingSeparator("", '/');
    } else {
      var e := encode(segments[0]);
      var p := EncodedPath(segments[1..], encode);
      var rest := EncodeAll(segments[1..], encode);
      SegmentSafeTail(segments, encode);
      EncodedPathSplit(segments[1..], encode);
      assert p == "" || p[0] == '/' by {
        if |segments[1..]| > 0 {
          assert p == "/" + encode(segments[1..][0]) + EncodedPath(segments[1..][1..], encode);
        }
      }
      SplitStep(e, p, rest);
      assert EncodedPath(segments, encode) == "/" + e + p;
      assert EncodeAll(segments, encode) == [e] + rest;
    }
  }

  /** One more slash-free piece in front of a slash-led text adds one piece to its split. */
  lemma SplitStep(e: string, p: string, rest: seq<string>)
    requires '/' !in e
    requires p == "" || p[0] == '/'
    requires Split(p + "/", '/') == [""] + rest + [""]
    ensures Split("/" + e + p + "/", '/') == [""] + ([e] + rest) + [""]
  {
    var q := p + "/";
    var t := q[1..];
    assert q == ['/'] + t;
    assert Split(t, '/') == rest + [""] by {
      SplitLeadingSeparator(t, '/');
      assert Split(t, '/') == ([""] + Split(t, '/'))[1..];
    }
    SplitPieceThenRest(e, t, '/');
    Regroup(e, p, t);
    SplitLeadingSeparator(e + ['/'] + t, '/');
  }

  /** Regrouping `/e` + `p/` around the slash that starts `p/`. */
  lemma Regroup(e: string, p: string, t: string)
    requires p + "/" == ['/'] + t
    ensures "/" + e + p + "/" == ['/'] + (e + ['/'] + t)
  {
    calc {
      "/" + e + p + "/";
      ['/'] + (e + (p + "/"));
      ['/'] + (e + (['/'] + t));
      ['/'] + (e + ['/'] + t);
    }
  }

  /** A non-empty encoded path ends with an encoded segment, never with a slash. */
  lemma {:induction false} EncodedPathEnd(segments: seq<string>, encode: string -> string)
    requires |segments| > 0 && SegmentSafe(segments, encode)
    ensures var p := EncodedPath(segments, encode); |p| > 0 && p[|p| - 1] != '/'
  {
    var e := encode(segments[0]);
    var rest := EncodedPath(segments[1..], encode);
    var p := EncodedPath(segments, encode);
    assert p == "/" + e + rest;
    if |segments| == 1 {
      assert rest == "";
      assert p[|p| - 1] == e[|e| - 1];
    } else {
      SegmentSafeTail(segments, encode);
      EncodedPathEnd(segments[1..], encode);
      assert p[|p| - 1] == rest[|rest| - 1];
    }
  }

  /** The listing URL, read back: after the base URL come exactly the encoded segments, each
      behind one slash, and one final slash. */
  lemma ListPathLayout(baseUrl: string, path: Option<string>, encode: string -> string)
    requires |Segments(path)| > 0 && SegmentSafe(Segments(path), encode)
    ensures var r := ListPath(baseUrl, path, encode);
            Split(r[|baseUrl|..], '/') == [""] + EncodeAll(Segments(path), encode) + [""]
  {
    var encoded := EncodedPath(Segments(path), encode);
    EncodedPathSplit(Segments(path), encode);
    EncodedPathEnd(Segments(path), encode);
    var s := baseUrl + encoded;
    assert !EndsWith(s, "/") by {
      assert s[|s| - 1] == encoded[|encoded| - 1];
      assert s[|s| - 1..] == [s[|s| - 1]];
    }
    assert ListPath(baseUrl, path, encode) == s + "/";
    assert (s + "/")[|baseUrl|..] == encoded + "/";
  }

  // ---------------------------------------------------------------- listing properties

  /** What a listing returns, given what the server lists: the folder itself (the first entry)
      never; each later entry that passes the filter, as an item; every sub-folder, always. */
  lemma ListedItems(profile: WebDavProfile, listPath: string, filter: MimeFilter, remote: Remote,
                    basePath: string, resources: seq<DavResource>)
    requires remote.urlPath(profile.baseUrl) == Some(basePath)
    requires remote.propfind(listPath) == Some(resources)
    ensures var r := ListExisting(profile, listPath, filter, remote);
            var ctx := Listing(filter, profile.baseUrl, profile.deliveryBaseUrl, basePath);
            && (r.Success? <==> forall i :: 1 <= i < |resources| ==> Keep(remote, filter, resources[i]).Some?)
            && (r.Success? && |resources| > 0 ==> |r.value| <= |resources| - 1)
            && (r.Success? ==> forall k :: 0 <= k < |r.value| ==>
                  exists i :: 1 <= i < |resources| && Keep(remote, filter, resources[i]) == Some(true)
                                                   && r.value[k] == ToItem(ctx, resources[i]))
            && (r.Success? ==> forall i :: 1 <= i < |resources| && resources[i].isDirectory ==>
                  ToItem(ctx, resources[i]) in r.value)
  {
    var ctx := Listing(filter, profile.baseUrl, profile.deliveryBaseUrl, basePath);
    var listed := if |resources| == 0 then [] else resources[1..];
    var sel := Select(remote, filter, listed);
    ListExistingSelects(profile, listPath, filter, remote, basePath, resources);
    ListedPass(remote, filter, resources);
    if sel.Success? && |resources| > 0 {
      KeptFromTail(remote, ctx, resources);
      ItemsOfKept(remote, ctx, resources, sel.value);
    }
  }

  /** Proof step for `ListedItems`: once the base path and the PROPFIND answer are known,
      `ListExisting` unfolds to the filter stage over every entry but the first, mapped to items. */
  lemma ListExistingSelects(profile: WebDavProfile, listPath: string, filter: MimeFilter, remote: Remote,
                            basePath: string, resources: seq<DavResource>)
    requires remote.urlPath(profile.baseUrl) == Some(basePath)
    requires remote.propfind(listPath) == Some(resources)
    ensures var ctx := Listing(filter, profile.baseUrl, profile.deliveryBaseUrl, basePath);
            var sel := Select(remote, filter, if |resources| == 0 then [] else resources[1..]);
            ListExisting(profile, listPath, filter, remote) ==
              if sel.Success? then Success(ToItems(ctx, sel.value)) else Failure(ListingError)
  {
  }

  /** The filter stage over every entry but the first passes exactly when each of those entries
      can be decided. */
  lemma ListedPass(remote: Remote, filter: MimeFilter, resources: seq<DavResource>)
    ensures var sel := Select(remote, filter, if |resources| == 0 then [] else resources[1..]);
            && (sel.Success? <==> forall i :: 1 <= i < |resources| ==> Keep(remote, filter, resources[i]).Some?)
            && (sel.Success? && |resources| > 0 ==> |sel.value| <= |resources| - 1)
  {
    var listed := if |resources| == 0 then [] else resources[1..];
    assert forall i :: 1 <= i < |resources| ==> resources[i] == listed[i - 1];
  }

  /** The entries kept from all but the first are exactly the later entries the filter keeps. */
  lemma KeptFromTail(remote: Remote, ctx: Listing, resources: seq<DavResource>)
    requires |resources| > 0 && Select(remote, ctx.filter, resources[1..]).Success?
    ensures var kept := Select(remote, ctx.filter, resources[1..]).value;
            && (forall x :: x in kept ==> x in resources[1..] && Keep(remote, ctx.filter, x) == Some(true))
            && (forall i :: 1 <= i < |resources| && Keep(remote, ctx.filter, resources[i]) == Some(true) ==>
                  resources[i] in kept)
  {
    assert forall i :: 1 <= i < |resources| ==> resources[i] == resources[1..][i - 1];
  }

  /** The items made from the kept entries of a listing come from entries after the first that
      passed the filter, and cover every such entry. */
  lemma ItemsOfKept(remote: Remote, ctx: Listing, resources: seq<DavResource>, kept: seq<DavResource>)
    requires |resources| > 0
    requires forall x :: x in kept ==> x in resources[1..] && Keep(remote, ctx.filter, x) == Some(true)
    requires forall i :: 1 <= i < |resources| && Keep(remote, ctx.filter, resources[i]) == Some(true) ==>
               resources[i] in kept
    ensures var items := ToItems(ctx, kept);
            && (forall k :: 0 <= k < |items| ==>
                  exists i :: 1 <= i < |resources| && Keep(remote, ctx.filter, resources[i]) == Some(true)
                                                   && items[k] == ToItem(ctx, resources[i]))
            && (forall i :: 1 <= i < |resources| && resources[i].isDirectory ==> ToItem(ctx, resources[i]) in items)
  {
    var items := ToItems(ctx, kept);
    forall k | 0 <= k < |items|
      ensures exists i :: 1 <= i < |resources| && Keep(remote, ctx.filter, resources[i]) == Some(true)
                                               && items[k] == ToItem(ctx, resources[i])
    {
      assert kept[k] in kept;
      assert kept[k] in resources[1..] && Keep(remote, ctx.filter, kept[k]) == Some(true);
      var j :| 0 <= j < |resources[1..]| && resources[1..][j] == kept[k];
      assert resources[j + 1] == kept[k];
      assert items[k] == ToItem(ctx, resources[j + 1]);
    }
    forall i | 1 <= i < |resources| && resources[i].isDirectory
      ensures ToItem(ctx, resources[i]) in items
    {
      assert Keep(remote, ctx.filter, resources[i]) == Some(true);
      var k :| 0 <= k < |kept| && kept[k] == resources[i];
      assert items[k] == ToItem(ctx, resources[i]);
    }
  }

  /** The reference filter: the entries the filter keeps, in listing order, duplicates included. */
  function Survivors(remote: Remote, filter: MimeFilter, s: seq<DavResource>): seq<DavResource>
  {
    if |s| == 0 then []
    else (if Keep(remote, filter, s[0]) == Some(true) then [s[0]] else []) + Survivors(remote, filter, s[1..])
  }

  lemma {:induction false} SurvivorsConcat(remote: Remote, filter: MimeFilter, a: seq<DavResource>, b: seq<DavResource>)
    ensures Survivors(remote, filter, a + b) == Survivors(remote, filter, a) + Survivors(remote, filter, b)
    decreases |a|
  {
    if |a| == 0 {
      assert a + b == b;
    } else {
      assert (a + b)[0] == a[0];
      assert (a + b)[1..] == a[1..] + b;
      SurvivorsConcat(remote, filter, a[1..], b);
    }
  }

  /** A stream that does not abort keeps exactly the reference survivors: same entries, same
      order, same duplicates. */
  lemma {:induction false} SelectIsSurvivors(remote: Remote, filter: MimeFilter, s: seq<DavResource>)
    ensures Select(remote, filter, s).Success? ==> Select(remote, filter, s).value == Survivors(remote, filter, s)
    decreases |s|
  {
    if |s| > 0 {
      SelectStep(remote, filter, s);
      SelectIsSurvivors(remote, filter, s[1..]);
    }
  }

  /** The filter stage keeps the stream's order and duplicates: two runs of entries that both
      pass filter independently, and their survivors stay in sequence. */
  lemma SelectConcat(remote: Remote, filter: MimeFilter, a: seq<DavResource>, b: seq<DavResource>)
    requires Select(remote, filter, a).Success? && Select(remote, filter, b).Success?
    ensures Select(remote, filter, a + b) == Success(Select(remote, filter, a).value + Select(remote, filter, b).value)
  {
    SelectConcatFails(remote, filter, a, b);
    SelectIsSurvivors(remote, filter, a);
    SelectIsSurvivors(remote, filter, b);
    SelectIsSurvivors(remote, filter, a + b);
    SurvivorsConcat(remote, filter, a, b);
  }

  /** One bad entry anywhere in either run aborts the whole run. */
  lemma SelectConcatFails(remote: Remote, filter: MimeFilter, a: seq<DavResource>, b: seq<DavResource>)
    ensures Select(remote, filter, a + b).Success? <==>
              Select(remote, filter, a).Success? && Select(remote, filter, b).Success?
  {
    var ab := a + b;
    assert forall i :: 0 <= i < |a| ==> ab[i] == a[i];
    assert forall i :: 0 <= i < |b| ==> ab[|a| + i] == b[i];
  }

  /** One step of the filter stage: the head entry is decided, then the rest. */
  lemma SelectStep(remote: Remote, filter: MimeFilter, s: seq<DavResource>)
    requires |s| > 0
    ensures var keep := Keep(remote, filter, s[0]);
            var rest := Select(remote, filter, s[1..]);
            Select(remote, filter, s) ==
              if keep.None? || rest.Failure? then Failure(ListingError)
              else if keep.value then Success([s[0]] + rest.value)
              else rest
  {
  }

  /** One entry: kept, dropped, or failing the run, as `Keep` decides. */
  lemma SelectOne(remote: Remote, filter: MimeFilter, x: DavResource)
    ensures Keep(remote, filter, x).None? ==> Select(remote, filter, [x]).Failure?
    ensures Keep(remote, filter, x) == Some(true) ==> Select(remote, filter, [x]) == Success([x])
    ensures Keep(remote, filter, x) == Some(false) ==> Select(remote, filter, [x]) == Success([])
  {
    assert [x][1..] == [];
    SelectStep(remote, filter, [x]);
    assert [x] + [] == [x];
  }

  /** A server that lists only the folder itself yields an empty listing. */
  lemma FolderAloneListsNothing(profile: WebDavProfile, listPath: string, filter: MimeFilter, remote: Remote,
                                basePath: string, folder: DavResource)
    requires remote.urlPath(profile.baseUrl) == Some(basePath)
    requires remote.propfind(listPath) == Some([folder])
    ensures ListExisting(profile, listPath, filter, remote) == Success([])
  {
    assert [folder][1..] == [];
  }

  // ---------------------------------------------------------------- names and URLs

  /** A resource under the base path: its URL is the chosen host followed by the path below the
      base path. */
  lemma GetUrlUnderBasePath(resource: DavResource, baseUrl: string, deliveryUrl: Option<string>, basePath: string)
    requires StartsWith(resource.path, basePath)
    ensures var host := if !resource.isDirectory && IsNotEmpty(deliveryUrl) then deliveryUrl.value else baseUrl;
            GetUrl(resource, baseUrl, deliveryUrl, basePath) == host + resource.path[|basePath|..]
  {
  }

  /** A resource whose path does not contain the base path keeps its whole path. */
  lemma GetUrlOutsideBasePath(resource: DavResource, baseUrl: string, deliveryUrl: Option<string>, basePath: string)
    requires forall j: nat :: !OccursAt(resource.path, basePath, j)
    ensures var host := if !resource.isDirectory && IsNotEmpty(deliveryUrl) then deliveryUrl.value else baseUrl;
            GetUrl(resource, baseUrl, deliveryUrl, basePath) == host + resource.path
  {
  }

  /** Without a display name, the name is the last segment of the path (after one trailing
      slash is dropped from a folder's path), or empty when the path has no slash. */
  lemma GetNameIsLastSegment(resource: DavResource)
    requires !IsNotEmpty(resource.displayName)
    ensures var p := if resource.isDirectory then RemoveEnd(resource.path, "/") else resource.path;
            var name := GetName(resource);
            && '/' !in name
            && ('/' in p ==> EndsWith(p, "/" + name))
            && ('/' !in p ==> name == "")
  {
  }

  /** `/dav/docs/` names its folder `docs`. */
  lemma GetNameOfFolder()
    ensures GetName(DavResource("/dav/docs/", None, true, None)) == "docs"
  {
    assert RemoveEnd("/dav/docs/", "/") == "/dav/docs";
    assert "/dav/docs"[4] == '/';
    assert LastIndexOf("/dav/docs", '/') == Some(4);
  }

  /** The same path as a file has an empty name: nothing follows its last slash. */
  lemma GetNameOfSlashEndedFile()
    ensures GetName(DavResource("/dav/docs/", None, false, None)) == ""
  {
    assert "/dav/docs/"[9] == '/';
    assert LastIndexOf("/dav/docs/", '/') == Some(9);
  }

  /** An empty display name does not count: the file is named after its path. */
  lemma GetNameOfFile()
    ensures GetName(DavResource("/dav/logo.png", Some(""), false, None)) == "logo.png"
  {
    assert "/dav/logo.png"[4] == '/';
    assert LastIndexOf("/dav/logo.png", '/') == Some(4);
  }
}
