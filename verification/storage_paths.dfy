/** The path logic of `src/lib/storageService.js`: checking a picture before
    upload, naming the stored object, and recovering the object path from a
    download URL before a delete. The storage calls themselves are not part
    of this model; where their outcome matters it is a parameter. */
module StorageService {
  import opened Wrappers
  import opened Text

  // ---------------------------------------------------------------------------
  // Upload
  // ---------------------------------------------------------------------------

  /** The largest accepted picture: 5 MiB. */
  const MaxPictureBytes: nat := 5 * 1024 * 1024

  const NotAnImage: string := "File must be an image"
  const TooLarge: string := "Image must be less than 5MB"

  /** The browser `File` fields the upload reads. */
  datatype PictureFile = PictureFile(mime: string, size: nat, name: string)

  /** The two checks, the type first: a file that fails both is reported as
      not an image. */
  function CheckPicture(file: PictureFile): (r: Option<string>)
    ensures r == Some(NotAnImage) <==> !StartsWith(file.mime, "image/")
    ensures r == Some(TooLarge) <==> StartsWith(file.mime, "image/") && file.size > MaxPictureBytes
    ensures r.None? <==> StartsWith(file.mime, "image/") && file.size <= MaxPictureBytes
  {
    if !StartsWith(file.mime, "image/") then Some(NotAnImage)
    else if file.size > MaxPictureBytes then Some(TooLarge)
    else None
  }

  /** A picture of exactly 5 MiB passes; one byte more does not. */
  lemma SizeLimitInclusive(mime: string, name: string)
    requires StartsWith(mime, "image/")
    ensures CheckPicture(PictureFile(mime, 5242880, name)).None?
    ensures CheckPicture(PictureFile(mime, 5242881, name)) == Some(TooLarge)
  {
  }

  /** `file.name.split('.').pop()`: the text after the last dot, or the whole
      name when it has none. */
  function Extension(name: string): (r: string)
    ensures '.' !in r
  {
    var parts := Split(name, '.');
    parts[|parts| - 1]
  }

  /** The extension is the end of the name, after its last dot. */
  lemma ExtensionIsSuffix(name: string)
    ensures |Extension(name)| <= |name|
    ensures name[|name| - |Extension(name)|..] == Extension(name)
    ensures |Extension(name)| == |name| <==> '.' !in name
    ensures |Extension(name)| < |name| ==> name[|name| - |Extension(name)| - 1] == '.'
  {
    LastPiece(name, '.');
  }

  /** The last piece of a split is the end of the string after the last
      separator, or the whole string when there is none. */
  lemma {:induction false} LastPiece(s: string, sep: char)
    ensures var last := Split(s, sep)[|Split(s, sep)| - 1];
      |last| <= |s| && s[|s| - |last|..] == last
      && (|last| == |s| <==> sep !in s)
      && (|last| < |s| ==> s[|s| - |last| - 1] == sep)
    decreases |s|
  {
    match Find(s, sep)
    case None =>
    case Some(k) =>
      var rest := s[k + 1..];
      LastPiece(rest, sep);
      var parts := Split(rest, sep);
      assert Split(s, sep) == [s[..k]] + parts;
      assert Split(s, sep)[|Split(s, sep)| - 1] == parts[|parts| - 1];
      assert sep in s by { assert s[k] == sep; }
  }

  /** A name with a dot-free extension gives that extension back. */
  lemma ExtensionOf(stem: string, ext: string)
    requires '.' !in ext
    ensures Extension(stem + "." + ext) == ext
  {
    SplitAppend(stem, ext, '.');
    assert stem + "." + ext == stem + ['.'] + ext;
    assert Split(ext, '.') == [ext];
  }

  /** `userId = 'main'`: the default applies only when no id is passed. */
  function UserId(userId: Option<string>): (r: string)
    ensures userId.None? ==> r == "main"
    ensures userId.Some? ==> r == userId.value
  {
    if userId.Some? then userId.value else "main"
  }

  /** `profile-<userId>-<timestamp>.<ext>`. */
  function FileName(user: string, now: nat, ext: string): string
  {
    "profile-" + user + "-" + NatToString(now) + "." + ext
  }

  /** `profile-pictures/<filename>`. */
  function ObjectPath(fileName: string): string
  {
    "profile-pictures/" + fileName
  }

  /** What `uploadProfilePicture` asks the storage to write, as an object
      path, or the message it throws. `now` stands for `Date.now()`. */
  function UploadPath(file: PictureFile, userId: Option<string>, now: nat): (r: Result<string, string>)
    ensures r.Err? <==> CheckPicture(file).Some?
    ensures r.Err? ==> r.error == CheckPicture(file).value
    ensures r.Ok? ==> StartsWith(r.value, ObjectPath("profile-" + UserId(userId) + "-"))
    ensures r.Ok? ==>
      r.value == ObjectPath("profile-" + UserId(userId) + "-") + NatToString(now) + "." + Extension(file.name)
    ensures r.Ok? ==> Extension(r.value) == Extension(file.name)
    ensures r.Ok? ==> var ext := Extension(file.name);
      |ext| < |r.value| && r.value[|r.value| - |ext| - 1..] == "." + ext
  {
    match CheckPicture(file)
    case Some(message) => Err(message)
    case None =>
      var ext := Extension(file.name);
      ObjectPathShape(UserId(userId), now, ext);
      ObjectPathValue(UserId(userId), now, ext);
      Ok(ObjectPath(FileName(UserId(userId), now, ext)))
  }

  /** The object path starts with the folder, `profile-` and the user id,
      and a dot-free extension can be read back from it. */
  lemma ObjectPathShape(user: string, now: nat, ext: string)
    requires '.' !in ext
    ensures StartsWith(ObjectPath(FileName(user, now, ext)), ObjectPath("profile-" + user + "-"))
    ensures Extension(ObjectPath(FileName(user, now, ext))) == ext
    ensures var path := ObjectPath(FileName(user, now, ext));
      |ext| < |path| && path[|path| - |ext| - 1..] == "." + ext
  {
    var head := ObjectPath("profile-" + user + "-");
    assert ObjectPath(FileName(user, now, ext)) == head + NatToString(now) + "." + ext;
    PathPieces(head, NatToString(now), ext);
  }

  /** The object path is the folder and `profile-<user>-`, then the
      timestamp's digits, a dot and the extension. */
  lemma ObjectPathValue(user: string, now: nat, ext: string)
    ensures ObjectPath(FileName(user, now, ext)) == ObjectPath("profile-" + user + "-") + NatToString(now) + "." + ext
  {
  }

  /** `head + middle + "." + ext` starts with `head` and has extension `ext`. */
  lemma PathPieces(head: string, middle: string, ext: string)
    requires '.' !in ext
    ensures StartsWith(head + middle + "." + ext, head)
    ensures Extension(head + middle + "." + ext) == ext
    ensures var path := head + middle + "." + ext;
      |ext| < |path| && path[|path| - |ext| - 1..] == "." + ext
  {
    var path := head + middle + "." + ext;
    assert path == head + (middle + "." + ext);
    PrefixOfConcat(head, middle + "." + ext);
    ExtensionOf(head + middle, ext);
    assert path == (head + middle) + ("." + ext);
    assert path[|head + middle|..] == "." + ext;
  }

  lemma PrefixOfConcat(p: string, x: string)
    ensures StartsWith(p + x, p)
  {
    assert (p + x)[..|p|] == p;
  }

  // ---------------------------------------------------------------------------
  // Delete
  // ---------------------------------------------------------------------------

  /** The start of every Firebase download URL the delete accepts. */
  const BaseUrl: string := "https://firebasestorage.googleapis.com/v0/b/"

  /** `url.split('/o/')[1]`: the text between the first `/o/` and the next
      one (or the end); missing when the URL has no `/o/`. */
  function SecondPiece(url: string): (r: Option<string>)
    ensures r.Some? ==> Contains(url, "/o/") && !Contains(r.value, "/o/")
    ensures r.None? ==> !Contains(url, "/o/")
    ensures r.Some? ==>
      && IndexOf(url, "/o/", 0).Some?
      && var start := IndexOf(url, "/o/", 0).value + 3;
         var end := start + |r.value|;
         && end <= |url| && r.value == url[start..end]
         && (forall j | start <= j < end :: !ContainsAt(url, "/o/", j))
         && (end == |url| || ContainsAt(url, "/o/", end))
  {
    match IndexOf(url, "/o/", 0)
    case None =>
      ContainsIffIndexOf(url, "/o/");
      None
    case Some(i) =>
      ContainsIffIndexOf(url, "/o/");
      var end := match IndexOf(url, "/o/", i + 3) case None => |url| case Some(j) => j;
      assert i + 3 <= end;
      var piece := url[i + 3..end];
      NoOccurrenceInSlice(url, i + 3, end);
      Some(piece)
  }

  /** A slice that ends before the first occurrence after its start holds
      none. */
  lemma NoOccurrenceInSlice(url: string, from: nat, end: nat)
    requires from <= end <= |url|
    requires end == |url| ==> IndexOf(url, "/o/", from).None?
    requires end < |url| ==> IndexOf(url, "/o/", from) == Some(end)
    ensures !Contains(url[from..end], "/o/")
  {
    var piece := url[from..end];
    forall m | 0 <= m <= |piece| ensures !ContainsAt(piece, "/o/", m) {
      if m + 3 <= |piece| {
        var a, b := piece[m..m + 3], url[from + m..from + m + 3];
        assert forall t | 0 <= t < 3 :: a[t] == piece[m + t] == url[from + m + t] == b[t];
        assert a == b;
        assert !ContainsAt(url, "/o/", from + m);
      }
    }
  }

  /** The path `deleteProfilePicture` hands to the storage, before decoding:
      none for a missing or empty URL, one outside Firebase storage, or one
      without a non-empty piece after `/o/` and before `?`. */
  function DeletePath(url: Option<string>): (r: Option<string>)
    ensures r.Some? ==> url.Some? && url.value != "" && StartsWith(url.value, BaseUrl)
    ensures r.Some? ==> r.value != "" && '?' !in r.value && !Contains(r.value, "/o/")
    ensures url.None? || url.value == "" || !StartsWith(url.value, BaseUrl) ==> r.None?
  {
    if url.None? || url.value == "" || !StartsWith(url.value, BaseUrl) then None
    else match SecondPiece(url.value)
      case None => None
      case Some(piece) =>
        var path := Split(piece, '?')[0];
        if path == "" then None
        else
          FirstPieceIsPrefix(piece, '?');
          PrefixKeepsAbsence(piece, path, "/o/");
          Some(path)
  }

  /** The first piece of a split is the start of the string. */
  lemma FirstPieceIsPrefix(s: string, sep: char)
    ensures |Split(s, sep)[0]| <= |s| && s[..|Split(s, sep)[0]|] == Split(s, sep)[0]
  {
  }

  /** What a string lacks, its prefixes lack too. */
  lemma PrefixKeepsAbsence(s: string, prefix: string, p: string)
    requires |prefix| <= |s| && s[..|prefix|] == prefix
    requires !Contains(s, p)
    ensures !Contains(prefix, p)
  {
    forall m | 0 <= m <= |prefix| ensures !ContainsAt(prefix, p, m) {
      if ContainsAt(prefix, p, m) {
        assert prefix[m..m + |p|] == s[m..m + |p|];
        assert ContainsAt(s, p, m);
      }
    }
  }

  /** A download URL built the way Firebase builds them gives back the
      object path it names: any bucket without `/` and of two characters or
      more, a path without `/o/` or `?`, any query. */
  lemma DeletePathRoundTrip(bucket: string, path: string, query: string)
    requires '/' !in bucket && |bucket| >= 2
    requires path != "" && '?' !in path && !Contains(path, "/o/")
    ensures DeletePath(Some(BaseUrl + bucket + "/o/" + path + "?" + query)) == Some(path)
  {
    var pre := BaseUrl + bucket;
    var url := BaseUrl + bucket + "/o/" + path + "?" + query;
    assert url == pre + "/o/" + (path + "?" + query);
    PrefixOfConcat(BaseUrl, bucket + "/o/" + path + "?" + query);
    assert StartsWith(url, BaseUrl);
    FirstSlashO(bucket, path + "?" + query);
    assert url[|pre| + 3..|pre| + 3 + |path|] == path && url[|pre| + 3 + |path|] == '?';
    SecondPieceOf(url, |pre|, path);
    FirstPieceAt(SecondPiece(url).value, path, '?');
  }

  /** After the first `/o/`, a `/o/`-free path ended by `?` starts the
      second piece. */
  lemma SecondPieceOf(url: string, at: nat, path: string)
    requires IndexOf(url, "/o/", 0) == Some(at)
    requires at + 3 + |path| < |url|
    requires url[at + 3..at + 3 + |path|] == path && url[at + 3 + |path|] == '?'
    requires !Contains(path, "/o/")
    ensures SecondPiece(url).Some?
    ensures var piece := SecondPiece(url).value;
      |path| < |piece| && piece[..|path|] == path && piece[|path|] == '?'
  {
    NoSlashOBefore(url, path, at + 3);
    var piece := SecondPiece(url).value;
    assert piece[..|path|] == path;
  }

  /** The first `/o/` of `BaseUrl + bucket + "/o/" + rest` is the one after
      the bucket. */
  lemma FirstSlashO(bucket: string, rest: string)
    requires '/' !in bucket && |bucket| >= 2
    ensures IndexOf(BaseUrl + bucket + "/o/" + rest, "/o/", 0) == Some(|BaseUrl + bucket|)
  {
    var pre := BaseUrl + bucket;
    var url := pre + "/o/" + rest;
    assert ContainsAt(url, "/o/", |pre|) by {
      assert url[|pre|..|pre| + 3] == "/o/";
    }
    forall i | 0 <= i < |pre| ensures !ContainsAt(url, "/o/", i) {
      if i < |BaseUrl| - 1 {
        assert url[i] == BaseUrl[i] && url[i + 1] == BaseUrl[i + 1];
        BaseUrlNoSlashO(i);
      } else if i == |BaseUrl| - 1 {
        assert url[i + 2] == bucket[1];
      } else {
        assert url[i] == bucket[i - |BaseUrl|];
      }
      NotSlashOAt(url, i);
    }
    IndexOfFirst(url, "/o/", 0, |pre|);
  }

  /** An index whose next three characters are not `/`, `o`, `/`. */
  lemma NotSlashOAt(url: string, i: nat)
    requires i + 2 < |url| ==> !(url[i] == '/' && url[i + 1] == 'o' && url[i + 2] == '/')
    ensures !ContainsAt(url, "/o/", i)
  {
    if i + 3 <= |url| {
      var w := url[i..i + 3];
      assert w[0] == url[i] && w[1] == url[i + 1] && w[2] == url[i + 2];
    }
  }

  /** `BaseUrl` never has an `o` right after a `/`. */
  lemma BaseUrlNoSlashO(i: nat)
    requires i + 1 < |BaseUrl|
    ensures !(BaseUrl[i] == '/' && BaseUrl[i + 1] == 'o')
  {
  }

  /** `IndexOf` finds the first occurrence from `from` on. */
  lemma {:induction false} IndexOfFirst(s: string, p: string, from: nat, k: nat)
    requires from <= k && ContainsAt(s, p, k)
    requires forall i | from <= i < k :: !ContainsAt(s, p, i)
    ensures IndexOf(s, p, from) == Some(k)
    decreases k - from
  {
    if from < k {
      IndexOfFirst(s, p, from + 1, k);
    }
  }

  /** No `/o/` starts inside `path` or on the `?` after it. */
  lemma NoSlashOBefore(url: string, path: string, from: nat)
    requires from + |path| < |url| && url[from..from + |path|] == path && url[from + |path|] == '?'
    requires !Contains(path, "/o/")
    ensures IndexOf(url, "/o/", from).None? || IndexOf(url, "/o/", from).value > from + |path|
  {
    forall i | from <= i <= from + |path| ensures !ContainsAt(url, "/o/", i) {
      if i + 3 <= from + |path| {
        var a, b := url[i..i + 3], path[i - from..i - from + 3];
        assert forall t | 0 <= t < 3 :: a[t] == url[i + t] == path[i - from + t] == b[t];
        assert a == b;
        assert !ContainsAt(path, "/o/", i - from);
      } else {
        assert url[from + |path|] == '?';
        NotSlashOAt(url, i);
      }
    }
  }

  /** A string that starts with `path` then `sep` splits at that `sep`
      first. */
  lemma FirstPieceAt(piece: string, path: string, sep: char)
    requires |path| < |piece| && piece[..|path|] == path && piece[|path|] == sep && sep !in path
    ensures Split(piece, sep)[0] == path
  {
    FindFirst(piece, sep, |path|);
  }

  /** What a delete does. It never rejects: a failed request or a path that
      does not decode is logged and dropped. */
  datatype Deletion = NoRequest | Requested(path: string, done: bool)

  /** `deleteProfilePicture(url)` with `decodeURIComponent` as `decode`
      (`None` where it throws) and `deleteObject` as `remove` (false where
      the request fails). */
  function DeletePicture(url: Option<string>, decode: string -> Option<string>, remove: string -> bool): (r: Deletion)
    ensures r.Requested? <==> DeletePath(url).Some? && decode(DeletePath(url).value).Some?
    ensures r.Requested? ==> r.path == decode(DeletePath(url).value).value && r.done == remove(r.path)
  {
    match DeletePath(url)
    case None => NoRequest
    case Some(path) =>
      match decode(path)
      case None => NoRequest
      case Some(decoded) => Requested(decoded, remove(decoded))
  }
}
