/**
 * Image lookup for image slides: the name a crawled picture is stored under,
 * and the query-to-file cache that is consulted before crawling and written
 * through to a JSON file whenever a crawl yields a file.
 *
 * The crawler, its threads, the directory listing and the rename are outside
 * the model: a download is given the listing of the images directory as it
 * stands after the crawl.
 */
module ImageSearch {
  import opened Wrappers
  import opened Bytes
  import Strings
  import Utf8
  import Base64

  // ---------------------------------------------------------------------------
  // PrefixDownloader.get_filename
  // ---------------------------------------------------------------------------

  /** Extensions kept from the URL, compared in lower case. */
  const ImageExtensions: seq<string> := ["jpg", "jpeg", "png", "bmp", "tiff", "gif", "ppm", "pgm"]

  /** Marks a file the downloader has just written and nobody has claimed yet. */
  const DownloadPrefix: string := "p_"

  /** Length of the random name drawn once per downloader. */
  const UniqueNameLength: nat := 16

  predicate IsImageExtension(ext: string) {
    Strings.MemberFrom(Strings.LowerAscii(ext), ImageExtensions, 0)
  }

  /** A character of `string.ascii_letters + string.digits`. */
  predicate IsAsciiAlphanumeric(c: char) {
    ('a' <= c <= 'z') || ('A' <= c <= 'Z') || ('0' <= c <= '9')
  }

  /** What `random.choices(ascii_letters + digits, k=16)` can produce. */
  type UniqueName = s: string | |s| == UniqueNameLength && forall i :: 0 <= i < |s| ==> IsAsciiAlphanumeric(s[i])
    witness "AAAAAAAAAAAAAAAA"

  /** `e` is the dot-free text after the last dot of `s`. */
  predicate IsDotSuffix(s: string, e: string) {
    |e| < |s| && s[|s| - |e| - 1..] == "." + e && !Strings.Contains(e, ".")
  }

  /**
   * The extension kept for a URL path: the text after its last dot when that
   * names a known image format in any letter case (kept in its own case),
   * otherwise `defaultExt`.
   */
  function Extension(urlPath: string, defaultExt: string): (ext: string)
    ensures !Strings.Contains(urlPath, ".") ==> ext == defaultExt
    ensures ext == defaultExt || (IsImageExtension(ext) && IsDotSuffix(urlPath, ext))
  {
    ExtensionKept(urlPath, defaultExt, IsImageExtension)
  }

  /** The text after the last dot of the path when `keep` accepts it, otherwise `defaultExt`. */
  function ExtensionKept(urlPath: string, defaultExt: string, keep: string -> bool): (ext: string)
    ensures !Strings.Contains(urlPath, ".") ==> ext == defaultExt
    ensures ext == defaultExt || (keep(ext) && IsDotSuffix(urlPath, ext))
  {
    if Strings.Contains(urlPath, ".") then
      var parts := Strings.Split(urlPath, ".");
      var last := parts[|parts| - 1];
      LastPieceIsDotSuffix(urlPath);
      if keep(last) then last else defaultExt
    else defaultExt
  }

  /** A text has at most one dot-free suffix after a dot. */
  lemma DotSuffixUnique(s: string, e1: string, e2: string)
    requires IsDotSuffix(s, e1) && IsDotSuffix(s, e2)
    ensures e1 == e2
  {
    if |e1| < |e2| {
      DotBeforeSuffix(s, e1, e2);
    } else if |e2| < |e1| {
      DotBeforeSuffix(s, e2, e1);
    } else {
      assert e1 == s[|s| - |e1|..] == e2;
    }
  }

  /** A longer suffix reaches over the dot in front of a shorter one. */
  lemma DotBeforeSuffix(s: string, e: string, longer: string)
    requires IsDotSuffix(s, e) && |e| < |longer| < |s| && s[|s| - |longer|..] == longer
    ensures Strings.Contains(longer, ".")
  {
    var k := |longer| - |e| - 1;
    assert longer[k] == s[|s| - |e| - 1];
    assert longer[k..k + 1] == ".";
    assert Strings.OccursAt(longer, ".", k);
  }

  /** The extension is decided by the dot-free text after the path's last dot. */
  lemma ExtensionOfSuffix(urlPath: string, e: string, defaultExt: string)
    requires IsDotSuffix(urlPath, e)
    ensures Extension(urlPath, defaultExt) == if IsImageExtension(e) then e else defaultExt
  {
    ExtensionKeptOfSuffix(urlPath, e, defaultExt, IsImageExtension);
  }

  /** Whatever the test, the extension is decided by the dot-free text after the path's last dot. */
  lemma ExtensionKeptOfSuffix(urlPath: string, e: string, defaultExt: string, keep: string -> bool)
    requires IsDotSuffix(urlPath, e)
    ensures ExtensionKept(urlPath, defaultExt, keep) == if keep(e) then e else defaultExt
  {
    LastPieceOfSuffix(urlPath, e);
  }

  /** A path with a dot-free suffix after a dot splits with that suffix as its last piece. */
  lemma LastPieceOfSuffix(urlPath: string, e: string)
    requires IsDotSuffix(urlPath, e)
    ensures Strings.Contains(urlPath, ".")
    ensures var parts := Strings.Split(urlPath, "."); parts[|parts| - 1] == e
  {
    var k := |urlPath| - |e| - 1;
    assert urlPath[k..k + 1] == ".";
    assert Strings.OccursAt(urlPath, ".", k);
    var parts := Strings.Split(urlPath, ".");
    LastPieceIsDotSuffix(urlPath);
    DotSuffixUnique(urlPath, e, parts[|parts| - 1]);
  }

  /** With a dot present, `url_path.split('.')[-1]` is the dot-free text after the last dot. */
  lemma LastPieceIsDotSuffix(urlPath: string)
    requires Strings.Contains(urlPath, ".")
    ensures var parts := Strings.Split(urlPath, ".");
      IsDotSuffix(urlPath, parts[|parts| - 1])
  {
    var front := Strings.SplitLastIsSuffix(urlPath, ".");
    var parts := Strings.Split(urlPath, ".");
    Strings.EndsWith(urlPath, front, ".", parts[|parts| - 1]);
  }

  /** The base 64 encoding of the UTF-8 bytes of a URL path. */
  function EncodePath(urlPath: string): (encoded: string)
    ensures forall i :: 0 <= i < |encoded| ==> encoded[i] != '.'
    ensures DecodePath(encoded) == Some(urlPath)
  {
    var bytes := Utf8.Encode(urlPath);
    Base64.EncodeHasNoDot(bytes);
    Base64.DecodeEncode(bytes);
    Utf8.DecodeEncode(urlPath);
    Base64.Encode(bytes)
  }

  /** The URL path an encoded part stands for, if it is the encoding of one. */
  function DecodePath(encoded: string): Option<string> {
    match Base64.Decode(encoded)
    case None => None
    case Some(bytes) => Utf8.Decode(bytes)
  }

  /** The downloader, with the random name it drew when it was created. */
  datatype PrefixDownloader = PrefixDownloader(uniqueImageName: UniqueName) {

    /**
     * `get_filename`: "p_", the random name, the base 64 encoding of the
     * UTF-8 bytes of the URL path, a dot and the extension.
     */
    function GetFilename(urlPath: string, defaultExt: string): (name: string)
      ensures Strings.StartsWith(name, DownloadPrefix)
      ensures |name| > |DownloadPrefix| + UniqueNameLength
           && name[|DownloadPrefix|..|DownloadPrefix| + UniqueNameLength] == uniqueImageName
      ensures ParseFilename(name) == Some(Filename(uniqueImageName, EncodePath(urlPath), Extension(urlPath, defaultExt)))
    {
      var encoded := EncodePath(urlPath);
      var ext := Extension(urlPath, defaultExt);
      var name := DownloadPrefix + uniqueImageName + encoded + "." + ext;
      FilenameParses(uniqueImageName, encoded, ext, name);
      name
    }
  }

  /** The parts a downloaded file's name is made of. */
  datatype Filename = Filename(uniqueName: string, encodedPath: string, extension: string)

  /**
   * Reads a downloaded file's name back: the prefix, 16 characters of random
   * name, the encoded path up to the first dot, and the extension after it.
   */
  function ParseFilename(name: string): Option<Filename> {
    var start := |DownloadPrefix| + UniqueNameLength;
    if !Strings.StartsWith(name, DownloadPrefix) || |name| < start then None
    else
      var rest := name[start..];
      var dot := Strings.Find(rest, ".");
      if dot == -1 then None
      else Some(Filename(name[|DownloadPrefix|..start], rest[..dot], rest[dot + 1..]))
  }

  /** A name built from the prefix, a random name, a dot-free encoded part, a dot and an extension reads back into those parts. */
  lemma FilenameParses(unique: UniqueName, encoded: string, ext: string, name: string)
    requires forall i :: 0 <= i < |encoded| ==> encoded[i] != '.'
    requires name == DownloadPrefix + unique + encoded + "." + ext
    ensures ParseFilename(name) == Some(Filename(unique, encoded, ext))
  {
    var start := |DownloadPrefix| + UniqueNameLength;
    var rest := name[start..];
    assert rest == encoded + "." + ext;
    FirstDotAfter(encoded, ext);
    assert rest[..|encoded|] == encoded;
    assert rest[|encoded| + 1..] == ext;
    assert name[|DownloadPrefix|..start] == unique;
  }

  /**
   * The name tells the URL path: the encoded part of a downloader's file
   * name decodes to the path, so two paths never share a name.
   */
  lemma FilenameRevealsPath(d: PrefixDownloader, urlPath: string, otherPath: string, defaultExt: string)
    ensures var f := ParseFilename(d.GetFilename(urlPath, defaultExt));
      f.Some? && DecodePath(f.value.encodedPath) == Some(urlPath)
    ensures d.GetFilename(urlPath, defaultExt) == d.GetFilename(otherPath, defaultExt) ==> urlPath == otherPath
  {
  }

  /** In a dot-free text followed by a dot, the first dot is that one. */
  lemma FirstDotAfter(encoded: string, ext: string)
    requires forall i :: 0 <= i < |encoded| ==> encoded[i] != '.'
    ensures Strings.Find(encoded + "." + ext, ".") == |encoded|
  {
    var rest := encoded + "." + ext;
    assert rest[|encoded|..|encoded| + 1] == ".";
    forall j | 0 <= j < |encoded|
      ensures !Strings.OccursAt(rest, ".", j)
    {
      assert rest[j] == encoded[j];
    }
    Strings.FindFirstOccurrence(rest, ".", |encoded|);
  }

  // ---------------------------------------------------------------------------
  // ImageSearcher: the query cache
  // ---------------------------------------------------------------------------

  /** Returned when no downloaded file can be found. */
  const Placeholder: string := "default.png"

  /**
   * The cache file on disk: absent, not valid JSON, or a JSON object mapping
   * queries to file names.
   */
  datatype StoreFile = Missing | Corrupt | Json(entries: map<string, string>)

  /** What `load_cache` makes of the file: its object, or an empty cache. */
  function LoadedEntries(file: StoreFile): (cache: map<string, string>)
    ensures file.Json? ==> cache == file.entries
    ensures file == Missing || file == Corrupt ==> cache == map[]
  {
    match file
    case Json(entries) => entries
    case _ => map[]
  }

  /** `[f for f in listing if f.startswith('p_')]`. */
  function Downloaded(listing: seq<string>): (files: seq<string>)
    ensures forall f :: f in files <==> f in listing && Strings.StartsWith(f, DownloadPrefix)
  {
    if listing == [] then []
    else if Strings.StartsWith(listing[0], DownloadPrefix) then [listing[0]] + Downloaded(listing[1..])
    else Downloaded(listing[1..])
  }

  /** `listing[k]` is the first entry that starts with "p_". */
  predicate IsFirstDownloaded(listing: seq<string>, k: int) {
    0 <= k < |listing| && Strings.StartsWith(listing[k], DownloadPrefix)
    && forall j :: 0 <= j < k ==> !Strings.StartsWith(listing[j], DownloadPrefix)
  }

  /** The head of the filtered listing is the listing's first "p_" entry. */
  lemma {:induction false} DownloadedHead(listing: seq<string>, k: int)
    requires IsFirstDownloaded(listing, k)
    ensures |Downloaded(listing)| > 0 && Downloaded(listing)[0] == listing[k]
  {
    if k > 0 {
      assert IsFirstDownloaded(listing[1..], k - 1);
      DownloadedHead(listing[1..], k - 1);
    }
  }

  /** A listing with a "p_" entry has a first one. */
  lemma FirstDownloadedExists(listing: seq<string>, e: string)
    requires e in listing && Strings.StartsWith(e, DownloadPrefix)
    ensures exists k :: IsFirstDownloaded(listing, k)
  {
    var i :| 0 <= i < |listing| && listing[i] == e;
    var k := 0;
    while !Strings.StartsWith(listing[k], DownloadPrefix)
      invariant 0 <= k <= i
      invariant forall j :: 0 <= j < k ==> !Strings.StartsWith(listing[j], DownloadPrefix)
      decreases i - k
    {
      k := k + 1;
    }
    assert IsFirstDownloaded(listing, k);
  }

  /** The outcome of one `download_image`: the name returned and the cache afterwards. */
  datatype Fetch = Fetch(name: string, cache: map<string, string>, saved: bool)

  /**
   * `download_image` on values: a cached query is answered from the cache;
   * otherwise the first "p_" file of the listing, without its prefix, is
   * returned and cached; if there is none, or the name is empty once the
   * prefix is removed, the placeholder is returned and nothing is cached.
   */
  function Download(cache: map<string, string>, query: string, listing: seq<string>): (f: Fetch)
    ensures query in cache ==> f == Fetch(cache[query], cache, false)
    ensures query !in cache && (forall e :: e in listing ==> !Strings.StartsWith(e, DownloadPrefix))
            ==> f == Fetch(Placeholder, cache, false)
    ensures forall k :: query !in cache && IsFirstDownloaded(listing, k) ==>
              var file := listing[k][|DownloadPrefix|..];
              f == if file != "" then Fetch(file, cache[query := file], true) else Fetch(Placeholder, cache, false)
  {
    if query in cache then Fetch(cache[query], cache, false)
    else
      var files := Downloaded(listing);
      assert |files| > 0 ==> files[0] in files;
      var file := if |files| > 0 then files[0][|DownloadPrefix|..] else "";
      assert forall k :: IsFirstDownloaded(listing, k) ==> |files| > 0 && files[0] == listing[k] by {
        forall k | IsFirstDownloaded(listing, k) ensures |files| > 0 && files[0] == listing[k] {
          DownloadedHead(listing, k);
        }
      }
      if file != "" then Fetch(file, cache[query := file], true)
      else Fetch(Placeholder, cache, false)
  }

  /** `m` holds every entry of `m0` with the same value. */
  predicate Extends(m0: map<string, string>, m: map<string, string>) {
    forall q :: q in m0 ==> q in m && m[q] == m0[q]
  }

  /**
   * A download never evicts or overwrites an entry; the only entry it may add
   * is the query, mapped to the name it returns, which is then a "p_" file of
   * the listing without its prefix and never the placeholder's fallback.
   */
  lemma DownloadOnlyAddsQuery(cache: map<string, string>, query: string, listing: seq<string>)
    ensures var f := Download(cache, query, listing);
      && Extends(cache, f.cache)
      && f.cache.Keys <= cache.Keys + {query}
      && (query in f.cache ==> f.cache[query] == f.name)
      && (f.saved <==> query !in cache && query in f.cache)
      && (f.saved ==> f.name != "" && DownloadPrefix + f.name in listing)
  {
    var f := Download(cache, query, listing);
    var files := Downloaded(listing);
    if query !in cache && |files| > 0 {
      assert files[0] in listing;
      FirstDownloadedExists(listing, files[0]);
      var k :| IsFirstDownloaded(listing, k);
      DownloadedHead(listing, k);
      assert DownloadPrefix + listing[k][|DownloadPrefix|..] == listing[k];
    }
  }

  /** Once a query has a file, asking again is a hit that returns the same file and changes nothing. */
  lemma {:induction false} DownloadAgainHits(cache: map<string, string>, query: string, listing: seq<string>, later: seq<string>)
    requires Download(cache, query, listing).saved || query in cache
    ensures var f := Download(cache, query, listing);
      Download(f.cache, query, later) == Fetch(f.name, f.cache, false)
  {
    DownloadOnlyAddsQuery(cache, query, listing);
  }

  /**
   * `ImageSearcher`: the in-memory cache and the cache file it was loaded
   * from and writes through to.
   */
  class ImageSearcher {
    var cache: map<string, string>
    var cacheFile: StoreFile

    /** The in-memory cache is what loading the file would give. */
    ghost predicate Valid()
      reads this
    {
      cache == LoadedEntries(cacheFile)
    }

    /** `__init__`: the cache is loaded from the file. */
    constructor (file: StoreFile)
      ensures Valid() && cacheFile == file
      ensures cache == LoadedEntries(file)
    {
      cacheFile := file;
      new;
      cache := LoadCache();
    }

    /** `load_cache`: the file's object, or an empty cache when it is absent or not JSON. */
    method LoadCache() returns (m: map<string, string>)
      ensures cacheFile.Json? ==> m == cacheFile.entries
      ensures !cacheFile.Json? ==> m == map[]
    {
      match cacheFile
      case Json(entries) => m := entries;
      case Missing => m := map[];
      case Corrupt => m := map[];
    }

    /** `save_cache`: the whole cache is written to the file. */
    method SaveCache()
      modifies this`cacheFile
      ensures cacheFile == Json(cache)
      ensures Valid()
    {
      cacheFile := Json(cache);
    }

    /**
     * `download_image`: answers from the cache, or takes the first "p_" file
     * of the listing, caches it and writes the cache through; the placeholder
     * is returned, and nothing is written, when there is no such file.
     */
    method DownloadImage(query: string, listing: seq<string>) returns (name: string)
      requires Valid()
      modifies this
      ensures Valid()
      ensures var f := Download(old(cache), query, listing);
        name == f.name && cache == f.cache && cacheFile == if f.saved then Json(f.cache) else old(cacheFile)
    {
      ghost var f := Download(cache, query, listing);
      if query in cache {
        return cache[query];
      }
      var imageFiles := Downloaded(listing);
      var imageFile: Option<string> := if |imageFiles| > 0 then Some(imageFiles[0]) else None;
      if imageFile.Some? && imageFile.value != "" {
        assert imageFile.value in imageFiles;
        imageFile := Some(imageFile.value[|DownloadPrefix|..]);
      }
      if imageFile.Some? && imageFile.value != "" {
        assert f == Fetch(imageFile.value, cache[query := imageFile.value], true);
        cache := cache[query := imageFile.value];
        SaveCache();
      } else {
        assert f == Fetch(Placeholder, cache, false);
      }
      name := if imageFile.None? || imageFile.value == "" then Placeholder else imageFile.value;
    }
  }
}
