# Photo portfolio: the preview server and the build script, in Dafny

This project models two Node.js programs of a static photo-portfolio site.

`server.js` is the preview server. It maps a request URL to a path under the
output directory `dist/` (`DIST_DIR`) with `path.join`. It refuses a path that
does not begin with `DIST_DIR` (403). A missing extensionless route falls back
to `index.html`; any other missing path is 404. A readable file is answered
with status 200, its bytes and a content type from the extension table. A
file that cannot be read is 500. In the model:

- The handler is a pure function of the URL and an immutable file system: a
  map from absolute path to file bytes, directory, or unreadable entry (a
  file or a directory without permission).
- A path is looked up with `FileSystem.Lookup`. A path that ends in '/'
  names a directory only, as `fs.access` and `fs.readFile` treat it: a
  directory found that way, readable or not, is 500, and a file behind it
  counts as missing.
- `path.join`, `path.normalize`, `path.extname` and `toLowerCase` are written
  out on strings in module `PosixPath`.

`build.js` is the build script. It creates `dist/` and renders
`dist/index.html`; a failure there is caught and logged. It copies `assets/`
entry by entry into `dist/assets/`. It copies `style.css`, `fade_in.js` and
`menu.js`, writing a placeholder for each one that is missing. It writes
`sitemap.xml` and `robots.txt`. Last, it prints four statistics about the
photo list. In the model:

- The synchronous `fs` calls are methods of a `Disk` class whose `tree` field
  they update in place.
- The `forEach` loops are `while` loops proved against recursive functions
  (`CopyEach`, `StaticEach`).
- The whole run is specified by `BuildRun`.
- In the model, `copyFileSync` throws when its source is not a readable file
  or its target is a directory or an unreadable entry. `writeFileSync`
  throws on such a target. `readdirSync` throws on a path that is not a
  directory. Other causes of failure are listed under "Left out".
- A throw outside `buildIndex` rejects `build()`. The later steps are then
  skipped and no statistics are printed. The model records this as an `ok`
  flag and as the list of steps begun.

Modules:

- `Sequences`: no-duplicates facts.
- `PosixPath`: path strings.
- `FileSystem`: trees, `fs` operations and the `Disk` class.
- `Server`: the request handler.
- `Statistics`: the four build statistics.
- `Build`: the build script.

Three details of the code that the model keeps:

- The fallback to `index.html` (server.js:41-48) checks only that the file
  exists. It does not run the containment test again. `Server.IndexAdmitted`
  proves that the test would admit that path anyway.
- Only `index.html` is rendered (build.js:15-24). No other pages are rendered.
- A missing static file gets a placeholder (build.js:49-55). A missing
  source does not by itself abort the build; only a failed write of the
  placeholder does.

## Model

| member | source | states |
|---|---|---|
| PosixPath.Normalize | server.js:27 | `path.normalize` never returns the empty string, and keeps an absolute path absolute |
| PosixPath.Join | server.js:27 | `path.join` never returns the empty string, and a join onto an absolute path is absolute |
| PosixPath.StartsWith | server.js:30 | `startsWith` holds exactly when the prefix is no longer than the string and agrees with it character by character |
| PosixPath.ExtName | server.js:62 | `path.extname` is empty or a '.' followed by characters that are neither '/' nor '.' |
| PosixPath.ToLower | server.js:62 | `toLowerCase` keeps the length of the string |
| PosixPath.JoinCollapsesDots | server.js:27 | joining anything onto an absolute path gives an absolute path none of whose segments is `.` or `..` |
| PosixPath.NormalizedSegments | server.js:27 | normalising an absolute path leaves it absolute; after the leading empty segment every segment is a name or empty |
| PosixPath.JoinName | build.js:29 | `path.join(d, n)` for a normalised directory `d` and a plain name `n` is `d + "/" + n`, itself a normalised directory |
| PosixPath.JoinAbsoluteName | server.js:6 | `path.join(dir, 'dist')` for any absolute `dir` is a normalised directory: the resolved `dir`, a '/', then `dist` |
| PosixPath.ExtNameOfChild | server.js:62 | the extension of `x/n` runs from the last '.' of `n`, when that '.' is not its first character |
| PosixPath.ExtNameNone | server.js:40 | `x/n` has no extension when `n` has no '.' after its first character, as for `/about` or `/.well-known` |
| PosixPath.ExtNameLower | server.js:62 | taking the extension commutes with lower-casing |
| Server.RequestPath | server.js:27 | the joined request path is absolute, since `DIST_DIR` is |
| Server.TableKeys | server.js:9-24 | every key of the extension table is a '.' followed by characters that are neither '.', '/' nor upper case |
| Server.TableServed | server.js:9-24 | every entry of the table is used: a file named `base + e`, for a key `e`, is served with the type of `e` |
| Server.ContentType | server.js:62-63 | the content type is a value of the extension table or `application/octet-stream` |
| Server.Locate | server.js:27-53 | the outcome is forbidden exactly when the joined path fails the guard; an admitted joined path that exists is found itself; a found path exists and passes the guard, and is the joined path or `DIST_DIR/index.html` |
| Server.ServeFile | server.js:61-78 | the status is 200 or 500; it is 200 exactly when the path reads as a file, and then the body is its bytes, sent with its content type and `no-cache` |
| Server.Handle | server.js:26-59 | the status is one of 200, 403, 404 and 500; it is 403 exactly when the guard refuses the joined path; it is 200 exactly when a located path is a readable file |
| Server.Respond | server.js:26-59 | the handler as written: the status is one of 200, 403, 404 and 500; it is 403 exactly when the joined path does not start with `DIST_DIR`; a 200 body is the bytes of an existing file whose path starts with `DIST_DIR`, sent with its content type and `no-cache`; an admitted joined path that reads as a file is served with 200 |
| Server.ExistingFileServed | server.js:37-57 | an admitted joined path that reads as a file is answered with 200, its bytes, its content type and `no-cache`, without fallback |
| Server.TrailingSlashJoin | server.js:27 | the URL `/n/` joins to `DIST_DIR/n/`: the trailing '/' is kept |
| Server.TrailingSlashUrl | server.js:37-57 | for the URL `/n/`: when `DIST_DIR/n` is a directory, readable or not, the answer is 500 with no fallback; otherwise the path counts as missing |
| Server.IndexLookup | server.js:41-42 | looking up `DIST_DIR/index.html` finds its own entry |
| Server.RespondContained | server.js:30 | with the directory guard, every 200 serves a path inside `DIST_DIR` |
| Server.IndexAdmitted | server.js:41 | the fallback path is `DIST_DIR + "/index.html"`, and both guards admit it |
| Server.IndexIsHtml | server.js:62-63 | `DIST_DIR/index.html` is served as `text/html` |
| Server.RootServesIndex | server.js:27 | URL `/` with a readable `index.html` gives 200, `text/html`, `no-cache` and the file's bytes |
| Server.RootWithoutIndexIsNotFound | server.js:40 | URL `/` without `index.html` gives 404: no fallback for `/` |
| Server.ForbiddenWhateverTheFiles | server.js:30-34 | a path the guard refuses gives 403 whatever the file system holds |
| Server.MissingRouteFallsBack | server.js:39-49 | a missing extensionless URL other than `/` is answered as `index.html` when it exists, and with 404 otherwise |
| Server.ExtensionlessRoute | server.js:39-49 | a missing route `/n` whose name has no '.' after its first character is answered as `index.html` when it exists, and with 404 otherwise |
| Server.MissingFileIsNotFound | server.js:50-53 | a missing path whose URL is `/` or has an extension gives 404 |
| Server.UnreadableIsServerError | server.js:65-70 | a found path that does not read as a file gives 500 |
| Server.ContentTypeIgnoresCase | server.js:62 | paths equal up to ASCII case get the same content type, so `.PNG` is served as `.png` |
| Server.DirectoryGuardKeepsInside | server.js:30 | a path the directory guard admits lies inside `DIST_DIR` |
| Server.SiblingDirectoryEscapes | server.js:30 | with `DIST_DIR` = `/a/dist`, the URL `/../dist2/f` is served from `/a/dist2/f`, outside `DIST_DIR`; the directory guard gives 403 for it |
| FileSystem.Lookup | server.js:37 | a path ending in '/' finds only a directory, readable or not; whatever is found is the entry of the path or of the path without its last '/' |
| FileSystem.LookupKey | server.js:37 | a path that does not end in '/' finds its own entry, or nothing when absent |
| FileSystem.LookupTrailingSlash | server.js:37 | `d/` finds the entry of `d` when that is a directory, readable or not, and nothing when `d` is a file, an unreadable file or absent |
| FileSystem.CopyFile | build.js:38 | in the model, `copyFileSync` succeeds exactly when the source is a readable file and the target is absent or a file; then the target holds the source's entry and nothing else changes; on failure nothing changes |
| FileSystem.WriteFile | build.js:19 | in the model, `writeFileSync` succeeds exactly when the path is absent or a file; then the path holds the data and nothing else changes; on failure nothing changes |
| FileSystem.EnsureDir | build.js:7-8 | after `existsSync` then `mkdirSync`, the directory exists; an existing entry is left as it is |
| FileSystem.Children | build.js:36 | the listed names are plain names of existing entries, and every entry directly inside the directory is listed |
| FileSystem.Disk.Exists | build.js:31 | `existsSync` is true exactly for a present path |
| FileSystem.Disk.MakeDir | build.js:33 | the new tree is `EnsureDir` of the old one |
| FileSystem.Disk.ReadDir | build.js:36 | it succeeds exactly on a directory and then lists each child once; on failure it lists nothing |
| FileSystem.Disk.Copy | build.js:38 | the new tree and result are those of `CopyFile` |
| FileSystem.Disk.Write | build.js:194 | the new tree and result are those of `WriteFile` |
| Statistics.Categories | build.js:226 | the mapped list has one category per photo |
| Statistics.Locations | build.js:227 | the mapped list has one location per photo |
| Statistics.FeaturedPhotos | build.js:225 | the filter keeps exactly the featured photos and is no longer than the list |
| Statistics.Distinct | build.js:226 | the deduplicated list has no repeats, holds exactly the input's values, and is no longer than the input |
| Statistics.Compute | build.js:224-227 | Photos is the list length; Featured is the number of featured positions; Categories and Locations are the numbers of distinct values; each is at most Photos, and Categories and Locations are 0 exactly for an empty list |
| Statistics.FeaturedCount | build.js:225 | the filtered list is as long as the set of featured positions |
| Statistics.DistinctCount | build.js:226-227 | `[...new Set(xs)].length` is the number of distinct values of `xs` |
| Statistics.MappedValues | build.js:226-227 | the mapped lists hold exactly the photos' categories and locations |
| Statistics.OneCategory | build.js:226 | a non-empty list whose photos share one category counts one category |
| Build.CopyAll | build.js:37-39 | the copy loop removes no entry |
| Build.CopyEach | build.js:37-39 | the `forEach` over a listing removes no entry, and over an empty listing changes nothing and succeeds |
| Build.CopyOrPlaceAll | build.js:45-56 | the static-file loop removes no entry |
| Build.StaticEach | build.js:45-56 | the `forEach` over the static files removes no entry |
| Build.CopyAssetsStep | build.js:27-57 | `copyAssets` removes no entry, and with `assets/` present leaves `dist/assets` in place |
| Build.Prepared | build.js:5-9 | after line 8 and `buildIndex`, `dist/` exists and no entry has been removed |
| Build.Placeholder | build.js:59-171 | a placeholder exists exactly for `style.css`, `fade_in.js` and `menu.js` |
| Build.CopyOrPlace | build.js:46-55 | one static file changes only its destination and removes nothing |
| Build.AssetStep | build.js:31-41 | without `assets/`, the asset copy changes nothing and succeeds |
| Build.IndexStep | build.js:15-24 | a rendered page is written to `dist/index.html` when that path is writable; when the write fails, or reading or rendering the template fails, nothing changes |
| Build.AfterCopy | build.js:214-216 | the steps begun are a prefix of length 2 to 4 of render, copy, sitemap, robots; a completed build began all four |
| Build.BuildRun | build.js:210-216 | the same ordering facts for the whole script |
| Build.CopyListed | build.js:36-39 | the loop's tree and result are those of `CopyEach` on the listing |
| Build.CreatePlaceholderFile | build.js:59-171 | it writes the name's placeholder, and writes nothing for other names |
| Build.CopyStaticFile | build.js:46-55 | it copies the source when it exists, and otherwise writes the placeholder |
| Build.CopyStaticFiles | build.js:44-56 | the loop's tree and result are those of `StaticEach` |
| Build.CopyAssetsTo | build.js:27-57 | `copyAssets` leaves the tree and result of `CopyAssetsStep`, with a listing `readdirSync` may return for the initial tree |
| Build.BuildIndex | build.js:15-24 | it leaves the tree of `IndexStep`, and it never fails |
| Build.Prepare | build.js:5-9 | creating `dist/` and `await buildIndex()` leave the tree of `Prepared` |
| Build.Generate | build.js:173-207 | sitemap then robots: the tree, steps and completion of `AfterCopy` |
| Build.BuildSite | build.js:210-228 | the run's tree and steps are those of `BuildRun`; statistics are printed exactly when it completes, and are `Compute(photos)` |
| Build.Layout | build.js:6 | `dist`, `assets` and `dist/assets` are normalised directories below the root |
| Build.AssetsListUnchanged | build.js:32-36 | creating `dist/assets` does not change `assets/` or its listing |
| Build.ListingBeforeCopy | build.js:213-214 | creating `dist/` and writing `index.html` do not change `assets/` or its listing |
| Build.CopyAllFrame | build.js:37-39 | the asset copy loop changes only its destinations and removes nothing |
| Build.CopyAllStops | build.js:37-39 | after a failed copy the remaining entries change nothing |
| Build.CopyAllOk | build.js:37-39 | with apart paths, the loop succeeds exactly when every pair is copyable in the initial tree |
| Build.CopyAllContents | build.js:37-39 | after a successful loop with apart paths, each destination holds its source's initial entry |
| Build.CopyOrPlaceAllFrame | build.js:45-56 | the static-file loop changes only its destinations and removes nothing |
| Build.CopyOrPlaceAllStops | build.js:45-56 | after a failed static file the remaining files change nothing |
| Build.CopyOrPlaceAllResult | build.js:45-56 | with apart paths, the loop succeeds exactly when every file is placeable; then each destination holds its source, or its placeholder when the source is missing |
| Build.AssetsApart | build.js:28-29 | no `assets/n` is a `dist/assets/m`, and distinct names give distinct destinations |
| Build.StaticApart | build.js:46-47 | no `root/n` is a `dist/m`, and the three destinations are distinct |
| Build.StaticEachByName | build.js:45-56 | the static-file loop's result, stated per name |
| Build.StaticEachFrame | build.js:45-56 | the static-file loop changes nothing outside `dist/n` for its names |
| Build.StaticFilesPlaced | build.js:44-56 | for each static file: the step succeeds exactly when each is placeable; then `dist/n` holds the source's contents, or the placeholder of `n` when the source is missing; no other path changes |
| Build.CopyEachByName | build.js:37-39 | the asset copy loop's result, stated per name |
| Build.AssetsCopied | build.js:31-41 | with `assets/` present, `dist/assets` exists afterwards; the copy succeeds exactly when `assets/` is a directory whose every entry is copyable; then every entry is in `dist/assets` with identical contents |
| Build.NoAssetsNoCopies | build.js:31 | without `assets/`, `copyAssets` creates or changes nothing under `dist/assets` |
| Build.CopyAssetsFrame | build.js:27-57 | `copyAssets` changes only `dist/assets`, `dist/assets/n` for the listed names, and the three `dist/` static files |
| Build.CopyAllAgree | build.js:37-39 | a copy loop that never touches a path gives the same result on trees that differ only there |
| Build.CopyOrPlaceAllAgree | build.js:45-56 | the same for the static-file loop |
| Build.CopyAssetsAgree | build.js:27-57 | `copyAssets` gives the same result on trees that differ only at `dist/index.html` |
| Build.AfterCopyAgree | build.js:215-216 | sitemap and robots take the same course on trees that differ only at `dist/index.html` |
| Build.PreparedAgree | build.js:19 | rendering the page changes only `dist/index.html` |
| Build.RenderSwallowed | build.js:21-23 | a build whose page could not be read or rendered begins the same steps, completes exactly when a build with the page does, and leaves every file except `dist/index.html` as that build does |
| Build.GeneratedFiles | build.js:194-205 | a completed build has written the sitemap and robots texts; the generation steps begin exactly when `copyAssets` returned |

## Left out

- The HTTP server: `http.createServer`, the port, `listen`, the exit when `dist/` is missing, and the SIGINT shutdown (server.js:26, 80-99). These are process plumbing; the handler is modelled on a given request URL.
- The callbacks of `fs.access` and `fs.readFile`, and the `async`/`await` of the build. The model runs each lookup in sequence on a file system that does not change during a request.
- Windows path semantics. Only POSIX `path.join`, `path.normalize` and `path.extname` are modelled.
- Percent-decoding and query strings. The handler does neither, so the model takes the URL as the path text.
- The EJS template engine and the read of `templates/index.ejs` (build.js:17-18). Their combined result is a parameter that is either the rendered page or a failure.
- `JSON.parse` of `data/portfolio.json` (build.js:12). The model starts from the parsed list of photos.
- The literal placeholder, sitemap and robots texts, and today's date in the sitemap (build.js:61-203). They are opaque parameters (`Texts`).
- All console logging.
- The order of `readdirSync`'s listing. It is a parameter, constrained to list each child exactly once.
- Server.ContentType: lower-cases ASCII letters only, because `toLowerCase` on other letters needs Unicode tables.
- FileSystem.CopyFile: fails only for the causes above. An `EACCES` on a read-only file, an `ENOENT` for a missing parent directory and an `ENOSPC` are not modelled, so the model may report success where Node throws.
- FileSystem.WriteFile: fails only on a directory or an unreadable entry. The same `EACCES`, `ENOENT` and `ENOSPC` causes are not modelled.
- FileSystem.Disk.MakeDir: never fails. `mkdirSync` with `recursive: true` throws when a parent is a file or cannot be written; the model has no parent directories.
- FileSystem.Disk.ReadDir: fails exactly on a path that is not a readable directory. A directory without read permission is an unreadable entry in the model, so it fails too; no other cause is modelled.
- FileSystem.EnsureDir: does not model the parent directories that `mkdirSync` with `recursive: true` creates. Paths are flat keys, so a write below a path that names a file is not refused.
- Statistics.Photo: holds only `category`, `location` and the truthiness of `featured`. Categories are compared as strings.
- Statistics.Distinct: the first-occurrence order of `new Set` is not proved; only the members and their count are.
- Build.RenderSwallowed: requires the assets listing to be made of plain names, as every `readdirSync` listing is.

## Findings

| source | as written | input that shows it | evidently intended | confidence | as-written member | corrected member |
|---|---|---|---|---|---|---|
| server.js:30 | `filePath.startsWith(DIST_DIR)` is a character-prefix test | `DIST_DIR` = `/srv/dist` and URL `/../dist2/a.txt` join to `/srv/dist2/a.txt`; that path starts with `/srv/dist`, so the file is served | serve only the directory itself or paths below `DIST_DIR + "/"` | medium; not executed | Server.SiblingDirectoryEscapes | Server.RespondContained |
