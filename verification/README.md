# Crafter Studio: repository-sync gate, WebDAV URL handling, configuration merge

A Dafny model of three pieces of sequential logic in Crafter Studio:

- **The repository sync task** (`StudioSyncRepositoryTask`). For one site it
  1. looks the site up in the registry;
  2. checks the site-UUID marker file in the site's repository on disk;
  3. reads the last verified git-log commit;
  4. asks the site service to replay the repository into the database from that commit.

  The replay is asked for only when the marker names the UUID the registry stores and the commit id is
  non-empty. Every failure is logged and swallowed (module `SyncRepositoryTask`).
- **The WebDAV service** (`WebDavServiceImpl`). It builds the URL a folder listing is made at, filters what
  the server lists, names each listed resource and gives it a URL. It also builds the URL an upload goes to and
  the public URL it answers (module `WebDavService`).
- **The Studio configuration** (`StudioConfigurationImpl`). It puts the base YAML file's properties into
  the property map, then puts the additional file's properties over them. The additional file is read only
  when the base file names it. `getProperty` answers from the map (module `StudioConfiguration`).

Supporting modules:

- `Wrappers` holds `Option` for nullable references and `Result` for calls that can throw.
- `Strings` models the Apache `StringUtils` operations and `String.split` the services use.

Everything is pure functions over strings, sequences and maps. The outside world is passed in as
values:

- the site registry, the file system and the site service's answers (`SyncRepositoryTask.Environment`);
- the WebDAV client, URI encoding, URL parsing and MIME types (`WebDavService.Remote`);
- the class path and YAML parsing (`StudioConfiguration.Sources`).

A failing outside call is an explicit answer in those values: a missing map entry, `None` or `Throws`.
The task's calls into the site service are recorded as a trace (`ServiceCall`). The upload's WebDAV
requests are recorded as `DavCall`.

Two points where the code is narrower than its usual description:

- The marker is often described as ignoring comment and blank lines. The code skips only lines
  starting with `#`, so a blank line matches an empty stored UUID (`SyncRepositoryTask.ExampleMarker`).
  The model follows the code.
- Fetching the new commits, applying them and advancing the watermark all happen inside
  `syncDatabaseWithRepo`, which is not part of this model. The model stops at the request to replay.

## Model

| member | source | states |
|---|---|---|
| SyncRepositoryTask.ScanLines | src/main/java/org/craftercms/studio/impl/v2/job/StudioSyncRepositoryTask.java:84-89 | the scan with early exit finds a line exactly when some marker line is not a comment and equals the stored UUID |
| SyncRepositoryTask.CheckSiteUuid | src/main/java/org/craftercms/studio/impl/v2/job/StudioSyncRepositoryTask.java:78-94 | the marker check is true exactly when the marker is readable and some line matches; an unreadable marker is "no match", not an error; only a failure building the path escapes |
| SyncRepositoryTask.SyncRepository | src/main/java/org/craftercms/studio/impl/v2/job/StudioSyncRepositoryTask.java:65-76 | the calls made are the site lookup, then the commit lookup only if the marker confirms the site, then the replay only if the gate opens; the run ends in an exception exactly when the site is unknown, the marker path cannot be built, the confirmed site's commit lookup throws, or the requested replay throws; a mismatching or unreadable marker and a null or empty commit end it quietly |
| SyncRepositoryTask.ExecuteInternal | src/main/java/org/craftercms/studio/impl/v2/job/StudioSyncRepositoryTask.java:51-63 | the task returns normally in every case; the replay is requested at most once, for this site, exactly when the gate opens, and with exactly the commit the gate read; the exception logged is exactly the one the sync ended with: site not found, invalid marker path, or a service failure |
| SyncRepositoryTask.CommentUuidNeverMatches | src/main/java/org/craftercms/studio/impl/v2/job/StudioSyncRepositoryTask.java:85 | a stored UUID starting with `#` matches no marker, because comment lines never match |
| SyncRepositoryTask.NullUuidNeverMatches | src/main/java/org/craftercms/studio/impl/v2/job/StudioSyncRepositoryTask.java:85 | a null stored UUID matches no marker |
| SyncRepositoryTask.MarkerOrderIrrelevant | src/main/java/org/craftercms/studio/impl/v2/job/StudioSyncRepositoryTask.java:84-89 | reordering the marker's lines does not change the outcome |
| SyncRepositoryTask.NonMatchingLinesIrrelevant | src/main/java/org/craftercms/studio/impl/v2/job/StudioSyncRepositoryTask.java:84-89 | inserting non-matching lines anywhere in the marker does not change the outcome |
| SyncRepositoryTask.ExampleMarker | src/main/java/org/craftercms/studio/impl/v2/job/StudioSyncRepositoryTask.java:84-89 | the marker `# comment`, blank, `abc-123` matches the UUID `abc-123`; the blank line also matches an empty UUID |
| SyncRepositoryTask.UnreadableMarkerSkipsQuietly | src/main/java/org/craftercms/studio/impl/v2/job/StudioSyncRepositoryTask.java:90-93 | an unreadable marker ends the run normally after the site lookup, with no commit lookup, no replay and no exception logged |
| SyncRepositoryTask.MissingSiteSkips | src/main/java/org/craftercms/studio/impl/v2/job/StudioSyncRepositoryTask.java:51-67 | an unknown site leads to no replay and a logged failure, and the task still returns normally |
| SyncRepositoryTask.MismatchTouchesNothing | src/main/java/org/craftercms/studio/impl/v2/job/StudioSyncRepositoryTask.java:68-75 | when the marker does not confirm the site, nothing past the site lookup is called |
| SyncRepositoryTask.CommitLookupFailureIsLogged | src/main/java/org/craftercms/studio/impl/v2/job/StudioSyncRepositoryTask.java:51-70 | a commit lookup that throws for a confirmed site is logged as a service failure and nothing is replayed |
| SyncRepositoryTask.EmptyCommitSkipsQuietly | src/main/java/org/craftercms/studio/impl/v2/job/StudioSyncRepositoryTask.java:69-75 | a null or empty last verified commit ends the run after the lookup, with no replay and nothing logged |
| SyncRepositoryTask.FailedReplayIsContained | src/main/java/org/craftercms/studio/impl/v2/job/StudioSyncRepositoryTask.java:51-73 | a replay that throws was requested once with the gate's commit; its failure is logged and the task returns normally |
| StudioConfiguration.Merge | src/main/java/org/craftercms/studio/impl/v1/util/StudioConfigurationImpl.java:74-80 | putting entries keeps every old key, sets each entry's key to the entry's value, and leaves every other key's value alone |
| StudioConfiguration.PutAll | src/main/java/org/craftercms/studio/impl/v1/util/StudioConfigurationImpl.java:75-80 | the put loop over the entries' keys, in any order, yields that merge |
| StudioConfiguration.ReadBase | src/main/java/org/craftercms/studio/impl/v1/util/StudioConfigurationImpl.java:49-57 | the base file is the parsed resource at the configured location; a location that cannot be opened gives an empty document, not an error |
| StudioConfiguration.ReadAdditional | src/main/java/org/craftercms/studio/impl/v1/util/StudioConfigurationImpl.java:59-72 | an additional file is read only when the base names one, from the location it names; a location that cannot be opened gives an empty document |
| StudioConfiguration.LoadConfiguration | src/main/java/org/craftercms/studio/impl/v1/util/StudioConfigurationImpl.java:45-81 | the load throws exactly when either file is unparseable or an empty document; keys are never removed; on success the additional values win, base values fill the rest, and other keys keep their prior values; a parse error or a null document, in either the base or the additional file, changes nothing and throws |
| StudioConfiguration.GetProperty | src/main/java/org/craftercms/studio/impl/v1/util/StudioConfigurationImpl.java:83-86 | a known key gives its stored value; an unknown key gives null |
| StudioConfiguration.LoadThenGet | src/main/java/org/craftercms/studio/impl/v1/util/StudioConfigurationImpl.java:74-86 | after a successful load, `getProperty` answers the additional value, else the base value, else the value held before the load |
| StudioConfiguration.UnreadableBaseChangesNothing | src/main/java/org/craftercms/studio/impl/v1/util/StudioConfigurationImpl.java:46-59 | a base file that cannot be read raises nothing, reads no additional file, and leaves the map unchanged |
| StudioConfiguration.EmptyAdditionalChangesNothing | src/main/java/org/craftercms/studio/impl/v1/util/StudioConfigurationImpl.java:62-68 | an empty additional file makes the load throw before anything is put, so the map keeps its old contents and no base entry is added |
| StudioConfiguration.AdditionalOnlyWhenNamed | src/main/java/org/craftercms/studio/impl/v1/util/StudioConfigurationImpl.java:59-72 | when the base does not name an additional location, no other class-path resource affects the outcome |
| StudioConfiguration.LoadIdempotent | src/main/java/org/craftercms/studio/impl/v1/util/StudioConfigurationImpl.java:74-80 | loading twice from the same files gives the same map and outcome as loading once |
| Strings.AppendIfMissing | src/main/java/org/craftercms/studio/impl/v1/service/webdav/WebDavServiceImpl.java:123 | the result ends with the suffix and starts with the input; the suffix is added only when it is missing |
| Strings.RemoveEnd | src/main/java/org/craftercms/studio/impl/v1/service/webdav/WebDavServiceImpl.java:166 | one trailing occurrence of the suffix is dropped, if present; otherwise the text is unchanged |
| Strings.IndexOf | src/main/java/org/craftercms/studio/impl/v1/service/webdav/WebDavServiceImpl.java:152 | gives the first position where the text occurs, or none when it occurs nowhere |
| Strings.ReplaceFirst | src/main/java/org/craftercms/studio/impl/v1/service/webdav/WebDavServiceImpl.java:202 | the first occurrence of the target is replaced and the text around it kept; text without the target is unchanged |
| Strings.RemoveFirst | src/main/java/org/craftercms/studio/impl/v1/service/webdav/WebDavServiceImpl.java:152 | the first occurrence of the target is cut out and the text around it kept; text without the target is unchanged |
| Strings.ReplaceFirstOfPrefix | src/main/java/org/craftercms/studio/impl/v1/service/webdav/WebDavServiceImpl.java:202 | replacing the first occurrence of a prefix re-roots the rest of the text at the replacement |
| Strings.ReplaceFirstSplices | src/main/java/org/craftercms/studio/impl/v1/service/webdav/WebDavServiceImpl.java:152 | when the target occurs, exactly its first occurrence is replaced and everything around it is kept |
| Strings.ReplaceFirstAbsent | src/main/java/org/craftercms/studio/impl/v1/service/webdav/WebDavServiceImpl.java:152 | text without the target comes back unchanged |
| Strings.SubstringAfterLast | src/main/java/org/craftercms/studio/impl/v1/service/webdav/WebDavServiceImpl.java:168 | the result has no separator; it is what follows the last separator, or empty when there is none |
| Strings.Split | src/main/java/org/craftercms/studio/impl/v1/service/webdav/WebDavServiceImpl.java:116 | splitting gives at least one piece (the empty text is one empty piece); `SplitJoin`, `SplitNoSeparator` and `SplitConcat` state what the pieces are |
| Strings.SplitNoSeparator | src/main/java/org/craftercms/studio/impl/v1/service/webdav/WebDavServiceImpl.java:116 | a text without the separator is a single piece |
| Strings.SplitJoin | src/main/java/org/craftercms/studio/impl/v1/service/webdav/WebDavServiceImpl.java:116 | splitting on `/` loses nothing: the pieces have no separator and join back to the input |
| Strings.SplitConcat | src/main/java/org/craftercms/studio/impl/v1/service/webdav/WebDavServiceImpl.java:116 | a separator between two texts splits them independently |
| WebDavService.NonEmpty | src/main/java/org/craftercms/studio/impl/v1/service/webdav/WebDavServiceImpl.java:118 | keeps exactly the non-empty pieces: each kept piece is non-empty and drawn from the input, and every non-empty input piece is kept; `NonEmptyConcat` adds that the order is kept |
| WebDavService.NonEmptyConcat | src/main/java/org/craftercms/studio/impl/v1/service/webdav/WebDavServiceImpl.java:117-121 | dropping empty pieces works run by run, so the kept pieces stay in their order |
| WebDavService.Segments | src/main/java/org/craftercms/studio/impl/v1/service/webdav/WebDavServiceImpl.java:115-122 | the folder names of the path are non-empty and contain no slash; with `SegmentsOfName`, `SegmentsAroundSlash` and `SegmentsOfJoin` they are exactly the non-empty segments, in order |
| WebDavService.ListPath | src/main/java/org/craftercms/studio/impl/v1/service/webdav/WebDavServiceImpl.java:105-123 | the listing URL starts with the profile's base URL verbatim and always ends with a slash |
| WebDavService.SegmentsAroundSlash | src/main/java/org/craftercms/studio/impl/v1/service/webdav/WebDavServiceImpl.java:115-122 | the segments on both sides of a slash follow one another |
| WebDavService.SegmentsOfName | src/main/java/org/craftercms/studio/impl/v1/service/webdav/WebDavServiceImpl.java:115-122 | a non-empty path without a slash is one segment, itself |
| WebDavService.SegmentsOfJoin | src/main/java/org/craftercms/studio/impl/v1/service/webdav/WebDavServiceImpl.java:115-122 | non-empty, slash-free folder names joined by single slashes read back as exactly those names, in order |
| WebDavService.LeadingSlashIgnored | src/main/java/org/craftercms/studio/impl/v1/service/webdav/WebDavServiceImpl.java:115-123 | a leading slash in the path changes nothing |
| WebDavService.TrailingSlashIgnored | src/main/java/org/craftercms/studio/impl/v1/service/webdav/WebDavServiceImpl.java:115-123 | a trailing slash in the path changes nothing |
| WebDavService.DoubledSlashIgnored | src/main/java/org/craftercms/studio/impl/v1/service/webdav/WebDavServiceImpl.java:115-123 | a doubled slash counts as one |
| WebDavService.NoSegmentsListsBase | src/main/java/org/craftercms/studio/impl/v1/service/webdav/WebDavServiceImpl.java:115-123 | a path with no folder name (null, empty, or all slashes by `OnlySlashesNoSegments`) lists the base URL, with a slash added only if the base URL lacks one |
| WebDavService.OnlySlashesNoSegments | src/main/java/org/craftercms/studio/impl/v1/service/webdav/WebDavServiceImpl.java:115-122 | a path made only of slashes has no folder name, since every piece between its slashes is empty |
| WebDavService.EncodedPath | src/main/java/org/craftercms/studio/impl/v1/service/webdav/WebDavServiceImpl.java:117-121 | the encoded path is empty exactly when there are no segments; `EncodedPathSplit` reads it back |
| WebDavService.EncodedPathSplit | src/main/java/org/craftercms/studio/impl/v1/service/webdav/WebDavServiceImpl.java:119 | the encoded segments, each after one slash, read back as exactly those encoded segments |
| WebDavService.EncodedPathEnd | src/main/java/org/craftercms/studio/impl/v1/service/webdav/WebDavServiceImpl.java:119-123 | a non-empty encoded path never ends with a slash, so exactly one slash is appended |
| WebDavService.ListPathLayout | src/main/java/org/craftercms/studio/impl/v1/service/webdav/WebDavServiceImpl.java:105-123 | after the base URL, the listing URL is exactly the encoded segments, each after one slash, then one final slash |
| WebDavService.FilterFor | src/main/java/org/craftercms/studio/impl/v1/service/webdav/WebDavServiceImpl.java:109-113 | a null or empty type, or `item`, selects match-all; any other type is used as given |
| WebDavService.Keep | src/main/java/org/craftercms/studio/impl/v1/service/webdav/WebDavServiceImpl.java:141 | folders always pass; a file fails the stream exactly when its content type is null or does not parse; otherwise match-all passes it and a typed filter answers whether it includes the file's type |
| WebDavService.ToItems | src/main/java/org/craftercms/studio/impl/v1/service/webdav/WebDavServiceImpl.java:142-144 | one item per kept resource, in order, each carrying its name, its URL and whether it is a folder |
| WebDavService.Select | src/main/java/org/craftercms/studio/impl/v1/service/webdav/WebDavServiceImpl.java:139-144 | the stream fails exactly when some listed file's content type cannot be parsed; otherwise it keeps exactly the resources that pass the filter, folders included |
| WebDavService.SelectIsSurvivors | src/main/java/org/craftercms/studio/impl/v1/service/webdav/WebDavServiceImpl.java:139-144 | a stream that does not abort yields exactly the entries the filter keeps, in listing order, duplicates included |
| WebDavService.SelectConcat | src/main/java/org/craftercms/studio/impl/v1/service/webdav/WebDavServiceImpl.java:139-144 | the filter stage keeps order and duplicates: the survivors of two runs, both passing, are the survivors of each run in sequence |
| WebDavService.SelectConcatFails | src/main/java/org/craftercms/studio/impl/v1/service/webdav/WebDavServiceImpl.java:139-144 | two runs together pass exactly when each run passes |
| WebDavService.SelectOne | src/main/java/org/craftercms/studio/impl/v1/service/webdav/WebDavServiceImpl.java:139-141 | a single entry is kept, dropped or aborts the stream exactly as the filter decides for it |
| WebDavService.ListExisting | src/main/java/org/craftercms/studio/impl/v1/service/webdav/WebDavServiceImpl.java:133-147 | every failure after the existence check is the listing error |
| WebDavService.List | src/main/java/org/craftercms/studio/impl/v1/service/webdav/WebDavServiceImpl.java:98-148 | a type `new MimeType` rejects fails the listing; an absent folder lists nothing; a SardineException from the existence check proceeds exactly as "exists"; any other failure is the listing error |
| WebDavService.ListedItems | src/main/java/org/craftercms/studio/impl/v1/service/webdav/WebDavServiceImpl.java:137-144 | the first listed entry, the folder itself, is never returned; every returned item is a later entry that passed the filter; every listed sub-folder is returned |
| WebDavService.FolderAloneListsNothing | src/main/java/org/craftercms/studio/impl/v1/service/webdav/WebDavServiceImpl.java:139-140 | a listing that contains only the folder itself returns nothing |
| WebDavService.GetUrl | src/main/java/org/craftercms/studio/impl/v1/service/webdav/WebDavServiceImpl.java:151-158 | folders are put under the base URL; files are put under the delivery URL when it is non-empty, else under the base URL |
| WebDavService.GetUrlUnderBasePath | src/main/java/org/craftercms/studio/impl/v1/service/webdav/WebDavServiceImpl.java:151-158 | a resource under the base path gets the chosen host followed by the part of its path below the base path |
| WebDavService.GetUrlOutsideBasePath | src/main/java/org/craftercms/studio/impl/v1/service/webdav/WebDavServiceImpl.java:151-158 | a resource whose path does not contain the base path keeps its whole path after the host |
| WebDavService.GetName | src/main/java/org/craftercms/studio/impl/v1/service/webdav/WebDavServiceImpl.java:160-170 | a non-empty display name wins; otherwise the name contains no slash |
| WebDavService.GetNameIsLastSegment | src/main/java/org/craftercms/studio/impl/v1/service/webdav/WebDavServiceImpl.java:160-170 | without a display name, the name is what follows the last slash, after dropping one trailing slash from a folder's path; it is empty when no slash remains |
| WebDavService.GetNameOfFolder | src/main/java/org/craftercms/studio/impl/v1/service/webdav/WebDavServiceImpl.java:160-170 | the folder `/dav/docs/` without a display name is named `docs` |
| WebDavService.GetNameOfSlashEndedFile | src/main/java/org/craftercms/studio/impl/v1/service/webdav/WebDavServiceImpl.java:160-170 | the same path as a file is named with the empty text, since nothing follows its last slash |
| WebDavService.GetNameOfFile | src/main/java/org/craftercms/studio/impl/v1/service/webdav/WebDavServiceImpl.java:160-170 | `/dav/logo.png` with an empty display name is named `logo.png` |
| WebDavService.UploadUrl | src/main/java/org/craftercms/studio/impl/v1/service/webdav/WebDavServiceImpl.java:183-187 | the upload folder is the base URL, then a non-empty path with a leading slash ensured: a path that already starts with a slash is appended verbatim, never doubled |
| WebDavService.UploadLeadingSlashIgnored | src/main/java/org/craftercms/studio/impl/v1/service/webdav/WebDavServiceImpl.java:185-187 | a path and the same path with one leading slash give the same upload folder |
| WebDavService.PublicUrl | src/main/java/org/craftercms/studio/impl/v1/service/webdav/WebDavServiceImpl.java:201-204 | with a delivery base URL, a file URL under the base URL is re-rooted at the delivery URL; otherwise it is returned as is |
| WebDavService.UploadFile | src/main/java/org/craftercms/studio/impl/v1/service/webdav/WebDavServiceImpl.java:176-208 | creates the folder and then puts the file at folder + `/` + encoded name; succeeds exactly when the put does; answers that URL under the delivery URL when there is one, else under the base URL |

## Left out

- The scheduler (`StudioClockTask`): it decides which ticks run the task for which site. It is not among the modelled files, so no cycle or offset rule is modelled.
- `siteService.getLastVerifiedGitlogCommitId` and `syncDatabaseWithRepo`: these are outside calls. The model uses their answers (`lastVerifiedCommit`, `replaySucceeds`) and records the calls in a trace. The commit replay and watermark handling behind them are not modelled.
- The retrying database facade (`RetryingDatabaseOperationFacadeImpl`): each method delegates to one mapper call, and the retry interceptor is not among the modelled files.
- The workflow and marketplace REST controllers: they only forward to services outside this model.
- Building the marker path (`Paths.get` over two configuration properties, the site id and the marker file name) is `Environment.markerPath`. Its `None` stands for any runtime exception that call throws.
- `Files.readAllLines`, YAML parsing, the Sardine client, `UriUtils.encode`, `new URL(...).getPath()` and Spring `MimeType` are not modelled. They are answers passed in, because they are foreign libraries or I/O.
- `StringUtils.removeFirst` and `replaceFirst` treat their pattern as a regular expression, and `replaceFirst` also interprets `$` and `\` in its replacement. The model reads both literally: a base path or base URL with regex metacharacters is not modelled.
- `String.split` drops trailing empty pieces and `Split` keeps them. Empty pieces are filtered out right after, so the listing URL is the same either way.
- Logging, the static `threadCounter` and thread ids: side channels with no effect on the outcome. `Report.logged` records only the exception `executeInternal` catches; the info and debug messages are not recorded, among them the "Invalid site UUID" line written when the marker cannot be read.
- The WebDAV profile lookup (`profileReader.getProfile`), the user name, password and charset: the profile is passed in, and a failed lookup is not modelled.
- A null base URL, a null file name, the uploaded content stream and `createDirectory`'s answer are not modelled. The first two are assumed non-null. The stream is opaque. `createDirectory`'s failures are ignored by the source.
- A null `configLocation`, YAML values that are null, and the `toString` rendering of non-string YAML values are not modelled. Document values are taken as already-rendered strings. A null value would throw part-way through the put loop, in hash-map order.
- The values of the `LOAD_ADDITIONAL_CONFIGURATION` and `SITE_UUID_FILENAME` constants are not part of this model. They are parameters (`Sources.additionalKey`, and part of `markerPath`).
