# ipa-installer: the upload pipeline of `MainVerticle`

This project models, in Dafny, what the ipa-installer service does with one uploaded iOS
application archive (`processFile` in `MainVerticle`):

- it creates a fresh Amazon S3 bucket `apps-<uuid>`, public read-write, with a one-day lifecycle
  rule;
- it opens the upload as a ZIP archive and picks the first entry whose name matches
  `Payload/[^/]*.app/Info.plist`;
- it copies that entry to a scratch file, decodes it as a binary property list (falling back to a
  textual one) and reads the display name, bundle identifier and version;
- it uploads the package and makes it public-read, fills the manifest template with chained
  `String.replace` calls, uploads the manifest, makes it public-read, and makes the bucket
  read-only;
- it sends the result page with the `itms-services` install link and the expiry delay, and sets a
  timer that deletes the bucket after the configured delay (`TimeUnit.valueOf(unit).toMillis(delay)`);
- on failure it sends the error page; an archive that cannot be opened gets status 500 and its
  bucket is deleted again (list the objects, delete each, delete the bucket);
- when the result page has already been sent and `scheduleDelete` then throws (an unknown unit,
  or a delay that converts to less than 1 ms, which Vert.x's `setTimer` refuses), the error page
  cannot be sent on the ended response: that exception reaches the outer `catch`, which deletes
  the bucket and fails once more when it sends the error page, so the exception leaves
  `processFile` (the reply `Escaped`);
- the scratch file is deleted afterwards, or marked for deletion on exit when that fails;
- at start-up every bucket of the account is deleted.

Modules:

- `Base`: `Option` and bytes.
- `EntryPattern`: the metadata-entry expression, as a backtracking token matcher and as a direct
  predicate, proved equal; the first match in archive order.
- `Metadata`: the decoder fallback and the three Java casts.
- `Templates`: Java's `String.replace` (every occurrence; a `null` replacement throws), the
  manifest and result page chains, and `String.valueOf(int)`.
- `Naming`: version-4 UUIDs, bucket names, object URLs and the install link.
- `TimeUnits`: `TimeUnit.valueOf` and the saturating `toMillis`.
- `Storage`: the S3 client as a state machine. It has a bucket map and a trace of accepted calls.
  Its functions `Accepts` and `Apply` give the semantics. The class `Store` performs calls against
  them.
- `Pipeline`: the specification of one request as a function of the store state and of all
  inputs (`Pipeline.ProcessFile`), and the lemmas about its outcome.
- `Verticle`: the class `MainVerticle`, which holds the S3 client, the pending timers and the
  scratch files. Its methods do the work step by step. `MainVerticle.ProcessFile` is proved to
  make exactly the calls, replies, timers and file changes that `Pipeline.ProcessFile` specifies.
  The class invariant also guarantees that no bucket is ever narrowed to public-read before both
  of its objects have been made public-read.

Foreign code is passed in as parameters:

- the ZIP library: an archive is a list of entries, or nothing when the file cannot be opened;
  an entry's bytes may be unreadable;
- the two property-list libraries: partial decoders;
- the template files: possibly unreadable strings;
- `randomUUID`: the sixteen random bytes;
- `createTempFile`: a path or a failure;
- `File.delete`: success or failure;
- the configuration: an optional delay and an optional unit name.

Where the code behaves otherwise than a reader of the service would expect, the model follows the
code:

- Deleting a bucket is not idempotent. Listing a missing bucket throws, and nothing is
  deleted (`Verticle.MainVerticle.DeleteBucket` returns `ok == false`).
- Each `replace` substitutes every occurrence, not the first one.
- Any `TimeUnit` name passes `valueOf`, including `NANOSECONDS` … `MILLISECONDS`. With the
  default delay of 30, `MICROSECONDS` and `NANOSECONDS` convert to 0 ms, which `setTimer`
  refuses.
- The delay is any Java `int`; zero or a negative delay also converts to less than 1 ms.
- An unknown unit, or a delay below 1 ms after conversion, makes `scheduleDelete` throw after the
  result page has been sent. The request then ends with an exception and no timer, and the bucket
  that the result page links to is deleted.

## Model

| member | source | states |
|---|---|---|
| EntryPattern.DirectMatchesRegex | src/main/java/com/reactivebytes/manifestgenerator/MainVerticle.java:46 | A full match of the compiled expression (greedy `[^/]*` with backtracking, `.` refusing line terminators) holds exactly when the name is `Payload/`, a run without `/`, one non-terminator, `app/Info`, one non-terminator, `plist` |
| EntryPattern.MatchesInfoPattern | src/main/java/com/reactivebytes/manifestgenerator/MainVerticle.java:117 | `matcher(name).matches()` is true exactly when the name has the direct shape above |
| EntryPattern.FirstInfoEntry | src/main/java/com/reactivebytes/manifestgenerator/MainVerticle.java:117 | `findFirst` returns an index whose name matches and before which no name matches; it returns nothing exactly when no name matches |
| EntryPattern.UsualLayout | src/main/java/com/reactivebytes/manifestgenerator/MainVerticle.java:46 | `Payload/Demo.app/Info.plist` is selected |
| EntryPattern.UnescapedDots | src/main/java/com/reactivebytes/manifestgenerator/MainVerticle.java:46 | The dots are not escaped, so `Payload/Demo/app/Info_plist` is selected too |
| EntryPattern.RejectedNames | src/main/java/com/reactivebytes/manifestgenerator/MainVerticle.java:46 | An entry in a nested directory is refused, and so is a name with a line terminator in place of the dot before `plist` or after `plist` |
| Verticle.FindInfoEntry | src/main/java/com/reactivebytes/manifestgenerator/MainVerticle.java:117 | The scan over the archive entries returns the first matching entry, as `FirstInfoEntry` defines it |
| Metadata.DecodePlist | src/main/java/com/reactivebytes/manifestgenerator/MainVerticle.java:126-132 | Decoding fails exactly when both decoders fail; the binary result wins, and the textual one is used only when the binary decoder failed |
| Metadata.BinaryTakesPrecedence | src/main/java/com/reactivebytes/manifestgenerator/MainVerticle.java:126-132 | When the binary decoder succeeds its dictionary is the result, whatever the textual decoder would give |
| Metadata.EncodingDoesNotMatter | src/main/java/com/reactivebytes/manifestgenerator/MainVerticle.java:126-132 | A binary entry and a textual entry that decode to the same dictionary give the same result |
| Metadata.Extract | src/main/java/com/reactivebytes/manifestgenerator/MainVerticle.java:134-140 | Extraction fails exactly when a consulted value is not a string. Otherwise the display name comes from `CFBundleDisplayName` if that key is present, else from `CFBundleName`; the id and version come from their keys. A missing key gives `null` |
| Metadata.ExtractDependsOnFourKeys | src/main/java/com/reactivebytes/manifestgenerator/MainVerticle.java:134-140 | Dictionaries that agree on the four keys give the same metadata |
| Templates.ReplaceAll | src/main/java/com/reactivebytes/manifestgenerator/MainVerticle.java:154 | `replace` leaves a text unchanged when the target's first character does not occur in it |
| Templates.RenderManifest | src/main/java/com/reactivebytes/manifestgenerator/MainVerticle.java:154 | The manifest chain throws exactly when the display name, version or id is `null` |
| Templates.ManifestIsPlaceholderFill | src/main/java/com/reactivebytes/manifestgenerator/MainVerticle.java:154 | If the template text and the name, version and id contain no `{`, the chain `{name}`, `{version}`, `{id}`, `{url}` equals filling every placeholder independently |
| Templates.UrlTokenInDisplayName | src/main/java/com/reactivebytes/manifestgenerator/MainVerticle.java:154 | A display name `{url}` is rewritten into the package URL by the last `replace`, where independent filling keeps it |
| Templates.RenderResultPage | src/main/java/com/reactivebytes/manifestgenerator/MainVerticle.java:165-167 | A page template without `{` is sent unchanged, whatever the link and the delay |
| Templates.ResultPageIsPlaceholderFill | src/main/java/com/reactivebytes/manifestgenerator/MainVerticle.java:167 | If the page text and the link contain no `{`, the result page is the page with `{url}` and `{expiration}` filled independently |
| Templates.DecimalRoundTrip | src/main/java/com/reactivebytes/manifestgenerator/MainVerticle.java:167 | `String.valueOf(int)` is a sign and digits that read back as the number |
| Naming.RandomUuid | src/main/java/com/reactivebytes/manifestgenerator/MainVerticle.java:210 | `randomUUID` sets the version nibble to 4 and the two variant bits to `10`, and keeps every other random bit |
| Naming.FormatUuid | src/main/java/com/reactivebytes/manifestgenerator/MainVerticle.java:210 | The printed UUID has 36 characters, dashes at positions 8, 13, 18 and 23, and lower-case hexadecimal digits everywhere else |
| Naming.ParseFormat | src/main/java/com/reactivebytes/manifestgenerator/MainVerticle.java:209-211 | The printed UUID reads back as its sixteen bytes, so different UUIDs give different bucket names |
| Naming.VersionFourMarkers | src/main/java/com/reactivebytes/manifestgenerator/MainVerticle.java:209-211 | A drawn UUID prints version `4` and a variant digit among `8`, `9`, `a`, `b` |
| Naming.BucketName | src/main/java/com/reactivebytes/manifestgenerator/MainVerticle.java:209-211 | The bucket name has 41 characters, starts with `apps-`, and has no dot and no `{` |
| Naming.BucketNameValid | src/main/java/com/reactivebytes/manifestgenerator/MainVerticle.java:209-211 | Every generated name is a valid S3 bucket name: 3 to 63 lower-case letters, digits, hyphens or dots, beginning and ending with a letter or digit |
| Naming.FirstDotEndsBucket | src/main/java/com/reactivebytes/manifestgenerator/MainVerticle.java:144-145 | In the object URL of a dot-free bucket, the first dot after the scheme ends the bucket name |
| Naming.ObjectUrlInjective | src/main/java/com/reactivebytes/manifestgenerator/MainVerticle.java:144-145 | For dot-free buckets, the URL determines both the bucket and the key |
| Naming.ObjectUrl | src/main/java/com/reactivebytes/manifestgenerator/MainVerticle.java:144-145 | An object URL contains `{` exactly when the bucket or the key does, so the URLs of a generated bucket contain none |
| Naming.Link | src/main/java/com/reactivebytes/manifestgenerator/MainVerticle.java:160 | The install link contains `{` exactly when the manifest URL or the display name does |
| Naming.LinkReadBack | src/main/java/com/reactivebytes/manifestgenerator/MainVerticle.java:42 | For a manifest URL without `"`, the link reads back: the URL is the text after `url=` up to the first `">`, and the display name what follows, up to the closing `</a>` |
| TimeUnits.ValueOf | src/main/java/com/reactivebytes/manifestgenerator/MainVerticle.java:196 | `valueOf` accepts exactly the constant names, each yielding the constant of that name; `null` and every other name throw |
| TimeUnits.ToMillis | src/main/java/com/reactivebytes/manifestgenerator/MainVerticle.java:196-197 | Milliseconds convert to themselves, and the conversion never changes the sign of the delay |
| TimeUnits.GuardIsSaturation | src/main/java/com/reactivebytes/manifestgenerator/MainVerticle.java:196-197 | The overflow guard of `toMillis` is exactly saturation of the product at the `long` bounds |
| TimeUnits.ToMillisCoarse | src/main/java/com/reactivebytes/manifestgenerator/MainVerticle.java:196-197 | For seconds through days, `toMillis` is the saturated product |
| TimeUnits.ToMillisFine | src/main/java/com/reactivebytes/manifestgenerator/MainVerticle.java:196-197 | For nano- and microseconds, `toMillis` is the quotient rounded toward zero, for both signs |
| TimeUnits.IntDelayIsExact | src/main/java/com/reactivebytes/manifestgenerator/MainVerticle.java:196-197 | An `int` delay never saturates: the result is the exact product |
| TimeUnits.ExpirationMillis | src/main/java/com/reactivebytes/manifestgenerator/MainVerticle.java:196-197 | The timer delay exists exactly when `valueOf` accepts the unit. It is then the configured delay (default 30) times the milliseconds per unit for milliseconds and coarser units, and the delay divided toward zero for nano- and microseconds |
| TimeUnits.ExpirationExamples | src/main/java/com/reactivebytes/manifestgenerator/MainVerticle.java:43 | With no delay configured, minutes give 1 800 000 ms; 15 minutes give 900 000 ms; a missing or lower-case unit fails |
| Storage.Accepts | src/main/java/com/reactivebytes/manifestgenerator/MainVerticle.java:213-250 | A call the store accepts names an existing bucket, except `createBucket`, which needs a free name |
| Storage.Apply | src/main/java/com/reactivebytes/manifestgenerator/MainVerticle.java:213-250 | A refused call changes nothing. After an accepted call its bucket exists unless the call was `deleteBucket` |
| Storage.ApplyFrame | src/main/java/com/reactivebytes/manifestgenerator/MainVerticle.java:213-250 | A call changes no bucket other than its own |
| Storage.Enumerate | src/main/java/com/reactivebytes/manifestgenerator/MainVerticle.java:215 | A listing holds each element of the set exactly once |
| Storage.ApplyKeepsConsistent | src/main/java/com/reactivebytes/manifestgenerator/MainVerticle.java:148-150 | Every accepted call keeps two facts: no object is made public before it is uploaded, and every stored object was uploaded |
| Storage.Store.CreateBucket | src/main/java/com/reactivebytes/manifestgenerator/MainVerticle.java:229 | Bucket creation succeeds exactly when the name is free; the new bucket is empty, with the given ACL |
| Storage.Store.SetLifecycle | src/main/java/com/reactivebytes/manifestgenerator/MainVerticle.java:239 | The rules are replaced exactly when the bucket exists |
| Storage.Store.PutObject | src/main/java/com/reactivebytes/manifestgenerator/MainVerticle.java:148 | An upload into an existing bucket stores a private object under the key |
| Storage.Store.SetObjectAcl | src/main/java/com/reactivebytes/manifestgenerator/MainVerticle.java:248-250 | The object ACL changes exactly when the bucket and the key exist |
| Storage.Store.SetBucketAcl | src/main/java/com/reactivebytes/manifestgenerator/MainVerticle.java:244-246 | The bucket ACL changes exactly when the bucket exists |
| Storage.Store.DeleteObject | src/main/java/com/reactivebytes/manifestgenerator/MainVerticle.java:217 | The key is removed from an existing bucket |
| Storage.Store.DeleteBucket | src/main/java/com/reactivebytes/manifestgenerator/MainVerticle.java:220 | A bucket is removed only when it exists and is empty |
| Storage.Store.ListBuckets | src/main/java/com/reactivebytes/manifestgenerator/MainVerticle.java:225 | Lists every bucket name exactly once |
| Storage.Store.ListObjects | src/main/java/com/reactivebytes/manifestgenerator/MainVerticle.java:215 | Lists every key of the bucket exactly once; a missing bucket throws |
| Pipeline.CreateEffect | src/main/java/com/reactivebytes/manifestgenerator/MainVerticle.java:228-242 | On a store without the name, `createBucket` is accepted and adds an empty public-read-write bucket with the one-day `delete=true` rule |
| Pipeline.UploadEffect | src/main/java/com/reactivebytes/manifestgenerator/MainVerticle.java:148-150 | The package upload and its ACL are accepted on the new bucket, leaving the package as its only object, public-read |
| Pipeline.ManifestEffect | src/main/java/com/reactivebytes/manifestgenerator/MainVerticle.java:157-162 | The manifest upload, its ACL and the bucket ACL are accepted. The bucket is then read-only and holds both objects, public-read |
| Pipeline.FullCallsEffect | src/main/java/com/reactivebytes/manifestgenerator/MainVerticle.java:113-162 | Create plus upload, and create plus upload plus manifest, are accepted and leave the bucket shared or read-only |
| Pipeline.Publish | src/main/java/com/reactivebytes/manifestgenerator/MainVerticle.java:119-181 | The inner block makes its calls on the request's bucket only: none, the two package calls, or those and the three manifest calls. It sends one page, which is the error page exactly when the block neither set a timer nor threw; a timer deletes this bucket |
| Pipeline.PublishManifest | src/main/java/com/reactivebytes/manifestgenerator/MainVerticle.java:153-172 | The manifest part makes no call or its three calls, on the request's bucket. It sends one page, the error page exactly when it neither set a timer nor threw |
| Pipeline.Respond | src/main/java/com/reactivebytes/manifestgenerator/MainVerticle.java:164-172 | The result part makes no store call and sends one page, the error page exactly when the result template is unreadable. It throws exactly when it sent the result page without setting a timer; a timer it sets deletes this bucket after at least 1 ms |
| Pipeline.TimerRefusals | src/main/java/com/reactivebytes/manifestgenerator/MainVerticle.java:195-198 | `setTimer` refuses the microsecond and nanosecond units with the default delay (0 ms), and every unit with a delay of zero or less; minutes with the default delay are accepted |
| Pipeline.OuterCatch | src/main/java/com/reactivebytes/manifestgenerator/MainVerticle.java:187-192 | The outer `catch` replies 500 with the error page when nothing was sent yet; after a page was sent its own `sendError` throws and the exception escapes |
| Pipeline.ProcessFile | src/main/java/com/reactivebytes/manifestgenerator/MainVerticle.java:112-193 | Every call of a request names its own bucket, and so does its timer, which exists only if the bucket is kept. Nothing at all is sent exactly when the generated name is taken; otherwise the request starts with the create and lifecycle calls |
| Pipeline.AfterCopy | src/main/java/com/reactivebytes/manifestgenerator/MainVerticle.java:119-192 | Once the entry is copied out, the request's calls are the create and lifecycle calls followed by the inner block's, all on its bucket; it never ends with nothing sent, and a timer it keeps deletes this bucket and is never swept |
| Pipeline.PublishShape | src/main/java/com/reactivebytes/manifestgenerator/MainVerticle.java:121-169 | The inner block makes no call, or the package calls, or the package calls followed by the manifest calls |
| Pipeline.PublishEffect | src/main/java/com/reactivebytes/manifestgenerator/MainVerticle.java:148-162 | The inner block's calls are all accepted on the new bucket, and leave it in the state the block reached |
| Pipeline.PublishPrefix | src/main/java/com/reactivebytes/manifestgenerator/MainVerticle.java:113-162 | A request's calls are the first 2, 4 or 7 of the full sequence: create, lifecycle, put, ACL, put, ACL, bucket ACL |
| Pipeline.FullCallsOrdered | src/main/java/com/reactivebytes/manifestgenerator/MainVerticle.java:148-162 | The full sequence makes nothing public before its upload, and narrows the bucket only after both objects are public |
| Pipeline.ProcessFileOrdering | src/main/java/com/reactivebytes/manifestgenerator/MainVerticle.java:112-193 | For every input, a request makes no object public before uploading it, and narrows the bucket only after both objects are public-read |
| Pipeline.PublishOrdered | src/main/java/com/reactivebytes/manifestgenerator/MainVerticle.java:148-162 | The inner block alone narrows the bucket only after both objects are public-read |
| Pipeline.NarrowedAppend | src/main/java/com/reactivebytes/manifestgenerator/MainVerticle.java:162 | The narrowing order survives concatenation of histories |
| Pipeline.ProcessFileCalls | src/main/java/com/reactivebytes/manifestgenerator/MainVerticle.java:112-193 | With a readable archive, the calls are the bucket creation, followed by the inner block's calls exactly when the entry was read into a scratch file |
| Pipeline.ProcessFileUnreadable | src/main/java/com/reactivebytes/manifestgenerator/MainVerticle.java:187-192 | An archive that cannot be opened gives status 500 and the error page, the create and lifecycle calls, no timer and no scratch file, and the bucket is swept again |
| Pipeline.ProcessFileReply | src/main/java/com/reactivebytes/manifestgenerator/MainVerticle.java:116-192 | With a readable archive the request ends with an exception exactly when the inner block ran and threw, sending its pages. Otherwise it replies 200 with the inner block's page when the block ran, else the error page. The timer is the block's, and a scratch file exists only when an entry matched |
| Pipeline.ProcessFileEffect | src/main/java/com/reactivebytes/manifestgenerator/MainVerticle.java:112-193 | Every call is accepted, and together they only add the request's bucket, in the state the calls reached |
| Pipeline.ProcessFileCleanup | src/main/java/com/reactivebytes/manifestgenerator/MainVerticle.java:187-192 | No other bucket is touched. The request's bucket is gone exactly when the outer `catch` ran, which is when the archive cannot be opened or the request ends with an exception; the reply is 500 with the error page exactly when the archive cannot be opened |
| Pipeline.PublishSuccess | src/main/java/com/reactivebytes/manifestgenerator/MainVerticle.java:126-169 | The block sets a timer exactly when decoding, casts, templates, rendering, `valueOf` and `setTimer` all succeed. It then makes the seven calls with the rendered manifest, sends the result page with the link, and sets the timer for the configured delay |
| Pipeline.TimerOnlyOnSuccess | src/main/java/com/reactivebytes/manifestgenerator/MainVerticle.java:168-172 | A timer is set exactly when no error page is sent |
| Pipeline.TimerMeansInnerBlockRan | src/main/java/com/reactivebytes/manifestgenerator/MainVerticle.java:119-169 | A timer implies that the archive was read and the entry copied out, and the outcome is the inner block's |
| Pipeline.ProcessFileSuccess | src/main/java/com/reactivebytes/manifestgenerator/MainVerticle.java:112-169 | On success the timer was accepted, and the uploaded manifest is the template filled from the entry's metadata and the package URL. The only page is the result page with the install link, and the timer deletes this bucket after the delay |
| Pipeline.ProcessFileSuccessBucket | src/main/java/com/reactivebytes/manifestgenerator/MainVerticle.java:148-162 | On success the bucket is read-only and holds exactly the package and the manifest, both public-read |
| Pipeline.PublishFailure | src/main/java/com/reactivebytes/manifestgenerator/MainVerticle.java:164-181 | Without a timer, the inner block sends only the error page exactly when it did not throw. If it threw, it had sent the result page after all five upload calls, and only `scheduleDelete` failed: `valueOf` refused the unit or `setTimer` the delay |
| Pipeline.ProcessFileFailure | src/main/java/com/reactivebytes/manifestgenerator/MainVerticle.java:170-185 | A readable archive that sets no timer and does not end with an exception gives status 200 and the error page, and the bucket stays |
| Pipeline.ProcessFileEscape | src/main/java/com/reactivebytes/manifestgenerator/MainVerticle.java:164-192 | A request that ends with an exception sent only the result page, because `valueOf` refused the unit or `setTimer` a delay below 1 ms, after all seven calls; it sets no timer, and the outer `catch` has swept its bucket, leaving the store as it was |
| Verticle.MainVerticle.constructor | src/main/java/com/reactivebytes/manifestgenerator/MainVerticle.java:68 | The service starts with the given client, no timers and no scratch files |
| Verticle.MainVerticle.EmptyBucket | src/main/java/com/reactivebytes/manifestgenerator/MainVerticle.java:215-218 | Deleting the listed keys one by one removes exactly those objects, with one delete call per key in listing order |
| Verticle.MainVerticle.DeleteBucket | src/main/java/com/reactivebytes/manifestgenerator/MainVerticle.java:213-222 | `deleteBucket` removes the bucket, whatever it held: a delete per listed object, then the bucket delete. It throws with nothing changed when the bucket does not exist |
| Verticle.MainVerticle.DeleteAllBuckets | src/main/java/com/reactivebytes/manifestgenerator/MainVerticle.java:224-226 | After start-up cleanup the account holds no bucket |
| Verticle.MainVerticle.CreateBucket | src/main/java/com/reactivebytes/manifestgenerator/MainVerticle.java:228-242 | `createBucket` succeeds exactly when the name is free. It then adds the new bucket and makes the create and lifecycle calls; otherwise nothing changes |
| Verticle.MainVerticle.ScheduleDelete | src/main/java/com/reactivebytes/manifestgenerator/MainVerticle.java:195-199 | A timer for this bucket with `toMillis` of the delay is added exactly when `valueOf` accepts the unit and the delay is at least 1 ms, as `setTimer` requires |
| Verticle.MainVerticle.FireTimer | src/main/java/com/reactivebytes/manifestgenerator/MainVerticle.java:198 | A firing timer is removed and runs `deleteBucket`: if the bucket still exists its listed objects and then the bucket are deleted, one call each; otherwise it throws with nothing changed. Scratch files are unaffected |
| Verticle.MainVerticle.UploadPackage | src/main/java/com/reactivebytes/manifestgenerator/MainVerticle.java:148-150 | The package upload and its ACL are exactly the two package calls, applied to the store |
| Verticle.MainVerticle.PublishInfoEntry | src/main/java/com/reactivebytes/manifestgenerator/MainVerticle.java:126-150 | The inner block makes exactly the calls, pages, timer and exception of `Pipeline.Publish` |
| Verticle.MainVerticle.UploadManifest | src/main/java/com/reactivebytes/manifestgenerator/MainVerticle.java:153-162 | The manifest part makes exactly the calls, pages, timer and exception of `Pipeline.PublishManifest` |
| Verticle.MainVerticle.SendResult | src/main/java/com/reactivebytes/manifestgenerator/MainVerticle.java:164-172 | The result page and `scheduleDelete` give exactly the pages, timer and exception of `Pipeline.Respond` |
| Verticle.MainVerticle.ProcessArchive | src/main/java/com/reactivebytes/manifestgenerator/MainVerticle.java:116-185 | An archive that cannot be opened throws to the outer `catch`. A readable archive gives the pages, exception, calls and timer of the inner block when an entry matched and was copied out, else the error page. A scratch file that could not be deleted stays on disk, marked for deletion on exit |
| Verticle.MainVerticle.RunInnerBlock | src/main/java/com/reactivebytes/manifestgenerator/MainVerticle.java:119-172 | The inner block makes exactly the calls, pages, timer and exception of `Pipeline.Publish`, or sends the error page when the entry cannot be read |
| Verticle.MainVerticle.DropScratch | src/main/java/com/reactivebytes/manifestgenerator/MainVerticle.java:173-179 | The scratch file is removed from disk, or marked for deletion on exit when that fails |
| Verticle.MainVerticle.EndRequest | src/main/java/com/reactivebytes/manifestgenerator/MainVerticle.java:186-192 | Without an exception the pages sent make a 200 reply. An exception reaches the outer `catch`, which sweeps the bucket with `deleteBucket` and replies as `Pipeline.OuterCatch` says |
| Verticle.MainVerticle.ProcessFile | src/main/java/com/reactivebytes/manifestgenerator/MainVerticle.java:112-193 | `processFile` produces exactly the outcome of `Pipeline.ProcessFile`: reply, store state, call history including the outer `catch`'s sweep, timer and scratch files. It keeps the invariant that no bucket is narrowed before both its objects are public |

## Left out

- The Vert.x router, static assets, the HTTP server and `handleFileUpload`: only `processFile` is
  modelled.
- `handleFormUpload` (download from a URL) is not part of this model.
- AWS credentials and region setup: the client is given to the constructor.
- Listing pagination: a listing holds every object.
- Listing order: `ListBuckets` and `ListObjects` return some enumeration, not S3's order.
- Store faults such as network errors, throttling and permission errors: a store call fails only
  because of the store's state.
- The parallel stream of `deleteAllBuckets` runs sequentially here.
- The ZIP and property-list libraries are parameters. `ZipError`, and an archive whose entries
  cannot be listed, are folded into "cannot be opened".
- Vert.x's response object: sending a page on an ended response is taken to throw, and setting the
  status on it not to; nothing else about the response is modelled.
- The status message text of the 500 reply (the exception's message).
- Logging.
- The real-time behaviour of timers: a timer is a pending record, and `FireTimer` runs one.
- The message of `setTimer`'s refusal of a delay below 1 ms: only the refusal is modelled.
- Concurrency between requests, and between timers and requests.
- Object tags: uploads carry none, so the one-day `delete=true` lifecycle rule is recorded on the
  bucket but never applied to an object.
- The scratch file's contents and the file system beyond the set of scratch files left on disk
  and marked for deletion on exit.
- An exception escaping `createBucket` on a taken name: the model replies `Escaped` and makes no
  further call.
