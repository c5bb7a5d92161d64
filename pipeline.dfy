/** What one upload does, as a function of the store's state and of everything the service
    reads: `processFile` and its helpers `createBucket`, `setObjectPublic`, `setBucketReadOnly`
    and `generateBucketName`, and the inner block that runs when the archive has a metadata
    entry. The outcome lists the store calls in the order they are made, the pages sent to the
    client, the expiry timer, and whether a scratch file was created. The `MainVerticle` class
    is proved to do exactly this; the lemmas here say what the outcome guarantees. */
module Pipeline {
  import opened Base
  import opened EntryPattern
  import opened Metadata
  import opened Templates
  import opened Naming
  import opened TimeUnits
  import opened Storage

  /** An archive entry; `data` is `None` when reading it out of the archive throws. */
  datatype ZipEntry = ZipEntry(name: string, data: Option<seq<Byte>>)

  /** The uploaded file: its bytes and, read as a ZIP archive, its entries in archive order
      (`None` when the file cannot be opened as an archive). */
  datatype Upload = Upload(bytes: seq<Byte>, archive: Option<seq<ZipEntry>>)

  /** What the service reads besides the upload: the two property-list decoders, the two
      template files (`None` when reading throws) and the expiry configuration. */
  datatype Resources = Resources(
    binaryPlist: Decoder,
    textPlist: Decoder,
    manifestTemplate: Option<string>,
    resultPage: Option<string>,
    config: ExpirationConfig)

  /** The nondeterministic inputs of one request: the random UUID bytes, the scratch file
      `createTempFile` returns (`None` when it throws) and whether deleting it succeeds. */
  datatype Env = Env(random: Uuid, scratch: Option<string>, scratchDeleted: bool)

  datatype Page = ResultPage(html: string) | ErrorPage

  /** A one-shot timer that deletes `bucket` after `delayMillis`. */
  datatype Timer = Timer(delayMillis: Long, bucket: string)

  /** `scheduleDelete` sets its timer: `valueOf` accepts the unit, and Vert.x's `setTimer`, which
      throws on a delay below 1 ms, accepts the converted delay. */
  predicate TimerAccepted(c: ExpirationConfig) {
    ExpirationMillis(c).Some? && ExpirationMillis(c).value >= 1
  }

  /** The default delay of 30 is below 1 ms in the two finest units, and a delay that is not
      positive is refused in every unit; minutes with the default are accepted. */
  lemma TimerRefusals()
    ensures ExpirationMillis(ExpirationConfig(None, Some("MICROSECONDS"))) == Some(0)
    ensures !TimerAccepted(ExpirationConfig(None, Some("MICROSECONDS")))
    ensures !TimerAccepted(ExpirationConfig(None, Some("NANOSECONDS")))
    ensures forall u: TimeUnit, d: Int :: d <= 0 ==> !TimerAccepted(ExpirationConfig(Some(d), Some(TimeUnits.Name(u))))
    ensures TimerAccepted(ExpirationConfig(None, Some("MINUTES")))
  {
    forall u: TimeUnit, d: Int | d <= 0
      ensures !TimerAccepted(ExpirationConfig(Some(d), Some(TimeUnits.Name(u))))
    {
      var c := ExpirationConfig(Some(d), Some(TimeUnits.Name(u)));
      assert ValueOf(c.unit) == Some(u);
    }
  }

  /** The response: a status and the pages sent, or an exception leaving `processFile` after
      the pages in `sent` went out. */
  datatype Reply = Escaped(sent: seq<Page>) | Reply(status: nat, pages: seq<Page>)

  /** The inner block's share of the outcome; `thrown` when an exception leaves the block. */
  datatype Published = Published(calls: seq<Call>, pages: seq<Page>, timer: Option<Timer>, thrown: bool)

  /** `calls` are the store calls up to the outer `catch`; `swept` says that the outer `catch`
      ran `deleteBucket` on the request's bucket after them. */
  datatype Outcome = Outcome(reply: Reply, calls: seq<Call>, timer: Option<Timer>, scratch: Option<string>, swept: bool)

  /** The lifecycle rule every bucket gets: objects tagged `delete=true` expire after a day. */
  const DeleteRule := LifecycleRule("Delete rule", "delete", "true", 1, true)

  function Names(entries: seq<ZipEntry>): (ns: seq<string>)
    ensures |ns| == |entries| && forall k :: 0 <= k < |entries| ==> ns[k] == entries[k].name
  {
    if entries == [] then [] else [entries[0].name] + Names(entries[1..])
  }

  /** `createBucket`: public read-write, then the lifecycle rule. */
  function CreateCalls(b: string): seq<Call> {
    [CreateBucket(b, PublicReadWrite), SetLifecycle(b, [DeleteRule])]
  }

  /** The package upload and `setObjectPublic` for it. */
  function UploadCalls(b: string, pkg: seq<Byte>): seq<Call> {
    [PutObject(b, PackageKey, FileBytes(pkg)), SetObjectAcl(b, PackageKey, PublicRead)]
  }

  /** The manifest upload, `setObjectPublic` for it, and `setBucketReadOnly`. */
  function ManifestCalls(b: string, manifest: string): seq<Call> {
    [PutObject(b, ManifestKey, Content.Text(manifest)), SetObjectAcl(b, ManifestKey, PublicRead), SetBucketAcl(b, PublicRead)]
  }

  /** Every call of `cs` names bucket `b`. */
  predicate OnBucket(cs: seq<Call>, b: string) {
    forall i :: 0 <= i < |cs| ==> cs[i].bucket == b
  }

  /** Two runs of calls on one bucket make a run on it. */
  lemma OnBucketAppend(cs: seq<Call>, ds: seq<Call>, b: string)
    requires OnBucket(cs, b) && OnBucket(ds, b)
    ensures OnBucket(cs + ds, b)
  {
  }

  /** The calls `cs`, made before the rest of a block. */
  function Prefixed(cs: seq<Call>, rest: Published): Published {
    Published(cs + rest.calls, rest.pages, rest.timer, rest.thrown)
  }

  /** The inner block, from the decoded scratch file to `scheduleDelete`. Every exception is
      caught and answered with the error page; the store calls already made stay made. Exactly
      one page goes out, and every call and the timer name the request's bucket. */
  function Publish(b: string, pkg: seq<Byte>, data: seq<Byte>, r: Resources): (pub: Published)
    ensures OnBucket(pub.calls, b)
    ensures |pub.calls| == 0 || |pub.calls| == 2 || |pub.calls| == 5
    ensures |pub.pages| == 1
    ensures pub.pages[0] == ErrorPage <==> pub.timer.None? && !pub.thrown
    ensures pub.timer.Some? ==> pub.timer.value.bucket == b && !pub.thrown
  {
    match MetadataOf(data, r)
    case None => Published([], [ErrorPage], None, false)
    case Some(meta) => Prefixed(UploadCalls(b, pkg), PublishManifest(b, meta, r))
  }

  /** The metadata read from an entry's data: binary then textual decoding, then the three
      casts; `None` when decoding or a cast fails. */
  function MetadataOf(data: seq<Byte>, r: Resources): Option<AppMetadata> {
    match DecodePlist(r.binaryPlist, r.textPlist, data)
    case None => None
    case Some(d) => Extract(d)
  }

  /** After the package is public: render the manifest, upload it, make it public, narrow the
      bucket, then respond. */
  function PublishManifest(b: string, meta: AppMetadata, r: Resources): (pub: Published)
    ensures OnBucket(pub.calls, b)
    ensures |pub.calls| == 0 || |pub.calls| == 3
    ensures |pub.pages| == 1
    ensures pub.pages[0] == ErrorPage <==> pub.timer.None? && !pub.thrown
    ensures pub.timer.Some? ==> pub.timer.value.bucket == b && !pub.thrown
  {
    match r.manifestTemplate
    case None => Published([], [ErrorPage], None, false)
    case Some(template) =>
      match RenderManifest(template, meta, ObjectUrl(b, PackageKey))
      case None => Published([], [ErrorPage], None, false)
      case Some(manifest) => Prefixed(ManifestCalls(b, manifest), Respond(b, meta, r))
  }

  /** After the bucket is narrowed: the result page, then the deletion timer. When `valueOf`
      rejects the unit or `setTimer` rejects the delay, the response has already ended, so
      sending the error page throws and the exception leaves the block. */
  function Respond(b: string, meta: AppMetadata, r: Resources): (pub: Published)
    requires meta.displayName.Some?
    ensures pub.calls == [] && |pub.pages| == 1
    ensures pub.pages[0] == ErrorPage <==> r.resultPage.None?
    ensures pub.timer.Some? ==> pub.timer.value.bucket == b && pub.timer.value.delayMillis >= 1
    ensures pub.thrown <==> pub.pages[0] != ErrorPage && pub.timer.None?
  {
    match r.resultPage
    case None => Published([], [ErrorPage], None, false)
    case Some(page) =>
      var html := RenderResultPage(page, Link(ObjectUrl(b, ManifestKey), meta.displayName.value), Delay(r.config));
      match ExpirationMillis(r.config)
      case None => Published([], [ResultPage(html)], None, true)
      case Some(ms) =>
        if ms < 1 then Published([], [ResultPage(html)], None, true)
        else Published([], [ResultPage(html)], Some(Timer(ms, b)), false)
  }

  /** The outer `catch`, after `deleteBucket`: status 500 and the error page, unless a page has
      already been sent, in which case sending it throws again and the exception leaves
      `processFile`. */
  function OuterCatch(sent: seq<Page>): (reply: Reply)
    ensures reply.Escaped? <==> sent != []
    ensures reply.Reply? ==> reply == Reply(500, [ErrorPage])
  {
    if sent == [] then Reply(500, [ErrorPage]) else Escaped(sent)
  }

  /** `processFile` on a store in state `m`. Every call and the timer name the request's
      bucket, and nothing at all is sent exactly when creating that bucket throws because the
      random name is taken. */
  function ProcessFile(m: Buckets, up: Upload, r: Resources, env: Env): (o: Outcome)
    ensures OnBucket(o.calls, RequestBucket(env))
    ensures o.timer.Some? ==> o.timer.value.bucket == RequestBucket(env) && !o.swept
    ensures o.reply == Escaped([]) <==> RequestBucket(env) in m
    ensures RequestBucket(env) !in m ==> |o.calls| >= 2 && o.calls[..2] == CreateCalls(RequestBucket(env))
  {
    var b := BucketName(RandomUuid(env.random));
    if b in m then Outcome(Escaped([]), [], None, None, false)
    else
      match up.archive
      case None => Outcome(OuterCatch([]), CreateCalls(b), None, None, true)
      case Some(entries) =>
        match FirstInfoEntry(Names(entries))
        case None => Outcome(Reply(200, [ErrorPage]), CreateCalls(b), None, None, false)
        case Some(i) =>
          match env.scratch
          case None => Outcome(Reply(200, [ErrorPage]), CreateCalls(b), None, None, false)
          case Some(p) =>
            match entries[i].data
            case None => Outcome(Reply(200, [ErrorPage]), CreateCalls(b), None, Some(p), false)
            case Some(data) => AfterCopy(b, up.bytes, data, r, p)
  }

  /** The rest of the outer `try` once the metadata entry is copied to the scratch file `p`:
      the inner block on the entry's bytes `data`, and the outer `catch` when it throws. */
  function AfterCopy(b: string, pkg: seq<Byte>, data: seq<Byte>, r: Resources, p: string): (o: Outcome)
    ensures OnBucket(o.calls, b)
    ensures o.timer.Some? ==> o.timer.value.bucket == b && !o.swept
    ensures o.reply != Escaped([])
    ensures |o.calls| >= 2 && o.calls[..2] == CreateCalls(b)
  {
    var pub := Publish(b, pkg, data, r);
    OnBucketAppend(CreateCalls(b), pub.calls, b);
    if pub.thrown then Outcome(OuterCatch(pub.pages), CreateCalls(b) + pub.calls, None, Some(p), true)
    else Outcome(Reply(200, pub.pages), CreateCalls(b) + pub.calls, pub.timer, Some(p), false)
  }

  /** The store after a request: its calls, then the outer `catch`'s `deleteBucket`. */
  function StoreAfter(m: Buckets, o: Outcome, b: string): Buckets {
    if o.swept then ApplyAll(m, o.calls) - {b} else ApplyAll(m, o.calls)
  }

  /** The request's bucket. */
  function RequestBucket(env: Env): string {
    BucketName(RandomUuid(env.random))
  }

  /** Some call of `cs` set the ACL of `b`/`k` to public-read. */
  predicate MadePublic(cs: seq<Call>, b: string, k: string) {
    exists j :: 0 <= j < |cs| && cs[j] == SetObjectAcl(b, k, PublicRead)
  }

  /** A bucket is narrowed to public-read only after both its objects were made public-read. */
  predicate NarrowedAfterObjectsPublic(cs: seq<Call>) {
    forall i :: 0 <= i < |cs| && cs[i].SetBucketAcl? && cs[i].acl == PublicRead ==>
      MadePublic(cs[..i], cs[i].bucket, PackageKey) && MadePublic(cs[..i], cs[i].bucket, ManifestKey)
  }

  lemma MadePublicPrefix(xs: seq<Call>, ys: seq<Call>, b: string, k: string)
    requires MadePublic(ys, b, k)
    ensures MadePublic(xs + ys, b, k)
  {
    var j :| 0 <= j < |ys| && ys[j] == SetObjectAcl(b, k, PublicRead);
    assert (xs + ys)[|xs| + j] == ys[j];
  }

  /** The ordering property survives concatenation, so it holds of a whole history of requests
      and bucket deletions when it holds of each. */
  lemma NarrowedAppend(xs: seq<Call>, ys: seq<Call>)
    requires NarrowedAfterObjectsPublic(xs) && NarrowedAfterObjectsPublic(ys)
    ensures NarrowedAfterObjectsPublic(xs + ys)
  {
    var cs := xs + ys;
    forall i | 0 <= i < |cs| && cs[i].SetBucketAcl? && cs[i].acl == PublicRead
      ensures MadePublic(cs[..i], cs[i].bucket, PackageKey) && MadePublic(cs[..i], cs[i].bucket, ManifestKey)
    {
      if i < |xs| {
        assert cs[..i] == xs[..i] && cs[i] == xs[i];
      } else {
        var j := i - |xs|;
        assert cs[..i] == xs + ys[..j] && cs[i] == ys[j];
        MadePublicPrefix(xs, ys[..j], ys[j].bucket, PackageKey);
        MadePublicPrefix(xs, ys[..j], ys[j].bucket, ManifestKey);
      }
    }
  }

  /** Every call sequence a request can make is a prefix of this one, or the create-and-delete
      sequence of an unreadable archive. */
  function FullCalls(b: string, pkg: seq<Byte>, manifest: string): seq<Call> {
    CreateCalls(b) + UploadCalls(b, pkg) + ManifestCalls(b, manifest)
  }

  /** A full request makes seven calls, the fifth of them the manifest upload. */
  lemma FullCallsManifest(b: string, pkg: seq<Byte>, manifest: string)
    ensures |FullCalls(b, pkg, manifest)| == 7 && ManifestOf(FullCalls(b, pkg, manifest)) == manifest
  {
    assert FullCalls(b, pkg, manifest)[4] == ManifestCalls(b, manifest)[0];
  }

  predicate Ordered(cs: seq<Call>) {
    PublicOnlyAfterUpload(cs) && NarrowedAfterObjectsPublic(cs)
  }

  lemma FullCallsOrdered(b: string, pkg: seq<Byte>, manifest: string)
    ensures Ordered(FullCalls(b, pkg, manifest))
  {
    var cs := FullCalls(b, pkg, manifest);
    assert cs[2] == PutObject(b, PackageKey, FileBytes(pkg));
    assert cs[3] == SetObjectAcl(b, PackageKey, PublicRead);
    assert cs[4] == PutObject(b, ManifestKey, Content.Text(manifest));
    assert cs[5] == SetObjectAcl(b, ManifestKey, PublicRead);
    assert Uploaded(cs[..3], b, PackageKey) by { assert cs[..3][2] == cs[2]; }
    assert Uploaded(cs[..5], b, ManifestKey) by { assert cs[..5][4] == cs[4]; }
    assert MadePublic(cs[..6], b, PackageKey) by { assert cs[..6][3] == cs[3]; }
    assert MadePublic(cs[..6], b, ManifestKey) by { assert cs[..6][5] == cs[5]; }
  }

  /** Both ordering properties hold of every prefix of a sequence they hold of. */
  lemma OrderedPrefix(cs: seq<Call>, n: nat)
    requires n <= |cs| && Ordered(cs)
    ensures Ordered(cs[..n])
  {
    forall i | 0 <= i < n ensures cs[..n][..i] == cs[..i] && cs[..n][i] == cs[i] {}
  }

  /** The manifest text a call sequence uploads, if it gets that far. */
  function ManifestOf(cs: seq<Call>): string {
    if |cs| > 4 && cs[4].PutObject? && cs[4].content.Text? then cs[4].content.text else ""
  }

  lemma PublishPrefix(b: string, pkg: seq<Byte>, data: seq<Byte>, r: Resources)
    ensures var cs := CreateCalls(b) + Publish(b, pkg, data, r).calls;
            |cs| in {2, 4, 7} && cs == FullCalls(b, pkg, ManifestOf(cs))[..|cs|]
  {
    var cs := CreateCalls(b) + Publish(b, pkg, data, r).calls;
    var full := FullCalls(b, pkg, ManifestOf(cs));
    if |cs| == 4 {
      assert cs == CreateCalls(b) + UploadCalls(b, pkg);
      assert full[..4] == CreateCalls(b) + UploadCalls(b, pkg);
    } else if |cs| == 2 {
      assert full[..2] == CreateCalls(b);
    }
  }

  /** Ordering: in every outcome, no object is made public before it was uploaded, and the
      bucket is narrowed to public-read only after both objects were made public-read. */
  lemma ProcessFileOrdering(m: Buckets, up: Upload, r: Resources, env: Env)
    ensures PublicOnlyAfterUpload(ProcessFile(m, up, r, env).calls)
    ensures NarrowedAfterObjectsPublic(ProcessFile(m, up, r, env).calls)
  {
    var o := ProcessFile(m, up, r, env);
    var b := RequestBucket(env);
    var n := |o.calls|;
    if b !in m {
      ProcessFileCalls(m, up, r, env);
      if InfoEntryData(up).Some? && env.scratch.Some? {
        PublishPrefix(b, up.bytes, InfoEntryData(up).value, r);
      } else {
        assert o.calls == FullCalls(b, up.bytes, "")[..2];
      }
      var full := FullCalls(b, up.bytes, ManifestOf(o.calls));
      FullCallsOrdered(b, up.bytes, ManifestOf(o.calls));
      OrderedPrefix(full, n);
    }
  }

  /** The inner block's calls never narrow a bucket before both objects are public. */
  lemma PublishOrdered(b: string, pkg: seq<Byte>, data: seq<Byte>, r: Resources)
    ensures NarrowedAfterObjectsPublic(Publish(b, pkg, data, r).calls)
  {
    var cs := Publish(b, pkg, data, r).calls;
    PublishShape(b, pkg, data, r);
    if |cs| == 5 {
      assert MadePublic(cs[..4], b, PackageKey) by { assert cs[..4][1] == cs[1]; }
      assert MadePublic(cs[..4], b, ManifestKey) by { assert cs[..4][3] == cs[3]; }
    }
  }

  /** The request's bucket as `createBucket` leaves it. */
  function CreatedBucket(): Bucket {
    Bucket(PublicReadWrite, [DeleteRule], map[])
  }

  /** The request's bucket once the package is public. */
  function SharedBucket(pkg: seq<Byte>): Bucket {
    Bucket(PublicReadWrite, [DeleteRule], map[PackageKey := StoredObject(FileBytes(pkg), PublicRead)])
  }

  /** The request's bucket once everything is published and the bucket is read-only. */
  function ReadOnlyBucket(pkg: seq<Byte>, manifest: string): Bucket {
    Bucket(PublicRead, [DeleteRule], map[PackageKey := StoredObject(FileBytes(pkg), PublicRead),
                                         ManifestKey := StoredObject(Content.Text(manifest), PublicRead)])
  }

  lemma ApplyPair(m: Buckets, c0: Call, c1: Call)
    ensures ApplyAll(m, [c0, c1]) == Apply(Apply(m, c0), c1)
    ensures AllAccepted(m, [c0, c1]) <==> Accepts(m, c0) && Accepts(Apply(m, c0), c1)
  {
    assert [] + [c0] == [c0] && [c0] + [c1] == [c0, c1];
    ApplyAllSnoc(m, [], c0);
    ApplyAllSnoc(m, [c0], c1);
  }

  lemma ApplyTriple(m: Buckets, c0: Call, c1: Call, c2: Call)
    ensures ApplyAll(m, [c0, c1, c2]) == Apply(Apply(Apply(m, c0), c1), c2)
    ensures AllAccepted(m, [c0, c1, c2]) <==> Accepts(m, c0) && Accepts(Apply(m, c0), c1) && Accepts(Apply(Apply(m, c0), c1), c2)
  {
    assert [c0, c1] + [c2] == [c0, c1, c2];
    ApplyPair(m, c0, c1);
    ApplyAllSnoc(m, [c0, c1], c2);
  }

  lemma Compose(m: Buckets, xs: seq<Call>, ys: seq<Call>, m1: Buckets, m2: Buckets)
    requires AllAccepted(m, xs) && ApplyAll(m, xs) == m1
    requires AllAccepted(m1, ys) && ApplyAll(m1, ys) == m2
    ensures AllAccepted(m, xs + ys) && ApplyAll(m, xs + ys) == m2
  {
    ApplyAllAppend(m, xs, ys);
  }

  /** `createBucket` on a store without the bucket. */
  lemma CreateEffect(m: Buckets, b: string)
    requires b !in m
    ensures AllAccepted(m, CreateCalls(b)) && ApplyAll(m, CreateCalls(b)) == m[b := CreatedBucket()]
  {
    var cs := CreateCalls(b);
    ApplyPair(m, cs[0], cs[1]);
    assert cs == [cs[0], cs[1]];
  }

  /** The package upload on a freshly created bucket. */
  lemma UploadEffect(m: Buckets, b: string, pkg: seq<Byte>)
    requires b in m && m[b] == CreatedBucket()
    ensures AllAccepted(m, UploadCalls(b, pkg)) && ApplyAll(m, UploadCalls(b, pkg)) == m[b := SharedBucket(pkg)]
  {
    var cs := UploadCalls(b, pkg);
    ApplyPair(m, cs[0], cs[1]);
    assert cs == [cs[0], cs[1]];
    SharingEffect(m, b, pkg);
  }

  /** The manifest upload and the narrowing, once the package is public. */
  lemma ManifestEffect(m: Buckets, b: string, pkg: seq<Byte>, manifest: string)
    requires b in m && m[b] == SharedBucket(pkg)
    ensures AllAccepted(m, ManifestCalls(b, manifest))
    ensures ApplyAll(m, ManifestCalls(b, manifest)) == m[b := ReadOnlyBucket(pkg, manifest)]
  {
    var cs := ManifestCalls(b, manifest);
    ApplyTriple(m, cs[0], cs[1], cs[2]);
    assert cs == [cs[0], cs[1], cs[2]];
    PublishingEffect(m, b, pkg, manifest);
  }

  /** The effect of each call sequence a request can make on a store without its bucket. */
  lemma FullCallsEffect(m: Buckets, b: string, pkg: seq<Byte>, manifest: string)
    requires b !in m
    ensures AllAccepted(m, CreateCalls(b) + UploadCalls(b, pkg))
    ensures ApplyAll(m, CreateCalls(b) + UploadCalls(b, pkg)) == m[b := SharedBucket(pkg)]
    ensures AllAccepted(m, CreateCalls(b) + UploadCalls(b, pkg) + ManifestCalls(b, manifest))
    ensures ApplyAll(m, CreateCalls(b) + UploadCalls(b, pkg) + ManifestCalls(b, manifest)) == m[b := ReadOnlyBucket(pkg, manifest)]
  {
    var m4 := m[b := SharedBucket(pkg)];
    SharedStage(m, b, pkg);
    ManifestEffect(m4, b, pkg, manifest);
    assert m4[b := ReadOnlyBucket(pkg, manifest)] == m[b := ReadOnlyBucket(pkg, manifest)];
    Compose(m, CreateCalls(b) + UploadCalls(b, pkg), ManifestCalls(b, manifest), m4, m[b := ReadOnlyBucket(pkg, manifest)]);
  }

  lemma SharedStage(m: Buckets, b: string, pkg: seq<Byte>)
    requires b !in m
    ensures AllAccepted(m, CreateCalls(b) + UploadCalls(b, pkg))
    ensures ApplyAll(m, CreateCalls(b) + UploadCalls(b, pkg)) == m[b := SharedBucket(pkg)]
  {
    var m2, m4 := m[b := CreatedBucket()], m[b := SharedBucket(pkg)];
    CreateEffect(m, b);
    UploadEffect(m2, b, pkg);
    assert m2[b := SharedBucket(pkg)] == m4;
    Compose(m, CreateCalls(b), UploadCalls(b, pkg), m2, m4);
  }

  lemma SharingEffect(m: Buckets, b: string, pkg: seq<Byte>)
    requires b in m && m[b] == CreatedBucket()
    ensures var c0 := UploadCalls(b, pkg)[0];
            var c1 := UploadCalls(b, pkg)[1];
            Accepts(m, c0) && Accepts(Apply(m, c0), c1) && Apply(Apply(m, c0), c1) == m[b := SharedBucket(pkg)]
  {
    var objs := map[PackageKey := StoredObject(FileBytes(pkg), Private)];
    assert objs[PackageKey := objs[PackageKey].(acl := PublicRead)] == SharedBucket(pkg).objects;
  }

  lemma PublishingEffect(m: Buckets, b: string, pkg: seq<Byte>, manifest: string)
    requires b in m && m[b] == SharedBucket(pkg)
    ensures var cs := ManifestCalls(b, manifest);
            Accepts(m, cs[0]) && Accepts(Apply(m, cs[0]), cs[1]) && Accepts(Apply(Apply(m, cs[0]), cs[1]), cs[2])
            && Apply(Apply(Apply(m, cs[0]), cs[1]), cs[2]) == m[b := ReadOnlyBucket(pkg, manifest)]
  {
    var objs := SharedBucket(pkg).objects[ManifestKey := StoredObject(Content.Text(manifest), Private)];
    assert objs[ManifestKey := objs[ManifestKey].(acl := PublicRead)] == ReadOnlyBucket(pkg, manifest).objects;
  }

  /** The inner block makes no call, uploads the package only, or does everything. */
  lemma PublishShape(b: string, pkg: seq<Byte>, data: seq<Byte>, r: Resources)
    ensures var cs := Publish(b, pkg, data, r).calls;
            || cs == []
            || cs == UploadCalls(b, pkg)
            || cs == UploadCalls(b, pkg) + ManifestCalls(b, ManifestOf(CreateCalls(b) + cs))
  {
  }

  /** The request's bucket after `cs`, by how far the request got. */
  function BucketAfter(cs: seq<Call>, pkg: seq<Byte>): Bucket {
    if |cs| <= 2 then CreatedBucket()
    else if |cs| <= 4 then SharedBucket(pkg)
    else ReadOnlyBucket(pkg, ManifestOf(cs))
  }

  /** Calls of one of the inner block's shapes, on the freshly created bucket: every call is
      accepted and the bucket ends in the state they reach. */
  lemma ShapeEffect(m: Buckets, b: string, pkg: seq<Byte>, cs: seq<Call>)
    requires b in m && m[b] == CreatedBucket()
    requires || cs == []
             || cs == UploadCalls(b, pkg)
             || cs == UploadCalls(b, pkg) + ManifestCalls(b, ManifestOf(CreateCalls(b) + cs))
    ensures AllAccepted(m, cs)
    ensures ApplyAll(m, cs) == m[b := BucketAfter(CreateCalls(b) + cs, pkg)]
  {
    if cs == [] {
      assert m[b := CreatedBucket()] == m;
    } else if cs == UploadCalls(b, pkg) {
      UploadEffect(m, b, pkg);
    } else {
      var manifest := ManifestOf(CreateCalls(b) + cs);
      UploadEffect(m, b, pkg);
      ManifestEffect(m[b := SharedBucket(pkg)], b, pkg, manifest);
      Compose(m, UploadCalls(b, pkg), ManifestCalls(b, manifest), m[b := SharedBucket(pkg)], m[b := ReadOnlyBucket(pkg, manifest)]);
    }
  }

  /** The inner block on the freshly created bucket: every call is accepted and the bucket
      ends in the state the block reached. */
  lemma PublishEffect(m: Buckets, b: string, pkg: seq<Byte>, data: seq<Byte>, r: Resources)
    requires b in m && m[b] == CreatedBucket()
    ensures var cs := Publish(b, pkg, data, r).calls;
            && AllAccepted(m, cs)
            && ApplyAll(m, cs) == m[b := BucketAfter(CreateCalls(b) + cs, pkg)]
  {
    PublishShape(b, pkg, data, r);
    ShapeEffect(m, b, pkg, Publish(b, pkg, data, r).calls);
  }

  /** The calls of a request up to the outer `catch`, path by path. */
  lemma ProcessFileCalls(m: Buckets, up: Upload, r: Resources, env: Env)
    requires RequestBucket(env) !in m
    ensures var o := ProcessFile(m, up, r, env);
            var b := RequestBucket(env);
            o.calls == CreateCalls(b) + (if InfoEntryData(up).Some? && env.scratch.Some?
                                         then Publish(b, up.bytes, InfoEntryData(up).value, r).calls else [])
  {
  }

  /** A readable archive: the bucket ends in the state the request reached. */
  lemma ReadableEffect(m: Buckets, b: string, pkg: seq<Byte>, inner: seq<Call>)
    requires b !in m
    requires AllAccepted(m[b := CreatedBucket()], inner)
    requires ApplyAll(m[b := CreatedBucket()], inner) == m[b := BucketAfter(CreateCalls(b) + inner, pkg)]
    ensures AllAccepted(m, CreateCalls(b) + inner)
    ensures ApplyAll(m, CreateCalls(b) + inner) == m[b := BucketAfter(CreateCalls(b) + inner, pkg)]
  {
    var m2 := m[b := CreatedBucket()];
    CreateEffect(m, b);
    assert m2[b := BucketAfter(CreateCalls(b) + inner, pkg)] == m[b := BucketAfter(CreateCalls(b) + inner, pkg)];
    Compose(m, CreateCalls(b), inner, m2, m[b := BucketAfter(CreateCalls(b) + inner, pkg)]);
  }

  /** What a request's calls up to the outer `catch` do to a store that does not hold its
      bucket yet: every call is accepted, and only the request's own bucket is added, in the
      state the request reached. */
  lemma ProcessFileEffect(m: Buckets, up: Upload, r: Resources, env: Env)
    requires RequestBucket(env) !in m
    ensures var o := ProcessFile(m, up, r, env);
            && AllAccepted(m, o.calls)
            && ApplyAll(m, o.calls) == m[RequestBucket(env) := BucketAfter(o.calls, up.bytes)]
  {
    ProcessFileCalls(m, up, r, env);
    RequestEffect(m, RequestBucket(env), up.bytes, InfoEntryData(up), env.scratch.Some?, r);
  }

  /** The calls of a readable archive, given whether the inner block ran and on what data. */
  lemma RequestEffect(m: Buckets, b: string, pkg: seq<Byte>, data: Option<seq<Byte>>, scratch: bool, r: Resources)
    requires b !in m
    ensures var cs := CreateCalls(b) + (if data.Some? && scratch then Publish(b, pkg, data.value, r).calls else []);
            && AllAccepted(m, cs)
            && ApplyAll(m, cs) == m[b := BucketAfter(cs, pkg)]
  {
    var inner: seq<Call> := [];
    if data.Some? && scratch {
      inner := Publish(b, pkg, data.value, r).calls;
      PublishEffect(m[b := CreatedBucket()], b, pkg, data.value, r);
    }
    ReadableEffect(m, b, pkg, inner);
  }

  /** The data of the entry the request reads: the first entry matching the metadata pattern;
      `None` when there is no archive, no such entry, or the entry cannot be read. */
  function InfoEntryData(up: Upload): Option<seq<Byte>> {
    match up.archive
    case None => None
    case Some(entries) =>
      match FirstInfoEntry(Names(entries))
      case None => None
      case Some(i) => entries[i].data
  }

  /** The metadata the request reads from its entry. */
  function EntryMetadata(up: Upload, r: Resources): Option<AppMetadata> {
    match InfoEntryData(up)
    case None => None
    case Some(data) => MetadataOf(data, r)
  }

  /** An archive that cannot be opened: status 500, the error page, the bucket created and then
      swept by the outer `catch`, no timer and no scratch file. */
  lemma ProcessFileUnreadable(m: Buckets, up: Upload, r: Resources, env: Env)
    requires RequestBucket(env) !in m && up.archive.None?
    ensures ProcessFile(m, up, r, env) ==
              Outcome(Reply(500, [ErrorPage]), CreateCalls(RequestBucket(env)), None, None, true)
  {
  }

  /** The reply and the timer of a request, path by path. */
  lemma ProcessFileReply(m: Buckets, up: Upload, r: Resources, env: Env)
    requires RequestBucket(env) !in m && up.archive.Some?
    ensures var o := ProcessFile(m, up, r, env);
            var runs := InfoEntryData(up).Some? && env.scratch.Some?;
            var pub := Publish(RequestBucket(env), up.bytes, InfoEntryData(up).GetOr([]), r);
            && o.swept == (runs && pub.thrown)
            && o.reply == (if o.swept then Escaped(pub.pages) else Reply(200, if runs then pub.pages else [ErrorPage]))
            && o.timer == (if runs then pub.timer else None)
            && o.scratch == (if FirstInfoEntry(Names(up.archive.value)).Some? then env.scratch else None)
  {
  }

  /** The inner block succeeds exactly when every step does; it then uploads the manifest
      rendered from the metadata and sends the result page with the install link. */
  lemma PublishSuccess(b: string, pkg: seq<Byte>, data: seq<Byte>, r: Resources)
    ensures var pub := Publish(b, pkg, data, r);
            pub.timer.Some? <==>
              && MetadataOf(data, r).Some? && r.manifestTemplate.Some? && r.resultPage.Some?
              && RenderManifest(r.manifestTemplate.value, MetadataOf(data, r).value, ObjectUrl(b, PackageKey)).Some?
              && TimerAccepted(r.config)
    ensures var pub := Publish(b, pkg, data, r);
            pub.timer.Some? ==>
              var meta := MetadataOf(data, r).value;
              && meta.displayName.Some?
              && pub.calls == UploadCalls(b, pkg) + ManifestCalls(b, RenderManifest(r.manifestTemplate.value, meta, ObjectUrl(b, PackageKey)).value)
              && pub.pages == [ResultPage(RenderResultPage(r.resultPage.value, Link(ObjectUrl(b, ManifestKey), meta.displayName.value), Delay(r.config)))]
              && pub.timer == Some(Timer(ExpirationMillis(r.config).value, b))
  {
  }

  /** Cleanup: every store call of a request is accepted, no other bucket is touched, and the
      request's bucket is removed again exactly when the outer `catch` runs: when the archive
      cannot be opened (then the reply is a 500 with the error page) or an exception leaves the
      inner block (then it leaves `processFile` too). */
  lemma ProcessFileCleanup(m: Buckets, up: Upload, r: Resources, env: Env)
    requires RequestBucket(env) !in m
    ensures var o := ProcessFile(m, up, r, env);
            var b := RequestBucket(env);
            && AllAccepted(m, o.calls)
            && StoreAfter(m, o, b) - {b} == m
            && (b in StoreAfter(m, o, b) <==> !o.swept)
            && (o.swept <==> up.archive.None? || o.reply.Escaped?)
            && (o.reply == Reply(500, [ErrorPage]) <==> up.archive.None?)
  {
    var b := RequestBucket(env);
    var o := ProcessFile(m, up, r, env);
    ProcessFileEffect(m, up, r, env);
    SweptStore(m, o, b, BucketAfter(o.calls, up.bytes));
    if up.archive.Some? {
      ProcessFileReply(m, up, r, env);
    } else {
      ProcessFileUnreadable(m, up, r, env);
    }
  }

  lemma SweptStore(m: Buckets, o: Outcome, b: string, last: Bucket)
    requires b !in m && ApplyAll(m, o.calls) == m[b := last]
    ensures StoreAfter(m, o, b) - {b} == m
    ensures b in StoreAfter(m, o, b) <==> !o.swept
  {
    assert m[b := last] - {b} == m;
  }

  /** Success: the expiry timer is set exactly when the result page is the only page sent. */
  lemma TimerOnlyOnSuccess(m: Buckets, up: Upload, r: Resources, env: Env)
    ensures var o := ProcessFile(m, up, r, env);
            o.timer.Some? <==> o.reply.Reply? && ErrorPage !in o.reply.pages
  {
    var b := RequestBucket(env);
    if b in m {
      assert ProcessFile(m, up, r, env).timer.None?;
    } else if up.archive.None? {
      ProcessFileUnreadable(m, up, r, env);
    } else {
      ProcessFileReply(m, up, r, env);
      var pub := Publish(b, up.bytes, InfoEntryData(up).GetOr([]), r);
      assert pub.pages == [pub.pages[0]];
    }
  }

  /** A timer is only ever set by the inner block: the archive was read, its metadata entry
      copied out, and the outcome is that of the block on the entry's bytes. */
  lemma TimerMeansInnerBlockRan(m: Buckets, up: Upload, r: Resources, env: Env)
    requires RequestBucket(env) !in m
    requires ProcessFile(m, up, r, env).timer.Some?
    ensures var o := ProcessFile(m, up, r, env);
            var b := RequestBucket(env);
            && up.archive.Some? && InfoEntryData(up).Some?
            && var pub := Publish(b, up.bytes, InfoEntryData(up).value, r);
            && o.calls == CreateCalls(b) + pub.calls
            && o.reply == Reply(200, pub.pages)
            && o.timer == pub.timer
  {
    var o := ProcessFile(m, up, r, env);
    var b := RequestBucket(env);
    if up.archive.None? {
      ProcessFileUnreadable(m, up, r, env);
    }
    ProcessFileReply(m, up, r, env);
    ProcessFileCalls(m, up, r, env);
  }

  /** On success the bucket is read-only, holds exactly the package and the manifest, both
      public; the manifest is the template filled from the entry's metadata and the package URL;
      the page is the result template filled with the install link; and the timer will delete
      this bucket after the configured delay. */
  lemma ProcessFileSuccess(m: Buckets, up: Upload, r: Resources, env: Env)
    requires RequestBucket(env) !in m
    requires ProcessFile(m, up, r, env).timer.Some?
    ensures var o := ProcessFile(m, up, r, env);
            var b := RequestBucket(env);
            && EntryMetadata(up, r).Some? && r.manifestTemplate.Some? && r.resultPage.Some?
            && TimerAccepted(r.config)
            && var meta := EntryMetadata(up, r).value;
            && meta.displayName.Some?
            && RenderManifest(r.manifestTemplate.value, meta, ObjectUrl(b, PackageKey)) == Some(ManifestOf(o.calls))
            && |o.calls| == 7
            && o.reply == Reply(200, [ResultPage(RenderResultPage(r.resultPage.value, Link(ObjectUrl(b, ManifestKey), meta.displayName.value), Delay(r.config)))])
            && o.timer == Some(Timer(ExpirationMillis(r.config).value, b))
  {
    TimerMeansInnerBlockRan(m, up, r, env);
    InnerSuccess(RequestBucket(env), up.bytes, InfoEntryData(up).value, r, ProcessFile(m, up, r, env));
  }

  /** `ProcessFileSuccess` for an outcome `o` that the inner block on `data` decided. */
  lemma InnerSuccess(b: string, pkg: seq<Byte>, data: seq<Byte>, r: Resources, o: Outcome)
    requires var pub := Publish(b, pkg, data, r);
             o.calls == CreateCalls(b) + pub.calls && o.reply == Reply(200, pub.pages) && o.timer == pub.timer
    requires o.timer.Some?
    ensures && MetadataOf(data, r).Some? && r.manifestTemplate.Some? && r.resultPage.Some?
            && TimerAccepted(r.config)
            && var meta := MetadataOf(data, r).value;
            && meta.displayName.Some?
            && RenderManifest(r.manifestTemplate.value, meta, ObjectUrl(b, PackageKey)) == Some(ManifestOf(o.calls))
            && |o.calls| == 7
            && o.reply == Reply(200, [ResultPage(RenderResultPage(r.resultPage.value, Link(ObjectUrl(b, ManifestKey), meta.displayName.value), Delay(r.config)))])
            && o.timer == Some(Timer(ExpirationMillis(r.config).value, b))
  {
    PublishSuccess(b, pkg, data, r);
    var meta := MetadataOf(data, r).value;
    var manifest := RenderManifest(r.manifestTemplate.value, meta, ObjectUrl(b, PackageKey)).value;
    FullCallsManifest(b, pkg, manifest);
    assert o.calls == FullCalls(b, pkg, manifest);
  }

  /** On success the request's bucket is read-only and holds exactly the package and the
      manifest, both public-read, under the bucket's lifecycle rule. */
  lemma ProcessFileSuccessBucket(m: Buckets, up: Upload, r: Resources, env: Env)
    requires RequestBucket(env) !in m
    requires ProcessFile(m, up, r, env).timer.Some?
    ensures var o := ProcessFile(m, up, r, env);
            var b := RequestBucket(env);
            && b in StoreAfter(m, o, b)
            && StoreAfter(m, o, b)[b] == ReadOnlyBucket(up.bytes, ManifestOf(o.calls))
  {
    var o := ProcessFile(m, up, r, env);
    var b := RequestBucket(env);
    ProcessFileSuccess(m, up, r, env);
    ProcessFileEffect(m, up, r, env);
    assert BucketAfter(o.calls, up.bytes) == ReadOnlyBucket(up.bytes, ManifestOf(o.calls));
  }

  /** When the inner block does not reach the timer, its one page is the error page, or else
      everything had been published, the result page sent, and only the timer was refused (an
      unknown unit, or a delay below 1 ms):
      the error page that follows cannot be sent and the exception leaves the block. */
  lemma PublishFailure(b: string, pkg: seq<Byte>, data: seq<Byte>, r: Resources)
    requires Publish(b, pkg, data, r).timer.None?
    ensures var pub := Publish(b, pkg, data, r);
            && (pub.pages == [ErrorPage] <==> !pub.thrown)
            && (pub.thrown ==> pub.pages[0].ResultPage? && |pub.calls| == 5 && !TimerAccepted(r.config))
  {
  }

  /** Failure after the bucket exists, without an exception: the error page alone, with status
      200, and the bucket stays. */
  lemma ProcessFileFailure(m: Buckets, up: Upload, r: Resources, env: Env)
    requires RequestBucket(env) !in m && up.archive.Some?
    requires ProcessFile(m, up, r, env).timer.None? && ProcessFile(m, up, r, env).reply.Reply?
    ensures var o := ProcessFile(m, up, r, env);
            var b := RequestBucket(env);
            && o.reply == Reply(200, [ErrorPage])
            && !o.swept && b in StoreAfter(m, o, b)
  {
    var b := RequestBucket(env);
    ProcessFileReply(m, up, r, env);
    if InfoEntryData(up).Some? && env.scratch.Some? {
      PublishFailure(b, up.bytes, InfoEntryData(up).value, r);
    }
    ProcessFileEffect(m, up, r, env);
  }

  /** An exception leaves `processFile` after its bucket was created only when the timer is
      refused (an unknown unit, or a delay below 1 ms): everything had been published and the result page sent, and the outer `catch`
      then deletes the bucket, so the store is as it was and the link leads nowhere. */
  lemma ProcessFileEscape(m: Buckets, up: Upload, r: Resources, env: Env)
    requires RequestBucket(env) !in m && ProcessFile(m, up, r, env).reply.Escaped?
    ensures var o := ProcessFile(m, up, r, env);
            var b := RequestBucket(env);
            && |o.reply.sent| == 1 && o.reply.sent[0].ResultPage?
            && !TimerAccepted(r.config)
            && |o.calls| == 7 && o.swept && o.timer.None?
            && StoreAfter(m, o, b) == m
  {
    var b := RequestBucket(env);
    var o := ProcessFile(m, up, r, env);
    ProcessFileCleanup(m, up, r, env);
    ProcessFileReply(m, up, r, env);
    ProcessFileCalls(m, up, r, env);
    PublishFailure(b, up.bytes, InfoEntryData(up).value, r);
  }
}
