/** The service object: `MainVerticle`, with the S3 client it shares across requests, the
    expiry timers it has scheduled and the scratch files it has left on disk.

    `ProcessFile` handles one uploaded file the way the service does, step by step, and is
    proved to produce exactly the outcome `Pipeline.ProcessFile` specifies: the same reply,
    the same store calls in the same order, the same timer and the same scratch-file cleanup.
    The class invariant says that the store's history never narrows a bucket before both its
    objects are public and that every scratch file still on disk is marked for deletion on
    exit. */
module Verticle {
  import opened Base
  import opened EntryPattern
  import opened Metadata
  import opened Templates
  import opened Naming
  import opened TimeUnits
  import opened Storage
  import opened Pipeline

  /** `zip.stream().filter(pattern matches name).findFirst()`: the index of the first entry
      whose name the metadata pattern matches. */
  method FindInfoEntry(entries: seq<ZipEntry>) returns (found: Option<nat>)
    ensures found == FirstInfoEntry(Names(entries))
  {
    var names := Names(entries);
    var k := 0;
    while k < |names|
      invariant k <= |names|
      invariant forall j :: 0 <= j < k ==> !IsInfoPlistEntry(names[j])
    {
      var hit := MatchesInfoPattern(names[k]);
      if hit {
        found := Some(k);
        FirstInfoEntryIs(names, k);
        return;
      }
      k := k + 1;
    }
    found := None;
  }

  lemma {:induction false} FirstInfoEntryIs(names: seq<string>, k: nat)
    requires k < |names| && IsInfoPlistEntry(names[k])
    requires forall j :: 0 <= j < k ==> !IsInfoPlistEntry(names[j])
    ensures FirstInfoEntry(names) == Some(k)
  {
    var r := FirstInfoEntry(names);
    assert r.Some?;
    if r.value < k {
    } else if r.value > k {
    }
  }

  /** One more listed bucket deleted. */
  lemma Swept(m0: Buckets, before: Buckets, after: Buckets, names: seq<string>, i: nat)
    requires i < |names| && after == before - {names[i]}
    requires forall n :: n in before <==> n in m0 && n !in names[..i]
    ensures forall n :: n in after <==> n in m0 && n !in names[..i + 1]
  {
    assert names[..i + 1] == names[..i] + [names[i]];
  }

  /** The objects of `objs` whose keys are not in `keys`. */
  function Without(objs: map<string, StoredObject>, keys: seq<string>): map<string, StoredObject> {
    map k | k in objs && k !in keys :: objs[k]
  }

  /** Calls that change no bucket ACL keep the ordering property of any history. */
  lemma NoNarrowing(t: seq<Call>, cs: seq<Call>)
    requires NarrowedAfterObjectsPublic(t)
    requires forall i :: 0 <= i < |cs| ==> !cs[i].SetBucketAcl?
    ensures NarrowedAfterObjectsPublic(t + cs)
  {
    NarrowedAppend(t, cs);
  }

  /** What the request has done by the outer `catch` (nothing more after `createBucket` for an
      archive that cannot be opened, `ProcessArchive` otherwise) is what `Pipeline.ProcessFile`
      specifies; `thrown` says whether the outer `catch` runs. */
  lemma RequestOutcome(m0: Buckets, up: Upload, r: Resources, env: Env, t0: seq<Call>,
                       pages: seq<Page>, thrown: bool, m: Buckets, trace: seq<Call>, ts0: seq<Timer>, ts: seq<Timer>)
    requires RequestBucket(env) !in m0
    requires var b := RequestBucket(env);
             var runs := InfoEntryData(up).Some? && env.scratch.Some?;
             var pub := Publish(b, up.bytes, InfoEntryData(up).GetOr([]), r);
             var inner := if runs then pub.calls else [];
             && thrown == (up.archive.None? || (runs && pub.thrown))
             && pages == (if up.archive.None? then [] else if runs then pub.pages else [ErrorPage])
             && m == ApplyAll(m0[b := CreatedBucket()], inner)
             && trace == t0 + CreateCalls(b) + inner
             && ts == ts0 + (if runs then TimerList(pub.timer) else [])
    ensures var o := Pipeline.ProcessFile(m0, up, r, env);
            && o.reply == (if thrown then OuterCatch(pages) else Reply(200, pages))
            && o.swept == thrown
            && m == ApplyAll(m0, o.calls)
            && RequestBucket(env) in m
            && trace == t0 + o.calls
            && ts == ts0 + TimerList(o.timer)
            && (up.archive.None? ==> o.scratch.None?)
  {
    var b := RequestBucket(env);
    var runs := InfoEntryData(up).Some? && env.scratch.Some?;
    var inner := if runs then Publish(b, up.bytes, InfoEntryData(up).GetOr([]), r).calls else [];
    var o := Pipeline.ProcessFile(m0, up, r, env);
    if up.archive.Some? {
      ProcessFileReply(m0, up, r, env);
    } else {
      ProcessFileUnreadable(m0, up, r, env);
    }
    ProcessFileCalls(m0, up, r, env);
    ProcessFileEffect(m0, up, r, env);
    assert o.calls == CreateCalls(b) + inner;
    Associative(t0, CreateCalls(b), inner);
    CreateEffect(m0, b);
    ApplyAllAppend(m0, CreateCalls(b), inner);
  }

  /** The scratch file of a readable archive, as `Pipeline.ProcessFile` reports it. */
  lemma ReadableScratch(m0: Buckets, up: Upload, r: Resources, env: Env,
                        files0: set<string>, files: set<string>, marked0: set<string>, marked: set<string>)
    requires RequestBucket(env) !in m0 && up.archive.Some?
    requires var p := if FirstInfoEntry(Names(up.archive.value)).Some? then env.scratch else None;
             var kept := if p.Some? && !env.scratchDeleted then {p.value} else {};
             files == files0 + kept && marked == marked0 + kept
    ensures var o := Pipeline.ProcessFile(m0, up, r, env);
            var kept := if o.scratch.Some? && !env.scratchDeleted then {o.scratch.value} else {};
            files == files0 + kept && marked == marked0 + kept
  {
    ProcessFileReply(m0, up, r, env);
  }

  /** The whole request, from `createBucket` to the end of the outer `catch`, is what
      `Pipeline.ProcessFile` specifies: the reply, the store (less the bucket the outer `catch`
      swept, listing `keys`), the calls, the timers and the scratch files left behind. */
  lemma Settle(m0: Buckets, up: Upload, r: Resources, env: Env, t0: seq<Call>,
               pages: seq<Page>, thrown: bool, m: Buckets, trace: seq<Call>, ts0: seq<Timer>, ts: seq<Timer>,
               files0: set<string>, files: set<string>, marked0: set<string>, marked: set<string>,
               reply: Reply, mEnd: Buckets, tEnd: seq<Call>, keys: seq<string>)
    requires RequestBucket(env) !in m0
    requires var b := RequestBucket(env);
             var runs := InfoEntryData(up).Some? && env.scratch.Some?;
             var pub := Publish(b, up.bytes, InfoEntryData(up).GetOr([]), r);
             var inner := if runs then pub.calls else [];
             && thrown == (up.archive.None? || (runs && pub.thrown))
             && pages == (if up.archive.None? then [] else if runs then pub.pages else [ErrorPage])
             && m == ApplyAll(m0[b := CreatedBucket()], inner)
             && trace == t0 + CreateCalls(b) + inner
             && ts == ts0 + (if runs then TimerList(pub.timer) else [])
    requires var p := if up.archive.Some? && FirstInfoEntry(Names(up.archive.value)).Some? then env.scratch else None;
             var kept := if p.Some? && !env.scratchDeleted then {p.value} else {};
             files == files0 + kept && marked == marked0 + kept
    requires var b := RequestBucket(env);
             && reply == (if thrown then OuterCatch(pages) else Reply(200, pages))
             && mEnd == (if thrown then m - {b} else m)
             && tEnd == trace + (if thrown && b in m then SweepCalls(b, keys) else [])
             && (thrown && b in m ==> forall k :: k in keys <==> k in m[b].objects)
    ensures var o := Pipeline.ProcessFile(m0, up, r, env);
            var b := RequestBucket(env);
            && reply == o.reply
            && mEnd == StoreAfter(m0, o, b)
            && tEnd == t0 + o.calls + (if o.swept then SweepCalls(b, keys) else [])
            && ts == ts0 + TimerList(o.timer)
    ensures var o := Pipeline.ProcessFile(m0, up, r, env);
            var b := RequestBucket(env);
            o.swept ==> b in ApplyAll(m0, o.calls) &&
                        forall k :: k in keys <==> k in ApplyAll(m0, o.calls)[b].objects
    ensures var o := Pipeline.ProcessFile(m0, up, r, env);
            var kept := if o.scratch.Some? && !env.scratchDeleted then {o.scratch.value} else {};
            files == files0 + kept && marked == marked0 + kept
  {
    RequestOutcome(m0, up, r, env, t0, pages, thrown, m, trace, ts0, ts);
    if up.archive.Some? {
      ReadableScratch(m0, up, r, env, files0, files, marked0, marked);
    }
  }

  lemma Associative<T>(a: seq<T>, b: seq<T>, c: seq<T>)
    ensures a + b + c == a + (b + c)
  {
  }

  function TimerList(t: Option<Timer>): seq<Timer> {
    if t.Some? then [t.value] else []
  }

  /** The calls of `deleteBucket` once it has listed `keys`: one delete per key, then the
      bucket. */
  function SweepCalls(name: string, keys: seq<string>): seq<Call> {
    DeleteCalls(name, keys) + [Call.DeleteBucket(name)]
  }

  /** One object delete per key, in order. */
  function DeleteCalls(name: string, keys: seq<string>): seq<Call> {
    seq(|keys|, i requires 0 <= i < |keys| => Call.DeleteObject(name, keys[i]))
  }

  class MainVerticle {
    const s3: Store
    var timers: seq<Timer>
    var tempFiles: set<string>
    var deleteOnExit: set<string>

    /** The store's invariant, and the ordering property of its whole history. */
    ghost predicate StoreValid()
      reads this, s3
    {
      s3.Valid() && NarrowedAfterObjectsPublic(s3.trace)
    }

    ghost predicate Valid()
      reads this, s3
    {
      StoreValid() && tempFiles <= deleteOnExit
    }

    constructor (store: Store)
      requires store.Valid() && NarrowedAfterObjectsPublic(store.trace)
      ensures Valid() && s3 == store
      ensures timers == [] && tempFiles == {} && deleteOnExit == {}
    {
      s3 := store;
      timers := [];
      tempFiles := {};
      deleteOnExit := {};
    }

    /** `deleteBucket`: list the objects, delete each, then delete the bucket. A missing bucket
        makes the listing throw, and nothing changes. */
    method DeleteBucket(name: string) returns (ok: bool, ghost keys: seq<string>)
      requires StoreValid()
      modifies s3
      ensures StoreValid()
      ensures ok == (name in old(s3.buckets))
      ensures s3.buckets == old(s3.buckets) - {name}
      ensures ok ==> (forall k :: k in keys <==> k in old(s3.buckets)[name].objects)
      ensures ok ==> |keys| == |old(s3.buckets)[name].objects|
      ensures s3.trace == old(s3.trace) + (if ok then SweepCalls(name, keys) else [])
    {
      var listing := s3.ListObjects(name);
      if listing.None? {
        ok, keys := false, [];
        return;
      }
      var listed := listing.value;
      keys := listed;
      ghost var before := s3.buckets[name];
      EmptyBucket(name, listed);
      assert Without(before.objects, listed) == map[];
      ghost var t := s3.trace;
      var removed := s3.DeleteBucket(name);
      NoNarrowing(t, [Call.DeleteBucket(name)]);
      assert old(s3.buckets)[name := before.(objects := map[])] - {name} == old(s3.buckets) - {name};
      ok := true;
    }

    /** The sweep of `deleteBucket`'s listing, one object after the other. */
    method EmptyBucket(name: string, listed: seq<string>)
      requires StoreValid() && name in s3.buckets
      modifies s3
      ensures StoreValid()
      ensures var before := old(s3.buckets)[name];
              s3.buckets == old(s3.buckets)[name := before.(objects := Without(before.objects, listed))]
      ensures s3.trace == old(s3.trace) + DeleteCalls(name, listed)
    {
      ghost var before := s3.buckets[name];
      assert Without(before.objects, listed[..0]) == before.objects;
      assert s3.buckets[name := before] == s3.buckets;
      var i := 0;
      while i < |listed|
        invariant i <= |listed|
        invariant StoreValid()
        invariant s3.buckets == old(s3.buckets)[name := before.(objects := Without(before.objects, listed[..i]))]
        invariant s3.trace == old(s3.trace) + DeleteCalls(name, listed[..i])
      {
        ghost var t := s3.trace;
        var deleted := s3.DeleteObject(name, listed[i]);
        assert listed[..i + 1] == listed[..i] + [listed[i]];
        assert Without(before.objects, listed[..i + 1]) == Without(before.objects, listed[..i]) - {listed[i]};
        assert DeleteCalls(name, listed[..i + 1]) == DeleteCalls(name, listed[..i]) + [Call.DeleteObject(name, listed[i])];
        NoNarrowing(t, [Call.DeleteObject(name, listed[i])]);
        i := i + 1;
      }
      assert listed[..i] == listed;
    }

    /** `deleteAllBuckets`, run at start-up: every bucket of the account is deleted. */
    method DeleteAllBuckets()
      requires StoreValid()
      modifies s3
      ensures StoreValid()
      ensures s3.buckets == map[]
    {
      var names := s3.ListBuckets();
      var i := 0;
      while i < |names|
        invariant i <= |names|
        invariant StoreValid()
        invariant forall n :: n in s3.buckets <==> n in old(s3.buckets) && n !in names[..i]
      {
        ghost var before := s3.buckets;
        ghost var keys;
        var ok;
        ok, keys := DeleteBucket(names[i]);
        Swept(old(s3.buckets), before, s3.buckets, names, i);
        i := i + 1;
      }
      assert names[..i] == names;
      assert s3.buckets.Keys == {};
    }

    /** `createBucket`: a public read-write bucket with the one-day lifecycle rule. When the
        name is taken the exception leaves the request. */
    method CreateBucket(name: string) returns (ok: bool)
      requires StoreValid()
      modifies s3
      ensures StoreValid()
      ensures ok == (name !in old(s3.buckets))
      ensures s3.buckets == (if ok then old(s3.buckets)[name := CreatedBucket()] else old(s3.buckets))
      ensures s3.trace == old(s3.trace) + (if ok then CreateCalls(name) else [])
    {
      ok := s3.CreateBucket(name, PublicReadWrite);
      if ok {
        var configured := s3.SetLifecycle(name, [DeleteRule]);
        assert s3.trace == old(s3.trace) + CreateCalls(name);
        NoNarrowing(old(s3.trace), CreateCalls(name));
      } else {
        assert s3.trace == old(s3.trace);
      }
    }

    /** `scheduleDelete`: a timer for the configured delay; `valueOf` or `setTimer` throwing
        leaves no timer. */
    method ScheduleDelete(name: string, c: ExpirationConfig) returns (ok: bool)
      modifies this
      ensures ok == TimerAccepted(c)
      ensures timers == old(timers) + (if ok then [Timer(ExpirationMillis(c).value, name)] else [])
      ensures tempFiles == old(tempFiles) && deleteOnExit == old(deleteOnExit)
    {
      var unit := ValueOf(c.unit);
      if unit.None? {
        ok := false;
        return;
      }
      var millis := ToMillis(unit.value, Delay(c));
      if millis < 1 {
        ok := false;
        return;
      }
      timers := timers + [Timer(millis, name)];
      ok := true;
    }

    /** A timer fires: it is removed and its bucket deleted with `deleteBucket`. */
    method FireTimer(i: nat) returns (ok: bool, ghost keys: seq<string>)
      requires Valid() && i < |timers|
      modifies this, s3
      ensures Valid()
      ensures timers == old(timers[..i] + timers[i + 1..])
      ensures tempFiles == old(tempFiles) && deleteOnExit == old(deleteOnExit)
      ensures ok == (old(timers[i].bucket) in old(s3.buckets))
      ensures s3.buckets == old(s3.buckets) - {old(timers[i].bucket)}
      ensures ok ==> (forall k :: k in keys <==> k in old(s3.buckets)[old(timers[i].bucket)].objects)
      ensures s3.trace == old(s3.trace) + (if ok then SweepCalls(old(timers[i].bucket), keys) else [])
    {
      var t := timers[i];
      timers := timers[..i] + timers[i + 1..];
      ok, keys := DeleteBucket(t.bucket);
    }

    /** The package upload and `setObjectPublic` for it. */
    method UploadPackage(b: string, pkg: seq<Byte>)
      requires s3.Valid() && b in s3.buckets
      modifies s3
      ensures s3.Valid() && b in s3.buckets
      ensures s3.buckets == ApplyAll(old(s3.buckets), UploadCalls(b, pkg))
      ensures s3.trace == old(s3.trace) + UploadCalls(b, pkg)
    {
      ghost var m0 := s3.buckets;
      var ok := s3.PutObject(b, PackageKey, FileBytes(pkg));
      ok := s3.SetObjectAcl(b, PackageKey, PublicRead);
      ApplyPair(m0, UploadCalls(b, pkg)[0], UploadCalls(b, pkg)[1]);
      assert UploadCalls(b, pkg) == [UploadCalls(b, pkg)[0], UploadCalls(b, pkg)[1]];
    }

    /** The inner block, once the entry's bytes are in the scratch file: decode, extract, upload
        the package and make it public, then the manifest. Any exception sends the error page. */
    method PublishInfoEntry(b: string, pkg: seq<Byte>, data: seq<Byte>, r: Resources) returns (pages: seq<Page>, thrown: bool)
      requires s3.Valid() && b in s3.buckets
      modifies this, s3
      ensures s3.Valid()
      ensures var pub := Publish(b, pkg, data, r);
              && pages == pub.pages && thrown == pub.thrown
              && s3.buckets == ApplyAll(old(s3.buckets), pub.calls)
              && s3.trace == old(s3.trace) + pub.calls
              && timers == old(timers) + TimerList(pub.timer)
      ensures tempFiles == old(tempFiles) && deleteOnExit == old(deleteOnExit)
    {
      ghost var m0 := s3.buckets;
      thrown := false;
      var dict := DecodePlist(r.binaryPlist, r.textPlist, data);
      if dict.None? {
        pages := [ErrorPage];
        return;
      }
      var meta := Extract(dict.value);
      if meta.None? {
        pages := [ErrorPage];
        return;
      }
      UploadPackage(b, pkg);
      pages, thrown := UploadManifest(b, meta.value, r);
      ApplyAllAppend(m0, UploadCalls(b, pkg), PublishManifest(b, meta.value, r).calls);
    }

    /** The manifest: read the template, fill it, upload it, make it public, make the bucket
        read-only, then respond. */
    method UploadManifest(b: string, meta: AppMetadata, r: Resources) returns (pages: seq<Page>, thrown: bool)
      requires s3.Valid() && b in s3.buckets
      modifies this, s3
      ensures s3.Valid()
      ensures var pub := PublishManifest(b, meta, r);
              && pages == pub.pages && thrown == pub.thrown
              && s3.buckets == ApplyAll(old(s3.buckets), pub.calls)
              && s3.trace == old(s3.trace) + pub.calls
              && timers == old(timers) + TimerList(pub.timer)
      ensures tempFiles == old(tempFiles) && deleteOnExit == old(deleteOnExit)
    {
      ghost var m0 := s3.buckets;
      thrown := false;
      if r.manifestTemplate.None? {
        pages := [ErrorPage];
        return;
      }
      var manifest := RenderManifest(r.manifestTemplate.value, meta, ObjectUrl(b, PackageKey));
      if manifest.None? {
        pages := [ErrorPage];
        return;
      }
      var ok := s3.PutObject(b, ManifestKey, Content.Text(manifest.value));
      ok := s3.SetObjectAcl(b, ManifestKey, PublicRead);
      ok := s3.SetBucketAcl(b, PublicRead);
      assert s3.trace == old(s3.trace) + ManifestCalls(b, manifest.value);
      ghost var cs := ManifestCalls(b, manifest.value);
      ApplyTriple(m0, cs[0], cs[1], cs[2]);
      assert cs == [cs[0], cs[1], cs[2]];
      pages, thrown := SendResult(b, meta, r);
      assert cs + Respond(b, meta, r).calls == cs;
    }

    /** The result page with the install link, then `scheduleDelete`. When scheduling throws,
        the `catch` sends the error page on the ended response, which throws in turn: `thrown`. */
    method SendResult(b: string, meta: AppMetadata, r: Resources) returns (pages: seq<Page>, thrown: bool)
      requires meta.displayName.Some?
      modifies this
      ensures var pub := Respond(b, meta, r);
              && pages == pub.pages && thrown == pub.thrown && pub.calls == []
              && timers == old(timers) + TimerList(pub.timer)
      ensures tempFiles == old(tempFiles) && deleteOnExit == old(deleteOnExit)
    {
      thrown := false;
      if r.resultPage.None? {
        pages := [ErrorPage];
        return;
      }
      var link := Link(ObjectUrl(b, ManifestKey), meta.displayName.value);
      pages := [ResultPage(RenderResultPage(r.resultPage.value, link, Delay(r.config)))];
      var scheduled := ScheduleDelete(b, r.config);
      thrown := !scheduled;
    }

    /** The end of `processFile`: without an exception the pages sent make a 200 reply; an
        exception reaches the outer `catch`, which deletes the bucket (listing `keys`) and
        sends the error page, or escapes when a page was already sent. */
    method EndRequest(b: string, pages: seq<Page>, thrown: bool) returns (reply: Reply, ghost keys: seq<string>)
      requires StoreValid()
      modifies s3
      ensures StoreValid()
      ensures reply == (if thrown then OuterCatch(pages) else Reply(200, pages))
      ensures s3.buckets == (if thrown then old(s3.buckets) - {b} else old(s3.buckets))
      ensures s3.trace == old(s3.trace) + (if thrown && b in old(s3.buckets) then SweepCalls(b, keys) else [])
      ensures thrown && b in old(s3.buckets) ==> forall k :: k in keys <==> k in old(s3.buckets)[b].objects
    {
      if thrown {
        var deleted;
        deleted, keys := DeleteBucket(b);
        reply := OuterCatch(pages);
      } else {
        keys := [];
        reply := Reply(200, pages);
      }
    }

    /** `processFile`: one uploaded file, from the new bucket to the reply. The outer `catch`
        deletes the bucket with `deleteBucket`, which lists `keys`. */
    method ProcessFile(up: Upload, r: Resources, env: Env) returns (reply: Reply, ghost keys: seq<string>)
      requires Valid()
      requires env.scratch.Some? ==> env.scratch.value !in tempFiles
      modifies this, s3
      ensures Valid()
      ensures var o := Pipeline.ProcessFile(old(s3.buckets), up, r, env);
              var b := RequestBucket(env);
              && reply == o.reply
              && s3.buckets == StoreAfter(old(s3.buckets), o, b)
              && s3.trace == old(s3.trace) + o.calls + (if o.swept then SweepCalls(b, keys) else [])
              && timers == old(timers) + TimerList(o.timer)
      ensures var o := Pipeline.ProcessFile(old(s3.buckets), up, r, env);
              var b := RequestBucket(env);
              o.swept ==> b in ApplyAll(old(s3.buckets), o.calls) &&
                          forall k :: k in keys <==> k in ApplyAll(old(s3.buckets), o.calls)[b].objects
      ensures var o := Pipeline.ProcessFile(old(s3.buckets), up, r, env);
              var kept := if o.scratch.Some? && !env.scratchDeleted then {o.scratch.value} else {};
              tempFiles == old(tempFiles) + kept && deleteOnExit == old(deleteOnExit) + kept
    {
      ghost var m0 := s3.buckets;
      var b := BucketName(RandomUuid(env.random));
      var created := CreateBucket(b);
      if !created {
        assert Pipeline.ProcessFile(m0, up, r, env) == Outcome(Escaped([]), [], None, None, false);
        reply, keys := Escaped([]), [];
        return;
      }
      CreateEffect(m0, b);
      ghost var ts := timers;
      ghost var files, marked := tempFiles, deleteOnExit;
      var pages, thrown := ProcessArchive(b, up, r, env);
      ghost var m1, t1 := s3.buckets, s3.trace;
      reply, keys := EndRequest(b, pages, thrown);
      Settle(m0, up, r, env, old(s3.trace), pages, thrown, m1, t1, ts, timers,
             files, tempFiles, marked, deleteOnExit, reply, s3.buckets, s3.trace, keys);
    }

    /** `processFile` from opening the archive: an archive that cannot be opened throws to the
        outer `catch`; otherwise find the metadata entry, copy it to the scratch file, run the
        inner block, then delete the scratch file (or mark it for deletion on exit when that
        fails). */
    method ProcessArchive(b: string, up: Upload, r: Resources, env: Env) returns (pages: seq<Page>, thrown: bool)
      requires Valid()
      requires b in s3.buckets && s3.buckets[b] == CreatedBucket()
      requires env.scratch.Some? ==> env.scratch.value !in tempFiles
      modifies this, s3
      ensures Valid()
      ensures var runs := InfoEntryData(up).Some? && env.scratch.Some?;
              var pub := Publish(b, up.bytes, InfoEntryData(up).GetOr([]), r);
              var inner := if runs then pub.calls else [];
              && pages == (if up.archive.None? then [] else if runs then pub.pages else [ErrorPage])
              && thrown == (up.archive.None? || (runs && pub.thrown))
              && s3.buckets == ApplyAll(old(s3.buckets), inner)
              && s3.trace == old(s3.trace) + inner
              && timers == old(timers) + (if runs then TimerList(pub.timer) else [])
      ensures var p := if up.archive.Some? && FirstInfoEntry(Names(up.archive.value)).Some? then env.scratch else None;
              var kept := if p.Some? && !env.scratchDeleted then {p.value} else {};
              tempFiles == old(tempFiles) + kept && deleteOnExit == old(deleteOnExit) + kept
    {
      if up.archive.None? {
        pages, thrown := [], true;
        return;
      }
      var entries := up.archive.value;
      var found := FindInfoEntry(entries);
      thrown := false;
      if found.None? || env.scratch.None? {
        pages := [ErrorPage];
        return;
      }
      var path := env.scratch.value;
      tempFiles := tempFiles + {path};
      pages, thrown := RunInnerBlock(b, up.bytes, entries[found.value].data, r);
      DropScratch(path, env.scratchDeleted);
    }

    /** The inner block once the scratch file exists: the error page when the entry cannot be
        read, otherwise `PublishInfoEntry` on its bytes. */
    method RunInnerBlock(b: string, pkg: seq<Byte>, data: Option<seq<Byte>>, r: Resources) returns (pages: seq<Page>, thrown: bool)
      requires StoreValid() && b in s3.buckets
      modifies this, s3
      ensures StoreValid()
      ensures var pub := Publish(b, pkg, data.GetOr([]), r);
              var inner := if data.Some? then pub.calls else [];
              && pages == (if data.Some? then pub.pages else [ErrorPage])
              && thrown == (data.Some? && pub.thrown)
              && s3.buckets == ApplyAll(old(s3.buckets), inner)
              && s3.trace == old(s3.trace) + inner
              && timers == old(timers) + (if data.Some? then TimerList(pub.timer) else [])
      ensures tempFiles == old(tempFiles) && deleteOnExit == old(deleteOnExit)
    {
      if data.None? {
        pages, thrown := [ErrorPage], false;
        return;
      }
      ghost var t := s3.trace;
      pages, thrown := PublishInfoEntry(b, pkg, data.value, r);
      PublishOrdered(b, pkg, data.value, r);
      NarrowedAppend(t, Publish(b, pkg, data.value, r).calls);
    }

    /** The `finally` block: delete the scratch file, or mark it for deletion on exit when
        that fails. */
    method DropScratch(path: string, deleted: bool)
      modifies this
      ensures tempFiles == (if deleted then old(tempFiles) - {path} else old(tempFiles))
      ensures deleteOnExit == (if deleted then old(deleteOnExit) else old(deleteOnExit) + {path})
      ensures timers == old(timers)
    {
      if deleted {
        tempFiles := tempFiles - {path};
      } else {
        deleteOnExit := deleteOnExit + {path};
      }
    }
  }
}
