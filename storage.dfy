/** The object store the service talks to (Amazon S3), as an in-memory abstract collaborator:
    a map from bucket name to a bucket with its canned ACL, its lifecycle rules and its objects,
    each object with its own ACL.

    Each store call either takes effect or is refused, exactly as `Accepts` says; a refused call
    is the SDK throwing and changes nothing. `Apply` is the effect of one call and `ApplyAll` of a
    sequence; the `Store` class is the mutable client, whose methods are proved against them. The
    store also keeps a ghost `trace` of the calls that took effect, on which ordering properties
    are stated. Because an ACL change on a missing key is refused (S3's `NoSuchKey`), the store
    itself guarantees that no object is made public before it has been uploaded
    (`Store.Valid`). */
module Storage {
  import opened Base

  datatype Acl = Private | PublicRead | PublicReadWrite

  /** A bucket lifecycle rule: expire objects carrying tag `tagKey=tagValue` after some days. */
  datatype LifecycleRule = LifecycleRule(id: string, tagKey: string, tagValue: string, expirationDays: nat, enabled: bool)

  datatype Content = FileBytes(bytes: seq<Byte>) | Text(text: string)

  datatype StoredObject = StoredObject(content: Content, acl: Acl)

  datatype Bucket = Bucket(acl: Acl, rules: seq<LifecycleRule>, objects: map<string, StoredObject>)

  type Buckets = map<string, Bucket>

  /** The calls of the S3 client the service makes. */
  datatype Call =
    | CreateBucket(bucket: string, acl: Acl)
    | SetLifecycle(bucket: string, rules: seq<LifecycleRule>)
    | PutObject(bucket: string, key: string, content: Content)
    | SetObjectAcl(bucket: string, key: string, acl: Acl)
    | SetBucketAcl(bucket: string, acl: Acl)
    | DeleteObject(bucket: string, key: string)
    | DeleteBucket(bucket: string)

  /** When the store accepts a call: a new bucket name must be free, every other call needs the
      bucket, an object ACL needs the object, and a bucket can only be deleted empty. Deleting a
      missing key is accepted and does nothing. An accepted call names an existing bucket
      exactly when it does not create one. */
  function Accepts(m: Buckets, c: Call): (ok: bool)
    ensures ok ==> (c.bucket in m <==> !c.CreateBucket?)
  {
    match c
    case CreateBucket(b, _) => b !in m
    case SetObjectAcl(b, k, _) => b in m && k in m[b].objects
    case DeleteBucket(b) => b in m && m[b].objects == map[]
    case _ => c.bucket in m
  }

  /** The stores `m` and `r` agree on every bucket except possibly `b`. */
  ghost predicate SameElsewhere(m: Buckets, r: Buckets, b: string) {
    forall x :: x != b ==> (x in r <==> x in m) && (x in m ==> r[x] == m[x])
  }

  /** The effect of one call; a refused call changes nothing. A fresh upload is private. The
      call's bucket exists afterwards unless an accepted call deleted it. */
  function Apply(m: Buckets, c: Call): (r: Buckets)
    ensures !Accepts(m, c) ==> r == m
    ensures c.bucket in r <==> (if Accepts(m, c) then !c.DeleteBucket? else c.bucket in m)
  {
    if !Accepts(m, c) then m
    else match c
      case CreateBucket(b, acl) => m[b := Bucket(acl, [], map[])]
      case SetLifecycle(b, rules) => m[b := m[b].(rules := rules)]
      case PutObject(b, k, content) => m[b := m[b].(objects := m[b].objects[k := StoredObject(content, Private)])]
      case SetObjectAcl(b, k, acl) => m[b := m[b].(objects := m[b].objects[k := m[b].objects[k].(acl := acl)])]
      case SetBucketAcl(b, acl) => m[b := m[b].(acl := acl)]
      case DeleteObject(b, k) => m[b := m[b].(objects := m[b].objects - {k})]
      case DeleteBucket(b) => m - {b}
  }

  /** A call changes no bucket but its own. */
  lemma ApplyFrame(m: Buckets, c: Call)
    ensures SameElsewhere(m, Apply(m, c), c.bucket)
  {
  }

  /** The effect of a sequence of calls, in order. */
  function ApplyAll(m: Buckets, cs: seq<Call>): Buckets {
    if cs == [] then m else Apply(ApplyAll(m, cs[..|cs| - 1]), cs[|cs| - 1])
  }

  /** Every call of `cs` is accepted in turn, starting from `m`. */
  predicate AllAccepted(m: Buckets, cs: seq<Call>) {
    cs == [] || (AllAccepted(m, cs[..|cs| - 1]) && Accepts(ApplyAll(m, cs[..|cs| - 1]), cs[|cs| - 1]))
  }

  lemma ApplyAllSnoc(m: Buckets, cs: seq<Call>, c: Call)
    ensures ApplyAll(m, cs + [c]) == Apply(ApplyAll(m, cs), c)
    ensures AllAccepted(m, cs + [c]) <==> AllAccepted(m, cs) && Accepts(ApplyAll(m, cs), c)
  {
    assert (cs + [c])[..|cs|] == cs;
  }

  lemma {:induction false} ApplyAllAppend(m: Buckets, xs: seq<Call>, ys: seq<Call>)
    ensures ApplyAll(m, xs + ys) == ApplyAll(ApplyAll(m, xs), ys)
    ensures AllAccepted(m, xs + ys) <==> AllAccepted(m, xs) && AllAccepted(ApplyAll(m, xs), ys)
    decreases |ys|
  {
    if ys == [] {
      assert xs + ys == xs;
    } else {
      var init := ys[..|ys| - 1];
      var last := ys[|ys| - 1];
      assert xs + ys == (xs + init) + [last];
      assert ys == init + [last];
      ApplyAllAppend(m, xs, init);
      ApplyAllSnoc(m, xs + init, last);
      ApplyAllSnoc(ApplyAll(m, xs), init, last);
    }
  }

  /** Some call of `cs` uploaded key `k` into bucket `b`. */
  predicate Uploaded(cs: seq<Call>, b: string, k: string) {
    exists j :: 0 <= j < |cs| && cs[j].PutObject? && cs[j].bucket == b && cs[j].key == k
  }

  predicate GrantsPublicAccess(c: Call) {
    c.SetObjectAcl? && c.acl != Private
  }

  /** No object ACL is opened before some earlier call uploaded that object. */
  predicate PublicOnlyAfterUpload(cs: seq<Call>) {
    forall i :: 0 <= i < |cs| && GrantsPublicAccess(cs[i]) ==> Uploaded(cs[..i], cs[i].bucket, cs[i].key)
  }

  lemma UploadedSnoc(cs: seq<Call>, c: Call, b: string, k: string)
    ensures Uploaded(cs + [c], b, k) <==> Uploaded(cs, b, k) || (c.PutObject? && c.bucket == b && c.key == k)
  {
    if Uploaded(cs + [c], b, k) && !(c.PutObject? && c.bucket == b && c.key == k) {
      var j :| 0 <= j < |cs| + 1 && (cs + [c])[j].PutObject? && (cs + [c])[j].bucket == b && (cs + [c])[j].key == k;
      assert j < |cs| && (cs + [c])[j] == cs[j];
    }
    if Uploaded(cs, b, k) {
      var j :| 0 <= j < |cs| && cs[j].PutObject? && cs[j].bucket == b && cs[j].key == k;
      assert (cs + [c])[j] == cs[j];
    }
    if c.PutObject? && c.bucket == b && c.key == k {
      assert (cs + [c])[|cs|] == c;
    }
  }

  lemma PublicOnlyAfterUploadSnoc(cs: seq<Call>, c: Call)
    ensures PublicOnlyAfterUpload(cs + [c]) <==>
              PublicOnlyAfterUpload(cs) && (GrantsPublicAccess(c) ==> Uploaded(cs, c.bucket, c.key))
  {
    var t := cs + [c];
    assert t[..|cs|] == cs && t[|cs|] == c;
    forall i | 0 <= i < |cs| ensures t[i] == cs[i] && t[..i] == cs[..i] {}
  }

  /** The object invariant of the store: the trace never opens an object before uploading it,
      and every stored object was uploaded. */
  ghost predicate Consistent(m: Buckets, trace: seq<Call>) {
    && PublicOnlyAfterUpload(trace)
    && forall b, k :: b in m && k in m[b].objects ==> Uploaded(trace, b, k)
  }

  /** Whatever call the store accepts, consistency is kept. */
  lemma ApplyKeepsConsistent(m: Buckets, trace: seq<Call>, c: Call)
    requires Consistent(m, trace)
    ensures Accepts(m, c) ==> Consistent(Apply(m, c), trace + [c])
  {
    if Accepts(m, c) {
      PublicOnlyAfterUploadSnoc(trace, c);
      var m' := Apply(m, c);
      forall b, k | b in m' && k in m'[b].objects ensures Uploaded(trace + [c], b, k) {
        UploadedSnoc(trace, c, b, k);
        if !(c.PutObject? && c.bucket == b && c.key == k) {
          assert b in m && k in m[b].objects;
        }
      }
    }
  }

  predicate Distinct(xs: seq<string>) {
    forall i, j :: 0 <= i < j < |xs| ==> xs[i] != xs[j]
  }

  /** Lists a set of names once each, in no particular order (S3's listings are by key order,
      which nothing here depends on). */
  method Enumerate(s: set<string>) returns (xs: seq<string>)
    ensures forall x :: x in xs <==> x in s
    ensures Distinct(xs) && |xs| == |s|
  {
    xs := [];
    var rest := s;
    while rest != {}
      invariant rest <= s
      invariant forall x :: x in xs <==> x in s && x !in rest
      invariant Distinct(xs)
      invariant |xs| + |rest| == |s|
      decreases |rest|
    {
      var x :| x in rest;
      xs := xs + [x];
      rest := rest - {x};
    }
  }

  /** The S3 client: shared by all requests, updated in place by every call. */
  class Store {
    var buckets: Buckets
    ghost var trace: seq<Call>

    ghost predicate Valid()
      reads this
    {
      Consistent(buckets, trace)
    }

    /** A store with no buckets. */
    constructor ()
      ensures Valid() && buckets == map[] && trace == []
    {
      buckets := map[];
      trace := [];
    }

    /** Records an accepted call; the common tail of every mutating call. */
    method Perform(c: Call) returns (ok: bool)
      requires Valid()
      modifies this
      ensures Valid()
      ensures ok == Accepts(old(buckets), c)
      ensures buckets == Apply(old(buckets), c)
      ensures trace == old(trace) + (if ok then [c] else [])
    {
      ok := Accepts(buckets, c);
      ApplyKeepsConsistent(buckets, trace, c);
      if ok {
        buckets := Apply(buckets, c);
        trace := trace + [c];
      }
    }

    /** `createBucket` with a canned ACL. */
    method CreateBucket(name: string, acl: Acl) returns (ok: bool)
      requires Valid()
      modifies this
      ensures Valid()
      ensures ok == (name !in old(buckets))
      ensures buckets == Apply(old(buckets), Call.CreateBucket(name, acl))
      ensures trace == old(trace) + (if ok then [Call.CreateBucket(name, acl)] else [])
    {
      ok := Perform(Call.CreateBucket(name, acl));
    }

    /** `setBucketLifecycleConfiguration`. */
    method SetLifecycle(name: string, rules: seq<LifecycleRule>) returns (ok: bool)
      requires Valid()
      modifies this
      ensures Valid()
      ensures ok == (name in old(buckets))
      ensures buckets == Apply(old(buckets), Call.SetLifecycle(name, rules))
      ensures trace == old(trace) + (if ok then [Call.SetLifecycle(name, rules)] else [])
    {
      ok := Perform(Call.SetLifecycle(name, rules));
    }

    /** `putObject`, from a file or from a string. */
    method PutObject(name: string, key: string, content: Content) returns (ok: bool)
      requires Valid()
      modifies this
      ensures Valid()
      ensures ok == (name in old(buckets))
      ensures buckets == Apply(old(buckets), Call.PutObject(name, key, content))
      ensures trace == old(trace) + (if ok then [Call.PutObject(name, key, content)] else [])
    {
      ok := Perform(Call.PutObject(name, key, content));
    }

    /** `setObjectAcl` with a canned ACL. */
    method SetObjectAcl(name: string, key: string, acl: Acl) returns (ok: bool)
      requires Valid()
      modifies this
      ensures Valid()
      ensures ok == (name in old(buckets) && key in old(buckets)[name].objects)
      ensures buckets == Apply(old(buckets), Call.SetObjectAcl(name, key, acl))
      ensures trace == old(trace) + (if ok then [Call.SetObjectAcl(name, key, acl)] else [])
    {
      ok := Perform(Call.SetObjectAcl(name, key, acl));
    }

    /** `setBucketAcl` with a canned ACL. */
    method SetBucketAcl(name: string, acl: Acl) returns (ok: bool)
      requires Valid()
      modifies this
      ensures Valid()
      ensures ok == (name in old(buckets))
      ensures buckets == Apply(old(buckets), Call.SetBucketAcl(name, acl))
      ensures trace == old(trace) + (if ok then [Call.SetBucketAcl(name, acl)] else [])
    {
      ok := Perform(Call.SetBucketAcl(name, acl));
    }

    /** `deleteObject`. */
    method DeleteObject(name: string, key: string) returns (ok: bool)
      requires Valid()
      modifies this
      ensures Valid()
      ensures ok == (name in old(buckets))
      ensures buckets == Apply(old(buckets), Call.DeleteObject(name, key))
      ensures trace == old(trace) + (if ok then [Call.DeleteObject(name, key)] else [])
    {
      ok := Perform(Call.DeleteObject(name, key));
    }

    /** `deleteBucket`: refused unless the bucket exists and is empty. */
    method DeleteBucket(name: string) returns (ok: bool)
      requires Valid()
      modifies this
      ensures Valid()
      ensures ok == (name in old(buckets) && old(buckets)[name].objects == map[])
      ensures buckets == Apply(old(buckets), Call.DeleteBucket(name))
      ensures trace == old(trace) + (if ok then [Call.DeleteBucket(name)] else [])
    {
      ok := Perform(Call.DeleteBucket(name));
    }

    /** `listBuckets`: every bucket name once. */
    method ListBuckets() returns (names: seq<string>)
      ensures forall n :: n in names <==> n in buckets
      ensures Distinct(names)
    {
      names := Enumerate(buckets.Keys);
    }

    /** `listObjects`: the keys of a bucket once each; `None` (NoSuchBucket) for a missing one. */
    method ListObjects(name: string) returns (keys: Option<seq<string>>)
      ensures keys.None? <==> name !in buckets
      ensures keys.Some? ==> (forall k :: k in keys.value <==> k in buckets[name].objects) && Distinct(keys.value)
      ensures keys.Some? ==> |keys.value| == |buckets[name].objects|
    {
      if name in buckets {
        var ks := Enumerate(buckets[name].objects.Keys);
        keys := Some(ks);
      } else {
        keys := None;
      }
    }
  }
}
