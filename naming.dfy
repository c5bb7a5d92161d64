/** Names and addresses the service derives: the per-request bucket name `"apps-" + UUID`,
    the public object URLs and the `itms-services` install link.

    `java.util.UUID.randomUUID()` draws sixteen random bytes and forces the version and variant
    bits of a version-4 UUID (section 4.4 of RFC 4122); `toString` prints the bytes as lower-case
    hexadecimal in groups of 8-4-4-4-12. The random bytes are a parameter here. */
module Naming {
  import opened Base

  type Uuid = b: seq<Byte> | |b| == 16 witness [0, 0, 0, 0, 0, 0, 0, 0, 0, 0, 0, 0, 0, 0, 0, 0]

  /** `randomUUID`: byte 6 gets version 4 in its high nibble, byte 8 the variant bits `10`;
      every other bit is the random one. */
  function RandomUuid(random: Uuid): (u: Uuid)
    ensures u[6] / 16 == 4 && u[6] % 16 == random[6] % 16
    ensures u[8] / 64 == 2 && u[8] % 64 == random[8] % 64
    ensures forall i :: 0 <= i < 16 && i != 6 && i != 8 ==> u[i] == random[i]
  {
    random[6 := random[6] % 16 + 0x40][8 := random[8] % 64 + 0x80]
  }

  function HexChar(n: nat): char
    requires n < 16
  {
    "0123456789abcdef"[n]
  }

  predicate IsLowerHex(c: char) {
    '0' <= c <= '9' || 'a' <= c <= 'f'
  }

  function Hex(bs: seq<Byte>): (s: string)
    ensures |s| == 2 * |bs|
    ensures forall i :: 0 <= i < |s| ==> IsLowerHex(s[i])
  {
    if bs == [] then [] else [HexChar(bs[0] / 16), HexChar(bs[0] % 16)] + Hex(bs[1..])
  }

  /** `UUID.toString()`: 36 characters, lower-case hexadecimal digits with dashes after the
      8th, 12th, 16th and 20th digit. */
  function FormatUuid(u: Uuid): (s: string)
    ensures |s| == 36
    ensures s[8] == '-' && s[13] == '-' && s[18] == '-' && s[23] == '-'
    ensures forall i :: 0 <= i < |s| && i !in {8, 13, 18, 23} ==> IsLowerHex(s[i])
  {
    Hex(u[..4]) + "-" + Hex(u[4..6]) + "-" + Hex(u[6..8]) + "-" + Hex(u[8..10]) + "-" + Hex(u[10..])
  }

  function HexValue(c: char): Option<nat> {
    if '0' <= c <= '9' then Some(c as int - '0' as int)
    else if 'a' <= c <= 'f' then Some(c as int - 'a' as int + 10)
    else None
  }

  /** Reads lower-case hexadecimal back into bytes. */
  function Unhex(s: string): Option<seq<Byte>>
    decreases |s|
  {
    if s == [] then Some([])
    else if |s| < 2 then None
    else match (HexValue(s[0]), HexValue(s[1]), Unhex(s[2..]))
      case (Some(hi), Some(lo), Some(rest)) => if hi < 16 && lo < 16 then Some([hi * 16 + lo] + rest) else None
      case _ => None
  }

  /** Reads the 8-4-4-4-12 form back; used to state that formatting loses nothing. */
  function ParseUuid(s: string): Option<seq<Byte>> {
    if |s| == 36 && s[8] == '-' && s[13] == '-' && s[18] == '-' && s[23] == '-' then
      Unhex(s[..8] + s[9..13] + s[14..18] + s[19..23] + s[24..])
    else None
  }

  lemma HexCharValue(n: nat)
    requires n < 16
    ensures HexValue(HexChar(n)) == Some(n)
  {
  }

  lemma {:induction false} UnhexHex(bs: seq<Byte>)
    ensures Unhex(Hex(bs)) == Some(bs)
  {
    if bs != [] {
      var s := Hex(bs);
      HexCharValue(bs[0] / 16);
      HexCharValue(bs[0] % 16);
      assert s[2..] == Hex(bs[1..]);
      UnhexHex(bs[1..]);
      assert [bs[0]] + bs[1..] == bs;
    }
  }

  lemma {:induction false} HexAppend(a: seq<Byte>, b: seq<Byte>)
    ensures Hex(a + b) == Hex(a) + Hex(b)
  {
    if a != [] {
      assert (a + b)[0] == a[0] && (a + b)[1..] == a[1..] + b;
      HexAppend(a[1..], b);
    } else {
      assert a + b == b;
    }
  }

  /** The hexadecimal groups of a UUID, without the dashes, are the hexadecimal of its bytes. */
  lemma JoinGroups(u: Uuid)
    ensures Hex(u[..4]) + Hex(u[4..6]) + Hex(u[6..8]) + Hex(u[8..10]) + Hex(u[10..]) == Hex(u)
  {
    HexAppend(u[..4], u[4..6]);
    HexAppend(u[..4] + u[4..6], u[6..8]);
    HexAppend(u[..4] + u[4..6] + u[6..8], u[8..10]);
    HexAppend(u[..4] + u[4..6] + u[6..8] + u[8..10], u[10..]);
    assert u[..4] + u[4..6] + u[6..8] + u[8..10] + u[10..] == u;
  }

  /** Where each group sits in the printed form. */
  lemma FormatGroups(u: Uuid)
    ensures var s := FormatUuid(u);
            && s[8] == '-' && s[13] == '-' && s[18] == '-' && s[23] == '-'
            && s[..8] == Hex(u[..4]) && s[9..13] == Hex(u[4..6]) && s[14..18] == Hex(u[6..8])
            && s[19..23] == Hex(u[8..10]) && s[24..] == Hex(u[10..])
  {
    var s := FormatUuid(u);
    var g0, g1, g2, g3, g4 := Hex(u[..4]), Hex(u[4..6]), Hex(u[6..8]), Hex(u[8..10]), Hex(u[10..]);
    assert s == g0 + "-" + g1 + "-" + g2 + "-" + g3 + "-" + g4;
  }

  /** Formatting is injective: the text of a UUID gives back its sixteen bytes, so two requests
      with different UUIDs get different bucket names. */
  lemma ParseFormat(u: Uuid)
    ensures ParseUuid(FormatUuid(u)) == Some(u)
  {
    var s := FormatUuid(u);
    FormatGroups(u);
    JoinGroups(u);
    assert s[..8] + s[9..13] + s[14..18] + s[19..23] + s[24..] == Hex(u);
    UnhexHex(u);
  }

  /** The printed form of a drawn UUID shows version 4 and the RFC 4122 variant. */
  lemma VersionFourMarkers(random: Uuid)
    ensures FormatUuid(RandomUuid(random))[14] == '4'
    ensures FormatUuid(RandomUuid(random))[19] in "89ab"
  {
    var u := RandomUuid(random);
    var s := FormatUuid(u);
    assert s[14..18] == Hex(u[6..8]);
    assert s[14] == HexChar(u[6] / 16);
    assert s[19..23] == Hex(u[8..10]);
    assert s[19] == HexChar(u[8] / 16);
  }

  /** Amazon S3's rules for a bucket name usable in a virtual-hosted URL: 3 to 63 characters,
      lower-case letters, digits, hyphens and dots, starting and ending with a letter or digit. */
  predicate IsValidBucketName(s: string) {
    && 3 <= |s| <= 63
    && (forall i :: 0 <= i < |s| ==> 'a' <= s[i] <= 'z' || '0' <= s[i] <= '9' || s[i] == '-' || s[i] == '.')
    && ('a' <= s[0] <= 'z' || '0' <= s[0] <= '9')
    && ('a' <= s[|s| - 1] <= 'z' || '0' <= s[|s| - 1] <= '9')
  }

  /** `generateBucketName`: every generated name has 41 characters, begins with `apps-`, and has
      no dot, so it is a single DNS label in the object URLs. */
  function BucketName(u: Uuid): (n: string)
    ensures |n| == 41 && n[..5] == "apps-"
    ensures '.' !in n && '{' !in n
  {
    "apps-" + FormatUuid(u)
  }

  /** Every generated name is a valid bucket name. */
  lemma BucketNameValid(u: Uuid)
    ensures IsValidBucketName(BucketName(u))
  {
    var n := BucketName(u);
    assert n == "apps-" + FormatUuid(u);
    forall i | 0 <= i < |n|
      ensures 'a' <= n[i] <= 'z' || '0' <= n[i] <= '9' || n[i] == '-'
    {
      if i >= 5 {
        assert n[i] == FormatUuid(u)[i - 5];
      }
    }
  }

  const PackageKey := "application.ipa"
  const ManifestKey := "application.xml"

  /** The public address of an object: `https://<bucket>.s3.amazonaws.com/<key>`. The fixed
      text contributes no `{`. */
  function ObjectUrl(bucket: string, key: string): (url: string)
    ensures '{' in url <==> '{' in bucket || '{' in key
  {
    "https://" + bucket + ".s3.amazonaws.com/" + key
  }

  /** In the URL of a dot-free bucket name, the first dot after the scheme ends the bucket name. */
  lemma FirstDotEndsBucket(b: string, k: string)
    requires '.' !in b
    ensures var u := ObjectUrl(b, k);
            u[8 + |b|] == '.' && forall i :: 8 <= i < 8 + |b| ==> u[i] != '.'
  {
    var u := ObjectUrl(b, k);
    assert u == "https://" + b + ".s3.amazonaws.com/" + k;
    forall i | 8 <= i < 8 + |b| ensures u[i] != '.' {
      assert u[i] == b[i - 8];
    }
  }

  /** For dot-free bucket names the URL determines the bucket and the key. */
  lemma ObjectUrlInjective(b1: string, k1: string, b2: string, k2: string)
    requires '.' !in b1 && '.' !in b2
    requires ObjectUrl(b1, k1) == ObjectUrl(b2, k2)
    ensures b1 == b2 && k1 == k2
  {
    var u := ObjectUrl(b1, k1);
    FirstDotEndsBucket(b1, k1);
    FirstDotEndsBucket(b2, k2);
    assert |b1| == |b2|;
    assert u[8..8 + |b1|] == b1;
    assert ObjectUrl(b2, k2)[8..8 + |b2|] == b2;
    assert u[8 + |b1| + 18..] == k1;
    assert ObjectUrl(b2, k2)[8 + |b2| + 18..] == k2;
  }

  /** The install link: the anchor template filled with the manifest URL and the display name.
      The anchor itself contributes no `{`: the link has one exactly when the URL or the name
      has. */
  function Link(manifestUrl: string, displayName: string): (a: string)
    ensures '{' in a <==> '{' in manifestUrl || '{' in displayName
  {
    "<a href=\"" + "itms-services://" + "?action=download-manifest&url=" + manifestUrl + "\">" + displayName + "</a>"
  }

  /** The anchor text before the manifest URL. */
  const LinkHead := "<a href=\"" + "itms-services://" + "?action=download-manifest&url="

  /** The first position of `c` in `s`. */
  function IndexOf(s: string, c: char): (r: Option<nat>)
    ensures r.Some? ==> r.value < |s| && s[r.value] == c && c !in s[..r.value]
    ensures r.None? <==> c !in s
  {
    if s == [] then None
    else if s[0] == c then Some(0)
    else
      match IndexOf(s[1..], c)
      case None => None
      case Some(i) => Some(i + 1)
  }

  /** A position holding `c` with no `c` before it is the one `IndexOf` finds. */
  lemma {:induction false} IndexOfFirst(s: string, c: char, k: nat)
    requires k < |s| && s[k] == c && c !in s[..k]
    ensures IndexOf(s, c) == Some(k)
  {
    if k > 0 {
      assert s[0] == s[..k][0];
      assert s[1..][..k - 1] == s[..k][1..];
      IndexOfFirst(s[1..], c, k - 1);
    }
  }

  /** Reads an install link back: the manifest URL runs from `url=` up to the first `"`, and the
      display name lies between the `">` that follows it and the closing `</a>`. */
  function ReadLink(a: string): Option<(string, string)> {
    if |a| < |LinkHead| || a[..|LinkHead|] != LinkHead then None
    else
      var rest := a[|LinkHead|..];
      match IndexOf(rest, '"')
      case None => None
      case Some(i) =>
        var tail := rest[i..];
        if |tail| >= 6 && tail[..2] == "\">" && tail[|tail| - 4..] == "</a>" then
          Some((rest[..i], tail[2..|tail| - 4]))
        else None
  }

  /** A manifest URL without `"` and any display name can be read back from the link, so the
      link says which manifest to install and under which name. */
  lemma {:induction false} LinkReadBack(manifestUrl: string, displayName: string)
    requires '"' !in manifestUrl
    ensures ReadLink(Link(manifestUrl, displayName)) == Some((manifestUrl, displayName))
  {
    var tail := "\">" + displayName + "</a>";
    var rest := manifestUrl + tail;
    var a := Link(manifestUrl, displayName);
    assert a == LinkHead + rest;
    assert a[..|LinkHead|] == LinkHead && a[|LinkHead|..] == rest;
    assert rest[..|manifestUrl|] == manifestUrl && rest[|manifestUrl|..] == tail;
    IndexOfFirst(rest, '"', |manifestUrl|);
    assert tail[..2] == "\">";
    assert tail[|tail| - 4..] == "</a>";
    assert tail[2..|tail| - 4] == displayName;
  }
}
