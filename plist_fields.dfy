/** Decoding the metadata entry and reading the three fields the installer manifest needs.

    The two property-list libraries are foreign: each is a partial function from the scratch
    file's bytes to a dictionary, `None` meaning that it threw. The binary converter (binary
    property list to XML, then XML parsing) is tried first; on any failure the same bytes are
    parsed as a textual property list. */
module Metadata {
  import opened Base

  /** A property-list value; only strings matter here, every other kind is one case. */
  datatype PlistValue = PString(text: string) | PNonString

  type Dict = map<string, PlistValue>

  /** A decoder as seen from the service: bytes in, a dictionary or a failure out. */
  type Decoder = seq<Byte> -> Option<Dict>

  const DisplayNameKey := "CFBundleDisplayName"
  const BundleNameKey := "CFBundleName"
  const BundleIdKey := "CFBundleIdentifier"
  const VersionKey := "CFBundleShortVersionString"

  /** The fields read from the dictionary; `None` is a Java `null`. */
  datatype AppMetadata = AppMetadata(displayName: Option<string>, bundleId: Option<string>, version: Option<string>)

  /** Binary first, textual fallback: the dictionary is one of the two decoders' results, and
      there is none exactly when both decoders fail. */
  function DecodePlist(binary: Decoder, textual: Decoder, bytes: seq<Byte>): (r: Option<Dict>)
    ensures r.None? <==> binary(bytes).None? && textual(bytes).None?
    ensures r.Some? ==> r == binary(bytes) || r == textual(bytes)
  {
    match binary(bytes)
    case Some(d) => Some(d)
    case None => textual(bytes)
  }

  /** The binary reading wins: when the binary decoder succeeds, the textual one is never
      consulted, so any other textual decoder gives the same dictionary. */
  lemma BinaryTakesPrecedence(binary: Decoder, textual: Decoder, other: Decoder, bytes: seq<Byte>)
    requires binary(bytes).Some?
    ensures DecodePlist(binary, textual, bytes) == DecodePlist(binary, other, bytes) == binary(bytes)
  {
  }

  /** `(String) value`: `null` stays `null`, a string is itself, anything else throws
      `ClassCastException` (the outer `None`). */
  function CastToString(v: Option<PlistValue>): Option<Option<string>> {
    match v
    case None => Some(None)
    case Some(PString(s)) => Some(Some(s))
    case Some(PNonString) => None
  }

  function Lookup(d: Dict, key: string): Option<PlistValue> {
    if key in d then Some(d[key]) else None
  }

  /** The value cast for the display name: `getOrDefault(CFBundleDisplayName, get(CFBundleName))`. */
  function DisplayNameValue(d: Dict): Option<PlistValue> {
    if DisplayNameKey in d then Some(d[DisplayNameKey]) else Lookup(d, BundleNameKey)
  }

  /** A field read from key `key` is `Some(s)` exactly when the key holds the string `s`, and
      `None` exactly when the key is missing. */
  predicate ReadsKey(d: Dict, key: string, field: Option<string>) {
    && (field.None? <==> key !in d)
    && (field.Some? ==> key in d && d[key] == PString(field.value))
  }

  /** The three casts, in source order. Extraction fails exactly when one of the consulted
      values is not a string; otherwise the display name comes from `CFBundleDisplayName` when
      that key is present and from `CFBundleName` otherwise, the bundle id from
      `CFBundleIdentifier` and the version from `CFBundleShortVersionString`. */
  function Extract(d: Dict): (r: Option<AppMetadata>)
    ensures r.None? <==>
              DisplayNameValue(d) == Some(PNonString)
              || Lookup(d, BundleIdKey) == Some(PNonString)
              || Lookup(d, VersionKey) == Some(PNonString)
    ensures r.Some? ==>
              && ReadsKey(d, if DisplayNameKey in d then DisplayNameKey else BundleNameKey, r.value.displayName)
              && ReadsKey(d, BundleIdKey, r.value.bundleId)
              && ReadsKey(d, VersionKey, r.value.version)
  {
    match (CastToString(DisplayNameValue(d)), CastToString(Lookup(d, BundleIdKey)), CastToString(Lookup(d, VersionKey)))
    case (Some(n), Some(i), Some(v)) => Some(AppMetadata(n, i, v))
    case _ => None
  }

  /** Extraction looks at four keys only: dictionaries that agree on them give the same metadata,
      so a binary-encoded entry and a textual entry with the same field values read alike. */
  lemma ExtractDependsOnFourKeys(d1: Dict, d2: Dict)
    requires forall k :: k in {DisplayNameKey, BundleNameKey, BundleIdKey, VersionKey} ==> Lookup(d1, k) == Lookup(d2, k)
    ensures Extract(d1) == Extract(d2)
  {
    assert Lookup(d1, DisplayNameKey) == Lookup(d2, DisplayNameKey);
    assert Lookup(d1, BundleNameKey) == Lookup(d2, BundleNameKey);
    assert Lookup(d1, BundleIdKey) == Lookup(d2, BundleIdKey);
    assert Lookup(d1, VersionKey) == Lookup(d2, VersionKey);
  }

  /** Whichever decoder produced the dictionary, equal field values give equal metadata. */
  lemma EncodingDoesNotMatter(binary: Decoder, textual: Decoder, binEntry: seq<Byte>, xmlEntry: seq<Byte>, d: Dict)
    requires binary(binEntry) == Some(d)
    requires binary(xmlEntry).None? && textual(xmlEntry) == Some(d)
    ensures DecodePlist(binary, textual, binEntry) == DecodePlist(binary, textual, xmlEntry) == Some(d)
  {
  }
}
