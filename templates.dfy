/** Text substitution as the service does it: chains of Java's `String.replace`.

    `s.replace(target, replacement)` scans `s` from left to right and replaces EVERY
    non-overlapping occurrence of `target`; the text it inserts is never scanned again by that
    call, but it is by the next call of the chain. A `null` replacement throws
    `NullPointerException` whether or not the target occurs.

    To say what a chain of replacements computes, a template is also described as a sequence of
    segments (literal text and placeholders); `Render` fills placeholders independently of each
    other. `ManifestIsPlaceholderFill` and `ResultPageIsPlaceholderFill` prove that the chains
    agree with that reading whenever no literal text and no earlier value contains `{`, and
    `UrlTokenInDisplayName` shows what happens when a value does. */
module Templates {
  import opened Base
  import opened Metadata

  predicate StartsWith(s: string, t: string) {
    |t| <= |s| && s[..|t|] == t
  }

  /** `s.replace(t, rep)` for a non-null replacement. With an empty target Java inserts the
      replacement before every character and at the end. A text in which the target cannot
      start comes back unchanged. */
  function ReplaceAll(s: string, t: string, rep: string): (r: string)
    ensures t != [] && t[0] !in s ==> r == s
    decreases |s|
  {
    if t == [] then
      (if s == [] then rep else rep + [s[0]] + ReplaceAll(s[1..], t, rep))
    else if s == [] then []
    else if StartsWith(s, t) then rep + ReplaceAll(s[|t|..], t, rep)
    else [s[0]] + ReplaceAll(s[1..], t, rep)
  }

  /** Text that cannot start an occurrence of `t` passes through unchanged. */
  lemma {:induction false} SkipFree(x: string, y: string, t: string, rep: string)
    requires t != [] && t[0] !in x
    ensures ReplaceAll(x + y, t, rep) == x + ReplaceAll(y, t, rep)
    decreases |x|
  {
    if x != [] {
      var s := x + y;
      assert s[0] == x[0] && s[1..] == x[1..] + y;
      assert !StartsWith(s, t) by { assert |t| <= |s| ==> s[..|t|][0] == x[0]; }
      assert ReplaceAll(s, t, rep) == [x[0]] + ReplaceAll(x[1..] + y, t, rep);
      SkipFree(x[1..], y, t, rep);
      assert x == [x[0]] + x[1..];
    } else {
      assert x + y == y;
    }
  }

  /** The placeholders of the two templates the service fills. */
  datatype Field = Name | Version | Id | Url | Expiration

  function Token(f: Field): (t: string)
    ensures |t| >= 4 && t[0] == '{' && '{' !in t[1..]
  {
    match f
    case Name => "{name}"
    case Version => "{version}"
    case Id => "{id}"
    case Url => "{url}"
    case Expiration => "{expiration}"
  }

  /** No placeholder token is a prefix of text that starts with a different one. */
  lemma TokensDiffer(f: Field, g: Field, y: string)
    requires f != g
    ensures !StartsWith(Token(g) + y, Token(f))
  {
    var s := Token(g) + y;
    assert Token(f)[1] != Token(g)[1];
    assert |Token(f)| <= |s| ==> s[..|Token(f)|][1] == Token(g)[1];
  }

  /** A template read as literal text and placeholders. */
  datatype Segment = Text(text: string) | Hole(field: Field)

  predicate TextsBraceFree(segs: seq<Segment>) {
    forall i :: 0 <= i < |segs| && segs[i].Text? ==> '{' !in segs[i].text
  }

  function Piece(seg: Segment, filled: set<Field>, v: Field -> string): string {
    match seg
    case Text(x) => x
    case Hole(f) => if f in filled then v(f) else Token(f)
  }

  /** The text of `segs` with the placeholders of `filled` replaced by their values, each
      independently of the others, and the other placeholders left as tokens. */
  function Render(segs: seq<Segment>, filled: set<Field>, v: Field -> string): string {
    if segs == [] then [] else Piece(segs[0], filled, v) + Render(segs[1..], filled, v)
  }

  /** The template text itself: nothing filled. */
  function Layout(segs: seq<Segment>): string {
    Render(segs, {}, _ => "")
  }

  lemma {:induction false} RenderUnfilled(segs: seq<Segment>, v: Field -> string, w: Field -> string)
    ensures Render(segs, {}, v) == Render(segs, {}, w)
  {
    if segs != [] { RenderUnfilled(segs[1..], v, w); }
  }

  /** The step for one segment: its piece is rewritten, and the scan resumes right after it. */
  lemma PieceStep(seg: Segment, rest: string, filled: set<Field>, f: Field, v: Field -> string)
    requires f !in filled
    requires seg.Text? ==> '{' !in seg.text
    requires forall g :: g in filled ==> '{' !in v(g)
    ensures ReplaceAll(Piece(seg, filled, v) + rest, Token(f), v(f))
            == Piece(seg, filled + {f}, v) + ReplaceAll(rest, Token(f), v(f))
  {
    var t := Token(f);
    match seg
    case Text(x) =>
      SkipFree(x, rest, t, v(f));
    case Hole(g) =>
      if g in filled {
        SkipFree(v(g), rest, t, v(f));
      } else if g == f {
        var s := t + rest;
        assert StartsWith(s, t);
        assert s[|t|..] == rest;
      } else {
        OtherToken(f, g, rest, v(f));
      }
  }

  /** A different placeholder is skipped as a whole. */
  lemma OtherToken(f: Field, g: Field, rest: string, rep: string)
    requires f != g
    ensures ReplaceAll(Token(g) + rest, Token(f), rep) == Token(g) + ReplaceAll(rest, Token(f), rep)
  {
    TokensDiffer(f, g, rest);
    SkipMismatch(Token(g), rest, Token(f), rep);
  }

  /** Text that does not start an occurrence here, and cannot start one after its first
      character, passes through unchanged. */
  lemma SkipMismatch(x: string, rest: string, t: string, rep: string)
    requires x != [] && t != [] && t[0] !in x[1..]
    requires !StartsWith(x + rest, t)
    ensures ReplaceAll(x + rest, t, rep) == x + ReplaceAll(rest, t, rep)
  {
    var s := x + rest;
    assert s != [] && s[0] == x[0] && s[1..] == x[1..] + rest;
    assert ReplaceAll(s, t, rep) == [x[0]] + ReplaceAll(x[1..] + rest, t, rep);
    SkipFree(x[1..], rest, t, rep);
    HeadTail(x, ReplaceAll(rest, t, rep));
  }

  lemma HeadTail(x: string, y: string)
    requires x != []
    ensures [x[0]] + (x[1..] + y) == x + y
  {
    assert x == [x[0]] + x[1..];
  }

  /** One `replace` call of the chain fills exactly the placeholders of its field, provided the
      literal text and the values already filled in contain no `{`. */
  lemma {:induction false} ReplaceStep(segs: seq<Segment>, filled: set<Field>, f: Field, v: Field -> string)
    requires f !in filled
    requires TextsBraceFree(segs)
    requires forall g :: g in filled ==> '{' !in v(g)
    ensures ReplaceAll(Render(segs, filled, v), Token(f), v(f)) == Render(segs, filled + {f}, v)
  {
    if segs != [] {
      assert TextsBraceFree(segs[1..]) by {
        forall i | 0 <= i < |segs[1..]| && segs[1..][i].Text? ensures '{' !in segs[1..][i].text {
          assert segs[1..][i] == segs[i + 1];
        }
      }
      ReplaceStep(segs[1..], filled, f, v);
      assert segs[0].Text? ==> '{' !in segs[0].text;
      PieceStep(segs[0], Render(segs[1..], filled, v), filled, f, v);
    }
  }

  /** The values the manifest chain substitutes. */
  function ManifestValues(name: string, version: string, id: string, url: string): Field -> string {
    (f: Field) => match f
         case Name => name
         case Version => version
         case Id => id
         case Url => url
         case Expiration => Token(Expiration)
  }

  const ManifestFields: set<Field> := {Name, Version, Id, Url}

  /** The manifest: `{name}`, then `{version}`, then `{id}`, then `{url}` replaced, every
      occurrence each time. `None` when a metadata value is `null` (the first `replace` given a
      `null` throws). */
  function RenderManifest(template: string, meta: AppMetadata, packageUrl: string): (r: Option<string>)
    ensures r.None? <==> meta.displayName.None? || meta.version.None? || meta.bundleId.None?
  {
    if meta.displayName.None? || meta.version.None? || meta.bundleId.None? then None
    else
      var named := ReplaceAll(template, Token(Name), meta.displayName.value);
      var versioned := ReplaceAll(named, Token(Version), meta.version.value);
      var identified := ReplaceAll(versioned, Token(Id), meta.bundleId.value);
      Some(ReplaceAll(identified, Token(Url), packageUrl))
  }

  /** When the template's literal text and the name, version and id contain no `{`, the chained
      replacement is the same as filling each placeholder independently; the package URL may
      contain anything. */
  lemma ManifestIsPlaceholderFill(segs: seq<Segment>, name: string, version: string, id: string, url: string)
    requires TextsBraceFree(segs)
    requires '{' !in name && '{' !in version && '{' !in id
    ensures RenderManifest(Layout(segs), AppMetadata(Some(name), Some(id), Some(version)), url)
            == Some(Render(segs, ManifestFields, ManifestValues(name, version, id, url)))
  {
    var v := ManifestValues(name, version, id, url);
    RenderUnfilled(segs, _ => "", v);
    ReplaceStep(segs, {}, Name, v);
    ReplaceStep(segs, {Name}, Version, v);
    ReplaceStep(segs, {Name, Version}, Id, v);
    ReplaceStep(segs, {Name, Version, Id}, Url, v);
    assert {} + {Name} == {Name};
    assert {Name} + {Version} == {Name, Version};
    assert {Name, Version} + {Id} == {Name, Version, Id};
    assert {Name, Version, Id} + {Url} == ManifestFields;
  }

  /** Values are not isolated: a display name that is the text `{url}` is turned into the package
      URL by the last `replace`, where independent filling would have kept it. */
  lemma UrlTokenInDisplayName(version: string, id: string, url: string)
    ensures RenderManifest(Token(Name), AppMetadata(Some(Token(Url)), Some(id), Some(version)), url) == Some(url)
    ensures Render([Hole(Name)], ManifestFields, ManifestValues(Token(Url), version, id, url)) == Token(Url)
  {
    TokenReplaced(Name, Token(Url));
    TokenKept(Version, Url, version);
    TokenKept(Id, Url, id);
    TokenReplaced(Url, url);
    var segs := [Hole(Name)];
    assert segs[1..] == [];
    assert Render(segs, ManifestFields, ManifestValues(Token(Url), version, id, url)) == Token(Url) + [];
  }

  lemma TokenReplaced(f: Field, rep: string)
    ensures ReplaceAll(Token(f), Token(f), rep) == rep
  {
    PieceStep(Hole(f), [], {}, f, _ => rep);
    assert Token(f) + [] == Token(f) && rep + [] == rep;
  }

  lemma TokenKept(f: Field, g: Field, rep: string)
    requires f != g
    ensures ReplaceAll(Token(g), Token(f), rep) == Token(g)
  {
    PieceStep(Hole(g), [], {}, f, _ => rep);
    assert Token(g) + [] == Token(g);
  }

  /** `String.valueOf(int)`: optional minus sign, then decimal digits without leading zeros. */
  function DecimalString(n: int): (s: string)
    ensures s != [] && '{' !in s
  {
    if n < 0 then "-" + Digits(-n) else Digits(n)
  }

  function DigitChar(d: nat): char
    requires d < 10
  {
    "0123456789"[d]
  }

  function Digits(n: nat): (s: string)
    ensures s != [] && forall i :: 0 <= i < |s| ==> '0' <= s[i] <= '9'
  {
    if n < 10 then [DigitChar(n)] else Digits(n / 10) + [DigitChar(n % 10)]
  }

  /** Reading a run of decimal digits back. */
  function DigitsValue(s: string): nat
    requires forall i :: 0 <= i < |s| ==> '0' <= s[i] <= '9'
  {
    if s == [] then 0 else 10 * DigitsValue(s[..|s| - 1]) + (s[|s| - 1] as int - '0' as int)
  }

  function ParseDecimal(s: string): int
    requires s != []
    requires forall i :: 0 < i < |s| ==> '0' <= s[i] <= '9'
    requires s[0] == '-' || '0' <= s[0] <= '9'
  {
    if s[0] == '-' then -(DigitsValue(s[1..]) as int) else DigitsValue(s)
  }

  lemma {:induction false} DigitsRoundTrip(n: nat)
    ensures DigitsValue(Digits(n)) == n
  {
    if n >= 10 {
      DigitsRoundTrip(n / 10);
      var s := Digits(n);
      assert s[..|s| - 1] == Digits(n / 10);
    }
  }

  /** The expiration number on the result page reads back as the configured delay. */
  lemma DecimalRoundTrip(n: int)
    ensures var s := DecimalString(n);
            (s[0] == '-' || '0' <= s[0] <= '9') && (forall i :: 0 < i < |s| ==> '0' <= s[i] <= '9')
            && ParseDecimal(s) == n
  {
    if n < 0 {
      NegativeRoundTrip(n);
    } else {
      DigitsRoundTrip(n);
    }
  }

  lemma NegativeRoundTrip(n: int)
    requires n < 0
    ensures var s := DecimalString(n);
            s[0] == '-' && (forall i :: 0 < i < |s| ==> '0' <= s[i] <= '9') && ParseDecimal(s) == n
  {
    DigitsRoundTrip(-n);
    SignedDigits(Digits(-n));
  }

  lemma SignedDigits(d: string)
    requires forall i :: 0 <= i < |d| ==> '0' <= d[i] <= '9'
    ensures var s := "-" + d;
            (forall i :: 0 < i < |s| ==> '0' <= s[i] <= '9') && ParseDecimal(s) == -(DigitsValue(d) as int)
  {
    var s := "-" + d;
    assert s[1..] == d;
    forall i | 0 < i < |s| ensures '0' <= s[i] <= '9' {
      assert s[i] == d[i - 1];
    }
  }

  /** The result page: `{url}` replaced by the install link, then `{expiration}` by the delay
      number as text. A page without placeholders is sent as it is. */
  function RenderResultPage(page: string, link: string, delay: int): (html: string)
    ensures '{' !in page ==> html == page
  {
    ReplaceAll(ReplaceAll(page, Token(Url), link), Token(Expiration), DecimalString(delay))
  }

  function ResultValues(link: string, delay: int): Field -> string {
    (f: Field) => match f
         case Url => link
         case Expiration => DecimalString(delay)
         case _ => Token(f)
  }

  /** When the page's literal text and the link contain no `{`, the result page is the page with
      `{url}` and `{expiration}` filled independently. */
  lemma ResultPageIsPlaceholderFill(segs: seq<Segment>, link: string, delay: int)
    requires TextsBraceFree(segs)
    requires '{' !in link
    ensures RenderResultPage(Layout(segs), link, delay) == Render(segs, {Url, Expiration}, ResultValues(link, delay))
  {
    var v := ResultValues(link, delay);
    RenderUnfilled(segs, _ => "", v);
    ReplaceStep(segs, {}, Url, v);
    ReplaceStep(segs, {Url}, Expiration, v);
    assert {} + {Url} == {Url};
    assert {Url} + {Expiration} == {Url, Expiration};
  }
}
