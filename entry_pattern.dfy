/** Selection of the application's metadata entry inside the uploaded archive.

    The service compiles the Java regular expression `Payload/[^/]*.app/Info.plist` and keeps
    the first archive entry whose whole name it matches. The two dots are not escaped, so each
    matches any one character other than a line terminator, and `[^/]*` matches any run of
    characters other than `/` (line terminators included). This module gives the expression two
    readings: a small backtracking matcher over its tokens, and a direct predicate on the name;
    `DirectMatchesRegex` proves that they agree. */
module EntryPattern {
  import opened Base

  /** One token of the expression, in Java's default (non-DOTALL) mode. */
  datatype Token =
    | Lit(c: char)          // a literal character
    | AnyChar               // `.`: any character except a line terminator
    | StarExcept(c: char)   // `[^c]*`: any run of characters other than c

  /** The characters Java's `.` refuses outside DOTALL mode. */
  predicate IsLineTerminator(ch: char) {
    ch == '\n' || ch == '\r' || ch == '\U{0085}' || ch == '\U{2028}' || ch == '\U{2029}'
  }

  function Lits(w: string): (p: seq<Token>)
    ensures |p| == |w|
  {
    if w == [] then [] else [Lit(w[0])] + Lits(w[1..])
  }

  /** The compiled form of `Payload/[^/]*.app/Info.plist`. */
  function InfoPlistRegex(): seq<Token> {
    Lits("Payload/") + ([StarExcept('/')] + InfoPlistTail())
  }

  /** The part after `[^/]*`: `.app/Info.plist`, fifteen single-character tokens. */
  function InfoPlistTail(): seq<Token> {
    [AnyChar] + (Lits("app/Info") + ([AnyChar] + Lits("plist")))
  }

  /** Full-string match (`Matcher.matches`), with the backtracking of a greedy star. */
  function Matches(p: seq<Token>, s: string): bool
    decreases |p|, |s|
  {
    if p == [] then s == []
    else match p[0]
      case Lit(c) => |s| > 0 && s[0] == c && Matches(p[1..], s[1..])
      case AnyChar => |s| > 0 && !IsLineTerminator(s[0]) && Matches(p[1..], s[1..])
      case StarExcept(c) => Matches(p[1..], s) || (|s| > 0 && s[0] != c && Matches(p, s[1..]))
  }

  /** The fifteen characters that must follow the `[^/]*` run. */
  predicate IsInfoPlistTail(t: string) {
    && |t| == 15
    && !IsLineTerminator(t[0])
    && t[1..9] == "app/Info"
    && !IsLineTerminator(t[9])
    && t[10..] == "plist"
  }

  /** Direct reading of the expression: `Payload/`, then a run without `/`, then the tail. */
  predicate IsInfoPlistEntry(name: string) {
    && |name| >= 23
    && name[..8] == "Payload/"
    && '/' !in name[8..|name| - 15]
    && IsInfoPlistTail(name[|name| - 15..])
  }

  /** A window of a suffix is a window of the whole string. */
  lemma SuffixSlices(s: string, a: nat, b: nat)
    requires a <= b <= |s|
    ensures s[a..][..b - a] == s[a..b] && s[a..][b - a..] == s[b..]
  {
  }

  /** A non-empty prefix is the first character, then a prefix of the rest. */
  lemma HeadSlices(s: string, n: nat)
    requires 1 <= n <= |s|
    ensures s[..n] == [s[0]] + s[1..][..n - 1]
  {
  }

  lemma {:induction false} LitsPrefix(w: string, q: seq<Token>, s: string)
    ensures Matches(Lits(w) + q, s) <==> |s| >= |w| && s[..|w|] == w && Matches(q, s[|w|..])
    decreases |w|
  {
    if w != [] {
      var p := Lits(w) + q;
      assert p[0] == Lit(w[0]) && p[1..] == Lits(w[1..]) + q;
      if |s| > 0 {
        LitsPrefix(w[1..], q, s[1..]);
        if |s| >= |w| {
          assert s[1..][|w| - 1..] == s[|w|..];
          assert s[..|w|] == [s[0]] + s[1..][..|w| - 1];
          assert w == [w[0]] + w[1..];
        }
      }
    } else {
      assert Lits(w) + q == q;
    }
  }

  /** A run of literals matches exactly its own text. */
  lemma LitsExact(w: string, s: string)
    ensures Matches(Lits(w), s) <==> s == w
  {
    LitsPrefix(w, [], s);
    assert Lits(w) + [] == Lits(w);
    if |s| >= |w| && s[|w|..] == [] {
      assert s[..|w|] == s;
    }
  }

  /** `.` followed by the rest of a pattern. */
  lemma AnyCharPrefix(q: seq<Token>, s: string)
    ensures Matches([AnyChar] + q, s) <==> |s| > 0 && !IsLineTerminator(s[0]) && Matches(q, s[1..])
  {
    assert ([AnyChar] + q)[0] == AnyChar && ([AnyChar] + q)[1..] == q;
  }

  lemma TailMatches(t: string)
    ensures Matches(InfoPlistTail(), t) <==> IsInfoPlistTail(t)
  {
    var q2 := [AnyChar] + Lits("plist");
    var q1 := Lits("app/Info") + q2;
    AnyCharPrefix(q1, t);
    if |t| > 0 {
      LitsPrefix("app/Info", q2, t[1..]);
      if |t| >= 10 {
        SuffixSlices(t, 1, 9);
        AnyCharPrefix(Lits("plist"), t[9..]);
        SuffixSlices(t, 9, 10);
        LitsExact("plist", t[10..]);
      }
    }
  }

  /** `[^c]*` followed by a fixed-width tail: the run is everything before the last |tail| characters. */
  lemma {:induction false} StarThenTail(c: char, s: string)
    ensures Matches([StarExcept(c)] + InfoPlistTail(), s) <==>
            |s| >= 15 && c !in s[..|s| - 15] && IsInfoPlistTail(s[|s| - 15..])
    decreases |s|
  {
    var p := [StarExcept(c)] + InfoPlistTail();
    assert p[0] == StarExcept(c) && p[1..] == InfoPlistTail();
    TailMatches(s);
    if |s| > 0 {
      StarThenTail(c, s[1..]);
      if |s| > 15 {
        SuffixSlices(s, 1, |s| - 15);
        HeadSlices(s, |s| - 15);
      }
    }
  }

  /** The direct predicate and the token matcher agree on every name. */
  lemma DirectMatchesRegex(name: string)
    ensures Matches(InfoPlistRegex(), name) <==> IsInfoPlistEntry(name)
  {
    var rest := [StarExcept('/')] + InfoPlistTail();
    assert InfoPlistRegex() == Lits("Payload/") + rest;
    LitsPrefix("Payload/", rest, name);
    if |name| >= 8 {
      StarThenTail('/', name[8..]);
      if |name| >= 23 {
        SuffixSlices(name, 8, |name| - 15);
      }
    }
  }

  /** `pattern.matcher(name).matches()`: the token matcher, which agrees with the direct
      predicate. */
  method MatchesInfoPattern(name: string) returns (b: bool)
    ensures b <==> IsInfoPlistEntry(name)
  {
    DirectMatchesRegex(name);
    b := Matches(InfoPlistRegex(), name);
  }

  /** Index of the first name the expression matches, in listing order (`findFirst`). */
  function FirstInfoEntry(names: seq<string>): (r: Option<nat>)
    ensures r.Some? ==> r.value < |names| && IsInfoPlistEntry(names[r.value])
    ensures r.Some? ==> forall j :: 0 <= j < r.value ==> !IsInfoPlistEntry(names[j])
    ensures r.None? <==> forall j :: 0 <= j < |names| ==> !IsInfoPlistEntry(names[j])
  {
    if names == [] then None
    else if IsInfoPlistEntry(names[0]) then Some(0)
    else
      match FirstInfoEntry(names[1..])
      case None => None
      case Some(k) => Some(k + 1)
  }

  /** The usual layout is selected. */
  lemma UsualLayout()
    ensures IsInfoPlistEntry("Payload/Demo.app/Info.plist")
  {
    var usual := "Payload/Demo.app/Info.plist";
    assert usual[..8] == "Payload/";
    assert usual[8..|usual| - 15] == "Demo";
    var tail := usual[|usual| - 15..];
    assert tail == ".app/Info.plist";
    assert tail[1..9] == "app/Info";
    assert tail[10..] == "plist";
  }

  /** The dots are not escaped, so a name with other characters in their place is selected too. */
  lemma UnescapedDots()
    ensures IsInfoPlistEntry("Payload/Demo/app/Info_plist")
  {
    var odd := "Payload/Demo/app/Info_plist";
    assert odd[..8] == "Payload/";
    assert odd[8..|odd| - 15] == "Demo";
    var tail := odd[|odd| - 15..];
    assert tail == "/app/Info_plist";
    assert tail[1..9] == "app/Info";
    assert tail[10..] == "plist";
  }

  /** The run before `.app` holds no `/`, and `.` matches no line terminator, neither for the
      dot before `plist` nor after the name. */
  lemma RejectedNames()
    ensures !IsInfoPlistEntry("Payload/a/b.app/Info.plist")
    ensures !IsInfoPlistEntry("Payload/Demo.app/Info\nplist")
    ensures !IsInfoPlistEntry("Payload/Demo.app/Info.plist\n")
  {
    var bad := "Payload/a/b.app/Info.plist";
    assert bad[8..|bad| - 15][1] == '/';
    var split := "Payload/Demo.app/Info\nplist";
    assert split[|split| - 15..][9] == '\n';
  }
}
