/** `convertUrlsToLinks(text)`: every URL in a text (one starting with `http://`,
    `https://`, `ftp://` or `www.`, in any letter case) becomes an HTML anchor. */
module UrlsToLinks {
  import opened Text
  import opened Wrappers

  /** The argument: a string, or any other JavaScript value. */
  datatype Input = StringValue(s: string) | OtherValue

  /** ASCII lower-casing: the `i` flag only folds ASCII letters onto ASCII letters. */
  function AsciiLower(c: char): (r: char)
    ensures IsUpper(c) ==> IsLower(r) && r as int == c as int + 32
    ensures !IsUpper(c) ==> r == c
  {
    if IsUpper(c) then (c as int + 32) as char else c
  }

  /** `s` starts with the lower-case literal `p`, letter case ignored. */
  predicate StartsCI(s: string, p: string) {
    |p| <= |s| && forall i :: 0 <= i < |p| ==> AsciiLower(s[i]) == p[i]
  }

  /** A character outside the Basic Multilingual Plane: two UTF-16 code units, which the
      regular expression (without the `u` flag) matches one by one. */
  predicate IsAstral(c: char) { c as int >= 0x1_0000 }

  /** `[^\s/$.?#]` on one code unit. */
  predicate HostStart(c: char) {
    !IsSpace(c) && c != '/' && c != '$' && c != '.' && c != '?' && c != '#'
  }

  /** The length of the scheme alternative that matches at the front: `https?:\/\/`,
      `ftp:\/\/` or `www\.`. The optional `s` is tried first; the three alternatives
      begin with different letters, so at most one applies. */
  function SchemeLen(s: string): (r: Option<nat>)
    ensures r.Some? ==> r.value <= |s|
  {
    if StartsCI(s, "https://") then Some(8)
    else if StartsCI(s, "http://") then Some(7)
    else if StartsCI(s, "ftp://") then Some(6)
    else if StartsCI(s, "www.") then Some(4)
    else None
  }

  /** The length of the match of the URL pattern at the front of `s`, if any: the scheme,
      one code unit of `[^\s/$.?#]`, one of `.` (anything but a line terminator), then
      the greedy `[^\s]*`. A character of two code units fills the first two places on
      its own; one that comes second is taken by `.` and `[^\s]*` together. */
  function MatchLen(s: string): (r: Option<nat>)
    ensures r.Some? ==> 0 < r.value <= |s|
  {
    match SchemeLen(s)
    case None => None
    case Some(k) =>
      if k < |s| && IsAstral(s[k]) then Some(k + 1 + WordLen(s[k + 1..]))
      else if k + 1 < |s| && HostStart(s[k]) && !IsLineTerminator(s[k + 1]) then
        Some(k + 2 + WordLen(s[k + 2..]))
      else None
  }

  /** `href`: a `www`-prefixed match (lower case only: `startsWith` is case-sensitive)
      gets `http://` in front; any other is used as it is. */
  function Href(url: string): string {
    if |url| >= 3 && url[..3] == "www" then "http://" + url else url
  }

  /** The replacement of one match. */
  function Anchor(url: string): string {
    "<a href=\"" + Href(url) + "\" target=\"_blank\">" + url + "</a>"
  }

  /** `text.replace(urlRegex, …)` with the `g` flag: scanning left to right, each match
      is replaced and the scan resumes after it; elsewhere the scan moves one character. */
  function Linkify(s: string): string
    decreases |s|
  {
    if s == [] then []
    else match MatchLen(s)
      case Some(n) => Anchor(s[..n]) + Linkify(s[n..])
      case None => [s[0]] + Linkify(s[1..])
  }

  /** `convertUrlsToLinks(text)` */
  function ConvertUrlsToLinks(text: Input): (r: string)
    ensures text.OtherValue? ==> r == ""
  {
    match text
    case OtherValue => ""
    case StringValue(s) => Linkify(s)
  }

  // ---------------------------------------------------------------------------
  // What a URL is

  predicate NoSpace(x: string) { forall i :: 0 <= i < |x| ==> !IsSpace(x[i]) }

  /** What follows a scheme of `k` characters in a whole URL. */
  predicate TailOk(u: string, k: nat) {
    k < |u| &&
    ( (IsAstral(u[k]) && NoSpace(u[k + 1..]))
    || (k + 1 < |u| && !IsAstral(u[k]) && HostStart(u[k]) && !IsLineTerminator(u[k + 1])
        && NoSpace(u[k + 2..])))
  }

  /** Reference definition of a URL as the pattern sees it: a scheme in any case, a first
      character that cannot start a path, a second that is not a line terminator, and no
      white space after that. */
  predicate IsUrl(u: string) {
    || (StartsCI(u, "https://") && TailOk(u, 8))
    || (StartsCI(u, "http://") && TailOk(u, 7))
    || (StartsCI(u, "ftp://") && TailOk(u, 6))
    || (StartsCI(u, "www.") && TailOk(u, 4))
  }

  lemma StartsCIPrefix(u: string, rest: string, p: string)
    requires |p| <= |u|
    ensures StartsCI(u + rest, p) <==> StartsCI(u, p)
  {
    assert forall i :: 0 <= i < |p| ==> (u + rest)[i] == u[i];
  }

  /** A scheme is recognised by its first letter, and `https://` by its fifth. */
  lemma SchemeLetters(s: string)
    ensures StartsCI(s, "https://") ==> AsciiLower(s[0]) == 'h' && AsciiLower(s[4]) == 's'
    ensures StartsCI(s, "http://") ==> AsciiLower(s[0]) == 'h' && AsciiLower(s[4]) == ':'
    ensures StartsCI(s, "ftp://") ==> AsciiLower(s[0]) == 'f'
    ensures StartsCI(s, "www.") ==> AsciiLower(s[0]) == 'w'
  {
  }

  /** The scheme found at the front of a URL followed by more text is the URL's own. */
  lemma SchemeOfUrl(u: string, rest: string) returns (k: nat)
    requires IsUrl(u)
    ensures SchemeLen(u + rest) == Some(k) && TailOk(u, k)
  {
    var s := u + rest;
    SchemeLetters(u);
    SchemeLetters(s);
    assert s[0] == u[0];
    if StartsCI(u, "https://") && TailOk(u, 8) {
      StartsCIPrefix(u, rest, "https://");
      k := 8;
    } else if StartsCI(u, "http://") && TailOk(u, 7) {
      StartsCIPrefix(u, rest, "http://");
      assert s[4] == u[4];
      k := 7;
    } else if StartsCI(u, "ftp://") && TailOk(u, 6) {
      StartsCIPrefix(u, rest, "ftp://");
      k := 6;
    } else {
      StartsCIPrefix(u, rest, "www.");
      k := 4;
    }
  }

  /** A URL followed by the end of the text or by white space is matched exactly. */
  lemma UrlMatches(u: string, rest: string)
    requires IsUrl(u)
    requires rest == [] || IsSpace(rest[0])
    ensures MatchLen(u + rest) == Some(|u|)
  {
    var k := SchemeOfUrl(u, rest);
    TailMatches(u, rest, k);
  }

  /** The part of `UrlMatches` after the scheme. */
  lemma TailMatches(u: string, rest: string, k: nat)
    requires SchemeLen(u + rest) == Some(k) && TailOk(u, k)
    requires rest == [] || IsSpace(rest[0])
    ensures MatchLen(u + rest) == Some(|u|)
  {
    AppendAt(u, rest, k);
    if IsAstral(u[k]) {
      AstralTailMatches(u, rest, k);
    } else {
      PlainTailMatches(u, rest, k);
    }
  }

  lemma AstralTailMatches(u: string, rest: string, k: nat)
    requires SchemeLen(u + rest) == Some(k) && k < |u| && IsAstral(u[k]) && NoSpace(u[k + 1..])
    requires rest == [] || IsSpace(rest[0])
    ensures MatchLen(u + rest) == Some(|u|)
  {
    var s, w := u + rest, u[k + 1..];
    AppendAt(u, rest, k);
    AppendTail(u, rest, k + 1);
    MatchLenAstral(s, k);
    assert NoSpace(w);
    WordLenOfWord(w, rest);
    assert WordLen(s[k + 1..]) == |w|;
  }

  lemma PlainTailMatches(u: string, rest: string, k: nat)
    requires SchemeLen(u + rest) == Some(k) && k + 1 < |u| && !IsAstral(u[k])
    requires HostStart(u[k]) && !IsLineTerminator(u[k + 1]) && NoSpace(u[k + 2..])
    requires rest == [] || IsSpace(rest[0])
    ensures MatchLen(u + rest) == Some(|u|)
  {
    var s, w := u + rest, u[k + 2..];
    AppendAt(u, rest, k);
    AppendAt(u, rest, k + 1);
    AppendTail(u, rest, k + 2);
    MatchLenPlain(s, k);
    assert NoSpace(w);
    WordLenOfWord(w, rest);
    assert WordLen(s[k + 2..]) == |w|;
  }

  lemma AppendAt(u: string, rest: string, j: nat)
    requires j < |u|
    ensures (u + rest)[j] == u[j]
  {
  }

  lemma AppendTail(u: string, rest: string, j: nat)
    requires j <= |u|
    ensures (u + rest)[j..] == u[j..] + rest
  {
  }

  /** The match after a scheme, when a character of two code units follows it. */
  lemma MatchLenAstral(s: string, k: nat)
    requires SchemeLen(s) == Some(k) && k < |s| && IsAstral(s[k])
    ensures MatchLen(s) == Some(k + 1 + WordLen(s[k + 1..]))
  {
  }

  /** The match after a scheme, when a character of one code unit follows it. */
  lemma MatchLenPlain(s: string, k: nat)
    requires SchemeLen(s) == Some(k) && k + 1 < |s| && !IsAstral(s[k])
    requires HostStart(s[k]) && !IsLineTerminator(s[k + 1])
    ensures MatchLen(s) == Some(k + 2 + WordLen(s[k + 2..]))
  {
  }

  /** Conversely, a match is a URL that ends at the end of the text or at white space. */
  lemma MatchIsUrl(s: string)
    requires MatchLen(s).Some?
    ensures var n := MatchLen(s).value; IsUrl(s[..n]) && (n == |s| || IsSpace(s[n]))
  {
    var n := MatchLen(s).value;
    var k := SchemeLen(s).value;
    if k < |s| && IsAstral(s[k]) {
      MatchLenAstral(s, k);
      AstralTailOk(s, k, n);
    } else {
      assert k + 1 < |s| && HostStart(s[k]) && !IsLineTerminator(s[k + 1]);
      MatchLenPlain(s, k);
      PlainTailOk(s, k, n);
    }
    SchemePrefix(s, k, n);
  }

  /** What follows the scheme in a match with a character of two code units first. */
  lemma AstralTailOk(s: string, k: nat, n: nat)
    requires k < |s| && IsAstral(s[k]) && n == k + 1 + WordLen(s[k + 1..])
    ensures n <= |s| && TailOk(s[..n], k) && (n == |s| || IsSpace(s[n]))
  {
    var t := s[k + 1..];
    var u := s[..n];
    assert u[k] == s[k];
    assert u[k + 1..] == t[..WordLen(t)];
    if n < |s| { assert s[n] == t[WordLen(t)]; }
  }

  /** What follows the scheme in a match with a character of one code unit first. */
  lemma PlainTailOk(s: string, k: nat, n: nat)
    requires k + 1 < |s| && !IsAstral(s[k]) && HostStart(s[k]) && !IsLineTerminator(s[k + 1])
    requires n == k + 2 + WordLen(s[k + 2..])
    ensures n <= |s| && TailOk(s[..n], k) && (n == |s| || IsSpace(s[n]))
  {
    var t := s[k + 2..];
    var u := s[..n];
    assert u[k] == s[k] && u[k + 1] == s[k + 1];
    assert u[k + 2..] == t[..WordLen(t)];
    if n < |s| { assert s[n] == t[WordLen(t)]; }
  }

  /** The scheme found at the front of a text begins every prefix that contains it. */
  lemma SchemePrefix(s: string, k: nat, n: nat)
    requires SchemeLen(s) == Some(k) && k <= n <= |s|
    ensures var u := s[..n];
      || (k == 8 && StartsCI(u, "https://"))
      || (k == 7 && StartsCI(u, "http://"))
      || (k == 6 && StartsCI(u, "ftp://"))
      || (k == 4 && StartsCI(u, "www."))
  {
    var u := s[..n];
    assert u + s[n..] == s;
    if k == 8 {
      StartsCIPrefix(u, s[n..], "https://");
    } else if k == 7 {
      StartsCIPrefix(u, s[n..], "http://");
    } else if k == 6 {
      StartsCIPrefix(u, s[n..], "ftp://");
    } else {
      StartsCIPrefix(u, s[n..], "www.");
    }
  }

  /** A URL in the text becomes an anchor around it, and the scan goes on after it. */
  lemma LinkifyUrl(u: string, rest: string)
    requires IsUrl(u)
    requires rest == [] || IsSpace(rest[0])
    ensures Linkify(u + rest) == Anchor(u) + Linkify(rest)
  {
    var s := u + rest;
    UrlMatches(u, rest);
    assert s[..|u|] == u && s[|u|..] == rest;
  }

  /** Where no scheme starts, one character is copied. */
  lemma LinkifyCopies(s: string)
    requires s != [] && SchemeLen(s).None?
    ensures Linkify(s) == [s[0]] + Linkify(s[1..])
  {
  }

  /** A character that cannot begin a scheme: not `h`, `f` or `w` in either case. */
  predicate Inert(c: char) {
    var l := AsciiLower(c);
    l != 'h' && l != 'f' && l != 'w'
  }

  /** A character that cannot begin a scheme is copied. */
  lemma InertCopies(s: string)
    requires s != [] && Inert(s[0])
    ensures Linkify(s) == [s[0]] + Linkify(s[1..])
  {
    SchemeLetters(s);
    LinkifyCopies(s);
  }

  /** Characters that cannot begin a scheme are copied as they are. */
  lemma {:induction false} LinkifyPlain(a: string, t: string)
    requires forall i :: 0 <= i < |a| ==> Inert(a[i])
    ensures Linkify(a + t) == a + Linkify(t)
  {
    if a != [] {
      var s := a + t;
      assert s[0] == a[0] && s[1..] == a[1..] + t;
      InertCopies(s);
      LinkifyPlain(a[1..], t);
      ConsAppend(a, Linkify(t));
    } else {
      assert a + t == t;
    }
  }

  /** A text with no scheme anywhere in it comes back unchanged. */
  lemma {:induction false} LinkifyNoScheme(s: string)
    requires forall i :: 0 <= i < |s| ==> SchemeLen(s[i..]).None?
    ensures Linkify(s) == s
    decreases |s|
  {
    if s != [] {
      assert SchemeLen(s[0..]).None?;
      assert s[0..] == s;
      forall i | 0 <= i < |s[1..]| ensures SchemeLen(s[1..][i..]).None? {
        assert s[1..][i..] == s[i + 1..];
      }
      LinkifyNoScheme(s[1..]);
    }
  }

  /** The anchor for a lower-case `www.` URL links to it over `http://`. */
  lemma WwwHref(u: string)
    requires |u| >= 4 && u[..4] == "www."
    ensures Href(u) == "http://" + u
  {
    assert u[..3] == u[..4][..3];
  }

  /** `startsWith` is case-sensitive though the pattern is not: `WWW.` is matched but
      its anchor links to the text as written, without a scheme. */
  lemma UpperWwwHref(u: string)
    requires |u| >= 4 && u[..4] == "WWW."
    ensures Href(u) == u
  {
    assert u[..3][0] == 'W';
  }

  lemma ExampleUrl()
    ensures IsUrl("WWW.ab")
  {
    var u := "WWW.ab";
    assert StartsCI(u, "www.");
    assert u[5..] == "b" && u[6..] == "";
    assert TailOk(u, 4);
  }

  /** `"WWW.ab"` is linked, to `href="WWW.ab"`. */
  lemma UpperWwwExample()
    ensures ConvertUrlsToLinks(StringValue("WWW.ab")) == Anchor("WWW.ab")
    ensures Href("WWW.ab") == "WWW.ab"
  {
    ExampleUrl();
    LinkifyUrl("WWW.ab", "");
    assert "WWW.ab" + "" == "WWW.ab";
    UpperWwwHref("WWW.ab");
  }
}
