/** Index and alias names derived from site URLs, and the site id read back from
    an index name (includes/elasticsearch/class-indices.php). The calls into
    WordPress (get_current_blog_id, get_site_url, network_alias_url) and the
    `es_index_name` / `es_network_alias` filters are parameters. */
module Indices {
  import opened Php

  /** s starts with the lower-case text p, up to ASCII case. */
  predicate CiPrefix(s: string, p: string)
  {
    |s| >= |p| && forall i | 0 <= i < |p| :: AsciiLower(s[i]) == p[i]
  }

  /** The length of the match of #https?://(www\.)?#i at the front of s, or 0
      when the pattern does not match there. The optional `s` and `www.` are
      greedy; giving up the `s` never helps, since ':' must then stand where it is. */
  function SchemeMatch(s: string): (n: nat)
    ensures n == 0 || 7 <= n <= |s|
    ensures n > 0 ==> s[4] == ':' || s[5] == ':'
  {
    var j := if CiPrefix(s, "https://") then 8 else if CiPrefix(s, "http://") then 7 else 0;
    assert j == 8 ==> AsciiLower(s[5]) == ':';
    assert j == 7 ==> AsciiLower(s[4]) == ':';
    if j > 0 && CiPrefix(s[j..], "www.") then
      j + 4
    else j
  }

  /** The first rewrite (line 93): every match of the scheme pattern (http or
      https, '://', an optional www., in any letter case) is deleted, scanning
      left to right over non-overlapping matches. */
  function StripScheme(s: string): (r: string)
    ensures |r| <= |s|
    decreases |s|
  {
    if s == [] then []
    else
      var n := SchemeMatch(s);
      if n > 0 then StripScheme(s[n..]) else [s[0]] + StripScheme(s[1..])
  }

  /** The second rewrite (line 94): every character outside \w is deleted. */
  function KeepWordChars(s: string): (r: string)
    ensures AllWordChars(r)
  {
    if s == [] then []
    else
      var t := KeepWordChars(s[1..]);
      if IsWordChar(s[0]) then [s[0]] + t else t
  }

  /** The sanitised URL that index and alias names are built on. */
  function BaseName(url: string): string
  {
    KeepWordChars(StripScheme(url))
  }

  /** get_index_or_alias_from_url: the sanitised URL, followed by "-" and the blog
      id when one is given (`false` is None). */
  function IndexOrAliasFromUrl(url: string, blogId: Option<int>): (r: string)
    ensures blogId.None? ==> AllWordChars(r)
    ensures blogId.Some? ==>
      var id := IntToString(blogId.value);
      var k := |r| - |id| - 1;
      0 <= k && AllWordChars(r[..k]) && r[k] == '-' && r[k + 1..] == id
  {
    var base := BaseName(url);
    match blogId
    case None => base
    case Some(id) =>
      var r := base + "-" + IntToString(id);
      assert r[..|base|] == base;
      r
  }

  /** get_index_name: the index of the given blog, or of the current one when the
      id is `false`. A site URL that PHP considers empty ("" or "0") gives `false`.
      The name is built WITHOUT the blog id. */
  function GetIndexName(blogId: Option<int>, currentBlogId: int, siteUrl: int -> string,
                        filter: (Option<string>, int) -> Option<string>): Option<string>
  {
    var id := if blogId.None? then currentBlogId else blogId.value;
    var url := siteUrl(id);
    var name := if !IsEmpty(Str(url)) then Some(IndexOrAliasFromUrl(url, None)) else None;
    filter(name, id)
  }

  /** get_alias_name: the sanitised network URL followed by "-global", or `false`
      when the network URL is empty. */
  function GetAliasName(networkUrl: string, filter: Option<string> -> Option<string>): Option<string>
  {
    var name := if !IsEmpty(Str(networkUrl)) then Some(IndexOrAliasFromUrl(networkUrl, None) + "-global") else None;
    filter(name)
  }

  /** The position of the last occurrence of c in s. */
  function LastIndexOf(s: string, c: char): (r: Option<nat>)
    ensures r.Some? ==> r.value < |s| && s[r.value] == c && forall i | r.value < i < |s| :: s[i] != c
    ensures r.None? ==> forall i | 0 <= i < |s| :: s[i] != c
  {
    if s == [] then None
    else if s[|s| - 1] == c then Some(|s| - 1)
    else LastIndexOf(s[..|s| - 1], c)
  }

  /** The rewrite of line 44: a name ending in '-' and digits becomes those
      digits, anything else is left alone. Only the last '-' can start
      the digits that run to the end; `.` does not match a newline, and `$` also
      matches before one final newline, which the replacement leaves in place. */
  function SiteIdRewrite(name: string): string
  {
    match LastIndexOf(name, '-')
    case None => name
    case Some(j) =>
      var rest := name[j + 1..];
      var digits := if rest != [] && rest[|rest| - 1] == '\n' then rest[..|rest| - 1] else rest;
      if digits != [] && AllDigits(digits) && '\n' !in name[..j] then rest else name
  }

  /** Digits running to the end, with possibly one final newline before the end. */
  predicate DigitsToEnd(r: string)
  {
    var d := if r != [] && r[|r| - 1] == '\n' then r[..|r| - 1] else r;
    d != [] && AllDigits(d)
  }

  /** The pattern of line 44 matches with its '-' at position j: no newline
      before it for `.*` to stop at, and digits to the end after it. */
  predicate SuffixAt(name: string, j: int)
    requires 0 <= j < |name|
  {
    name[j] == '-' && '\n' !in name[..j] && DigitsToEnd(name[j + 1..])
  }

  /** parse_site_id: (int) of the rewritten name. */
  function ParseSiteId(name: string, floatCast: string -> int): int
  {
    IntCast(SiteIdRewrite(name), floatCast)
  }

  // ---------------------------------------------------------------------------
  // The first rewrite removes every scheme, anywhere, case-insensitively

  predicate StartsWithWww(s: string)
  {
    |s| >= 4 && CiPrefix(s, "www.")
  }

  /** Text starting with an 'h' appended after x cannot complete a prefix p
      that has no 'h' where the appended text begins. */
  lemma CiPrefixBeforeH(x: string, c: string, p: string)
    requires c != [] && AsciiLower(c[0]) == 'h'
    requires |x| >= |p| || p[|x|] != 'h'
    ensures CiPrefix(x + c, p) == CiPrefix(x, p)
  {
    if |x| >= |p| {
      assert forall i | 0 <= i < |p| :: (x + c)[i] == x[i];
    } else if |x + c| >= |p| {
      assert (x + c)[|x|] == c[0];
    }
  }

  /** A match never runs into a following 'h', so appending text that starts with
      one does not change the match at the front of a non-empty string. */
  lemma SchemeMatchBeforeH(x: string, c: string)
    requires x != [] && c != [] && AsciiLower(c[0]) == 'h'
    ensures SchemeMatch(x + c) == SchemeMatch(x)
  {
    CiPrefixBeforeH(x, c, "https://");
    CiPrefixBeforeH(x, c, "http://");
    var j := if CiPrefix(x, "https://") then 8 else if CiPrefix(x, "http://") then 7 else 0;
    if j > 0 {
      assert (x + c)[j..] == x[j..] + c;
      CiPrefixBeforeH(x[j..], c, "www.");
    }
  }

  lemma {:induction false} StripSchemeAppend(a: string, c: string)
    requires c != [] && AsciiLower(c[0]) == 'h'
    ensures StripScheme(a + c) == StripScheme(a) + StripScheme(c)
    decreases |a|
  {
    if a == [] {
      assert a + c == c;
    } else {
      var n := SchemeMatch(a);
      SchemeMatchBeforeH(a, c);
      if n > 0 {
        assert (a + c)[n..] == a[n..] + c;
        StripSchemeAppend(a[n..], c);
      } else {
        assert (a + c)[0] == a[0];
        assert (a + c)[1..] == a[1..] + c;
        StripSchemeAppend(a[1..], c);
      }
    }
  }

  /** The match at a scheme is the scheme, and a `www.` right after it. */
  lemma SchemeMatchAtScheme(p: string, b: string)
    requires Lower(p) == "http://" || Lower(p) == "https://"
    ensures SchemeMatch(p + b) == |p| + (if StartsWithWww(b) then 4 else 0)
  {
    var s := p + b;
    assert forall i | 0 <= i < |p| :: s[i] == p[i] && AsciiLower(p[i]) == Lower(p)[i];
    if Lower(p) == "http://" {
      assert AsciiLower(s[4]) == ':';
    }
    assert s[|p|..] == b;
  }

  /** Every `http://` or `https://`, in any letter case and anywhere in the URL,
      is deleted together with a `www.` right after it (line 93). */
  lemma SchemeRemovedAnywhere(a: string, p: string, b: string)
    requires Lower(p) == "http://" || Lower(p) == "https://"
    ensures StripScheme(a + p + b) == StripScheme(a) + StripScheme(if StartsWithWww(b) then b[4..] else b)
  {
    assert (p + b)[0] == p[0] && AsciiLower(p[0]) == Lower(p)[0];
    assert a + p + b == a + (p + b);
    StripSchemeAppend(a, p + b);
    SchemeMatchAtScheme(p, b);
    var n := |p| + (if StartsWithWww(b) then 4 else 0);
    assert (p + b)[n..] == if StartsWithWww(b) then b[4..] else b;
  }

  /** The match at a position does not depend on letter case. */
  lemma SchemeMatchLower(s: string)
    ensures SchemeMatch(Lower(s)) == SchemeMatch(s)
  {
    CiPrefixLower(s, "https://");
    CiPrefixLower(s, "http://");
    var j := if CiPrefix(s, "https://") then 8 else if CiPrefix(s, "http://") then 7 else 0;
    if j > 0 {
      LowerDrop(s, j);
      CiPrefixLower(s[j..], "www.");
    }
  }

  /** A case-insensitive prefix test does not see letter case. */
  lemma CiPrefixLower(s: string, p: string)
    ensures CiPrefix(Lower(s), p) == CiPrefix(s, p)
  {
    assert forall i | 0 <= i < |s| :: AsciiLower(Lower(s)[i]) == AsciiLower(s[i]);
  }

  /** The `i` flag: lower-casing before or after the first rewrite is the same. */
  lemma {:induction false} StripSchemeIgnoresCase(s: string)
    ensures Lower(StripScheme(s)) == StripScheme(Lower(s))
    decreases |s|
  {
    if s != [] {
      var n := SchemeMatch(s);
      SchemeMatchLower(s);
      if n > 0 {
        StripSchemeIgnoresCase(s[n..]);
        IgnoresCaseAtMatch(s, n);
      } else {
        StripSchemeIgnoresCase(s[1..]);
        IgnoresCaseAtChar(s);
      }
    }
  }

  lemma IgnoresCaseAtMatch(s: string, n: nat)
    requires s != [] && n == SchemeMatch(s) == SchemeMatch(Lower(s)) && n > 0
    requires Lower(StripScheme(s[n..])) == StripScheme(Lower(s[n..]))
    ensures Lower(StripScheme(s)) == StripScheme(Lower(s))
  {
    LowerDrop(s, n);
  }

  lemma IgnoresCaseAtChar(s: string)
    requires s != [] && SchemeMatch(s) == 0 == SchemeMatch(Lower(s))
    requires Lower(StripScheme(s[1..])) == StripScheme(Lower(s[1..]))
    ensures Lower(StripScheme(s)) == StripScheme(Lower(s))
  {
    var l := Lower(s);
    LowerDrop(s, 1);
    var t := StripScheme(s[1..]);
    assert StripScheme(s) == [s[0]] + t;
    assert StripScheme(l) == [l[0]] + StripScheme(l[1..]);
    LowerCons(s[0], t);
  }

  lemma LowerCons(c: char, t: string)
    ensures Lower([c] + t) == [AsciiLower(c)] + Lower(t)
  {
  }

  // ---------------------------------------------------------------------------
  // Idempotence

  lemma {:induction false} StripSchemeWithoutColon(s: string)
    requires ':' !in s
    ensures StripScheme(s) == s
    decreases |s|
  {
    if s != [] {
      assert SchemeMatch(s) == 0;
      StripSchemeWithoutColon(s[1..]);
    }
  }

  lemma {:induction false} KeepWordCharsOfWords(s: string)
    requires AllWordChars(s)
    ensures KeepWordChars(s) == s
  {
    if s != [] {
      KeepWordCharsOfWords(s[1..]);
    }
  }

  /** A name made without a blog id is left as it is by a second pass (lines 93-94). */
  lemma IndexOrAliasIdempotent(url: string)
    ensures IndexOrAliasFromUrl(IndexOrAliasFromUrl(url, None), None) == IndexOrAliasFromUrl(url, None)
  {
    var base := IndexOrAliasFromUrl(url, None);
    assert ':' !in base by {
      assert forall i | 0 <= i < |base| :: IsWordChar(base[i]);
    }
    StripSchemeWithoutColon(base);
    KeepWordCharsOfWords(base);
  }

  // ---------------------------------------------------------------------------
  // Index and alias names

  /** With the filter left alone, get_index_name is `false` exactly for an empty
      site URL and is otherwise the sanitised URL, with no blog id appended. */
  lemma IndexNameUnfiltered(blogId: Option<int>, currentBlogId: int, siteUrl: int -> string)
    ensures var id := if blogId.None? then currentBlogId else blogId.value;
            var r := GetIndexName(blogId, currentBlogId, siteUrl, (name: Option<string>, _: int) => name);
            && (r.None? <==> siteUrl(id) == "" || siteUrl(id) == "0")
            && (r.Some? ==> r.value == BaseName(siteUrl(id)) && AllWordChars(r.value))
  {
  }

  /** With the filter left alone, get_alias_name is `false` exactly for an empty
      network URL and is otherwise the sanitised URL followed by "-global". */
  lemma AliasNameUnfiltered(networkUrl: string)
    ensures var r := GetAliasName(networkUrl, (name: Option<string>) => name);
            && (r.None? <==> networkUrl == "" || networkUrl == "0")
            && (r.Some? ==> var k := |r.value| - 7;
                            0 <= k && AllWordChars(r.value[..k]) && r.value[k..] == "-global"
                            && r.value[..k] == BaseName(networkUrl))
  {
    var r := GetAliasName(networkUrl, (name: Option<string>) => name);
    if r.Some? {
      var base := IndexOrAliasFromUrl(networkUrl, None);
      assert r.value == base + "-global";
      assert r.value[..|base|] == base;
    }
  }

  lemma ExampleBase()
    ensures BaseName("https://www.example.com/") == "examplecom"
  {
    var u := "https://www.example.com/";
    assert CiPrefix(u, "https://");
    assert u[8..] == "www.example.com/";
    assert CiPrefix(u[8..], "www.");
    assert SchemeMatch(u) == 12;
    assert u[12..] == "example.com/";
    StripSchemeWithoutColon(u[12..]);
    ExampleWords();
  }

  lemma ExampleWords()
    ensures KeepWordChars("example.com/") == "examplecom"
  {
    DropDot("example", "com");
    assert "example.com/" == ("example" + "." + "com") + "/";
    KeepWordCharsAppend("example" + "." + "com", "/");
    assert KeepWordChars("/") == [];
    assert "example" + "com" == "examplecom";
  }

  lemma NetworkBase()
    ensures BaseName("http://network.test") == "networktest"
  {
    var v := "http://network.test";
    assert AsciiLower(v[4]) != "https://"[4];
    assert CiPrefix(v, "http://");
    assert v[7..] == "network.test";
    assert AsciiLower(v[7]) != 'w';
    assert SchemeMatch(v) == 7;
    assert v[7..] == "network.test";
    StripSchemeWithoutColon(v[7..]);
    NetworkWords();
  }

  lemma NetworkWords()
    ensures KeepWordChars("network.test") == "networktest"
  {
    DropDot("network", "test");
    assert "network" + "." + "test" == "network.test";
    assert "network" + "test" == "networktest";
  }

  /** Two words around a '.' lose the '.'. */
  lemma DropDot(a: string, b: string)
    requires AllWordChars(a) && AllWordChars(b)
    ensures KeepWordChars(a + "." + b) == a + b
  {
    KeepWordCharsAppend(a, "." + b);
    assert a + "." + b == a + ("." + b);
    KeepWordCharsOfWords(a);
    assert ("." + b)[1..] == b;
    KeepWordCharsOfWords(b);
  }

  lemma {:induction false} KeepWordCharsAppend(a: string, b: string)
    ensures KeepWordChars(a + b) == KeepWordChars(a) + KeepWordChars(b)
  {
    if a != [] {
      assert (a + b)[1..] == a[1..] + b;
      KeepWordCharsAppend(a[1..], b);
      assert (a + b)[0] == a[0];
      if IsWordChar(a[0]) {
        assert KeepWordChars(a + b) == [a[0]] + KeepWordChars(a[1..] + b);
        assert KeepWordChars(a) == [a[0]] + KeepWordChars(a[1..]);
      }
    } else {
      assert a + b == b;
    }
  }

  lemma IndexNameExample()
    ensures IndexOrAliasFromUrl("https://www.example.com/", Some(5)) == "examplecom-5"
  {
    ExampleBase();
    IndexNameOf("https://www.example.com/", 5);
    ExampleIndexText();
  }

  /** The index name of a URL and a blog id. */
  lemma IndexNameOf(url: string, id: int)
    ensures IndexOrAliasFromUrl(url, Some(id)) == BaseName(url) + "-" + IntToString(id)
  {
  }

  lemma ExampleIndexText()
    ensures "examplecom" + "-" + IntToString(5) == "examplecom-5"
  {
    assert IntToString(5) == "5";
  }

  lemma AliasNameExample(filter: Option<string> -> Option<string>)
    requires forall n :: filter(n) == n
    ensures GetAliasName("http://network.test", filter) == Some("networktest-global")
  {
    NetworkNotEmpty();
    AliasNameOf("http://network.test", filter);
    AliasNameExampleName();
  }

  lemma NetworkNotEmpty()
    ensures !IsEmpty(Str("http://network.test"))
  {
  }

  /** The name of a non-empty network URL under the identity filter. */
  lemma AliasNameOf(u: string, filter: Option<string> -> Option<string>)
    requires forall n :: filter(n) == n
    requires !IsEmpty(Str(u))
    ensures GetAliasName(u, filter) == Some(IndexOrAliasFromUrl(u, None) + "-global")
  {
  }

  lemma AliasNameExampleName()
    ensures IndexOrAliasFromUrl("http://network.test", None) + "-global" == "networktest-global"
  {
    NetworkBase();
    GlobalSuffix();
  }

  lemma GlobalSuffix()
    ensures "networktest" + "-global" == "networktest-global"
  {
  }

  // ---------------------------------------------------------------------------
  // Reading the site id back

  /** The site id survives the trip through an index name: the sanitised URL has
      no '-', so the '-' before the id is the last one (lines 44, 94-96). */
  lemma SiteIdRoundTrip(url: string, blogId: nat, floatCast: string -> int)
    requires blogId <= INT64_MAX
    ensures ParseSiteId(IndexOrAliasFromUrl(url, Some(blogId)), floatCast) == blogId
  {
    var base := BaseName(url);
    var id := NatToString(blogId);
    assert IndexOrAliasFromUrl(url, Some(blogId)) == base + "-" + id + [];
    assert '\n' !in base by {
      assert forall i | 0 <= i < |base| :: IsWordChar(base[i]);
    }
    SiteIdOfSuffix(base, id, [], floatCast);
  }

  /** A name ending in '-' and digits, optionally followed by one newline (which
      `$` also matches before), reads back as those digits' value, provided the
      part before has no newline for `.*` to stop at (line 44); a suffix whose value
      overflows a double reads as 0. */
  lemma SiteIdOfSuffix(base: string, d: string, tail: string, floatCast: string -> int)
    requires '\n' !in base
    requires |d| > 0 && AllDigits(d)
    requires tail == [] || tail == "\n"
    ensures DigitsValue(d) < DOUBLE_OVERFLOW ==> ParseSiteId(base + "-" + d + tail, floatCast) == Clamp64(DigitsValue(d))
    ensures DigitsValue(d) >= DOUBLE_OVERFLOW ==> ParseSiteId(base + "-" + d + tail, floatCast) == 0
  {
    SiteIdSuffixRewrite(base, d, tail);
    IntCastDigits(d, tail, floatCast);
  }

  lemma SiteIdSuffixRewrite(base: string, d: string, tail: string)
    requires '\n' !in base
    requires |d| > 0 && AllDigits(d)
    requires tail == [] || tail == "\n"
    ensures SiteIdRewrite(base + "-" + d + tail) == d + tail
  {
    var name := base + "-" + d + tail;
    var j := |base|;
    assert name[j] == '-';
    assert forall i | j < i < |name| :: name[i] == (d + tail)[i - j - 1];
    assert forall i | 0 <= i < |d + tail| :: (d + tail)[i] != '-' by {
      forall i | 0 <= i < |d + tail| ensures (d + tail)[i] != '-' {
        if i < |d| { assert (d + tail)[i] == d[i]; }
      }
    }
    LastIndexOfIs(name, '-', j);
    assert name[j + 1..] == d + tail;
    assert name[..j] == base;
    var rest := d + tail;
    if tail == [] {
      assert rest == d;
    } else {
      assert rest[..|rest| - 1] == d;
    }
  }

  /** A name the pattern of line 44 does not match at any '-' is cast as a
      whole: its leading integer, or 0. */
  lemma SiteIdWithoutSuffix(name: string, floatCast: string -> int)
    requires forall j | 0 <= j < |name| :: !SuffixAt(name, j)
    ensures ParseSiteId(name, floatCast) == IntCast(name, floatCast)
  {
    assert SiteIdRewrite(name) == name by {
      match LastIndexOf(name, '-')
      case None =>
      case Some(j) =>
        assert !SuffixAt(name, j);
    }
  }

  /** Without a '-' the pattern cannot match. */
  lemma NoDashNoSuffix(name: string)
    requires '-' !in name
    ensures forall j | 0 <= j < |name| :: !SuffixAt(name, j)
  {
  }

  lemma {:induction false} LastIndexOfIs(s: string, c: char, j: nat)
    requires j < |s| && s[j] == c
    requires forall i | j < i < |s| :: s[i] != c
    ensures LastIndexOf(s, c) == Some(j)
  {
    if j < |s| - 1 {
      LastIndexOfIs(s[..|s| - 1], c, j);
    }
  }

  lemma SiteIdExampleNoSuffix(floatCast: string -> int)
    ensures ParseSiteId("examplecom", floatCast) == 0
  {
    NoDashNoSuffix("examplecom");
    SiteIdWithoutSuffix("examplecom", floatCast);
    ExampleComNoNumber();
    IntCastNoNumber("examplecom", floatCast);
  }

  lemma ExampleComNoNumber()
    ensures SplitSign(SkipSpaces("examplecom")).1 == "examplecom"
  {
    assert SkipSpaces("examplecom") == "examplecom";
  }
}
