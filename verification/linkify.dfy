/** The tweet-text linkifier: three global regular-expression replacements,
    each modelled as a left-to-right scanner over the text. At every position
    the scanner asks for the match the expression finds there; a match is
    replaced by an anchor and scanning resumes after it, otherwise one
    character is copied. None of the three expressions looks behind its start,
    so whether a match starts at a position depends only on the text from there. */
module Linkify {
  import opened Text

  /** The three expressions, in the order they are applied:
      `/(https?:\/\/[^\s]+)/g`, `/\$([A-Za-z][A-Za-z0-9]{0,19})\b/g`
      and `/@[a-zA-Z0-9_]+/g`. */
  datatype Pattern = Url | Cashtag | Mention

  /** The attributes after `href` on every anchor, with a single space before each. */
  const LinkAttributes: string := TargetAttribute + RelAttribute + StyleAttribute
  const TargetAttribute: string := " target=\"_blank\""
  const RelAttribute: string := " rel=\"noopener noreferrer\""
  const StyleAttribute: string := " style=\"color: #60a5fa;" + " text-decoration: underline;\""

  const CashtagSearch: string := "https://x.com/search?q=%24"
  const CashtagSource: string := "&src=cashtag_click"
  const Profile: string := "https://x.com/"

  /** The anchor every pass emits. */
  function Anchor(href: string, text: string): string {
    "<a href=\"" + href + "\"" + LinkAttributes + ">" + text + "</a>"
  }

  predicate IsNonSpace(c: char) { !IsWhitespace(c) }

  /** The length of the longest prefix of `s` without white space: `[^\s]*`. */
  function NonSpaceRun(s: string): (n: nat)
    ensures n <= |s|
    ensures forall i :: 0 <= i < n ==> IsNonSpace(s[i])
    ensures n < |s| ==> !IsNonSpace(s[n])
    decreases |s|
  {
    if s != [] && IsNonSpace(s[0]) then 1 + NonSpaceRun(s[1..]) else 0
  }

  /** `[A-Za-z0-9]*` */
  function AlnumRun(s: string): (n: nat)
    ensures n <= |s|
    ensures forall i :: 0 <= i < n ==> IsAlnum(s[i])
    ensures n < |s| ==> !IsAlnum(s[n])
    decreases |s|
  {
    if s != [] && IsAlnum(s[0]) then 1 + AlnumRun(s[1..]) else 0
  }

  /** `[A-Za-z0-9_]*` */
  function WordRun(s: string): (n: nat)
    ensures n <= |s|
    ensures forall i :: 0 <= i < n ==> IsWordChar(s[i])
    ensures n < |s| ==> !IsWordChar(s[n])
    decreases |s|
  {
    if s != [] && IsWordChar(s[0]) then 1 + WordRun(s[1..]) else 0
  }

  /** A word boundary `\b` at position `n`: exactly one side is a word character. */
  predicate WordBoundary(s: string, n: nat)
    requires n <= |s|
  {
    (n > 0 && IsWordChar(s[n - 1])) != (n < |s| && IsWordChar(s[n]))
  }

  /** A character every match of the expression contains: the colon of the
      scheme, the dollar sign, the at sign. */
  function Key(p: Pattern): char {
    match p
    case Url => ':'
    case Cashtag => '$'
    case Mention => '@'
  }

  /** The expression of `p` matches exactly the prefix `s[..n]`; every match
      is at least two characters long and holds the key character. */
  predicate Matches(p: Pattern, s: string, n: nat)
    ensures Matches(p, s, n) ==> 2 <= n <= |s| && Key(p) in s[..n]
  {
    assert StartsWith(s, "https://") && 8 < n <= |s| ==> s[..n][5] == s[..8][5] == ':';
    assert StartsWith(s, "http://") && 7 < n <= |s| ==> s[..n][4] == s[..7][4] == ':';
    assert 0 < n <= |s| ==> s[..n][0] == s[0];
    n <= |s| &&
    match p
    case Url =>
      (StartsWith(s, "https://") && 8 < n && forall i :: 8 <= i < n ==> IsNonSpace(s[i])) ||
      (StartsWith(s, "http://") && 7 < n && forall i :: 7 <= i < n ==> IsNonSpace(s[i]))
    case Cashtag =>
      2 <= n <= 21 && s[0] == '$' && IsAsciiLetter(s[1]) &&
      (forall i :: 2 <= i < n ==> IsAlnum(s[i])) && WordBoundary(s, n)
    case Mention =>
      2 <= n && s[0] == '@' && forall i :: 1 <= i < n ==> IsWordChar(s[i])
  }

  /** The length of the match the expression finds at the start of `s`, or 0
      when there is none. Its quantifiers are greedy, and for these three
      expressions the backtracking search ends at the longest match. */
  function MatchLen(p: Pattern, s: string): (n: nat)
    ensures n <= |s|
    ensures n > 0 ==> Matches(p, s, n)
    ensures forall m: nat :: Matches(p, s, m) ==> m <= n
    ensures n == 0 ==> forall m: nat :: !Matches(p, s, m)
  {
    match p
    case Url =>
      assert StartsWith(s, "https://") ==> s[4] == 's';
      assert StartsWith(s, "http://") ==> s[4] == ':';
      var k := if StartsWith(s, "https://") then 8 else if StartsWith(s, "http://") then 7 else 0;
      if k == 0 then 0
      else
        var run := NonSpaceRun(s[k..]);
        assert forall i :: k <= i < k + run ==> s[i] == s[k..][i - k];
        if run == 0 then 0 else k + run
    case Cashtag =>
      if |s| >= 2 && s[0] == '$' && IsAsciiLetter(s[1]) then
        var run := AlnumRun(s[1..]);
        assert forall i :: 1 <= i < 1 + run ==> s[i] == s[1..][i - 1];
        if run <= 20 && !(1 + run < |s| && s[1 + run] == '_') then 1 + run else 0
      else 0
    case Mention =>
      if s != [] && s[0] == '@' then
        var run := WordRun(s[1..]);
        assert forall i :: 1 <= i < 1 + run ==> s[i] == s[1..][i - 1];
        if run >= 1 then 1 + run else 0
      else 0
  }

  /** What the callback of each pass returns for the matched text `m`: an
      anchor that shows the match itself (a cashtag match starts with `$`). */
  function Render(p: Pattern, m: string): (r: string)
    requires |m| >= 1
    ensures StartsWith(r, "<a href=\"")
    ensures (p.Cashtag? ==> m[0] == '$') ==> |m| + 4 <= |r| && r[|r| - |m| - 4..] == m + "</a>"
  {
    assert p.Cashtag? && m[0] == '$' ==> "$" + m[1..] == m;
    AnchorShape(Href(p, m), if p.Cashtag? then "$" + m[1..] else m);
    match p
    case Url => Anchor(Href(p, m), m)
    case Cashtag => Anchor(Href(p, m), "$" + m[1..])
    case Mention => Anchor(Href(p, m), m)
  }

  /** Where the anchor for the match `m` points: the URL itself, the cashtag
      search for the symbol, the profile of the handle. */
  function Href(p: Pattern, m: string): string
    requires |m| >= 1
  {
    match p
    case Url => m
    case Cashtag => CashtagSearch + m[1..] + CashtagSource
    case Mention => Profile + m[1..]
  }

  /** An anchor opens with its `href` attribute and ends with its text and
      the closing tag. */
  lemma AnchorShape(href: string, text: string)
    ensures StartsWith(Anchor(href, text), "<a href=\"")
    ensures |text| + 4 <= |Anchor(href, text)|
    ensures Anchor(href, text)[|Anchor(href, text)| - |text| - 4..] == text + "</a>"
  {
    var head := "<a href=\"" + href + "\"" + LinkAttributes + ">";
    assert Anchor(href, text) == head + (text + "</a>");
    assert head[..9] == "<a href=\"";
  }

  /** `text.replace(regex, callback)` with the global flag, for an expression
      whose match at the front of a text is `len(text)` characters long (0
      when there is none): matches are taken left to right, never overlap, and
      each is replaced by `callback(match)`. */
  function ReplaceBy(len: string -> nat, callback: string -> string, s: string): (r: string)
    ensures (forall m :: callback(m) == m) ==> r == s
    decreases |s|
  {
    if s == [] then []
    else
      var n := len(s);
      assert 0 < n <= |s| ==> s == s[..n] + s[n..];
      if 0 < n <= |s| then callback(s[..n]) + ReplaceBy(len, callback, s[n..])
      else [s[0]] + ReplaceBy(len, callback, s[1..])
  }

  function Matcher(p: Pattern): string -> nat {
    (t: string) => MatchLen(p, t)
  }

  /** The callback of each pass (it only ever receives a non-empty match). */
  function Callback(p: Pattern): string -> string {
    (m: string) => if m == [] then m else Render(p, m)
  }

  /** One pass of the linkifier; text without the key character of the
      expression holds no match and is returned as it is. */
  function Replace(p: Pattern, s: string): (r: string)
    ensures Key(p) !in s ==> r == s
  {
    var r := ReplaceBy(Matcher(p), Callback(p), s);
    if Key(p) in s then r
    else
      KeyFreeNoMatch(p, s);
      ReplaceByNoMatch(Matcher(p), Callback(p), s);
      r
  }

  /** `linkifyTweetText`: URLs first, then cashtags, then mentions, each pass
      working on the output of the one before. Text without a colon, a dollar
      sign or an at sign comes out unchanged. */
  function LinkifyTweetText(text: string): (r: string)
    ensures ':' !in text && '$' !in text && '@' !in text ==> r == text
  {
    Replace(Mention, Replace(Cashtag, Replace(Url, text)))
  }

  /** A match found anywhere in `s` holds the key character, so text without
      it holds no match. */
  lemma KeyFreeNoMatch(p: Pattern, s: string)
    requires Key(p) !in s
    ensures forall i :: 0 <= i < |s| ==> MatchLen(p, s[i..]) == 0
  {
    forall i | 0 <= i < |s| ensures MatchLen(p, s[i..]) == 0 {
      KeyInMatch(p, s, i);
    }
  }

  lemma KeyInMatch(p: Pattern, s: string, i: nat)
    requires i < |s|
    ensures MatchLen(p, s[i..]) > 0 ==> Key(p) in s
  {
    var n := MatchLen(p, s[i..]);
    if n > 0 {
      var k :| 0 <= k < n && s[i..][..n][k] == Key(p);
      assert s[i + k] == Key(p);
    }
  }

  // ---------------------------------------------------------------------
  // Text without matches

  /** A replacement that matches nowhere returns its input. */
  lemma {:induction false} ReplaceByNoMatch(len: string -> nat, callback: string -> string, s: string)
    requires forall i :: 0 <= i < |s| ==> len(s[i..]) == 0
    ensures ReplaceBy(len, callback, s) == s
    decreases |s|
  {
    if s != [] {
      assert s[0..] == s;
      forall i | 0 <= i < |s| - 1 ensures len(s[1..][i..]) == 0 {
        assert s[1..][i..] == s[i + 1..];
      }
      ReplaceByNoMatch(len, callback, s[1..]);
    }
  }

  lemma ReplaceNoMatch(p: Pattern, s: string)
    requires forall i :: 0 <= i < |s| ==> MatchLen(p, s[i..]) == 0
    ensures Replace(p, s) == s
  {
    ReplaceByNoMatch(Matcher(p), Callback(p), s);
  }

  /** The URL pass leaves text without `http://` and `https://` alone. */
  lemma UrlFree(s: string)
    requires !Contains(s, "http://") && !Contains(s, "https://")
    ensures Replace(Url, s) == s
  {
    forall i | 0 <= i < |s| ensures MatchLen(Url, s[i..]) == 0 {
      if StartsWith(s[i..], "https://") {
        ContainsAt(s, "https://", i);
      } else if StartsWith(s[i..], "http://") {
        ContainsAt(s, "http://", i);
      }
    }
    ReplaceNoMatch(Url, s);
  }

  /** Text with no `http://`, `https://`, `$` or `@` is returned unchanged. */
  lemma LinkifyPlain(s: string)
    requires !Contains(s, "http://") && !Contains(s, "https://")
    requires '$' !in s && '@' !in s
    ensures LinkifyTweetText(s) == s
  {
    UrlFree(s);
  }

  // ---------------------------------------------------------------------
  // One match at a time

  /** A match at the front is replaced and scanning resumes after it. */
  lemma ReplaceAtMatch(p: Pattern, s: string)
    requires MatchLen(p, s) > 0
    ensures Replace(p, s) == Render(p, s[..MatchLen(p, s)]) + Replace(p, s[MatchLen(p, s)..])
  {
  }

  lemma ReplaceEmpty(p: Pattern)
    ensures Replace(p, []) == []
  {
  }

  /** A URL, up to the next white space or the end, becomes an anchor whose
      target and text are both the URL. */
  lemma UrlRewritten(url: string, rest: string)
    requires StartsWith(url, "http://") || StartsWith(url, "https://")
    requires |url| > (if StartsWith(url, "https://") then 8 else 7)
    requires forall i :: 0 <= i < |url| ==> IsNonSpace(url[i])
    requires rest == [] || IsWhitespace(rest[0])
    ensures Replace(Url, url + rest) == Anchor(url, url) + Replace(Url, rest)
  {
    var s := url + rest;
    UrlMatch(url, rest);
    ReplaceAtMatch(Url, s);
    assert s[..|url|] == url && s[|url|..] == rest;
  }

  lemma UrlMatch(url: string, rest: string)
    requires StartsWith(url, "http://") || StartsWith(url, "https://")
    requires |url| > (if StartsWith(url, "https://") then 8 else 7)
    requires forall i :: 0 <= i < |url| ==> IsNonSpace(url[i])
    requires rest == [] || IsWhitespace(rest[0])
    ensures MatchLen(Url, url + rest) == |url|
  {
    var s := url + rest;
    var k := if StartsWith(url, "https://") then 8 else 7;
    assert StartsWith(s, if k == 8 then "https://" else "http://") by {
      assert s[..k] == url[..k];
    }
    assert forall i :: 0 <= i < |url| ==> s[i] == url[i];
    assert Matches(Url, s, |url|);
    assert rest != [] ==> s[|url|] == rest[0];
  }

  /** `$` with a letter and at most 19 more letters or digits, at a word
      boundary, becomes an anchor to the cashtag search, showing `$symbol`. */
  lemma CashtagRewritten(symbol: string, rest: string)
    requires 1 <= |symbol| <= 20 && IsAsciiLetter(symbol[0])
    requires forall i :: 0 <= i < |symbol| ==> IsAlnum(symbol[i])
    requires rest == [] || !IsWordChar(rest[0])
    ensures Replace(Cashtag, "$" + symbol + rest) ==
      Anchor(CashtagSearch + symbol + CashtagSource, "$" + symbol) + Replace(Cashtag, rest)
  {
    var s := "$" + symbol + rest;
    var m := 1 + |symbol|;
    CashtagMatch(symbol, rest);
    ReplaceAtMatch(Cashtag, s);
    assert s[..m] == "$" + symbol && s[m..] == rest;
    assert s[..m][1..] == symbol;
  }

  lemma CashtagMatch(symbol: string, rest: string)
    requires 1 <= |symbol| <= 20 && IsAsciiLetter(symbol[0])
    requires forall i :: 0 <= i < |symbol| ==> IsAlnum(symbol[i])
    requires rest == [] || !IsWordChar(rest[0])
    ensures MatchLen(Cashtag, "$" + symbol + rest) == 1 + |symbol|
  {
    var s := "$" + symbol + rest;
    var m := 1 + |symbol|;
    assert forall i :: 1 <= i < m ==> s[i] == symbol[i - 1];
    assert rest != [] ==> s[m] == rest[0];
    assert Matches(Cashtag, s, m);
  }

  /** A `$` followed by a digit, or by more than 20 word characters, is left
      as it is by the cashtag pass. */
  lemma CashtagRejected(s: string)
    requires |s| >= 2 && s[0] == '$'
    requires IsDigit(s[1]) || (|s| >= 22 && forall i :: 1 <= i <= 21 ==> IsWordChar(s[i]))
    ensures Replace(Cashtag, s) == "$" + Replace(Cashtag, s[1..])
  {
  }

  /** `@` with one or more word characters becomes an anchor to the profile
      page, showing the mention itself. */
  lemma MentionRewritten(name: string, rest: string)
    requires |name| >= 1
    requires forall i :: 0 <= i < |name| ==> IsWordChar(name[i])
    requires rest == [] || !IsWordChar(rest[0])
    ensures Replace(Mention, "@" + name + rest) ==
      Anchor(Profile + name, "@" + name) + Replace(Mention, rest)
  {
    var s := "@" + name + rest;
    var m := 1 + |name|;
    MentionMatch(name, rest);
    ReplaceAtMatch(Mention, s);
    assert s[..m] == "@" + name && s[m..] == rest;
    assert s[..m][1..] == name;
  }

  lemma MentionMatch(name: string, rest: string)
    requires |name| >= 1
    requires forall i :: 0 <= i < |name| ==> IsWordChar(name[i])
    requires rest == [] || !IsWordChar(rest[0])
    ensures MatchLen(Mention, "@" + name + rest) == 1 + |name|
  {
    var s := "@" + name + rest;
    var m := 1 + |name|;
    assert forall i :: 1 <= i < m ==> s[i] == name[i - 1];
    assert rest != [] ==> s[m] == rest[0];
    assert Matches(Mention, s, m);
  }

  /** A bare `@` is left as it is. */
  lemma BareAtKept(s: string)
    requires s != [] && s[0] == '@' && (|s| == 1 || !IsWordChar(s[1]))
    ensures Replace(Mention, s) == "@" + Replace(Mention, s[1..])
  {
  }

  // ---------------------------------------------------------------------
  // Locality: text after white space is rewritten on its own

  /** A match never spans white space. */
  lemma MatchNoSpace(p: Pattern, s: string, n: nat)
    requires Matches(p, s, n)
    ensures forall i :: 0 <= i < n ==> !IsWhitespace(s[i])
  {
    if p.Url? {
      var k := if StartsWith(s, "https://") && 8 < n then 8 else 7;
      assert s[..k] == (if k == 8 then "https://" else "http://");
      forall i | 0 <= i < k ensures !IsWhitespace(s[i]) {
        assert s[i] == s[..k][i];
      }
    }
  }

  /** Whether a match of length `n < |a|` starts at the front depends only on
      `a`, not on what follows it. */
  lemma MatchesPrefix(p: Pattern, a: string, b: string, n: nat)
    requires n < |a|
    ensures Matches(p, a + b, n) <==> Matches(p, a, n)
  {
    var s := a + b;
    assert forall i :: 0 <= i < |a| ==> s[i] == a[i];
    assert s[..n] == a[..n];
    if 8 <= n {
      assert s[..8] == a[..8];
    }
    if 7 <= n {
      assert s[..7] == a[..7];
    }
  }

  /** In text ending with white space, the match at the front is the same
      whatever follows, and it stops before the end. */
  lemma MatchLocal(p: Pattern, a: string, b: string)
    requires a != [] && IsWhitespace(a[|a| - 1])
    ensures MatchLen(p, a + b) == MatchLen(p, a) < |a|
  {
    var s := a + b;
    var m := MatchLen(p, s);
    var m' := MatchLen(p, a);
    if m > 0 {
      MatchNoSpace(p, s, m);
      assert s[|a| - 1] == a[|a| - 1];
      MatchesPrefix(p, a, b, m);
    }
    if m' > 0 {
      MatchNoSpace(p, a, m');
      MatchesPrefix(p, a, b, m');
    }
  }

  /** When no match that starts in `a` depends on `b` or reaches into it, the
      replacement rewrites `a` and `b` independently. */
  lemma {:induction false} ReplaceBySplit(
    len: string -> nat, callback: string -> string, a: string, b: string)
    requires forall i :: 0 <= i < |a| ==> len(a[i..] + b) == len(a[i..]) < |a| - i
    ensures ReplaceBy(len, callback, a + b) == ReplaceBy(len, callback, a) + ReplaceBy(len, callback, b)
    decreases |a|
  {
    var s := a + b;
    if a == [] {
      assert s == b;
    } else {
      assert a[0..] == a;
      var n := len(a);
      var k := if n > 0 then n else 1;
      assert s[..k] == a[..k];
      assert s[k..] == a[k..] + b;
      forall i | 0 <= i < |a| - k ensures len(a[k..][i..] + b) == len(a[k..][i..]) < |a| - k - i {
        assert a[k..][i..] == a[k + i..];
      }
      ReplaceBySplit(len, callback, a[k..], b);
    }
  }

  /** When no match reaches the last character, the replacement ends with it. */
  lemma {:induction false} ReplaceByKeepsLast(len: string -> nat, callback: string -> string, a: string)
    requires a != []
    requires forall i :: 0 <= i < |a| ==> len(a[i..]) < |a| - i
    ensures ReplaceBy(len, callback, a) != []
    ensures ReplaceBy(len, callback, a)[|ReplaceBy(len, callback, a)| - 1] == a[|a| - 1]
    decreases |a|
  {
    assert a[0..] == a;
    var n := len(a);
    var k := if n > 0 then n else 1;
    if k < |a| {
      forall i | 0 <= i < |a| - k ensures len(a[k..][i..]) < |a| - k - i {
        assert a[k..][i..] == a[k + i..];
      }
      ReplaceByKeepsLast(len, callback, a[k..]);
    }
  }

  /** A pass rewrites text ending with white space and what follows it
      independently: no match reaches across. */
  lemma ReplaceSplit(p: Pattern, a: string, b: string)
    requires a != [] && IsWhitespace(a[|a| - 1])
    ensures Replace(p, a + b) == Replace(p, a) + Replace(p, b)
  {
    forall i | 0 <= i < |a|
      ensures Matcher(p)(a[i..] + b) == Matcher(p)(a[i..]) < |a| - i
    {
      MatchLocal(p, a[i..], b);
    }
    ReplaceBySplit(Matcher(p), Callback(p), a, b);
  }

  /** A pass keeps the white space that ends its input at the end. */
  lemma ReplaceKeepsLastSpace(p: Pattern, a: string)
    requires a != [] && IsWhitespace(a[|a| - 1])
    ensures Replace(p, a) != [] && Replace(p, a)[|Replace(p, a)| - 1] == a[|a| - 1]
  {
    forall i | 0 <= i < |a| ensures Matcher(p)(a[i..]) < |a| - i {
      assert a[i..] + [] == a[i..];
      MatchLocal(p, a[i..], []);
    }
    ReplaceByKeepsLast(Matcher(p), Callback(p), a);
    assert Replace(p, a) == ReplaceBy(Matcher(p), Callback(p), a);
  }

  predicate EndsInSpace(s: string) {
    s != [] && IsWhitespace(s[|s| - 1])
  }

  /** The linkifier treats text ending with white space and what follows it
      independently. */
  lemma LinkifySplit(a: string, b: string)
    requires EndsInSpace(a)
    ensures LinkifyTweetText(a + b) == LinkifyTweetText(a) + LinkifyTweetText(b)
  {
    PassSplit(Url, a, b);
    var ua, ub := Replace(Url, a), Replace(Url, b);
    PassSplit(Cashtag, ua, ub);
    var ca, cb := Replace(Cashtag, ua), Replace(Cashtag, ub);
    PassSplit(Mention, ca, cb);
  }

  /** One pass splits at the white space, and its output for the first part
      still ends with that white space. */
  lemma PassSplit(p: Pattern, a: string, b: string)
    requires EndsInSpace(a)
    ensures Replace(p, a + b) == Replace(p, a) + Replace(p, b)
    ensures EndsInSpace(Replace(p, a))
  {
    ReplaceSplit(p, a, b);
    ReplaceKeepsLastSpace(p, a);
  }

  // ---------------------------------------------------------------------
  // Whole words through all three passes

  lemma TargetFree()
    ensures '$' !in TargetAttribute && '@' !in TargetAttribute
  {
  }

  lemma RelFree()
    ensures '$' !in RelAttribute && '@' !in RelAttribute
  {
  }

  lemma StyleFree()
    ensures '$' !in StyleAttribute && '@' !in StyleAttribute
  {
    assert '$' !in " style=\"color: #60a5fa;" && '@' !in " style=\"color: #60a5fa;";
  }

  /** Neither `$` nor `@` occurs in the fixed parts of an anchor. */
  lemma AnchorFree(href: string, text: string, c: char)
    requires c == '$' || c == '@'
    requires c !in href && c !in text
    ensures c !in Anchor(href, text)
  {
    TargetFree();
    RelFree();
    StyleFree();
  }

  /** A URL without `$` or `@` comes out as one anchor to itself. */
  lemma LinkifyUrl(url: string)
    requires StartsWith(url, "http://") || StartsWith(url, "https://")
    requires |url| > (if StartsWith(url, "https://") then 8 else 7)
    requires forall i :: 0 <= i < |url| ==> IsNonSpace(url[i])
    requires '$' !in url && '@' !in url
    ensures LinkifyTweetText(url) == Anchor(url, url)
  {
    var x := Anchor(url, url);
    assert url + [] == url;
    UrlRewritten(url, []);
    ReplaceEmpty(Url);
    assert x + [] == x;
    assert Replace(Url, url) == x;
    AnchorFree(url, url, '$');
    AnchorFree(url, url, '@');
  }

  /** A cashtag on its own comes out as one anchor to the cashtag search. */
  lemma LinkifyCashtag(symbol: string)
    requires 1 <= |symbol| <= 20 && IsAsciiLetter(symbol[0])
    requires forall i :: 0 <= i < |symbol| ==> IsAlnum(symbol[i])
    ensures LinkifyTweetText("$" + symbol) ==
      Anchor(CashtagSearch + symbol + CashtagSource, "$" + symbol)
  {
    var s := "$" + symbol;
    var href := CashtagSearch + symbol + CashtagSource;
    var x := Anchor(href, s);
    assert ':' !in s by {
      assert forall i :: 1 <= i < |s| ==> s[i] == symbol[i - 1];
    }
    assert s + [] == s;
    CashtagRewritten(symbol, []);
    ReplaceEmpty(Cashtag);
    assert x + [] == x;
    assert Replace(Cashtag, s) == x;
    CashtagHrefFree(symbol);
    AnchorFree(href, s, '@');
  }

  lemma CashtagHrefFree(symbol: string)
    requires forall i :: 0 <= i < |symbol| ==> IsAlnum(symbol[i])
    ensures '@' !in CashtagSearch + symbol + CashtagSource
    ensures '@' !in "$" + symbol
  {
    assert '@' !in CashtagSearch && '@' !in CashtagSource;
  }

  /** A mention on its own comes out as one anchor to the profile page. */
  lemma LinkifyMention(name: string)
    requires |name| >= 1
    requires forall i :: 0 <= i < |name| ==> IsWordChar(name[i])
    ensures LinkifyTweetText("@" + name) == Anchor(Profile + name, "@" + name)
  {
    var s := "@" + name;
    assert ':' !in s && '$' !in s;
    assert s + [] == s;
    MentionRewritten(name, []);
    ReplaceEmpty(Mention);
  }
}
