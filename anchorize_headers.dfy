/** anchorize_headers.rb: every HTML heading `<hN>…</hN>` whose text holds no
    `<` is rewritten so that it carries an anchor. Level 1 gets an empty link;
    the other levels get a `name` and a `#` link built from a slug of the text.
    The model takes one candidate heading at a time: MatchHeading is the
    heading pattern applied to a whole string, and Anchorize is the block
    given to `gsub`. */
module AnchorizeHeaders {
  import opened Common

  /** Ruby's `\d` */
  predicate IsDigit(c: char) {
    '0' <= c <= '9'
  }

  /** Ruby's `\w`, which is ASCII-only: a letter, a digit or `_`. */
  predicate IsWord(c: char) {
    'a' <= c <= 'z' || 'A' <= c <= 'Z' || IsDigit(c) || c == '_'
  }

  // ---------------------------------------------------------------------
  // The slug: downcase, `_` to `-`, quotes deleted, non-word characters
  // stripped from the edges of each line, the rest turned into `-`, and
  // runs of `-` collapsed.
  // ---------------------------------------------------------------------

  function Lower(c: char): char {
    if 'A' <= c <= 'Z' then (c as int + 32) as char else c
  }

  /** `downcase` on ASCII letters. */
  function Downcase(s: string): (r: string)
    ensures |r| == |s|
    ensures forall k :: 0 <= k < |r| ==> !('A' <= r[k] <= 'Z')
    ensures forall k :: 0 <= k < |s| && !('A' <= s[k] <= 'Z') ==> r[k] == s[k]
  {
    seq(|s|, k requires 0 <= k < |s| => Lower(s[k]))
  }

  /** `gsub("_", "-")` */
  function Underscores(s: string): string {
    seq(|s|, k requires 0 <= k < |s| => if s[k] == '_' then '-' else s[k])
  }

  predicate IsQuote(c: char) {
    c == '"' || c == '\''
  }

  /** `gsub(/["']/, "")` */
  function DeleteQuotes(s: string): (r: string)
    ensures forall c :: c in r ==> c in s && !IsQuote(c)
  {
    if s == [] then []
    else if IsQuote(s[0]) then DeleteQuotes(s[1..])
    else [s[0]] + DeleteQuotes(s[1..])
  }

  /** The end of the run of non-word characters that starts at i. */
  function RunEnd(s: string, i: nat): (e: nat)
    requires i <= |s|
    ensures i <= e <= |s| && (e < |s| ==> IsWord(s[e]))
    ensures forall k :: i <= k < e ==> !IsWord(s[k])
    decreases |s| - i
  {
    if i == |s| || IsWord(s[i]) then i else RunEnd(s, i + 1)
  }

  /** Where `^` matches: at the start of the text and after each newline. */
  predicate LineStart(s: string, i: nat)
    requires i <= |s|
  {
    i == 0 || s[i - 1] == '\n'
  }

  /** Where `$` matches: at the end of the text and before each newline. */
  predicate LineEnd(s: string, j: nat)
    requires j <= |s|
  {
    j == |s| || s[j] == '\n'
  }

  /** How far `\W+$` reaches from i when the run of non-word characters
      ends at j: greedy, so the last line end in (i, j]. */
  function LastLineEnd(s: string, i: nat, j: nat): (r: Option<nat>)
    requires i <= j <= |s|
    ensures r.Some? ==> i < r.value <= j
    ensures i < j == |s| ==> r == Some(j)
    decreases j
  {
    if j <= i then None
    else if LineEnd(s, j) then Some(j)
    else LastLineEnd(s, i, j - 1)
  }

  /** One position of `gsub(/^\W+|\W+$/, "")`: the first alternative is
      tried, then the second; a character that starts no match is kept.
      Says whether s[i] is kept and where the scan goes on. */
  function StripStep(s: string, i: nat): (r: (bool, nat))
    requires i < |s|
    ensures i < r.1 <= |s|
    ensures r.0 ==> r.1 == i + 1 && (IsWord(s[i]) || RunEnd(s, i) < |s|)
    ensures !r.0 ==> forall k :: i <= k < r.1 ==> !IsWord(s[k])
  {
    if !IsWord(s[i]) && LineStart(s, i) then (false, RunEnd(s, i))
    else if !IsWord(s[i]) && LastLineEnd(s, i, RunEnd(s, i)).Some? then
      (false, LastLineEnd(s, i, RunEnd(s, i)).value)
    else (true, i + 1)
  }

  /** `gsub(/^\W+|\W+$/, "")` from position i of s on. */
  function Strip(s: string, i: nat): (r: string)
    requires i <= |s|
    ensures forall c :: c in r ==> c in s
    decreases |s| - i
  {
    if i == |s| then []
    else
      var step := StripStep(s, i);
      (if step.0 then [s[i]] else []) + Strip(s, step.1)
  }

  function StripEdges(s: string): string {
    Strip(s, 0)
  }

  /** `gsub(/\W/, "-")` */
  function Dash(s: string): string {
    seq(|s|, k requires 0 <= k < |s| => if IsWord(s[k]) then s[k] else '-')
  }

  /** What follows a run of `-` at the start of s. */
  function AfterRun(s: string): (r: string)
    requires s != [] && s[0] == '-'
    ensures |r| < |s| && r == s[|s| - |r|..]
    ensures r != [] ==> r[0] != '-'
    ensures r == [] ==> s[|s| - 1] == '-'
  {
    if |s| == 1 || s[1] != '-' then s[1..] else AfterRun(s[1..])
  }

  /** `gsub(/-+/, "-")` */
  function Collapse(s: string): (r: string)
    ensures forall c :: c in r ==> c in s
    ensures s != [] ==> r != [] && r[0] == s[0] && r[|r| - 1] == s[|s| - 1]
    ensures forall k :: 0 <= k < |r| - 1 ==> !(r[k] == '-' && r[k + 1] == '-')
    decreases |s|
  {
    if s == [] then []
    else if s[0] == '-' then "-" + Collapse(AfterRun(s))
    else [s[0]] + Collapse(s[1..])
  }

  /** The first three steps of the slug: downcase, `_` to `-`, no quotes. */
  function Prepared(content: string): string {
    DeleteQuotes(Underscores(Downcase(content)))
  }

  /** The slug of a heading's text, line 8 of the script. */
  function Slug(content: string): (r: string)
    ensures forall c :: c in r ==> c == '-' || c in Downcase(content)
  {
    SlugFrom(content);
    Collapse(Dash(StripEdges(Prepared(content))))
  }

  /** Every character of the slug is a hyphen or one of the downcased text. */
  lemma SlugFrom(content: string)
    ensures forall c :: c in Collapse(Dash(StripEdges(Prepared(content)))) ==> c == '-' || c in Downcase(content)
  {
    var u := Underscores(Downcase(content));
    var y := StripEdges(Prepared(content));
    forall c | c in Dash(y) ensures c == '-' || c in Downcase(content) {
      var k :| 0 <= k < |y| && Dash(y)[k] == c;
      if c != '-' {
        assert c == y[k] && c in Prepared(content) && c in u;
        var j :| 0 <= j < |u| && u[j] == c;
        assert c == Downcase(content)[j];
      }
    }
  }

  predicate SlugChar(c: char) {
    'a' <= c <= 'z' || '0' <= c <= '9' || c == '-'
  }

  // ---------------------------------------------------------------------
  // Properties of the slug
  // ---------------------------------------------------------------------

  /** The text without its `-`. */
  function Unhyphenated(s: string): (r: string)
    ensures '-' !in r
  {
    if s == [] then [] else if s[0] == '-' then Unhyphenated(s[1..]) else [s[0]] + Unhyphenated(s[1..])
  }

  lemma {:induction false} UnhyphenatedRun(s: string)
    requires s != [] && s[0] == '-'
    ensures Unhyphenated(AfterRun(s)) == Unhyphenated(s)
    decreases |s|
  {
    if |s| > 1 && s[1] == '-' {
      UnhyphenatedRun(s[1..]);
    }
  }

  /** Collapse drops nothing but `-`: the other characters stay, in order. */
  lemma {:induction false} CollapseKeepsText(s: string)
    ensures Unhyphenated(Collapse(s)) == Unhyphenated(s)
    decreases |s|
  {
    if s != [] {
      if s[0] == '-' {
        var r := AfterRun(s);
        CollapseKeepsText(r);
        UnhyphenatedRun(s);
        assert ("-" + Collapse(r))[1..] == Collapse(r);
      } else {
        CollapseKeepsText(s[1..]);
        assert ([s[0]] + Collapse(s[1..]))[1..] == Collapse(s[1..]);
      }
    }
  }

  /** A non-word character is kept by Strip only when a word character
      follows it, so a word character anywhere from i on survives. */
  lemma {:induction false} StripKeepsWord(s: string, i: nat, j: nat)
    requires i <= j < |s| && IsWord(s[j])
    ensures Strip(s, i) != []
    decreases |s| - i
  {
    var step := StripStep(s, i);
    if !step.0 {
      StripKeepsWord(s, step.1, j);
    }
  }

  /** Strip never ends its output with a non-word character. */
  lemma {:induction false} StripLast(s: string, i: nat)
    requires i <= |s|
    ensures var r := Strip(s, i); r != [] ==> IsWord(r[|r| - 1])
    decreases |s| - i
  {
    if i < |s| {
      var step := StripStep(s, i);
      StripLast(s, step.1);
      var rest := Strip(s, step.1);
      if step.0 {
        if !IsWord(s[i]) {
          StripKeepsWord(s, i + 1, RunEnd(s, i));
        }
        assert Strip(s, i) == [s[i]] + rest;
        if rest != [] {
          assert ([s[i]] + rest)[|rest|] == rest[|rest| - 1];
        }
      } else {
        assert Strip(s, i) == rest;
      }
    }
  }

  /** ... nor starts it with one: the `^` alternative removes the leading run. */
  lemma StripFirst(s: string)
    ensures var r := StripEdges(s); r != [] ==> IsWord(r[0])
  {
    if s != [] && !IsWord(s[0]) {
      var e := RunEnd(s, 0);
      assert Strip(s, 0) == Strip(s, e);
      if e < |s| {
        assert Strip(s, e) == [s[e]] + Strip(s, e + 1);
      }
    } else if s != [] {
      assert Strip(s, 0) == [s[0]] + Strip(s, 1);
    }
  }

  /** The text after downcasing and replacing `_` has no upper-case letter
      and no `_`. */
  lemma PreparedChars(content: string)
    ensures forall c :: c in Prepared(content) ==> !('A' <= c <= 'Z') && c != '_'
  {
    var t := Underscores(Downcase(content));
    forall c | c in t ensures !('A' <= c <= 'Z') && c != '_' {
      var k :| 0 <= k < |t| && t[k] == c;
      assert Downcase(content)[k] == Lower(content[k]);
    }
  }

  /** The slug uses only `a`–`z`, `0`–`9` and `-`. */
  lemma SlugAlphabet(content: string)
    ensures forall k :: 0 <= k < |Slug(content)| ==> SlugChar(Slug(content)[k])
  {
    var t := Prepared(content);
    PreparedChars(content);
    var d := Dash(StripEdges(t));
    forall k | 0 <= k < |Slug(content)| ensures SlugChar(Slug(content)[k]) {
      var c := Slug(content)[k];
      assert c in d;
      var j :| 0 <= j < |d| && d[j] == c;
      if IsWord(StripEdges(t)[j]) {
        assert StripEdges(t)[j] in t;
      }
    }
  }

  /** The slug has no two `-` in a row and neither starts nor ends with
      `-`, whatever the lines of the text: `^\W+` removes the leading run of
      each line and `\W+$` the trailing one, the last line included. It is
      empty exactly when the text, quotes aside, has no word character. */
  lemma SlugEdges(content: string)
    ensures var s := Slug(content);
      forall k :: 0 <= k < |s| - 1 ==> !(s[k] == '-' && s[k + 1] == '-')
    ensures var s := Slug(content);
      s != [] ==> s[0] != '-' && s[|s| - 1] != '-'
    ensures var t := Prepared(content);
      Slug(content) == [] <==> forall k :: 0 <= k < |t| ==> !IsWord(t[k])
  {
    var t := Prepared(content);
    var r := StripEdges(t);
    StripFirst(t);
    StripLast(t, 0);
    if exists k :: 0 <= k < |t| && IsWord(t[k]) {
      var k :| 0 <= k < |t| && IsWord(t[k]);
      StripKeepsWord(t, 0, k);
    }
  }

  lemma DowncaseAppend(a: string, b: string)
    ensures Downcase(a + b) == Downcase(a) + Downcase(b)
  {
  }

  lemma UnderscoresAppend(a: string, b: string)
    ensures Underscores(a + b) == Underscores(a) + Underscores(b)
  {
  }

  lemma {:induction false} DeleteQuotesAppend(a: string, b: string)
    ensures DeleteQuotes(a + b) == DeleteQuotes(a) + DeleteQuotes(b)
    decreases |a|
  {
    if a != [] {
      DeleteQuotesAppend(a[1..], b);
      assert (a + b)[0] == a[0];
      assert (a + b)[1..] == a[1..] + b;
      var da, db := DeleteQuotes(a[1..]), DeleteQuotes(b);
      if IsQuote(a[0]) {
        assert DeleteQuotes(a + b) == DeleteQuotes(a[1..] + b);
        assert DeleteQuotes(a) == da;
      } else {
        assert DeleteQuotes(a + b) == [a[0]] + (da + db);
        assert DeleteQuotes(a) == [a[0]] + da;
        assert [a[0]] + (da + db) == [a[0]] + da + db;
      }
    } else {
      assert a + b == b;
    }
  }

  lemma PreparedAppend(a: string, b: string)
    ensures Prepared(a + b) == Prepared(a) + Prepared(b)
  {
    DowncaseAppend(a, b);
    UnderscoresAppend(Downcase(a), Downcase(b));
    DeleteQuotesAppend(Underscores(Downcase(a)), Underscores(Downcase(b)));
  }

  /** A quote in the text is deleted, not turned into `-`: the slug is the
      one of the text without it. */
  lemma QuotesDeleted(a: string, q: char, b: string)
    requires IsQuote(q)
    ensures Slug(a + [q] + b) == Slug(a + b)
  {
    PreparedAppend(a + [q], b);
    PreparedAppend(a, [q]);
    PreparedAppend(a, b);
    assert Downcase([q]) == [q];
    assert Underscores([q]) == [q];
    assert [q][1..] == [];
    assert DeleteQuotes([q]) == DeleteQuotes([]);
    assert Prepared(a) + [] == Prepared(a);
  }

  // ---------------------------------------------------------------------
  // The heading pattern `<h(\d)>(<a [^<]+>)?([^<]+)(<\/a>)?<\/h\d>`
  // ---------------------------------------------------------------------

  /** A matched heading: the level, the attributes of an `<a …>` wrapper
      (group 2 without `<a ` and `>`), the text (group 3), whether `</a>`
      followed it (group 4), and the digit of the closing tag, which the
      pattern reads but does not capture. */
  datatype Heading = Heading(level: char, anchor: Option<string>, content: string,
                             closesAnchor: bool, closingLevel: char)

  /** What lies between the tags: groups 2 to 4. */
  datatype Middle = Middle(anchor: Option<string>, content: string, closesAnchor: bool)

  /** `[^<]+` */
  predicate Plain(s: string) {
    s != [] && '<' !in s
  }

  function OpenTag(level: char): string {
    ['<', 'h', level, '>']
  }

  function CloseTag(level: char): string {
    ['<', '/', 'h', level, '>']
  }

  function WrapText(anchor: Option<string>): string {
    if anchor.Some? then ['<', 'a', ' '] + anchor.value + ['>'] else []
  }

  function EndText(closesAnchor: bool): string {
    if closesAnchor then ['<', '/', 'a', '>'] else []
  }

  function MiddleText(mid: Middle): string {
    WrapText(mid.anchor) + mid.content + EndText(mid.closesAnchor)
  }

  /** The text of a heading. */
  function Render(h: Heading): string {
    OpenTag(h.level) + MiddleText(Middle(h.anchor, h.content, h.closesAnchor)) + CloseTag(h.closingLevel)
  }

  /** No `>` in the text before its last character. */
  predicate NoInnerGt(c: string) {
    forall k :: 0 <= k < |c| - 1 ==> c[k] != '>'
  }

  /** What `(<a [^<]+>)?([^<]+)(<\/a>)?` can match as a whole: plain text
      and attributes and, because `[^<]+` in the wrapper is greedy, no `>`
      in the text before its last character when there is a wrapper. */
  predicate MiddleOk(mid: Middle) {
    Plain(mid.content) && (mid.anchor.Some? ==> Plain(mid.anchor.value) && NoInnerGt(mid.content))
  }

  predicate WellFormed(h: Heading) {
    IsDigit(h.level) && IsDigit(h.closingLevel) && MiddleOk(Middle(h.anchor, h.content, h.closesAnchor))
  }

  datatype Inner = Inner(content: string, closesAnchor: bool)

  /** `([^<]+)(<\/a>)?` against the whole of r. */
  function InnerOf(r: string): Option<Inner> {
    if Plain(r) then Some(Inner(r, false))
    else if |r| > 4 && r[|r| - 4..] == EndText(true) && Plain(r[..|r| - 4]) then Some(Inner(r[..|r| - 4], true))
    else None
  }

  /** The wrapper may end at k: y[k] is its `>`, the attributes before it
      hold no `<`, and the rest is text with an optional `</a>`. */
  predicate AnchorEnd(y: string, k: nat) {
    0 < k < |y| && y[k] == '>' && '<' !in y[..k] && InnerOf(y[k + 1..]).Some?
  }

  /** The greatest position in (0, k] where p holds, found by trying the
      positions from k down. */
  function LastWhere(p: nat -> bool, k: nat): (r: Option<nat>)
    ensures r.Some? ==> 0 < r.value <= k && p(r.value)
  {
    if k == 0 then None
    else if p(k) then Some(k)
    else LastWhere(p, k - 1)
  }

  /** No position after the one LastWhere picks satisfies p, and none at all
      when it picks nothing. */
  lemma {:induction false} LastWhereIsLast(p: nat -> bool, k: nat)
    ensures var r := LastWhere(p, k);
      && (r.Some? ==> forall j :: r.value < j <= k ==> !p(j))
      && (r.None? ==> forall j :: 0 < j <= k ==> !p(j))
  {
    if k > 0 && !p(k) {
      LastWhereIsLast(p, k - 1);
    }
  }

  /** The backtracking of the greedy `[^<]+` in `<a [^<]+>`: the ends are
      tried from the last one down. */
  function SplitAnchor(y: string, k: nat): (r: Option<nat>)
    ensures r.Some? ==> r.value <= k && AnchorEnd(y, r.value)
  {
    LastWhere((j: nat) => AnchorEnd(y, j), k)
  }

  /** The end SplitAnchor picks is the last one: none comes after it, and
      there is none at all when it picks nothing. */
  lemma SplitAnchorLast(y: string, k: nat)
    ensures var r := SplitAnchor(y, k);
      && (r.Some? ==> forall j :: r.value < j <= k ==> !AnchorEnd(y, j))
      && (r.None? ==> forall j :: 0 < j <= k ==> !AnchorEnd(y, j))
  {
    var p := (j: nat) => AnchorEnd(y, j);
    LastWhereIsLast(p, k);
    var r := LastWhere(p, k);
    var from := if r.Some? then r.value else 0;
    forall j | from < j <= k ensures !AnchorEnd(y, j) {
      assert !p(j);
    }
  }

  /** Groups 2 to 4 matched against the whole of m. */
  function MatchMiddle(m: string): Option<Middle> {
    if |m| >= 3 && m[0] == '<' && m[1] == 'a' && m[2] == ' ' then
      var y := m[3..];
      match SplitAnchor(y, |y|)
      case None => None
      case Some(k) =>
        var inner := InnerOf(y[k + 1..]).value;
        Some(Middle(Some(y[..k]), inner.content, inner.closesAnchor))
    else
      match InnerOf(m)
      case None => None
      case Some(inner) => Some(Middle(None, inner.content, inner.closesAnchor))
  }

  /** `<h\d>` at the start of s and `<\/h\d>` at its end. */
  predicate Tagged(s: string) {
    && |s| >= 9 && s[0] == '<' && s[1] == 'h' && IsDigit(s[2]) && s[3] == '>'
    && s[|s| - 5] == '<' && s[|s| - 4] == '/' && s[|s| - 3] == 'h' && IsDigit(s[|s| - 2]) && s[|s| - 1] == '>'
  }

  /** The heading pattern matched against the whole of s, with the groups
      it captures. */
  function MatchHeading(s: string): (r: Option<Heading>)
    ensures r.Some? ==> Tagged(s) && r.value.level == s[2] && r.value.closingLevel == s[|s| - 2]
  {
    if Tagged(s) then
      match MatchMiddle(s[4..|s| - 5])
      case None => None
      case Some(mid) => Some(Heading(s[2], mid.anchor, mid.content, mid.closesAnchor, s[|s| - 2]))
    else None
  }

  // ---------------------------------------------------------------------
  // The rewrite
  // ---------------------------------------------------------------------

  /** Lines 5-10: the replacement for a heading of the given level and text. */
  function Rewrite(level: char, content: string): (r: string)
    ensures "<h" + [level] + "><a " <= r
    ensures |r| >= |content| + 9 && r[|r| - 9..] == "</a></h" + [level] + ">"
  {
    if level == '1' then "<h1><a href=\"\">" + content + "</a></h1>"
    else
      var name := Slug(content);
      "<h" + [level] + "><a name=\"" + name + "\" href=\"#" + name + "\">" + content + "</a></h" + [level] + ">"
  }

  /** The block given to `gsub`, on one candidate heading. */
  function Anchorize(s: string): (r: string)
    ensures MatchHeading(s).Some? ==> "<h" + [s[2]] + "><a " <= r
    ensures r != s ==> MatchHeading(s).Some?
  {
    match MatchHeading(s)
    case None => s
    case Some(h) => Rewrite(h.level, h.content)
  }

  /** The attributes the rewrite puts in the wrapper. */
  function Attributes(level: char, content: string): string {
    if level == '1' then "href=\"\""
    else "name=\"" + Slug(content) + "\" href=\"#" + Slug(content) + "\""
  }

  // ---------------------------------------------------------------------
  // Properties of the pattern and the rewrite
  // ---------------------------------------------------------------------

  lemma InnerOfRender(c: string, closes: bool)
    requires Plain(c)
    ensures InnerOf(c + EndText(closes)) == Some(Inner(c, closes))
  {
    var r := c + EndText(closes);
    if closes {
      assert r[|c|] == '<';
      assert r[|r| - 4..] == EndText(true) && r[..|r| - 4] == c;
    } else {
      assert r == c;
    }
  }

  lemma InnerSound(r: string)
    requires InnerOf(r).Some?
    ensures var i := InnerOf(r).value; Plain(i.content) && r == i.content + EndText(i.closesAnchor)
  {
  }

  /** In `X>C` followed by an optional `</a>`, with no `>` in C before its
      last character, no wrapper end lies beyond the `>` after X. */
  lemma NoLaterAnchorEnd(x: string, c: string, closes: bool, j: nat)
    requires Plain(x) && Plain(c) && NoInnerGt(c)
    requires |x| < j
    ensures !AnchorEnd(x + ['>'] + c + EndText(closes), j)
  {
  }

  lemma MiddleRender(mid: Middle)
    requires MiddleOk(mid)
    ensures MatchMiddle(MiddleText(mid)) == Some(mid)
  {
    if mid.anchor.Some? {
      WrappedRender(mid.anchor.value, mid.content, mid.closesAnchor);
    } else {
      BareRender(mid.content, mid.closesAnchor);
    }
  }

  lemma WrappedRender(x: string, c: string, closes: bool)
    requires Plain(x) && Plain(c) && NoInnerGt(c)
    ensures MatchMiddle(MiddleText(Middle(Some(x), c, closes))) == Some(Middle(Some(x), c, closes))
  {
    AnchorParts(x, c, EndText(closes));
    AnchorFound(x, c, closes);
  }

  lemma BareRender(c: string, closes: bool)
    requires Plain(c)
    ensures MatchMiddle(MiddleText(Middle(None, c, closes))) == Some(Middle(None, c, closes))
  {
    var m := MiddleText(Middle(None, c, closes));
    InnerOfRender(c, closes);
    assert m == c + EndText(closes);
    assert m[0] == c[0] && m[0] != '<';
    assert InnerOf(m) == Some(Inner(c, closes));
  }

  /** The wrapper pattern ends at the `>` that follows the attributes. */
  lemma AnchorFound(x: string, c: string, closes: bool)
    requires Plain(x) && Plain(c) && NoInnerGt(c)
    ensures var y := x + ['>'] + c + EndText(closes);
      SplitAnchor(y, |y|) == Some(|x|) && y[..|x|] == x && InnerOf(y[|x| + 1..]) == Some(Inner(c, closes))
  {
    var y := x + ['>'] + c + EndText(closes);
    AnchorParts(x, c, EndText(closes));
    SplitAnchorLast(y, |y|);
    forall j | |x| < j <= |y| ensures !AnchorEnd(y, j) {
      NoLaterAnchorEnd(x, c, closes, j);
    }
    AnchorEndAt(x, c, closes);
  }

  lemma AnchorEndAt(x: string, c: string, closes: bool)
    requires Plain(x) && Plain(c)
    ensures var y := x + ['>'] + c + EndText(closes);
      AnchorEnd(y, |x|) && InnerOf(y[|x| + 1..]) == Some(Inner(c, closes))
  {
    var y := x + ['>'] + c + EndText(closes);
    AnchorParts(x, c, EndText(closes));
    var rest := c + EndText(closes);
    InnerOfRender(c, closes);
    assert InnerOf(rest) == Some(Inner(c, closes));
    assert y[|x| + 1..] == rest;
  }

  lemma AnchorParts(x: string, c: string, e: string)
    ensures var y := x + ['>'] + c + e;
      && (['<', 'a', ' '] + x + ['>']) + c + e == ['<', 'a', ' '] + y
      && (['<', 'a', ' '] + y)[3..] == y
      && y[..|x|] == x && y[|x|] == '>' && y[|x| + 1..] == c + e
  {
    var y := x + ['>'] + c + e;
    assert (['<', 'a', ' '] + y)[3..] == y;
  }

  lemma MiddleSound(m: string)
    requires MatchMiddle(m).Some?
    ensures MiddleOk(MatchMiddle(m).value) && MiddleText(MatchMiddle(m).value) == m
  {
    if |m| >= 3 && m[0] == '<' && m[1] == 'a' && m[2] == ' ' {
      WrappedSound(m);
    } else {
      InnerSound(m);
    }
  }

  lemma WrappedSound(m: string)
    requires |m| >= 3 && m[0] == '<' && m[1] == 'a' && m[2] == ' ' && MatchMiddle(m).Some?
    ensures MiddleOk(MatchMiddle(m).value) && MiddleText(MatchMiddle(m).value) == m
  {
    var y := m[3..];
    SplitAnchorLast(y, |y|);
    var k := SplitAnchor(y, |y|).value;
    var inner := InnerOf(y[k + 1..]).value;
    InnerSound(y[k + 1..]);
    WrapperParts(m, k, inner.content, EndText(inner.closesAnchor));
    forall i | 0 <= i < |inner.content| - 1 ensures inner.content[i] != '>' {
      GreedyAnchor(y, k, inner.content, inner.closesAnchor, i);
    }
  }

  lemma WrapperParts(m: string, k: nat, c: string, e: string)
    requires |m| >= 3 && m[0] == '<' && m[1] == 'a' && m[2] == ' '
    requires k < |m| - 3 && m[3 + k] == '>' && m[3..][k + 1..] == c + e
    ensures m == ['<', 'a', ' '] + m[3..][..k] + ['>'] + c + e
  {
    var y := m[3..];
    assert y == y[..k] + [y[k]] + y[k + 1..];
    assert m == m[..3] + y;
  }

  /** A `>` in the text before its last character would have been a later
      end of the wrapper. */
  lemma GreedyAnchor(y: string, k: nat, c: string, closes: bool, i: nat)
    requires AnchorEnd(y, k) && forall j :: k < j <= |y| ==> !AnchorEnd(y, j)
    requires Plain(c) && y[k + 1..] == c + EndText(closes)
    requires i < |c| - 1
    ensures c[i] != '>'
  {
    if c[i] == '>' {
      LaterEnd(y, k, c, closes, i);
    }
  }

  lemma LaterEnd(y: string, k: nat, c: string, closes: bool, i: nat)
    requires k < |y| && '<' !in y[..k] && y[k] == '>'
    requires Plain(c) && y[k + 1..] == c + EndText(closes)
    requires i < |c| - 1 && c[i] == '>'
    ensures AnchorEnd(y, k + 1 + i)
  {
    var j := k + 1 + i;
    LaterParts(y, k, c, EndText(closes), i);
    var rest := c[i + 1..] + EndText(closes);
    InnerOfRender(c[i + 1..], closes);
    assert InnerOf(rest).Some?;
    assert y[j + 1..] == rest;
  }

  lemma LaterParts(y: string, k: nat, c: string, e: string, i: nat)
    requires k < |y| && '<' !in y[..k] && y[k] == '>' && '<' !in c && y[k + 1..] == c + e && i < |c|
    ensures var j := k + 1 + i;
      j < |y| && y[j] == c[i] && '<' !in y[..j] && y[j + 1..] == c[i + 1..] + e
  {
    var j := k + 1 + i;
    assert y[..j] == y[..k] + [y[k]] + c[..i];
    assert y[j + 1..] == (c + e)[i + 1..];
  }

  lemma TagsAround(level: char, m: string, closingLevel: char)
    requires IsDigit(level) && IsDigit(closingLevel)
    ensures var s := OpenTag(level) + m + CloseTag(closingLevel);
      Tagged(s) && s[2] == level && s[|s| - 2] == closingLevel && s[4..|s| - 5] == m
  {
  }

  lemma TaggedParts(s: string)
    requires Tagged(s)
    ensures s == OpenTag(s[2]) + s[4..|s| - 5] + CloseTag(s[|s| - 2])
  {
  }

  /** Matching a rendered heading gives it back. */
  lemma MatchRender(h: Heading)
    requires WellFormed(h)
    ensures MatchHeading(Render(h)) == Some(h)
  {
    var mid := Middle(h.anchor, h.content, h.closesAnchor);
    TagsAround(h.level, MiddleText(mid), h.closingLevel);
    MiddleRender(mid);
  }

  /** What matches is a rendered, well-formed heading. */
  lemma RenderMatch(s: string)
    requires MatchHeading(s).Some?
    ensures WellFormed(MatchHeading(s).value) && Render(MatchHeading(s).value) == s
  {
    TaggedParts(s);
    MiddleSound(s[4..|s| - 5]);
  }

  /** The slug and the attributes hold no `<`. */
  lemma AttributesPlain(level: char, content: string)
    ensures Plain(Attributes(level, content))
  {
    if level != '1' {
      var n := Slug(content);
      SlugAlphabet(content);
      assert '<' !in n by {
        forall k | 0 <= k < |n| ensures n[k] != '<' {
          assert SlugChar(n[k]);
        }
      }
      var a := "name=\"" + n + "\" href=\"#" + n + "\"";
      assert '<' !in "name=\"" && '<' !in "\" href=\"#" && '<' !in "\"";
      assert forall c :: c in a ==> c in "name=\"" || c in n || c in "\" href=\"#" || c in "\"";
    }
  }

  lemma Regroup(o: string, w: string, a: string, g: string, c: string, e: string, t: string)
    ensures o + w + a + g + c + e + t == o + (w + a + g + c + e) + t
  {
  }

  /** The fixed parts of the level-1 template. */
  lemma LevelOneText()
    ensures "<h1><a href=\"\">" == OpenTag('1') + ['<', 'a', ' '] + "href=\"\"" + ['>']
    ensures "</a></h1>" == EndText(true) + CloseTag('1')
  {
  }

  /** The fixed parts of the template for the other levels. */
  lemma LevelText(level: char, n: string)
    ensures "<h" + [level] + "><a name=\"" + n + "\" href=\"#" + n + "\">"
         == OpenTag(level) + ['<', 'a', ' '] + ("name=\"" + n + "\" href=\"#" + n + "\"") + ['>']
    ensures "</a></h" + [level] + ">" == EndText(true) + CloseTag(level)
  {
    var p, q, r := "name=\"", "\" href=\"#", "\"";
    assert "<h" + [level] + "><a name=\"" == OpenTag(level) + ['<', 'a', ' '] + p;
    assert "\">" == r + ['>'];
  }

  /** The replacement is itself a heading: with the opening level in both
      tags, the text between `<a …>` and `</a>`, and as attributes `href=""`
      for level 1 (no name) and `name="S" href="#S"` with the same slug S
      for the other levels. */
  lemma RewriteRenders(level: char, content: string)
    ensures Rewrite(level, content) == Render(Heading(level, Some(Attributes(level, content)), content, true, level))
  {
    var a := Attributes(level, content);
    var w, g := ['<', 'a', ' '], ['>'];
    if level == '1' {
      LevelOneText();
    } else {
      LevelText(level, Slug(content));
    }
    Regroup(OpenTag(level), w, a, g, content, EndText(true), CloseTag(level));
  }

  /** The wrapper, the `</a>` and the closing digit of a matched heading do
      not reach the output: it depends on the opening level and the text
      alone. */
  lemma AnchorizeRender(h: Heading)
    requires WellFormed(h)
    ensures Anchorize(Render(h)) == Rewrite(h.level, h.content)
  {
    MatchRender(h);
  }

  /** A candidate that is not a well-formed heading is left as it is; in
      particular one whose text holds a `<` outside a leading `<a ` and a
      trailing `</a>`. */
  lemma NotHeadingUnchanged(s: string)
    requires forall h :: WellFormed(h) ==> Render(h) != s
    ensures Anchorize(s) == s
  {
    if MatchHeading(s).Some? {
      RenderMatch(s);
    }
  }

  /** Anchorizing twice is anchorizing once, provided the text has no `>`
      before its last character (otherwise the greedy wrapper pattern reads
      part of the text as attributes on the second pass). */
  lemma AnchorizeIdempotent(s: string)
    requires MatchHeading(s).Some? && NoInnerGt(MatchHeading(s).value.content)
    ensures Anchorize(Anchorize(s)) == Anchorize(s)
  {
    var h := MatchHeading(s).value;
    RenderMatch(s);
    AttributesPlain(h.level, h.content);
    var h' := Heading(h.level, Some(Attributes(h.level, h.content)), h.content, true, h.level);
    RewriteRenders(h.level, h.content);
    MatchRender(h');
  }
}
