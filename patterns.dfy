/** The regular expressions the scripts apply to page text, each written out
    as a scanner that gives the same answer as Python's `re` for that one
    pattern, together with `re.search` (leftmost match) and `re.findall`
    (successive non-overlapping matches) over any of them. */
module Patterns {
  import opened Wrappers
  import opened Text

  /** A match: where it starts, where it ends, and what group 1 captured. */
  datatype Match = Match(start: nat, end: nat, group: string)

  /** The patterns, by the role they play in the scripts. */
  datatype Pattern =
    | Header4                         // <h4>([^<]+)</h4>
    | Header4With(phrase: string)     // <h4[^>]*>([^<]*PHRASE[^<]*)</h4>
    | MailtoHref                      // href="mailto:([^"]+)"
    | Mailto                          // mailto:([^"]+)
    | Labelled(caption: string)         // CAPTION([^<]+), e.g. "Phone: "
    | Section(caption: string)          // <strong>CAPTION</strong><br />\s*(.*?)(?=<strong>|</p>)
    | Bullet                          // &bull; ([^<]+)<br />
    | PublicationsList                // <ul id="publications-list">(.*?)</ul>
    | GrantsList                      // <h3>Grants & Awards</h3>\s*<ul>(.*?)</ul>
    | ListItem                        // <li[^>]*>(.*?)</li>
    | ParenYear                       // \((\d{4})\)
    | AnchorText                      // <a[^>]*>([^<]+)</a>
    | Emphasis                        // <em>([^<]+)</em>
    | AfterAnchor                     // </a>\s*([^<]+)

  // ---------------------------------------------------------------------
  // Scanning primitives
  // ---------------------------------------------------------------------

  /** No character of `s[lo..hi]` is `c`. */
  predicate Avoids(s: string, lo: int, hi: int, c: char)
    requires 0 <= lo <= hi <= |s|
  {
    forall m | lo <= m < hi :: s[m] != c
  }

  /** Every character of `s[lo..hi]` is an ASCII digit. */
  predicate DigitsIn(s: string, lo: int, hi: int)
    requires 0 <= lo <= hi <= |s|
  {
    forall m | lo <= m < hi :: IsDigit(s[m])
  }

  /** Where a greedy `[^stop]*` starting at `k` stops. */
  function RunEnd(s: string, k: nat, stop: char): (j: nat)
    requires k <= |s|
    ensures k <= j <= |s| && Avoids(s, k, j, stop)
    ensures j == |s| || s[j] == stop
    decreases |s| - k
  {
    if k < |s| && s[k] != stop then RunEnd(s, k + 1, stop) else k
  }

  /** A `stop`-free run from `k` that ends at `stop` or at the end is the
      one `RunEnd` finds. */
  lemma RunEndAt(s: string, k: nat, stop: char, x: nat)
    requires k <= x <= |s| && Avoids(s, k, x, stop) && (x == |s| || s[x] == stop)
    ensures RunEnd(s, k, stop) == x
  {
  }

  /** The first position at or after `from` where `a` or `b` occurs: the
      lookahead `(?=a|b)` tried left to right. */
  function FindEither(s: string, a: string, b: string, from: nat): (r: Option<nat>)
    ensures r.Some? ==> from <= r.value && (OccursAt(s, a, r.value) || OccursAt(s, b, r.value))
    ensures forall q | from <= q && (r.None? || q < r.value) :: !OccursAt(s, a, q) && !OccursAt(s, b, q)
  {
    match (FindFrom(s, a, from), FindFrom(s, b, from))
    case (None, None) => None
    case (Some(x), None) => Some(x)
    case (None, Some(y)) => Some(y)
    case (Some(x), Some(y)) => Some(if x <= y then x else y)
  }

  /** The first place at or after `from` where `a` or `b` occurs is the
      one `FindEither` finds. */
  lemma FindEitherAt(s: string, a: string, b: string, from: nat, x: nat)
    requires from <= x && (OccursAt(s, a, x) || OccursAt(s, b, x))
    requires forall q | from <= q < x :: !OccursAt(s, a, q) && !OccursAt(s, b, q)
    ensures FindEither(s, a, b, from) == Some(x)
  {
    var r := FindEither(s, a, b, from);
    assert r.Some? && r.value <= x;
  }

  // ---------------------------------------------------------------------
  // Pattern shapes
  // ---------------------------------------------------------------------

  /** `open([^stop]+)close` at `i`, where `close` is empty or begins with
      `stop`, so the greedy run has exactly one place to end. */
  function RunAt(s: string, i: nat, open: string, stop: char, close: string): (r: Option<Match>)
    requires close == [] || close[0] == stop
    ensures r.Some? ==> RunShape(s, i, open, stop, close, r.value)
    ensures r.None? && OccursAt(s, open, i) ==>
      forall j | i + |open| < j <= |s| && Avoids(s, i + |open|, j, stop) && (j == |s| || s[j] == stop)
        :: !OccursAt(s, close, j)
  {
    if !OccursAt(s, open, i) then None
    else
      var k := i + |open|;
      var j := RunEnd(s, k, stop);
      if k < j && OccursAt(s, close, j) then Some(Match(i, j + |close|, s[k..j])) else None
  }

  /** What a successful `open([^stop]+)close` match looks like: the group is
      a non-empty run free of `stop` that sits between `open` and `close`
      and cannot be extended. */
  predicate RunShape(s: string, i: nat, open: string, stop: char, close: string, m: Match)
  {
    var k := i + |open|;
    var j := k + |m.group|;
    && m.start == i && OccursAt(s, open, i)
    && m.group != [] && j <= |s| && m.group == s[k..j] && stop !in m.group
    && (j == |s| || s[j] == stop)
    && OccursAt(s, close, j) && m.end == j + |close|
  }

  /** `<tag[^>]*>([^<]*phrase[^<]*)close` at `i` (with `[^<]+` when
      `phrase` is empty), where `close` begins with '<'. */
  function TagRunAt(s: string, i: nat, tag: string, phrase: string, close: string): (r: Option<Match>)
    requires close != [] && close[0] == '<'
    ensures r.Some? ==> TagRunShape(s, i, tag, phrase, close, r.value)
  {
    if !OccursAt(s, tag, i) then None
    else
      var g := RunEnd(s, i + |tag|, '>');
      if g == |s| then None
      else
        var k := g + 1;
        var j := RunEnd(s, k, '<');
        if k < j && Contains(s[k..j], phrase) && OccursAt(s, close, j)
        then Some(Match(i, j + |close|, s[k..j]))
        else None
  }

  /** A successful tag match: the opening tag runs to its first '>', and
      the group is the non-empty, '<'-free text after it, which holds
      `phrase` and is followed by `close`. */
  predicate TagRunShape(s: string, i: nat, tag: string, phrase: string, close: string, m: Match)
  {
    var j := m.end - |close|;
    var k := j - |m.group|;
    && m.start == i && OccursAt(s, tag, i)
    && i + |tag| < k <= j <= |s| && s[k - 1] == '>' && Avoids(s, i + |tag|, k - 1, '>')
    && m.group == s[k..j] && k < j && Avoids(s, k, j, '<') && Contains(m.group, phrase)
    && OccursAt(s, close, j)
  }

  /** `open` (then `\s*` when `gap`) then `mid`, then the shortest `(.*?)`
      that reaches `close`; DOTALL, so newlines are ordinary characters. */
  function BlockAt(s: string, i: nat, open: string, gap: bool, mid: string, close: string): (r: Option<Match>)
    requires gap ==> mid != [] && !IsSpace(mid[0])
    ensures r.Some? ==> BlockShape(s, i, open, gap, mid, close, r.value)
  {
    if !OccursAt(s, open, i) then None
    else
      var k0 := i + |open|;
      var k1 := if gap then SpaceEnd(s, k0) else k0;
      if !OccursAt(s, mid, k1) then None
      else
        var k := k1 + |mid|;
        match FindFrom(s, close, k)
        case None => None
        case Some(c) =>
          BlockAtShape(s, i, open, gap, mid, close, c);
          Some(Match(i, c + |close|, s[k..c]))
  }

  /** The match `BlockAt` builds from the first `close` at `c` has the
      block shape. */
  lemma BlockAtShape(s: string, i: nat, open: string, gap: bool, mid: string, close: string, c: nat)
    requires OccursAt(s, open, i)
    requires var k1 := if gap then SpaceEnd(s, i + |open|) else i + |open|;
      OccursAt(s, mid, k1) && FindFrom(s, close, k1 + |mid|) == Some(c)
    ensures var k := (if gap then SpaceEnd(s, i + |open|) else i + |open|) + |mid|;
      BlockShape(s, i, open, gap, mid, close, Match(i, c + |close|, s[k..c]))
  {
  }

  /** A successful block match: `open` at `i`, then (after the whitespace
      run, when `gap`) `mid`, where the group starts; the group ends where
      `close` first occurs after its start, and so never holds `close`. */
  predicate BlockShape(s: string, i: nat, open: string, gap: bool, mid: string, close: string, m: Match)
  {
    var c := m.end - |close|;
    var k := c - |m.group|;
    && m.start == i && OccursAt(s, open, i)
    && (var k1 := if gap then SpaceEnd(s, i + |open|) else i + |open|;
        OccursAt(s, mid, k1) && k == k1 + |mid|)
    && k <= c && OccursAt(s, close, c) && m.group == s[k..c]
    && (forall q | k <= q < c :: !OccursAt(s, close, q))
  }

  /** `<li[^>]*>(.*?)</li>` at `i`. */
  function ListItemAt(s: string, i: nat): (r: Option<Match>)
    ensures r.Some? ==> ListItemShape(s, i, r.value)
  {
    if !OccursAt(s, "<li", i) then None
    else
      var g := RunEnd(s, i + 3, '>');
      if g == |s| then None
      else
        match FindFrom(s, "</li>", g + 1)
        case None => None
        case Some(c) => Some(Match(i, c + 5, s[g + 1..c]))
  }

  /** A successful item match: "<li" at `i`, the opening tag runs to its
      first '>', where the group starts, and the group ends at the first
      "</li>" after that. */
  predicate ListItemShape(s: string, i: nat, m: Match)
  {
    var c := m.end - 5;
    var k := c - |m.group|;
    && m.start == i && OccursAt(s, "<li", i)
    && OccursAt(s, "</li>", c) && i + 3 < k <= c
    && s[k - 1] == '>' && Avoids(s, i + 3, k - 1, '>')
    && m.group == s[k..c]
    && (forall q | k <= q < c :: !OccursAt(s, "</li>", q))
  }

  /** `<strong>CAPTION</strong><br />\s*(.*?)(?=<strong>|</p>)` at `i`: the
      group runs from the first non-space after the caption to the first
      "<strong>" or "</p>", which stays unconsumed. */
  function SectionAt(s: string, i: nat, caption: string): (r: Option<Match>)
    ensures r.Some? ==> SectionShape(s, i, caption, r.value)
  {
    var open := "<strong>" + caption + "</strong><br />";
    if !OccursAt(s, open, i) then None
    else
      var k := SpaceEnd(s, i + |open|);
      match FindEither(s, "<strong>", "</p>", k)
      case None => None
      case Some(c) => Some(Match(i, c, s[k..c]))
  }

  /** A successful section match: the group starts at the first non-space
      after the caption and ends at the first "<strong>" or "</p>". */
  predicate SectionShape(s: string, i: nat, caption: string, m: Match)
  {
    var open := "<strong>" + caption + "</strong><br />";
    var k := m.end - |m.group|;
    && m.start == i && OccursAt(s, open, i)
    && i + |open| <= k <= m.end <= |s| && m.group == s[k..m.end]
    && k == SpaceEnd(s, i + |open|)
    && (OccursAt(s, "<strong>", m.end) || OccursAt(s, "</p>", m.end))
    && (forall q | k <= q < m.end :: !OccursAt(s, "<strong>", q) && !OccursAt(s, "</p>", q))
  }

  /** `\((\d{4})\)` at `i`. */
  function ParenYearAt(s: string, i: nat): (r: Option<Match>)
    ensures r.Some? <==> i + 6 <= |s| && s[i] == '(' && DigitsIn(s, i + 1, i + 5) && s[i + 5] == ')'
    ensures r.Some? ==> r.value == Match(i, i + 6, s[i + 1..i + 5])
  {
    if i + 6 <= |s| && s[i] == '(' && DigitsIn(s, i + 1, i + 5) && s[i + 5] == ')'
    then Some(Match(i, i + 6, s[i + 1..i + 5]))
    else None
  }

  /** A parenthesised four-digit year starts at `i`. */
  predicate YearInParens(s: string, i: int)
  {
    0 <= i && i + 6 <= |s| && s[i] == '(' && DigitsIn(s, i + 1, i + 5) && s[i + 5] == ')'
  }

  /** `</a>\s*([^<]+)` at `i`. The greedy `\s*` gives back its last
      character when nothing but a tag (or the end) follows the spaces, so
      the group is then that single whitespace character. */
  function AfterAnchorAt(s: string, i: nat): (r: Option<Match>)
    ensures r.Some? ==> AfterAnchorShape(s, i, r.value)
    ensures r.None? && OccursAt(s, "</a>", i) ==> i + 4 == |s| || s[i + 4] == '<'
  {
    if !OccursAt(s, "</a>", i) then None
    else
      var k := i + 4;
      var w := SpaceEnd(s, k);
      var j := RunEnd(s, w, '<');
      if w < j then Some(Match(i, j, s[w..j]))
      else if k < w then
        GiveBackSpace(s, i, w);
        Some(Match(i, w, s[w - 1..w]))
      else None
  }

  /** When the spaces after "</a>" run up to a '<' or the end, the match is
      the last of them. */
  lemma GiveBackSpace(s: string, i: nat, w: nat)
    requires OccursAt(s, "</a>", i) && i + 4 < w == SpaceEnd(s, i + 4)
    requires w == |s| || s[w] == '<'
    ensures AfterAnchorShape(s, i, Match(i, w, s[w - 1..w]))
  {
    assert IsSpace(s[w - 1]);
  }

  /** A successful `</a>\s*([^<]+)` match: the group is a non-empty '<'-free
      run ending at a '<' or at the end, preceded only by whitespace back to
      the "</a>"; it starts where that whitespace ends, or at its last
      character when no other text follows. */
  predicate AfterAnchorShape(s: string, i: nat, m: Match)
  {
    var k := m.end - |m.group|;
    && m.start == i && OccursAt(s, "</a>", i)
    && (var w := SpaceEnd(s, i + 4); k == if w == |s| || s[w] == '<' then w - 1 else w)
    && i + 4 <= k < m.end <= |s| && m.group == s[k..m.end]
    && SpacesIn(s, i + 4, k) && Avoids(s, k, m.end, '<')
    && (m.end == |s| || s[m.end] == '<')
  }

  // ---------------------------------------------------------------------
  // One pattern at one position
  // ---------------------------------------------------------------------

  /** What a match of `p` at `i` looks like, pattern by pattern. */
  predicate MatchShape(s: string, p: Pattern, i: nat, m: Match)
  {
    match p
    case Header4 => RunShape(s, i, "<h4>", '<', "</h4>", m)
    case Header4With(phrase) => TagRunShape(s, i, "<h4", phrase, "</h4>", m)
    case MailtoHref => RunShape(s, i, "href=\"mailto:", '"', "\"", m)
    case Mailto => RunShape(s, i, "mailto:", '"', "", m)
    case Labelled(caption) => caption != [] && RunShape(s, i, caption, '<', "", m)
    case Section(caption) => SectionShape(s, i, caption, m)
    case Bullet => RunShape(s, i, "&bull; ", '<', "<br />", m)
    case PublicationsList => BlockShape(s, i, "<ul id=\"publications-list\">", false, "", "</ul>", m)
    case GrantsList => BlockShape(s, i, "<h3>Grants & Awards</h3>", true, "<ul>", "</ul>", m)
    case ListItem => ListItemShape(s, i, m)
    case ParenYear => YearInParens(s, i) && m == Match(i, i + 6, s[i + 1..i + 5])
    case AnchorText => TagRunShape(s, i, "<a", "", "</a>", m)
    case Emphasis => RunShape(s, i, "<em>", '<', "</em>", m)
    case AfterAnchor => AfterAnchorShape(s, i, m)
  }

  /** The match of `p` that starts exactly at `i`, if any. */
  function MatchAt(s: string, p: Pattern, i: nat): (r: Option<Match>)
    ensures r.Some? ==> r.value.start == i < r.value.end <= |s|
  {
    match p
    case Header4 => RunAt(s, i, "<h4>", '<', "</h4>")
    case Header4With(phrase) => TagRunAt(s, i, "<h4", phrase, "</h4>")
    case MailtoHref => RunAt(s, i, "href=\"mailto:", '"', "\"")
    case Mailto => RunAt(s, i, "mailto:", '"', "")
    case Labelled(caption) => if caption == [] then None else RunAt(s, i, caption, '<', "")
    case Section(caption) => SectionAt(s, i, caption)
    case Bullet => RunAt(s, i, "&bull; ", '<', "<br />")
    case PublicationsList => BlockAt(s, i, "<ul id=\"publications-list\">", false, "", "</ul>")
    case GrantsList => BlockAt(s, i, "<h3>Grants & Awards</h3>", true, "<ul>", "</ul>")
    case ListItem => ListItemAt(s, i)
    case ParenYear => ParenYearAt(s, i)
    case AnchorText => TagRunAt(s, i, "<a", "", "</a>")
    case Emphasis => RunAt(s, i, "<em>", '<', "</em>")
    case AfterAnchor => AfterAnchorAt(s, i)
  }

  // ---------------------------------------------------------------------
  // Every match is the one the scanner returns
  // ---------------------------------------------------------------------

  /** A match of `p` at `i` is exactly what `MatchAt` returns there: with
      the contract of `MatchAt`, `MatchAt(s, p, i) == Some(m)` holds if and
      only if `MatchShape(s, p, i, m)` does. */
  lemma MatchAtComplete(s: string, p: Pattern, i: nat, m: Match)
    requires MatchShape(s, p, i, m)
    ensures MatchAt(s, p, i) == Some(m)
  {
    if p.Header4? || p.Header4With? || p.MailtoHref? || p.Mailto? || p.Labelled? || p.Bullet? {
      HeaderCompletes(s, p, i, m);
    } else {
      ListCompletes(s, p, i, m);
    }
  }

  lemma ListCompletes(s: string, p: Pattern, i: nat, m: Match)
    requires !(p.Header4? || p.Header4With? || p.MailtoHref? || p.Mailto? || p.Labelled? || p.Bullet?)
    requires MatchShape(s, p, i, m)
    ensures MatchAt(s, p, i) == Some(m)
  {
    match p
    case Section(caption) => SectionComplete(s, i, caption, m);
    case PublicationsList => BlockComplete(s, i, "<ul id=\"publications-list\">", false, "", "</ul>", m);
    case GrantsList => BlockComplete(s, i, "<h3>Grants & Awards</h3>", true, "<ul>", "</ul>", m);
    case ListItem => ListItemComplete(s, i, m);
    case ParenYear =>
    case AnchorText => TagRunComplete(s, i, "<a", "", "</a>", m);
    case Emphasis => RunComplete(s, i, "<em>", '<', "</em>", m);
    case AfterAnchor => AfterAnchorComplete(s, i, m);
  }

  lemma HeaderCompletes(s: string, p: Pattern, i: nat, m: Match)
    requires p.Header4? || p.Header4With? || p.MailtoHref? || p.Mailto? || p.Labelled? || p.Bullet?
    requires MatchShape(s, p, i, m)
    ensures MatchAt(s, p, i) == Some(m)
  {
    match p
    case Header4 => RunComplete(s, i, "<h4>", '<', "</h4>", m);
    case Header4With(phrase) => TagRunComplete(s, i, "<h4", phrase, "</h4>", m);
    case MailtoHref => RunComplete(s, i, "href=\"mailto:", '"', "\"", m);
    case Mailto => RunComplete(s, i, "mailto:", '"', "", m);
    case Labelled(caption) => RunComplete(s, i, caption, '<', "", m);
    case Bullet => RunComplete(s, i, "&bull; ", '<', "<br />", m);
  }

  /** What `MatchAt` returns is a match of the pattern. */
  lemma MatchAtShape(s: string, p: Pattern, i: nat)
    requires MatchAt(s, p, i).Some?
    ensures MatchShape(s, p, i, MatchAt(s, p, i).value)
  {
    match p
    case Header4 =>
    case Header4With(phrase) =>
    case MailtoHref =>
    case Mailto =>
    case Labelled(caption) =>
    case Section(caption) =>
    case Bullet =>
    case PublicationsList =>
    case GrantsList =>
    case ListItem =>
    case ParenYear =>
    case AnchorText =>
    case Emphasis =>
    case AfterAnchor =>
  }

  lemma RunComplete(s: string, i: nat, open: string, stop: char, close: string, m: Match)
    requires close == [] || close[0] == stop
    requires RunShape(s, i, open, stop, close, m)
    ensures RunAt(s, i, open, stop, close) == Some(m)
  {
    var k := i + |open|;
    var j := k + |m.group|;
    forall q | k <= q < j
      ensures s[q] != stop
    {
      assert s[q] == m.group[q - k];
    }
    RunEndAt(s, k, stop, j);
    RunFinds(s, i, open, stop, close, j);
    SameMatch(m, i, j + |close|, s[k..j]);
  }

  lemma RunFinds(s: string, i: nat, open: string, stop: char, close: string, j: nat)
    requires close == [] || close[0] == stop
    requires OccursAt(s, open, i) && RunEnd(s, i + |open|, stop) == j > i + |open| && OccursAt(s, close, j)
    ensures RunAt(s, i, open, stop, close) == Some(Match(i, j + |close|, s[i + |open|..j]))
  {
  }

  lemma TagRunComplete(s: string, i: nat, tag: string, phrase: string, close: string, m: Match)
    requires close != [] && close[0] == '<'
    requires TagRunShape(s, i, tag, phrase, close, m)
    ensures TagRunAt(s, i, tag, phrase, close) == Some(m)
  {
    var j := m.end - |close|;
    var k := j - |m.group|;
    RunEndAt(s, i + |tag|, '>', k - 1);
    assert s[j] == s[j..j + |close|][0];
    RunEndAt(s, k, '<', j);
    TagRunFinds(s, i, tag, phrase, close, k - 1, j);
    SameMatch(m, i, j + |close|, s[k..j]);
  }

  /** A match is determined by its three fields. */
  lemma SameMatch(m: Match, start: nat, end: nat, group: string)
    requires m.start == start && m.end == end && m.group == group
    ensures m == Match(start, end, group)
  {
  }

  lemma TagRunFinds(s: string, i: nat, tag: string, phrase: string, close: string, g: nat, j: nat)
    requires close != [] && close[0] == '<'
    requires OccursAt(s, tag, i) && RunEnd(s, i + |tag|, '>') == g < |s|
    requires RunEnd(s, g + 1, '<') == j && g + 1 < j && Contains(s[g + 1..j], phrase) && OccursAt(s, close, j)
    ensures TagRunAt(s, i, tag, phrase, close) == Some(Match(i, j + |close|, s[g + 1..j]))
  {
  }

  lemma BlockComplete(s: string, i: nat, open: string, gap: bool, mid: string, close: string, m: Match)
    requires gap ==> mid != [] && !IsSpace(mid[0])
    requires BlockShape(s, i, open, gap, mid, close, m)
    ensures BlockAt(s, i, open, gap, mid, close) == Some(m)
  {
    var c := m.end - |close|;
    var k := c - |m.group|;
    assert m == Match(i, c + |close|, s[k..c]);
    FindFromAt(s, close, k, c);
    BlockAtFinds(s, i, open, gap, mid, close, c);
  }

  lemma BlockAtFinds(s: string, i: nat, open: string, gap: bool, mid: string, close: string, c: nat)
    requires gap ==> mid != [] && !IsSpace(mid[0])
    requires OccursAt(s, open, i)
    requires var k1 := if gap then SpaceEnd(s, i + |open|) else i + |open|;
      OccursAt(s, mid, k1) && FindFrom(s, close, k1 + |mid|) == Some(c)
    ensures var k1 := if gap then SpaceEnd(s, i + |open|) else i + |open|;
      BlockAt(s, i, open, gap, mid, close) == Some(Match(i, c + |close|, s[k1 + |mid|..c]))
  {
  }

  lemma ListItemComplete(s: string, i: nat, m: Match)
    requires ListItemShape(s, i, m)
    ensures ListItemAt(s, i) == Some(m)
  {
    var c := m.end - 5;
    var k := c - |m.group|;
    RunEndAt(s, i + 3, '>', k - 1);
    FindFromAt(s, "</li>", k, c);
    ListItemFinds(s, i, k - 1, c);
    SameMatch(m, i, c + 5, s[k..c]);
  }

  lemma ListItemFinds(s: string, i: nat, g: nat, c: nat)
    requires OccursAt(s, "<li", i) && RunEnd(s, i + 3, '>') == g < |s|
    requires FindFrom(s, "</li>", g + 1) == Some(c)
    ensures ListItemAt(s, i) == Some(Match(i, c + 5, s[g + 1..c]))
  {
  }

  lemma SectionComplete(s: string, i: nat, caption: string, m: Match)
    requires SectionShape(s, i, caption, m)
    ensures SectionAt(s, i, caption) == Some(m)
  {
    var k := m.end - |m.group|;
    FindEitherAt(s, "<strong>", "</p>", k, m.end);
    SectionFinds(s, i, caption, k, m.end);
    SameMatch(m, i, m.end, s[k..m.end]);
  }

  lemma SectionFinds(s: string, i: nat, caption: string, k: nat, c: nat)
    requires var open := "<strong>" + caption + "</strong><br />";
      OccursAt(s, open, i) && k == SpaceEnd(s, i + |open|)
    requires FindEither(s, "<strong>", "</p>", k) == Some(c)
    ensures SectionAt(s, i, caption) == Some(Match(i, c, s[k..c]))
  {
  }

  lemma AfterAnchorComplete(s: string, i: nat, m: Match)
    requires AfterAnchorShape(s, i, m)
    ensures AfterAnchorAt(s, i) == Some(m)
  {
    var k := m.end - |m.group|;
    var w := SpaceEnd(s, i + 4);
    SameMatch(m, i, m.end, s[k..m.end]);
    if w == |s| || s[w] == '<' {
      assert IsSpace(s[w - 1]);
      RunEndAt(s, k, '<', w);
      RunEndAt(s, k, '<', m.end);
    } else {
      RunEndAt(s, w, '<', m.end);
    }
  }

  // ---------------------------------------------------------------------
  // `re.search` and `re.findall`
  // ---------------------------------------------------------------------

  /** `re.search(p, s[i:])` measured in `s`: the leftmost match starting at
      or after `i`. */
  function SearchFrom(s: string, p: Pattern, i: nat): (r: Option<Match>)
    ensures r.Some? ==> i <= r.value.start && MatchAt(s, p, r.value.start) == r
    ensures forall q | i <= q && (r.None? || q < r.value.start) :: MatchAt(s, p, q).None?
    decreases |s| + 1 - i
  {
    if i > |s| then None
    else
      match MatchAt(s, p, i)
      case Some(m) => Some(m)
      case None => SearchFrom(s, p, i + 1)
  }

  /** `re.search(p, s)`. */
  function Search(s: string, p: Pattern): Option<Match>
  {
    SearchFrom(s, p, 0)
  }

  /** The group of `re.search(p, s)`, when there is a match. */
  function SearchGroup(s: string, p: Pattern): Option<string>
  {
    match Search(s, p)
    case Some(m) => Some(m.group)
    case None => None
  }

  /** The pattern matches somewhere in `s`. */
  ghost predicate Found(s: string, p: Pattern)
  {
    exists i: nat, m: Match :: MatchShape(s, p, i, m)
  }

  /** No match is missed: wherever `p` matches, `re.search` succeeds, at
      that position or an earlier one. */
  lemma SearchComplete(s: string, p: Pattern, i: nat, m: Match)
    requires MatchShape(s, p, i, m)
    ensures Search(s, p).Some? && Search(s, p).value.start <= i
  {
    MatchAtComplete(s, p, i, m);
  }

  /** `re.search` succeeds exactly when the pattern matches somewhere. */
  lemma SearchFound(s: string, p: Pattern)
    ensures Search(s, p).Some? <==> Found(s, p)
  {
    if Search(s, p).Some? {
      var m := Search(s, p).value;
      MatchAtShape(s, p, m.start);
    }
    if Found(s, p) {
      var i: nat, m: Match :| MatchShape(s, p, i, m);
      SearchComplete(s, p, i, m);
    }
  }

  /** `re.finditer(p, s)` from `i`: search, and after a match resume the
      search where it ended. The matches are genuine, in order and do not
      overlap; the list is empty exactly when `re.search` finds nothing and
      otherwise starts with what it finds. `FindAllNext` and `FindAllLast`
      add that nothing is missed in between or after. */
  function FindAllFrom(s: string, p: Pattern, i: nat): (r: seq<Match>)
    ensures r == [] <==> SearchFrom(s, p, i).None?
    ensures r != [] ==> SearchFrom(s, p, i) == Some(r[0])
    ensures forall k | 0 <= k < |r| :: i <= r[k].start && MatchAt(s, p, r[k].start) == Some(r[k])
    ensures forall k | 0 <= k < |r| - 1 :: r[k].end <= r[k + 1].start
    decreases |s| + 1 - i
  {
    match SearchFrom(s, p, i)
    case None => []
    case Some(m) => [m] + FindAllFrom(s, p, m.end)
  }

  /** The list from `i` is the first match followed by the list from where
      that match ends. */
  lemma FindAllUnfold(s: string, p: Pattern, i: nat)
    requires SearchFrom(s, p, i).Some?
    ensures var m := SearchFrom(s, p, i).value;
      FindAllFrom(s, p, i) == [m] + FindAllFrom(s, p, m.end)
  {
  }

  /** Each listed match after the first is the leftmost match after its
      predecessor; with the contract of `SearchFrom`, no match starts in a
      gap between two listed ones. */
  lemma {:induction false} FindAllNext(s: string, p: Pattern, i: nat, k: nat)
    requires k + 1 < |FindAllFrom(s, p, i)|
    ensures var r := FindAllFrom(s, p, i);
      SearchFrom(s, p, r[k].end) == Some(r[k + 1])
    decreases k
  {
    FindAllUnfold(s, p, i);
    var m := SearchFrom(s, p, i).value;
    var r, rest := FindAllFrom(s, p, i), FindAllFrom(s, p, m.end);
    assert r[k + 1] == rest[k];
    if k > 0 {
      assert r[k] == rest[k - 1];
      FindAllNext(s, p, m.end, k - 1);
    }
  }

  /** No match is left after the last listed one. */
  lemma {:induction false} FindAllLast(s: string, p: Pattern, i: nat)
    requires FindAllFrom(s, p, i) != []
    ensures var r := FindAllFrom(s, p, i);
      SearchFrom(s, p, r[|r| - 1].end).None?
    decreases |s| + 1 - i
  {
    FindAllUnfold(s, p, i);
    var m := SearchFrom(s, p, i).value;
    if FindAllFrom(s, p, m.end) != [] {
      FindAllLast(s, p, m.end);
    }
  }

  /** Nothing is skipped: every match at or after `i` is listed, unless it
      starts inside a listed match, which `re.finditer` steps over. */
  lemma FindAllCovers(s: string, p: Pattern, i: nat, q: nat, m: Match)
    requires i <= q && MatchShape(s, p, q, m)
    ensures var r := FindAllFrom(s, p, i);
      exists k | 0 <= k < |r| :: r[k] == m || r[k].start < q < r[k].end
  {
    MatchAtComplete(s, p, q, m);
    FindAllReaches(s, p, i, q, m);
  }

  lemma {:induction false} FindAllReaches(s: string, p: Pattern, i: nat, q: nat, m: Match)
    requires i <= q && MatchAt(s, p, q) == Some(m)
    ensures var r := FindAllFrom(s, p, i);
      exists k | 0 <= k < |r| :: r[k] == m || r[k].start < q < r[k].end
    decreases |s| + 1 - i
  {
    SearchReaches(s, p, i, q, m);
    var first := SearchFrom(s, p, i).value;
    FindAllUnfold(s, p, i);
    var r := FindAllFrom(s, p, i);
    assert r[0] == first;
    if first.end <= q {
      FindAllReaches(s, p, first.end, q, m);
      var rest := FindAllFrom(s, p, first.end);
      var k :| 0 <= k < |rest| && (rest[k] == m || rest[k].start < q < rest[k].end);
      assert r[k + 1] == rest[k];
    }
  }

  /** The leftmost match from `i` ends at or before a later match at `q`,
      is that match, or overlaps it. */
  lemma SearchReaches(s: string, p: Pattern, i: nat, q: nat, m: Match)
    requires i <= q && MatchAt(s, p, q) == Some(m)
    ensures SearchFrom(s, p, i).Some?
    ensures var f := SearchFrom(s, p, i).value;
      f.end <= q || f == m || f.start < q < f.end
  {
  }

  /** `re.findall(p, s)` for a pattern with one group. */
  function FindAll(s: string, p: Pattern): (groups: seq<string>)
    ensures |groups| == |FindAllFrom(s, p, 0)|
    ensures forall k | 0 <= k < |groups| :: groups[k] == FindAllFrom(s, p, 0)[k].group
  {
    var ms := FindAllFrom(s, p, 0);
    seq(|ms|, k requires 0 <= k < |ms| => ms[k].group)
  }

  // ---------------------------------------------------------------------
  // What the individual patterns promise
  // ---------------------------------------------------------------------

  /** The mailto target is taken verbatim: it is the whole non-empty,
      quote-free text between `href="mailto:` and the next '"'. */
  lemma MailtoHrefVerbatim(s: string)
    requires SearchGroup(s, MailtoHref).Some?
    ensures var e := SearchGroup(s, MailtoHref).value;
      && e != [] && '"' !in e && Contains(s, "href=\"mailto:" + e + "\"")
  {
    var m := Search(s, MailtoHref).value;
    MatchAtShape(s, MailtoHref, m.start);
    OccursJoin(s, m.start, "href=\"mailto:", m.group, "\"");
    ContainsAt(s, "href=\"mailto:" + m.group + "\"", m.start);
  }

  /** `mailto:` at `i`, followed by at least one character other than '"'. */
  predicate MailtoAt(s: string, i: int)
  {
    OccursAt(s, "mailto:", i) && i + 7 < |s| && s[i + 7] != '"'
  }

  /** The bare `mailto:([^"]+)` pattern matches at `i` exactly when
      `MailtoAt` holds there. */
  lemma MailtoMatch(s: string, i: nat)
    ensures MatchAt(s, Mailto, i).Some? <==> MailtoAt(s, i)
  {
    var r := MatchAt(s, Mailto, i);
    if r.Some? {
      assert RunShape(s, i, "mailto:", '"', "", r.value);
      assert r.value.group[0] == s[i + 7];
    }
    if MailtoAt(s, i) {
      var j := RunEnd(s, i + 7, '"');
      assert OccursAt(s, "", j);
    }
  }

  /** `e` is the whole non-empty, quote-free run after a `mailto:` at `i`. */
  predicate MailtoTarget(s: string, i: int, e: string)
  {
    var j := i + 7 + |e|;
    && MailtoAt(s, i)
    && e != [] && j <= |s| && e == s[i + 7..j] && '"' !in e
    && (j == |s| || s[j] == '"')
  }

  /** `re.search(r'mailto:([^"]+)', s)`: there is a match exactly when some
      position satisfies `MailtoAt`; the match is at the first such
      position, and its group is the whole quote-free run after `mailto:`. */
  lemma MailtoSearch(s: string)
    ensures Search(s, Mailto).None? <==> forall i | 0 <= i <= |s| :: !MailtoAt(s, i)
    ensures Search(s, Mailto).Some? ==>
      var m := Search(s, Mailto).value;
      && MailtoTarget(s, m.start, m.group) && (forall q | 0 <= q < m.start :: !MailtoAt(s, q))
  {
    var r := Search(s, Mailto);
    forall q | 0 <= q && (r.None? || q < r.value.start)
      ensures !MailtoAt(s, q)
    {
      MailtoMatch(s, q);
    }
    if r.Some? {
      MailtoFound(s, r.value);
    }
  }

  /** A match of the bare `mailto:` pattern is the whole run after `mailto:`. */
  lemma MailtoFound(s: string, m: Match)
    requires MatchAt(s, Mailto, m.start) == Some(m)
    ensures MailtoTarget(s, m.start, m.group)
  {
    MatchAtShape(s, Mailto, m.start);
    MailtoMatch(s, m.start);
  }

  /** A parenthesised year is four ASCII digits that occur in parentheses. */
  lemma ParenYearDigits(s: string)
    requires SearchGroup(s, ParenYear).Some?
    ensures var y := SearchGroup(s, ParenYear).value;
      && |y| == 4 && AllDigits(y) && Contains(s, "(" + y + ")")
  {
    var m := Search(s, ParenYear).value;
    var y := m.group;
    assert y == s[m.start + 1..m.start + 5];
    assert s[m.start..m.start + 6] == "(" + y + ")";
    ContainsAt(s, "(" + y + ")", m.start);
  }

  /** Any occurrence of "(dddd)" is found: a parenthesised year exists
      exactly when the search succeeds, and the first one wins. */
  lemma ParenYearComplete(s: string, i: nat, y: string)
    requires |y| == 4 && AllDigits(y) && OccursAt(s, "(" + y + ")", i)
    ensures Search(s, ParenYear).Some? && Search(s, ParenYear).value.start <= i
  {
    assert s[i..i + 6] == "(" + y + ")";
    assert s[i] == '(' && s[i + 5] == ')';
    assert forall m | i + 1 <= m < i + 5 :: s[m] == y[m - i - 1];
    assert MatchAt(s, ParenYear, i).Some?;
  }

  /** The search finds the first parenthesised year and captures its four
      digits. */
  lemma ParenYearFirst(s: string)
    requires Search(s, ParenYear).Some?
    ensures var m := Search(s, ParenYear).value;
      && YearInParens(s, m.start) && m.group == s[m.start + 1..m.start + 5]
      && forall q | 0 <= q < m.start :: !YearInParens(s, q)
  {
    var m := Search(s, ParenYear).value;
    forall q | 0 <= q < m.start
      ensures !YearInParens(s, q)
    {
      assert MatchAt(s, ParenYear, q).None?;
    }
  }

  /** When the search fails there is no parenthesised year anywhere. */
  lemma ParenYearAbsent(s: string)
    requires Search(s, ParenYear).None?
    ensures forall i | 0 <= i <= |s| - 6 :: !(s[i] == '(' && DigitsIn(s, i + 1, i + 5) && s[i + 5] == ')')
  {
    forall i | 0 <= i <= |s| - 6
      ensures !(s[i] == '(' && DigitsIn(s, i + 1, i + 5) && s[i + 5] == ')')
    {
      assert MatchAt(s, ParenYear, i).None?;
    }
  }

  /** A run match captures non-empty text free of `stop` that occurs in
      the input. */
  lemma RunGroup(s: string, i: nat, open: string, stop: char, close: string, m: Match)
    requires RunShape(s, i, open, stop, close, m)
    ensures m.group != [] && stop !in m.group && Contains(s, m.group)
  {
    ContainsAt(s, m.group, i + |open|);
  }

  /** A tag match captures non-empty text free of '<' that occurs in the
      input. */
  lemma TagGroup(s: string, i: nat, tag: string, phrase: string, close: string, m: Match)
    requires TagRunShape(s, i, tag, phrase, close, m)
    ensures m.group != [] && '<' !in m.group && Contains(s, m.group)
  {
    var k := m.end - |close| - |m.group|;
    ContainsAt(s, m.group, k);
    forall q | 0 <= q < |m.group|
      ensures m.group[q] != '<'
    {
      assert m.group[q] == s[k + q];
    }
  }

  /** The patterns that capture a run of text up to a '<' capture non-empty
      text free of '<' that occurs in the input. */
  lemma TextGroup(s: string, p: Pattern)
    requires p.Header4? || p.Header4With? || p.Labelled? || p.Bullet? || p.AnchorText? || p.Emphasis?
    requires SearchGroup(s, p).Some?
    ensures var g := SearchGroup(s, p).value;
      g != [] && '<' !in g && Contains(s, g)
  {
    var m := Search(s, p).value;
    var i := m.start;
    match p
    case Header4 => RunGroup(s, i, "<h4>", '<', "</h4>", m);
    case Header4With(phrase) => TagGroup(s, i, "<h4", phrase, "</h4>", m);
    case Labelled(caption) => RunGroup(s, i, caption, '<', "", m);
    case Bullet => RunGroup(s, i, "&bull; ", '<', "<br />", m);
    case AnchorText => TagGroup(s, i, "<a", "", "</a>", m);
    case Emphasis => RunGroup(s, i, "<em>", '<', "</em>", m);
  }

  /** The text after a closing anchor is non-empty, free of '<' and occurs
      in the input. */
  lemma AfterAnchorGroup(s: string)
    requires SearchGroup(s, AfterAnchor).Some?
    ensures var g := SearchGroup(s, AfterAnchor).value;
      g != [] && '<' !in g && Contains(s, g)
  {
    var m := Search(s, AfterAnchor).value;
    AfterAnchorShapeGroup(s, m.start, m);
  }

  lemma AfterAnchorShapeGroup(s: string, i: nat, m: Match)
    requires AfterAnchorShape(s, i, m)
    ensures m.group != [] && '<' !in m.group && Contains(s, m.group)
  {
    var k := m.end - |m.group|;
    ContainsAt(s, m.group, k);
    forall q | 0 <= q < |m.group|
      ensures m.group[q] != '<'
    {
      assert m.group[q] == s[k + q];
    }
  }
}
