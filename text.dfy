/** The handful of Python `str` operations the scripts rely on, written out
    over `string` (= `seq<char>`): `strip`, `in`, `find`, `split`, `join`,
    `replace`, `re.sub(r'\s+', ' ', …)`, `isdigit`, `int(…)`, `str(int)` and
    string comparison. */
module Text {
  import opened Wrappers

  // ---------------------------------------------------------------------
  // Character classes
  // ---------------------------------------------------------------------

  /** Python's `str.isspace()`, which is also what `\s` matches in a `str`
      pattern: the ASCII controls TAB..CR and FS..US, SPACE, NEL, NBSP and
      the Unicode space separators. */
  predicate IsSpace(c: char) {
    || ('\U{9}' <= c <= '\U{D}')
    || ('\U{1C}' <= c <= '\U{20}')
    || c == '\U{85}' || c == '\U{A0}' || c == '\U{1680}'
    || ('\U{2000}' <= c <= '\U{200A}')
    || c == '\U{2028}' || c == '\U{2029}' || c == '\U{202F}' || c == '\U{205F}'
    || c == '\U{3000}'
  }

  /** An ASCII decimal digit (`\d` and `isdigit` restricted to ASCII). */
  predicate IsDigit(c: char) {
    '0' <= c <= '9'
  }

  /** Every character of `s[lo..hi]` is whitespace. */
  predicate SpacesIn(s: string, lo: int, hi: int)
    requires 0 <= lo <= hi <= |s|
  {
    forall i | lo <= i < hi :: IsSpace(s[i])
  }

  predicate AllDigits(s: string) {
    forall i | 0 <= i < |s| :: IsDigit(s[i])
  }

  // ---------------------------------------------------------------------
  // Substrings: `sub in s` and `s.find(sub, from)`
  // ---------------------------------------------------------------------

  predicate OccursAt(s: string, sub: string, i: int) {
    0 <= i && i + |sub| <= |s| && s[i..i + |sub|] == sub
  }

  /** Python's `sub in s`. */
  predicate Contains(s: string, sub: string) {
    exists i | 0 <= i <= |s| - |sub| :: OccursAt(s, sub, i)
  }

  /** Python's `s.find(sub, from)`: the first occurrence at or after `from`. */
  function FindFrom(s: string, sub: string, from: nat): (r: Option<nat>)
    ensures r.Some? ==> from <= r.value && OccursAt(s, sub, r.value)
    ensures forall j | from <= j && (r.None? || j < r.value) :: !OccursAt(s, sub, j)
    decreases |s| - from
  {
    if from + |sub| > |s| then None
    else if s[from..from + |sub|] == sub then Some(from)
    else FindFrom(s, sub, from + 1)
  }

  /** The first occurrence at or after `from` is the one `FindFrom` finds. */
  lemma FindFromAt(s: string, sub: string, from: nat, x: nat)
    requires from <= x && OccursAt(s, sub, x)
    requires forall q | from <= q < x :: !OccursAt(s, sub, q)
    ensures FindFrom(s, sub, from) == Some(x)
  {
    var r := FindFrom(s, sub, from);
    assert r.Some? && r.value <= x;
  }

  /** The first index of character `c` in `s`. */
  function IndexOf(s: string, c: char): (r: Option<nat>)
    ensures r.None? <==> c !in s
    ensures r.Some? ==> r.value < |s| && s[r.value] == c && c !in s[..r.value]
  {
    if s == [] then None
    else if s[0] == c then Some(0)
    else
      match IndexOf(s[1..], c)
      case None => None
      case Some(i) =>
        assert s[..i + 1] == [s[0]] + s[1..][..i];
        Some(i + 1)
  }

  /** The first `c` in `s` is at `x` when `s[x]` is `c` and none comes before. */
  lemma IndexOfAt(s: string, c: char, x: nat)
    requires x < |s| && s[x] == c && c !in s[..x]
    ensures IndexOf(s, c) == Some(x)
  {
  }

  lemma ContainsShift(s: string, sub: string)
    requires s != [] && Contains(s[1..], sub)
    ensures Contains(s, sub)
  {
    var i :| 0 <= i <= |s[1..]| - |sub| && OccursAt(s[1..], sub, i);
    assert s[i + 1..i + 1 + |sub|] == s[1..][i..i + |sub|];
    assert OccursAt(s, sub, i + 1);
  }

  lemma ContainsAt(s: string, sub: string, i: int)
    requires OccursAt(s, sub, i)
    ensures Contains(s, sub)
  {
  }

  /** Three pieces that occur one after the other occur together. */
  lemma OccursJoin(s: string, i: int, a: string, b: string, c: string)
    requires OccursAt(s, a, i) && OccursAt(s, b, i + |a|) && OccursAt(s, c, i + |a| + |b|)
    ensures OccursAt(s, a + b + c, i)
  {
    assert s[i..i + |a| + |b| + |c|] == s[i..i + |a|] + s[i + |a|..i + |a| + |b|] + s[i + |a| + |b|..i + |a| + |b| + |c|];
  }

  /** A string occurs at the front of any extension of it. */
  lemma ContainsLeft(a: string, b: string)
    ensures Contains(a + b, a)
  {
    assert (a + b)[0..|a|] == a;
    ContainsAt(a + b, a, 0);
  }

  /** A string occurs at the back of anything put before it. */
  lemma ContainsRight(a: string, b: string)
    ensures Contains(a + b, b)
  {
    assert (a + b)[|a|..|a| + |b|] == b;
    ContainsAt(a + b, b, |a|);
  }

  /** Each of ten pieces appended one after another occurs in the result
      (a page of a head and four headed sections, then a tail). */
  lemma {:induction false} PiecesHold(head: string, h1: string, b1: string, h2: string, b2: string,
                                     h3: string, b3: string, h4: string, b4: string, end: string)
    ensures var page := head + h1 + b1 + h2 + b2 + h3 + b3 + h4 + b4 + end;
      && Contains(page, head) && Contains(page, h1) && Contains(page, h2) && Contains(page, h3) && Contains(page, h4)
      && Contains(page, b1) && Contains(page, b2) && Contains(page, b3) && Contains(page, b4)
  {
    var p1 := head + h1;
    var p2 := p1 + b1;
    var p3 := p2 + h2;
    var p4 := p3 + b2;
    var p5 := p4 + h3;
    var p6 := p5 + b3;
    var p7 := p6 + h4;
    var p8 := p7 + b4;
    var page := p8 + end;
    ContainsLeft(p8, end);
    ContainsLeft(p7, b4);    ContainsTrans(page, p8, p7);
    ContainsRight(p7, b4);   ContainsTrans(page, p8, b4);
    ContainsLeft(p6, h4);    ContainsTrans(page, p7, p6);
    ContainsRight(p6, h4);   ContainsTrans(page, p7, h4);
    ContainsLeft(p5, b3);    ContainsTrans(page, p6, p5);
    ContainsRight(p5, b3);   ContainsTrans(page, p6, b3);
    ContainsLeft(p4, h3);    ContainsTrans(page, p5, p4);
    ContainsRight(p4, h3);   ContainsTrans(page, p5, h3);
    ContainsLeft(p3, b2);    ContainsTrans(page, p4, p3);
    ContainsRight(p3, b2);   ContainsTrans(page, p4, b2);
    ContainsLeft(p2, h2);    ContainsTrans(page, p3, p2);
    ContainsRight(p2, h2);   ContainsTrans(page, p3, h2);
    ContainsLeft(p1, b1);    ContainsTrans(page, p2, p1);
    ContainsRight(p1, b1);   ContainsTrans(page, p2, b1);
    ContainsLeft(head, h1);  ContainsTrans(page, p1, head);
    ContainsRight(head, h1); ContainsTrans(page, p1, h1);
  }

  /** `b` occurs in any string built around it. */
  lemma ContainsMiddle(a: string, b: string, c: string)
    ensures Contains(a + b + c, b)
  {
    assert (a + b + c)[|a|..|a| + |b|] == b;
    ContainsAt(a + b + c, b, |a|);
  }

  /** Whatever occurs in a part occurs in the whole. */
  lemma ContainsTrans(s: string, t: string, x: string)
    requires Contains(s, t) && Contains(t, x)
    ensures Contains(s, x)
  {
    var i :| 0 <= i <= |s| - |t| && OccursAt(s, t, i);
    var j :| 0 <= j <= |t| - |x| && OccursAt(t, x, j);
    assert t == s[i..i + |t|];
    forall k | 0 <= k < |x|
      ensures s[i + j + k] == x[k]
    {
      assert x[k] == t[j + k] == s[i + j + k];
    }
    assert s[i + j..i + j + |x|] == x;
    ContainsAt(s, x, i + j);
  }

  // ---------------------------------------------------------------------
  // Stripping
  // ---------------------------------------------------------------------

  /** The end of the whitespace run that starts at `k`. */
  function SpaceEnd(s: string, k: nat): (j: nat)
    requires k <= |s|
    ensures k <= j <= |s| && SpacesIn(s, k, j)
    ensures j == |s| || !IsSpace(s[j])
    decreases |s| - k
  {
    if k < |s| && IsSpace(s[k]) then SpaceEnd(s, k + 1) else k
  }

  /** A whitespace run from `k` that stops at a non-space or the end is the
      one `SpaceEnd` finds. */
  lemma SpaceEndAt(s: string, k: nat, x: nat)
    requires k <= x <= |s| && SpacesIn(s, k, x) && (x == |s| || !IsSpace(s[x]))
    ensures SpaceEnd(s, k) == x
  {
  }

  /** The start of the whitespace run that ends at `j`. */
  function SpaceStart(s: string, j: nat): (k: nat)
    requires j <= |s|
    ensures k <= j && SpacesIn(s, k, j)
    ensures k == 0 || !IsSpace(s[k - 1])
  {
    if j > 0 && IsSpace(s[j - 1]) then SpaceStart(s, j - 1) else j
  }

  /** Python's `s.lstrip()`. */
  function LStrip(s: string): (r: string)
    ensures |r| <= |s| && r == s[|s| - |r|..]
    ensures SpacesIn(s, 0, |s| - |r|)
    ensures r == [] || !IsSpace(r[0])
  {
    s[SpaceEnd(s, 0)..]
  }

  /** Left-stripped text is a piece of the original with the same last
      character. */
  lemma LStripInside(s: string)
    ensures Contains(s, LStrip(s))
    ensures LStrip(s) != [] ==> LStrip(s)[|LStrip(s)| - 1] == s[|s| - 1]
  {
    ContainsAt(s, LStrip(s), |s| - |LStrip(s)|);
  }

  /** Python's `s.strip()`: `s` is `lead + r + trail` with `lead` and `trail`
      all whitespace and `r` neither starting nor ending with whitespace. */
  function Strip(s: string): (r: string)
    ensures r == [] || (!IsSpace(r[0]) && !IsSpace(r[|r| - 1]))
    ensures var lead := SpaceEnd(s, 0);
      && lead + |r| <= |s| && r == s[lead..lead + |r|]
      && SpacesIn(s, 0, lead) && SpacesIn(s, lead + |r|, |s|)
  {
    var lead := SpaceEnd(s, 0);
    if lead == |s| then [] else s[lead..SpaceStart(s, |s|)]
  }

  /** Stripping twice strips nothing more. */
  lemma StripIdempotent(s: string)
    ensures Strip(Strip(s)) == Strip(s)
  {
    var r := Strip(s);
    if r != [] {
      assert SpaceEnd(r, 0) == 0;
      assert SpaceStart(r, |r|) == |r|;
    }
  }

  /** The stripped text is a piece of the original. */
  lemma StripInside(s: string)
    ensures Contains(s, Strip(s))
  {
    ContainsAt(s, Strip(s), SpaceEnd(s, 0));
  }

  /** A character missing from a string is missing from its pieces. */
  lemma MissingFromPiece(s: string, sub: string, c: char)
    requires Contains(s, sub) && c !in s
    ensures c !in sub
  {
    var i :| 0 <= i <= |s| - |sub| && OccursAt(s, sub, i);
    assert sub == s[i..i + |sub|];
  }

  /** Text that neither begins nor ends with whitespace survives stripping. */
  lemma StripKeeps(s: string, sub: string)
    requires Contains(s, sub) && sub != [] && !IsSpace(sub[0]) && !IsSpace(sub[|sub| - 1])
    ensures Contains(Strip(s), sub)
  {
    var i :| 0 <= i <= |s| - |sub| && OccursAt(s, sub, i);
    StripKeepsAt(s, sub, i);
  }

  lemma StripKeepsAt(s: string, sub: string, i: nat)
    requires OccursAt(s, sub, i) && sub != [] && !IsSpace(sub[0]) && !IsSpace(sub[|sub| - 1])
    ensures Contains(Strip(s), sub)
  {
    var n := |sub|;
    var r := Strip(s);
    var lead := SpaceEnd(s, 0);
    assert SpacesIn(s, 0, lead) && SpacesIn(s, lead + |r|, |s|);
    assert !IsSpace(s[i]) && !IsSpace(s[i + n - 1]);
    assert lead <= i;
    assert i + n <= lead + |r|;
    assert r == s[lead..lead + |r|];
    assert forall q | 0 <= q < n :: r[i - lead + q] == s[i + q] == sub[q];
    assert r[i - lead..i - lead + n] == sub;
    ContainsAt(r, sub, i - lead);
  }

  /** A prefix is a piece of the whole. */
  lemma PrefixInside(s: string, n: nat)
    requires n <= |s|
    ensures Contains(s, s[..n])
  {
    ContainsAt(s, s[..n], 0);
  }

  // ---------------------------------------------------------------------
  // `s.split(sep)` and `sep.join(parts)` for a one-character separator
  // ---------------------------------------------------------------------

  /** Python's `sep.join(parts)`. */
  function JoinWith(parts: seq<string>, sep: char): string
  {
    if parts == [] then []
    else if |parts| == 1 then parts[0]
    else parts[0] + [sep] + JoinWith(parts[1..], sep)
  }

  /** Python's `s.split(sep)`: never empty, no piece holds `sep`, and joining
      the pieces with `sep` gives `s` back. */
  function Split(s: string, sep: char): (parts: seq<string>)
    ensures |parts| >= 1
    ensures forall k | 0 <= k < |parts| :: sep !in parts[k]
    ensures JoinWith(parts, sep) == s
    decreases |s|
  {
    match IndexOf(s, sep)
    case None => [s]
    case Some(i) =>
      var rest := Split(s[i + 1..], sep);
      assert s == s[..i] + [sep] + s[i + 1..];
      [s[..i]] + rest
  }

  /** Splitting undoes joining when no piece holds the separator. */
  lemma {:induction false} SplitJoin(parts: seq<string>, sep: char)
    requires |parts| >= 1
    requires forall k | 0 <= k < |parts| :: sep !in parts[k]
    ensures Split(JoinWith(parts, sep), sep) == parts
    decreases |parts|
  {
    if |parts| == 1 {
      assert IndexOf(parts[0], sep).None?;
    } else {
      var p, rest := parts[0], JoinWith(parts[1..], sep);
      var s := JoinWith(parts, sep);
      assert s == p + [sep] + rest;
      assert s[..|p|] == p && s[|p|] == sep && s[|p| + 1..] == rest;
      IndexOfAt(s, sep, |p|);
      SplitJoin(parts[1..], sep);
      HeadTail(parts);
    }
  }

  // ---------------------------------------------------------------------
  // `s.replace(target, replacement)`
  // ---------------------------------------------------------------------

  /** Python's `s.replace(target, replacement)` for a non-empty target:
      occurrences are found left to right and do not overlap. */
  function ReplaceAll(s: string, target: string, replacement: string): string
    requires target != []
    decreases |s|
  {
    if |s| < |target| then s
    else if s[..|target|] == target then replacement + ReplaceAll(s[|target|..], target, replacement)
    else [s[0]] + ReplaceAll(s[1..], target, replacement)
  }

  /** A string without the target is left as it is. */
  lemma {:induction false} ReplaceAbsent(s: string, target: string, replacement: string)
    requires target != []
    requires !Contains(s, target)
    ensures ReplaceAll(s, target, replacement) == s
    decreases |s|
  {
    if |s| >= |target| {
      assert !OccursAt(s, target, 0);
      if Contains(s[1..], target) {
        ContainsShift(s, target);
      }
      ReplaceAbsent(s[1..], target, replacement);
      assert s == [s[0]] + s[1..];
    }
  }

  /** Replacement works piece by piece around a character that the target
      does not contain: no occurrence can straddle that character. */
  lemma {:induction false} ReplaceAround(a: string, c: char, b: string, target: string, replacement: string)
    requires target != [] && c !in target
    ensures ReplaceAll(a + [c] + b, target, replacement)
         == ReplaceAll(a, target, replacement) + [c] + ReplaceAll(b, target, replacement)
    decreases |a|
  {
    var s := a + [c] + b;
    if |s| < |target| {
      assert ReplaceAll(a, target, replacement) == a;
      assert ReplaceAll(b, target, replacement) == b;
    } else if s[..|target|] == target {
      if |a| < |target| {
        NoStraddle(a, c, b, target);
        assert false;
      }
      assert a[..|target|] == target;
      assert s[|target|..] == a[|target|..] + [c] + b;
      ReplaceAround(a[|target|..], c, b, target, replacement);
    } else if a == [] {
      assert s == [c] + b;
      assert s[1..] == b;
    } else {
      assert s[0] == a[0] && s[1..] == a[1..] + [c] + b;
      ReplaceAround(a[1..], c, b, target, replacement);
      if |a| >= |target| {
        assert a[..|target|] == s[..|target|];
      } else {
        assert ReplaceAll(a, target, replacement) == a;
        assert ReplaceAll(a[1..], target, replacement) == a[1..];
        assert a == [a[0]] + a[1..];
      }
      assert ReplaceAll(a, target, replacement) == [a[0]] + ReplaceAll(a[1..], target, replacement);
      assert ReplaceAll(s, target, replacement) == [a[0]] + ReplaceAll(s[1..], target, replacement);
    }
  }

  lemma NoStraddle(a: string, c: char, b: string, target: string)
    requires c !in target && |a| < |target| <= |a| + 1 + |b|
    ensures (a + [c] + b)[..|target|] != target
  {
    assert (a + [c] + b)[..|target|][|a|] == c;
  }

  /** Replacement brings in no character that neither the text nor the
      replacement holds. */
  lemma {:induction false} ReplaceKeepsAbsent(s: string, target: string, replacement: string, c: char)
    requires target != [] && c !in s && c !in replacement
    ensures c !in ReplaceAll(s, target, replacement)
    decreases |s|
  {
    if |s| >= |target| {
      if s[..|target|] == target {
        ReplaceKeepsAbsent(s[|target|..], target, replacement, c);
      } else {
        ReplaceKeepsAbsent(s[1..], target, replacement, c);
      }
    }
  }

  /** Deleting a one-character target removes every copy of it. */
  lemma {:induction false} DeleteChar(s: string, c: char)
    ensures c !in ReplaceAll(s, [c], "")
    decreases |s|
  {
    if |s| >= 1 {
      DeleteChar(s[1..], c);
      if s[..1] != [c] {
        assert s[0] != c;
      }
    }
  }

  // ---------------------------------------------------------------------
  // `re.sub(r'\s+', ' ', s)`
  // ---------------------------------------------------------------------

  /** Every whitespace run in `s` replaced by one space. */
  function CollapseSpaces(s: string): (r: string)
    ensures s == [] <==> r == []
    ensures s != [] ==> r[0] == (if IsSpace(s[0]) then ' ' else s[0])
    ensures Collapsed(r)
    decreases |s|
  {
    if s == [] then []
    else if IsSpace(s[0]) then [' '] + CollapseSpaces(LStrip(s))
    else [s[0]] + CollapseSpaces(s[1..])
  }

  /** The only whitespace is the plain space, and never two in a row. */
  predicate Collapsed(r: string) {
    && (forall i | 0 <= i < |r| :: IsSpace(r[i]) ==> r[i] == ' ')
    && (forall i | 0 <= i < |r| - 1 :: !(r[i] == ' ' && r[i + 1] == ' '))
  }

  /** The characters of `s` that are not whitespace, in order. */
  function NonSpace(s: string): string
  {
    if s == [] then []
    else if IsSpace(s[0]) then NonSpace(s[1..])
    else [s[0]] + NonSpace(s[1..])
  }

  lemma {:induction false} NonSpaceLStrip(s: string)
    ensures NonSpace(LStrip(s)) == NonSpace(s)
    decreases |s|
  {
    if s != [] && IsSpace(s[0]) {
      NonSpaceLStrip(s[1..]);
    }
  }

  /** Collapsing keeps every visible character, in order. */
  lemma {:induction false} CollapseKeepsText(s: string)
    ensures NonSpace(CollapseSpaces(s)) == NonSpace(s)
    decreases |s|
  {
    if s != [] {
      if IsSpace(s[0]) {
        var t := LStrip(s);
        CollapseKeepsText(t);
        NonSpaceLStrip(s);
        assert NonSpace([' '] + CollapseSpaces(t)) == NonSpace(CollapseSpaces(t));
      } else {
        CollapseKeepsText(s[1..]);
        assert ([s[0]] + CollapseSpaces(s[1..]))[1..] == CollapseSpaces(s[1..]);
      }
    }
  }

  /** Collapsing an already collapsed string changes nothing. */
  lemma {:induction false} CollapseFixed(r: string)
    requires Collapsed(r)
    ensures CollapseSpaces(r) == r
    decreases |r|
  {
    if r != [] {
      assert Collapsed(r[1..]);
      if IsSpace(r[0]) {
        assert r[0] == ' ';
        assert |r| > 1 ==> !IsSpace(r[1]);
        assert LStrip(r) == r[1..];
      }
      CollapseFixed(r[1..]);
      assert r == [r[0]] + r[1..];
    }
  }

  /** Collapsing leaves text without whitespace unchanged. */
  lemma CollapseNoSpace(s: string)
    requires forall i | 0 <= i < |s| :: !IsSpace(s[i])
    ensures CollapseSpaces(s) == s
  {
    CollapseFixed(s);
  }

  /** Every whitespace run becomes one space: a run between two visible
      characters (or an end of the text) collapses to " ", and the text on
      either side collapses on its own. */
  lemma CollapseRun(a: string, w: string, b: string)
    requires a == [] || !IsSpace(a[|a| - 1])
    requires w != [] && SpacesIn(w, 0, |w|)
    requires b == [] || !IsSpace(b[0])
    ensures CollapseSpaces(a + w + b) == CollapseSpaces(a) + " " + CollapseSpaces(b)
  {
    var t := w + b;
    assert forall i | 0 <= i < |w| :: t[i] == w[i];
    SpaceEndAt(t, 0, |w|);
    assert t[|w|..] == b;
    assert t[0] == w[0];
    assert CollapseSpaces(t) == " " + CollapseSpaces(b);
    CollapseSplit(a, t);
    AppendAssoc(a, w, b);
    AppendAssoc(CollapseSpaces(a), " ", CollapseSpaces(b));
  }

  /** Collapsing splits at a boundary that follows a visible character. */
  lemma {:induction false} CollapseSplit(a: string, b: string)
    requires a == [] || !IsSpace(a[|a| - 1])
    ensures CollapseSpaces(a + b) == CollapseSpaces(a) + CollapseSpaces(b)
    decreases |a|
  {
    if a == [] {
      assert a + b == b;
    } else if IsSpace(a[0]) {
      var x := SpaceEnd(a, 0);
      var rest := a[x..];
      assert x < |a|;
      assert rest[|rest| - 1] == a[|a| - 1];
      SpaceEndAt(a + b, 0, x);
      assert (a + b)[x..] == rest + b;
      assert (a + b)[0] == a[0];
      CollapseSplit(rest, b);
      assert CollapseSpaces(a + b) == [' '] + CollapseSpaces(rest + b);
      assert CollapseSpaces(a) == [' '] + CollapseSpaces(rest);
      AppendAssoc([' '], CollapseSpaces(rest), CollapseSpaces(b));
    } else {
      var rest := a[1..];
      assert (a + b)[1..] == rest + b;
      assert (a + b)[0] == a[0];
      CollapseSplit(rest, b);
      assert CollapseSpaces(a + b) == [a[0]] + CollapseSpaces(rest + b);
      AppendAssoc([a[0]], CollapseSpaces(rest), CollapseSpaces(b));
    }
  }

  lemma HeadTail<T>(xs: seq<T>)
    requires xs != []
    ensures xs == [xs[0]] + xs[1..]
  {
  }

  lemma AppendAssoc<T>(x: seq<T>, y: seq<T>, z: seq<T>)
    ensures x + (y + z) == (x + y) + z
  {
  }

  /** Collapsing is idempotent. */
  lemma CollapseIdempotent(s: string)
    ensures CollapseSpaces(CollapseSpaces(s)) == CollapseSpaces(s)
  {
    CollapseFixed(CollapseSpaces(s));
  }

  // ---------------------------------------------------------------------
  // `int(s)` for a digit string and `str(n)` for a natural number
  // ---------------------------------------------------------------------

  function DigitValue(c: char): nat
    requires IsDigit(c)
  {
    c as int - '0' as int
  }

  function DigitChar(d: nat): (c: char)
    requires d < 10
    ensures IsDigit(c) && DigitValue(c) == d
  {
    ('0' as int + d) as char
  }

  /** Python's `int(s)` for a string of ASCII digits. */
  function DigitsValue(s: string): nat
    requires AllDigits(s)
    decreases |s|
  {
    if s == [] then 0 else 10 * DigitsValue(s[..|s| - 1]) + DigitValue(s[|s| - 1])
  }

  /** Python's `str(n)`: decimal digits with no leading zero. */
  function NatToString(n: nat): (r: string)
    ensures r != [] && AllDigits(r)
    ensures (r == "0") == (n == 0)
    ensures r[0] != '0' || r == "0"
  {
    if n < 10 then [DigitChar(n)]
    else NatToString(n / 10) + [DigitChar(n % 10)]
  }

  /** Reading back what `str` printed gives the number. */
  lemma {:induction false} ValueOfNatToString(n: nat)
    ensures DigitsValue(NatToString(n)) == n
  {
    if n >= 10 {
      ValueOfNatToString(n / 10);
      var s := NatToString(n);
      assert s[..|s| - 1] == NatToString(n / 10);
    }
  }

  lemma {:induction false} LeadingDigitPositive(s: string)
    requires s != [] && AllDigits(s) && s[0] != '0'
    ensures DigitsValue(s) > 0
    decreases |s|
  {
    if |s| > 1 {
      LeadingDigitPositive(s[..|s| - 1]);
    }
  }

  /** Printing a digit string without a leading zero gives the string back. */
  lemma {:induction false} NatToStringOfValue(s: string)
    requires s != [] && AllDigits(s) && (s[0] != '0' || |s| == 1)
    ensures NatToString(DigitsValue(s)) == s
    decreases |s|
  {
    if |s| > 1 {
      var p := s[..|s| - 1];
      LeadingDigitPositive(p);
      NatToStringOfValue(p);
      var n := DigitsValue(s);
      assert n / 10 == DigitsValue(p) && n % 10 == DigitValue(s[|s| - 1]);
      assert s == p + [s[|s| - 1]];
    }
  }

  // ---------------------------------------------------------------------
  // String comparison (`a < b` on Python strings: by code point)
  // ---------------------------------------------------------------------

  /** Python's `a < b` on strings. */
  predicate Less(a: string, b: string) {
    if b == [] then false
    else if a == [] then true
    else if a[0] != b[0] then a[0] < b[0]
    else Less(a[1..], b[1..])
  }

  lemma {:induction false} LessIrreflexive(a: string)
    ensures !Less(a, a)
    decreases |a|
  {
    if a != [] {
      LessIrreflexive(a[1..]);
    }
  }

  lemma {:induction false} LessTransitive(a: string, b: string, c: string)
    requires Less(a, b) && Less(b, c)
    ensures Less(a, c)
    decreases |a|
  {
    if a != [] && a[0] == b[0] && b[0] == c[0] {
      LessTransitive(a[1..], b[1..], c[1..]);
    }
  }

  /** Any two different strings are ordered one way or the other. */
  lemma {:induction false} LessTotal(a: string, b: string)
    ensures a == b || Less(a, b) || Less(b, a)
    decreases |a|
  {
    if a != [] && b != [] && a[0] == b[0] {
      LessTotal(a[1..], b[1..]);
      if a[1..] == b[1..] {
        assert a == [a[0]] + a[1..] && b == [b[0]] + b[1..];
      }
    }
  }

  // ---------------------------------------------------------------------
  // Comprehensions and rendering a list piece by piece
  // ---------------------------------------------------------------------

  /** `[f(x) for x in xs if keep(x)]`. */
  function FilterMap<T, U>(xs: seq<T>, keep: T -> bool, f: T -> U): (r: seq<U>)
    ensures |r| <= |xs|
  {
    if xs == [] then []
    else
      var front := FilterMap(xs[..|xs| - 1], keep, f);
      if keep(xs[|xs| - 1]) then front + [f(xs[|xs| - 1])] else front
  }

  /** Everything kept is the image of a kept element. */
  lemma {:induction false} FilterMapSound<T, U>(xs: seq<T>, keep: T -> bool, f: T -> U)
    ensures forall y | y in FilterMap(xs, keep, f) :: exists k | 0 <= k < |xs| :: keep(xs[k]) && y == f(xs[k])
    decreases |xs|
  {
    if xs != [] {
      var init := xs[..|xs| - 1];
      FilterMapSound(init, keep, f);
      forall y | y in FilterMap(xs, keep, f)
        ensures exists k | 0 <= k < |xs| :: keep(xs[k]) && y == f(xs[k])
      {
        if y in FilterMap(init, keep, f) {
          var k :| 0 <= k < |init| && keep(init[k]) && y == f(init[k]);
          assert xs[k] == init[k];
        } else {
          assert keep(xs[|xs| - 1]) && y == f(xs[|xs| - 1]);
        }
      }
    }
  }

  /** Every kept element's image is kept. */
  lemma {:induction false} FilterMapComplete<T, U>(xs: seq<T>, keep: T -> bool, f: T -> U, k: nat)
    requires k < |xs| && keep(xs[k])
    ensures f(xs[k]) in FilterMap(xs, keep, f)
    decreases |xs|
  {
    if k < |xs| - 1 {
      var init := xs[..|xs| - 1];
      assert init[k] == xs[k];
      FilterMapComplete(init, keep, f, k);
    }
  }

  /** One rendered piece per element, in order: a loop that appends
      `render(x)` for each `x` builds exactly this. */
  function ConcatMap<T>(xs: seq<T>, render: T -> string): string
  {
    if xs == [] then [] else ConcatMap(xs[..|xs| - 1], render) + render(xs[|xs| - 1])
  }

  /** Every element's rendering occurs in the rendering of the list. */
  lemma {:induction false} ConcatMapHolds<T>(xs: seq<T>, render: T -> string, k: nat)
    requires k < |xs|
    ensures Contains(ConcatMap(xs, render), render(xs[k]))
    decreases |xs|
  {
    var init := ConcatMap(xs[..|xs| - 1], render);
    if k == |xs| - 1 {
      ContainsMiddle(init, render(xs[k]), []);
      assert init + render(xs[k]) + [] == ConcatMap(xs, render);
    } else {
      ConcatMapHolds(xs[..|xs| - 1], render, k);
      ContainsMiddle([], init, render(xs[|xs| - 1]));
      assert [] + init + render(xs[|xs| - 1]) == ConcatMap(xs, render);
      ContainsTrans(ConcatMap(xs, render), init, render(xs[k]));
    }
  }

  /** A text holding a list's rendering holds each element's rendering. */
  lemma BlocksHold<T>(page: string, xs: seq<T>, render: T -> string)
    requires Contains(page, ConcatMap(xs, render))
    ensures forall k | 0 <= k < |xs| :: Contains(page, render(xs[k]))
  {
    forall k | 0 <= k < |xs| ensures Contains(page, render(xs[k])) {
      ConcatMapHolds(xs, render, k);
      ContainsTrans(page, ConcatMap(xs, render), render(xs[k]));
    }
  }

  /** The loop `for x in xs: out.append(f(x))` from an empty list: one
      result per element, in order. */
  method AppendEach<T, U>(xs: seq<T>, f: T -> U) returns (ys: seq<U>)
    ensures |ys| == |xs|
    ensures forall k | 0 <= k < |xs| :: ys[k] == f(xs[k])
  {
    ys := [];
    for k := 0 to |xs|
      invariant |ys| == k
      invariant forall q | 0 <= q < k :: ys[q] == f(xs[q])
    {
      ys := ys + [f(xs[k])];
    }
  }

  /** The loop `for x in xs: html += render(x)`. */
  method AppendBlocks<T>(html: string, xs: seq<T>, render: T -> string) returns (r: string)
    ensures r == html + ConcatMap(xs, render)
  {
    r := html;
    for k := 0 to |xs|
      invariant r == html + ConcatMap(xs[..k], render)
    {
      assert xs[..k + 1][..k] == xs[..k];
      r := r + render(xs[k]);
    }
    assert xs[..|xs|] == xs;
  }
}
