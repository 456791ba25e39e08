/**
 * The inline title formatter of src/components/formatText.ts: an HTML escape
 * made of five single-character replacements, then six global regular
 * expression replacements that turn `**x**`, `__x__`, `*x*`, `_x_`, `~~x~~`
 * and a backtick-quoted x into `strong`, `em`, `del` and `code` elements.
 *
 * Each regular expression is written out as a matcher with the semantics of
 * a JavaScript global replace: the search goes left to right, takes the
 * leftmost position where the expression matches, there takes the shortest
 * content the lazy `+?` allows, and resumes after the end of the match.
 * Lookbehind and lookahead look at the string the replacement runs on.
 */
module FormatText {
  import opened Wrappers

  // ---------------------------------------------------------------- escape

  /** `s.replace(/c/g, rep)`: every occurrence of c replaced by rep. */
  function ReplaceAll(s: string, c: char, rep: string): (r: string)
  {
    if s == [] then []
    else (if s[0] == c then rep else [s[0]]) + ReplaceAll(s[1..], c, rep)
  }

  /** Replacing distributes over concatenation. */
  lemma {:induction false} ReplaceAllAppend(a: string, b: string, c: char, rep: string)
    ensures ReplaceAll(a + b, c, rep) == ReplaceAll(a, c, rep) + ReplaceAll(b, c, rep)
  {
    if a == [] {
      assert a + b == b;
    } else {
      assert (a + b)[1..] == a[1..] + b;
      ReplaceAllAppend(a[1..], b, c, rep);
    }
  }

  /** A string without c is left as it is. */
  lemma {:induction false} ReplaceAllAbsent(s: string, c: char, rep: string)
    requires c !in s
    ensures ReplaceAll(s, c, rep) == s
  {
    if s != [] {
      ReplaceAllAbsent(s[1..], c, rep);
    }
  }

  /** The escape step: `&` first, then `<`, `>`, `"` and `'`. */
  function Escape(s: string): string {
    var amp := ReplaceAll(s, '&', "&amp;");
    var lt := ReplaceAll(amp, '<', "&lt;");
    var gt := ReplaceAll(lt, '>', "&gt;");
    var quot := ReplaceAll(gt, '"', "&quot;");
    ReplaceAll(quot, '\'', "&#039;")
  }

  /** The entity one character escapes to. */
  function EscapeChar(c: char): (r: string)
    ensures c !in "&<>\"'" ==> r == [c]
    ensures '<' !in r && '>' !in r && '"' !in r && '\'' !in r
  {
    match c
    case '&' => "&amp;"
    case '<' => "&lt;"
    case '>' => "&gt;"
    case '"' => "&quot;"
    case '\'' => "&#039;"
    case _ => [c]
  }

  /** Escaping one character at a time. */
  function EscapeEach(s: string): (r: string)
    ensures '<' !in r && '>' !in r && '"' !in r && '\'' !in r
  {
    if s == [] then [] else EscapeChar(s[0]) + EscapeEach(s[1..])
  }

  /** Escaping distributes over concatenation. */
  lemma EscapeAppend(a: string, b: string)
    ensures Escape(a + b) == Escape(a) + Escape(b)
  {
    var amp := ReplaceAll(a, '&', "&amp;");
    var ampB := ReplaceAll(b, '&', "&amp;");
    ReplaceAllAppend(a, b, '&', "&amp;");
    var lt := ReplaceAll(amp, '<', "&lt;");
    var ltB := ReplaceAll(ampB, '<', "&lt;");
    ReplaceAllAppend(amp, ampB, '<', "&lt;");
    var gt := ReplaceAll(lt, '>', "&gt;");
    var gtB := ReplaceAll(ltB, '>', "&gt;");
    ReplaceAllAppend(lt, ltB, '>', "&gt;");
    var quot := ReplaceAll(gt, '"', "&quot;");
    var quotB := ReplaceAll(gtB, '"', "&quot;");
    ReplaceAllAppend(gt, gtB, '"', "&quot;");
    ReplaceAllAppend(quot, quotB, '\'', "&#039;");
  }

  /** Replacing in a one-character string. */
  lemma ReplaceAllOne(c: char, x: char, rep: string)
    ensures ReplaceAll([c], x, rep) == if c == x then rep else [c]
  {
    assert [c][1..] == [];
  }

  /** Escaping a character that none of the five passes touches. */
  lemma EscapeOther(c: char)
    requires c !in "&<>\"'"
    ensures Escape([c]) == [c]
  {
    var amp := ReplaceAll([c], '&', "&amp;");
    ReplaceAllOne(c, '&', "&amp;");
    assert amp == [c];
    var lt := ReplaceAll(amp, '<', "&lt;");
    ReplaceAllOne(c, '<', "&lt;");
    assert lt == [c];
    var gt := ReplaceAll(lt, '>', "&gt;");
    ReplaceAllOne(c, '>', "&gt;");
    assert gt == [c];
    var quot := ReplaceAll(gt, '"', "&quot;");
    ReplaceAllOne(c, '"', "&quot;");
    assert quot == [c];
    var apos := ReplaceAll(quot, '\'', "&#039;");
    ReplaceAllOne(c, '\'', "&#039;");
    assert apos == [c];
  }

  /** Escaping '&': its entity holds none of the characters later passes replace. */
  lemma EscapeAmp(c: char)
    requires c == '&'
    ensures Escape([c]) == "&amp;"
  {
    var e := EscapeChar(c);
    var amp := ReplaceAll([c], '&', "&amp;");
    ReplaceAllOne(c, '&', "&amp;");
    assert amp == e;
    ReplaceAllAbsent(e, '<', "&lt;");
    ReplaceAllAbsent(e, '>', "&gt;");
    ReplaceAllAbsent(e, '"', "&quot;");
    ReplaceAllAbsent(e, '\'', "&#039;");
  }

  /** Escaping '<': its entity holds none of the characters later passes replace. */
  lemma EscapeLt(c: char)
    requires c == '<'
    ensures Escape([c]) == "&lt;"
  {
    var amp := ReplaceAll([c], '&', "&amp;");
    ReplaceAllOne(c, '&', "&amp;");
    assert amp == [c];
    var lt := ReplaceAll(amp, '<', "&lt;");
    ReplaceAllOne(c, '<', "&lt;");
    assert lt == "&lt;";
    var gt := ReplaceAll(lt, '>', "&gt;");
    ReplaceAllAbsent(lt, '>', "&gt;");
    assert gt == "&lt;";
    var quot := ReplaceAll(gt, '"', "&quot;");
    ReplaceAllAbsent(gt, '"', "&quot;");
    assert quot == "&lt;";
    var apos := ReplaceAll(quot, '\'', "&#039;");
    ReplaceAllAbsent(quot, '\'', "&#039;");
    assert apos == "&lt;";
  }

  /** Escaping '>': its entity holds none of the characters later passes replace. */
  lemma EscapeGt(c: char)
    requires c == '>'
    ensures Escape([c]) == "&gt;"
  {
    var amp := ReplaceAll([c], '&', "&amp;");
    ReplaceAllOne(c, '&', "&amp;");
    assert amp == [c];
    var lt := ReplaceAll(amp, '<', "&lt;");
    ReplaceAllOne(c, '<', "&lt;");
    assert lt == [c];
    var gt := ReplaceAll(lt, '>', "&gt;");
    ReplaceAllOne(c, '>', "&gt;");
    assert gt == "&gt;";
    var quot := ReplaceAll(gt, '"', "&quot;");
    ReplaceAllAbsent(gt, '"', "&quot;");
    assert quot == "&gt;";
    var apos := ReplaceAll(quot, '\'', "&#039;");
    ReplaceAllAbsent(quot, '\'', "&#039;");
    assert apos == "&gt;";
  }

  /** Escaping '"': its entity holds none of the characters later passes replace. */
  lemma EscapeQuot(c: char)
    requires c == '"'
    ensures Escape([c]) == "&quot;"
  {
    var amp := ReplaceAll([c], '&', "&amp;");
    ReplaceAllOne(c, '&', "&amp;");
    assert amp == [c];
    var lt := ReplaceAll(amp, '<', "&lt;");
    ReplaceAllOne(c, '<', "&lt;");
    assert lt == [c];
    var gt := ReplaceAll(lt, '>', "&gt;");
    ReplaceAllOne(c, '>', "&gt;");
    assert gt == [c];
    var quot := ReplaceAll(gt, '"', "&quot;");
    ReplaceAllOne(c, '"', "&quot;");
    assert quot == "&quot;";
    var apos := ReplaceAll(quot, '\'', "&#039;");
    ReplaceAllAbsent(quot, '\'', "&#039;");
    assert apos == "&quot;";
  }

  /** Escaping '\'': its entity holds none of the characters later passes replace. */
  lemma EscapeApos(c: char)
    requires c == '\''
    ensures Escape([c]) == "&#039;"
  {
    var amp := ReplaceAll([c], '&', "&amp;");
    ReplaceAllOne(c, '&', "&amp;");
    assert amp == [c];
    var lt := ReplaceAll(amp, '<', "&lt;");
    ReplaceAllOne(c, '<', "&lt;");
    assert lt == [c];
    var gt := ReplaceAll(lt, '>', "&gt;");
    ReplaceAllOne(c, '>', "&gt;");
    assert gt == [c];
    var quot := ReplaceAll(gt, '"', "&quot;");
    ReplaceAllOne(c, '"', "&quot;");
    assert quot == [c];
    var apos := ReplaceAll(quot, '\'', "&#039;");
    ReplaceAllOne(c, '\'', "&#039;");
    assert apos == "&#039;";
  }

  /** On one character the five passes give that character's entity:
      nothing is escaped twice. */
  lemma EscapeOne(c: char)
    ensures Escape([c]) == EscapeChar(c)
  {
    if c == '&' { EscapeAmp(c); }
    else if c == '<' { EscapeLt(c); }
    else if c == '>' { EscapeGt(c); }
    else if c == '"' { EscapeQuot(c); }
    else if c == '\'' { EscapeApos(c); }
    else { EscapeOther(c); }
  }

  /** The five sequential passes escape character by character. */
  lemma {:induction false} EscapeIsPerChar(s: string)
    ensures Escape(s) == EscapeEach(s)
  {
    if s != [] {
      assert s == [s[0]] + s[1..];
      EscapeAppend([s[0]], s[1..]);
      EscapeOne(s[0]);
      EscapeIsPerChar(s[1..]);
    }
  }

  // ------------------------------------------------------- markdown passes

  /** The characters JavaScript's `.` does not match. */
  predicate LineTerminator(c: char) {
    c == '\n' || c == '\r' || c == '\U{2028}' || c == '\U{2029}'
  }

  /** What the captured content may consist of: `.` or `[^c]`. */
  datatype Content = AnyButLineTerminator | AllBut(excluded: char)

  predicate InClass(c: char, content: Content) {
    match content
    case AnyButLineTerminator => !LineTerminator(c)
    case AllBut(x) => c != x
  }

  /** One replacement: a delimiter of one or two `mark` characters on both
      sides of a non-empty content; with `guarded`, a lookbehind before the
      opening delimiter and a lookahead after the closing one that both
      reject `mark`. The match is replaced by the content wrapped in a `tag`
      element. */
  datatype Pattern = Pattern(mark: char, doubled: bool, content: Content, guarded: bool, tag: string)

  // The expression /\*\*(.+?)\*\*/g
  const Strong1 := Pattern('*', true, AnyButLineTerminator, false, "strong")
  // The expression /__(.+?)__/g
  const Strong2 := Pattern('_', true, AnyButLineTerminator, false, "strong")
  // The expression /(?<!\*)\*([^*]+?)\*(?!\*)/g
  const Em1 := Pattern('*', false, AllBut('*'), true, "em")
  // The expression /(?<!_)_([^_]+?)_(?!_)/g
  const Em2 := Pattern('_', false, AllBut('_'), true, "em")
  // The expression /~~(.+?)~~/g
  const Del := Pattern('~', true, AnyButLineTerminator, false, "del")
  // The code-span expression: a backtick, [^`]+? captured, a backtick
  const Code := Pattern('`', false, AllBut('`'), false, "code")

  /** The delimiter's length. */
  function Width(pat: Pattern): nat {
    if pat.doubled then 2 else 1
  }

  /** The delimiter itself. */
  function Delim(pat: Pattern): (r: string)
    ensures |r| == Width(pat) && forall j :: 0 <= j < |r| ==> r[j] == pat.mark
  {
    if pat.doubled then [pat.mark, pat.mark] else [pat.mark]
  }

  function OpenTag(tag: string): string { "<" + tag + ">" }
  function CloseTag(tag: string): string { "</" + tag + ">" }

  /** The delimiter occurs at q. */
  predicate DelimAt(s: string, q: nat, pat: Pattern) {
    q + Width(pat) <= |s| && s[q] == pat.mark && (pat.doubled ==> s[q + 1] == pat.mark)
  }

  /** The opening delimiter and the lookbehind match at p. */
  predicate OpensAt(s: string, p: nat, pat: Pattern) {
    DelimAt(s, p, pat) && (pat.guarded && p > 0 ==> s[p - 1] != pat.mark)
  }

  /** The closing delimiter and the lookahead match at q. */
  predicate ClosesAt(s: string, q: nat, pat: Pattern) {
    DelimAt(s, q, pat) && (pat.guarded && q + Width(pat) < |s| ==> s[q + Width(pat)] != pat.mark)
  }

  /** The k characters from `from` on all belong to the content class. */
  predicate ContentIn(s: string, from: nat, k: nat, content: Content)
    requires from + k <= |s|
  {
    forall j :: from <= j < from + k ==> InClass(s[j], content)
  }

  /** The regular expression matches at p with a content of k characters. */
  predicate MatchesWith(s: string, p: nat, k: nat, pat: Pattern) {
    && OpensAt(s, p, pat)
    && k >= 1
    && p + Width(pat) + k <= |s|
    && ContentIn(s, p + Width(pat), k, pat.content)
    && ClosesAt(s, p + Width(pat) + k, pat)
  }

  /** The lazy quantifier at p: the length of the shortest content with
      which the expression matches there, if any. */
  function MatchAt(s: string, p: nat, pat: Pattern): (r: Option<nat>)
    ensures r.Some? ==> MatchesWith(s, p, r.value, pat)
    ensures r.Some? ==> forall k :: 1 <= k < r.value ==> !MatchesWith(s, p, k, pat)
    ensures r.None? ==> forall k :: !MatchesWith(s, p, k, pat)
  {
    if OpensAt(s, p, pat) then Lazy(s, p, 1, pat) else None
  }

  /** Tries contents of k, k + 1, ... characters after the opening delimiter
      at p, given that the shorter ones failed. */
  function Lazy(s: string, p: nat, k: nat, pat: Pattern): (r: Option<nat>)
    requires OpensAt(s, p, pat)
    requires 1 <= k && p + Width(pat) + k - 1 <= |s|
    requires ContentIn(s, p + Width(pat), k - 1, pat.content)
    requires forall j :: 1 <= j < k ==> !MatchesWith(s, p, j, pat)
    ensures r.Some? ==> MatchesWith(s, p, r.value, pat)
    ensures r.Some? ==> forall j :: 1 <= j < r.value ==> !MatchesWith(s, p, j, pat)
    ensures r.None? ==> forall j :: !MatchesWith(s, p, j, pat)
    decreases |s| - k
  {
    var from := p + Width(pat);
    if from + k > |s| then None
    else if !InClass(s[from + k - 1], pat.content) then
      assert forall j :: j >= k && from + j <= |s| ==> !ContentIn(s, from, j, pat.content);
      None
    else if ClosesAt(s, from + k, pat) then Some(k)
    else Lazy(s, p, k + 1, pat)
  }

  /** The global replace from position i on. */
  function Scan(s: string, pat: Pattern, i: nat): (r: string)
    requires i <= |s|
    decreases |s| - i
  {
    if i == |s| then []
    else
      var m := MatchAt(s, i, pat);
      if m.Some? then
        var from := i + Width(pat);
        OpenTag(pat.tag) + s[from..from + m.value] + CloseTag(pat.tag) + Scan(s, pat, from + m.value + Width(pat))
      else [s[i]] + Scan(s, pat, i + 1)
  }

  /** `s.replace(regex, "<tag>$1</tag>")`. */
  function Pass(s: string, pat: Pattern): string {
    Scan(s, pat, 0)
  }

  /** The six replacements, in the order formatText applies them. */
  const Passes: seq<Pattern> := [Strong1, Strong2, Em1, Em2, Del, Code]

  /** The replacements from the i-th on. */
  function Apply(t: string, i: nat): string
    requires i <= |Passes|
    decreases |Passes| - i
  {
    if i == |Passes| then t else Apply(Pass(t, Passes[i]), i + 1)
  }

  /** formatText: escape, then the six replacements. */
  function Format(title: string): string {
    Apply(Escape(title), 0)
  }

  // ------------------------------------------------------------ properties

  /** Across positions where the expression cannot open, a pass copies
      its input. */
  lemma {:induction false} ScanSkips(s: string, pat: Pattern, i: nat, j: nat)
    requires i <= j <= |s|
    requires forall p :: i <= p < j ==> !OpensAt(s, p, pat)
    ensures Scan(s, pat, i) == s[i..j] + Scan(s, pat, j)
    decreases j - i
  {
    if i < j {
      ScanSkips(s, pat, i + 1, j);
      assert s[i..j] == [s[i]] + s[i + 1..j];
    }
  }

  /** A pass leaves a string without its delimiter character unchanged. */
  lemma PassWithoutDelimiter(s: string, pat: Pattern)
    requires pat.mark !in s
    ensures Pass(s, pat) == s
  {
    ScanSkips(s, pat, 0, |s|);
    assert s[0..|s|] == s;
  }

  /** A pass whose delimiter is a doubled character leaves a string without
      two such characters in a row unchanged. */
  lemma PassWithoutDoubled(s: string, pat: Pattern)
    requires pat.doubled
    requires forall p :: 0 <= p < |s| - 1 ==> !(s[p] == pat.mark && s[p + 1] == pat.mark)
    ensures Pass(s, pat) == s
  {
    ScanSkips(s, pat, 0, |s|);
    assert s[0..|s|] == s;
  }

  /** A pass outputs a character only if it is in its input or in the tags
      it inserts. */
  lemma {:induction false} ScanKeepsOut(s: string, pat: Pattern, i: nat, c: char)
    requires i <= |s| && c !in s[i..]
    requires c !in OpenTag(pat.tag) && c !in CloseTag(pat.tag)
    ensures c !in Scan(s, pat, i)
    decreases |s| - i
  {
    if i < |s| {
      var next := Next(s, pat, i);
      OutOfSuffix(s, i, next, c);
      ScanKeepsOut(s, pat, next, c);
      StepKeepsOut(s, pat, i, c);
    }
  }

  /** Where the pass resumes after the position i. */
  function Next(s: string, pat: Pattern, i: nat): (r: nat)
    requires i < |s|
    ensures i < r <= |s|
  {
    var m := MatchAt(s, i, pat);
    if m.Some? then i + Width(pat) + m.value + Width(pat) else i + 1
  }

  /** One step of a pass outputs a character only if it is in the input
      or in the tags, given that the rest of the pass does not. */
  lemma StepKeepsOut(s: string, pat: Pattern, i: nat, c: char)
    requires i < |s| && c !in s[i..]
    requires c !in OpenTag(pat.tag) && c !in CloseTag(pat.tag)
    requires c !in Scan(s, pat, Next(s, pat, i))
    ensures c !in Scan(s, pat, i)
  {
    if MatchAt(s, i, pat).Some? {
      var from := i + Width(pat);
      var k := MatchAt(s, i, pat).value;
      ScanAtMatch(s, pat, i);
      OutOfSlice(s, i, from, from + k, c);
      OutOfJoin(OpenTag(pat.tag), s[from..from + k], CloseTag(pat.tag), Scan(s, pat, Next(s, pat, i)), c);
    } else {
      ScanCopies(s, pat, i);
      assert s[i..][0] == s[i];
      OutOfJoin([], [], [s[i]], Scan(s, pat, i + 1), c);
    }
  }

  /** A character missing from four strings is missing from their join. */
  lemma OutOfJoin(a: string, b: string, d: string, e: string, c: char)
    requires c !in a && c !in b && c !in d && c !in e
    ensures c !in a + b + d + e
  {
  }

  /** A character missing from a suffix is missing from every later one. */
  lemma OutOfSuffix(s: string, i: nat, j: nat, c: char)
    requires i <= j <= |s| && c !in s[i..]
    ensures c !in s[j..]
  {
    forall p | j <= p < |s|
      ensures s[p] != c
    {
      assert s[i..][p - i] == s[p];
    }
  }

  /** A character missing from a suffix is missing from its slices. */
  lemma OutOfSlice(s: string, i: nat, lo: nat, hi: nat, c: char)
    requires i <= lo <= hi <= |s| && c !in s[i..]
    ensures c !in s[lo..hi]
  {
    forall p | lo <= p < hi
      ensures s[p] != c
    {
      assert s[i..][p - i] == s[p];
    }
  }

  /** Where the expression does not match, a pass copies one character. */
  lemma ScanCopies(s: string, pat: Pattern, i: nat)
    requires i < |s| && MatchAt(s, i, pat).None?
    ensures Scan(s, pat, i) == [s[i]] + Scan(s, pat, i + 1)
  {
  }

  /** Where the expression opens, a content without the mark that the
      delimiter closes is the lazy match. */
  lemma MatchesExactly(s: string, pat: Pattern, m: nat, k: nat)
    requires k >= 1 && OpensAt(s, m, pat) && m + Width(pat) + k <= |s|
    requires forall j :: m + Width(pat) <= j < m + Width(pat) + k ==>
               InClass(s[j], pat.content) && s[j] != pat.mark
    requires ClosesAt(s, m + Width(pat) + k, pat)
    ensures MatchAt(s, m, pat).Some? && MatchAt(s, m, pat).value == k
  {
    assert MatchesWith(s, m, k, pat);
    forall i | 1 <= i < k
      ensures !MatchesWith(s, m, i, pat)
    {
      assert s[m + Width(pat) + i] != pat.mark;
    }
  }

  /** Where the expression matches at i, a pass outputs the wrapped
      content and continues after the match. */
  lemma ScanAtMatch(s: string, pat: Pattern, i: nat)
    requires i < |s| && MatchAt(s, i, pat).Some?
    ensures i + Width(pat) + MatchAt(s, i, pat).value + Width(pat) <= |s|
    ensures Scan(s, pat, i) == OpenTag(pat.tag) + s[i + Width(pat)..i + Width(pat) + MatchAt(s, i, pat).value]
                               + CloseTag(pat.tag) + Scan(s, pat, i + Width(pat) + MatchAt(s, i, pat).value + Width(pat))
  {
  }

  /** A string whose only occurrences of the mark are one delimiter at m
      and one right after k content characters: the pass wraps the content
      and copies the rest. */
  lemma WrapsAt(s: string, pat: Pattern, m: nat, k: nat)
    requires k >= 1 && m + Width(pat) + k + Width(pat) <= |s|
    requires forall p :: 0 <= p < m ==> s[p] != pat.mark
    requires DelimAt(s, m, pat)
    requires forall j :: m + Width(pat) <= j < m + Width(pat) + k ==>
               InClass(s[j], pat.content) && s[j] != pat.mark
    requires DelimAt(s, m + Width(pat) + k, pat)
    requires forall p :: m + Width(pat) + k + Width(pat) <= p < |s| ==> s[p] != pat.mark
    ensures Pass(s, pat) == s[..m] + OpenTag(pat.tag) + s[m + Width(pat)..m + Width(pat) + k] + CloseTag(pat.tag)
                            + s[m + Width(pat) + k + Width(pat)..]
  {
    var e := m + Width(pat) + k + Width(pat);
    var wrapped := OpenTag(pat.tag) + s[m + Width(pat)..m + Width(pat) + k] + CloseTag(pat.tag);
    SkipsPrefix(s, pat, m);
    WrapsThenCopies(s, pat, m, k);
    Associates(s[..m], wrapped, s[e..]);
  }

  /** The match at m and a copy of the rest. */
  lemma WrapsThenCopies(s: string, pat: Pattern, m: nat, k: nat)
    requires k >= 1 && m + Width(pat) + k + Width(pat) <= |s|
    requires m > 0 ==> s[m - 1] != pat.mark
    requires DelimAt(s, m, pat)
    requires forall j :: m + Width(pat) <= j < m + Width(pat) + k ==>
               InClass(s[j], pat.content) && s[j] != pat.mark
    requires DelimAt(s, m + Width(pat) + k, pat)
    requires forall p :: m + Width(pat) + k + Width(pat) <= p < |s| ==> s[p] != pat.mark
    ensures Scan(s, pat, m) == OpenTag(pat.tag) + s[m + Width(pat)..m + Width(pat) + k] + CloseTag(pat.tag)
                               + s[m + Width(pat) + k + Width(pat)..]
  {
    WrapsMatch(s, pat, m, k);
    SkipsSuffix(s, pat, m + Width(pat) + k + Width(pat));
  }

  /** Before the first mark a pass copies its input. */
  lemma SkipsPrefix(s: string, pat: Pattern, m: nat)
    requires m <= |s| && forall p :: 0 <= p < m ==> s[p] != pat.mark
    ensures Pass(s, pat) == s[..m] + Scan(s, pat, m)
  {
    ScanSkips(s, pat, 0, m);
    assert s[0..m] == s[..m];
  }

  /** After the last mark a pass copies its input. */
  lemma SkipsSuffix(s: string, pat: Pattern, e: nat)
    requires e <= |s| && forall p :: e <= p < |s| ==> s[p] != pat.mark
    ensures Scan(s, pat, e) == s[e..]
  {
    ScanSkips(s, pat, e, |s|);
    assert Scan(s, pat, |s|) == [];
    assert s[e..|s|] == s[e..];
  }

  /** At an opening delimiter followed by k content characters without the
      mark and a closing delimiter, a pass wraps the content. */
  lemma WrapsMatch(s: string, pat: Pattern, m: nat, k: nat)
    requires k >= 1 && m + Width(pat) + k + Width(pat) <= |s|
    requires OpensAt(s, m, pat)
    requires forall j :: m + Width(pat) <= j < m + Width(pat) + k ==>
               InClass(s[j], pat.content) && s[j] != pat.mark
    requires ClosesAt(s, m + Width(pat) + k, pat)
    ensures Scan(s, pat, m) == OpenTag(pat.tag) + s[m + Width(pat)..m + Width(pat) + k] + CloseTag(pat.tag)
                               + Scan(s, pat, m + Width(pat) + k + Width(pat))
  {
    MatchesExactly(s, pat, m, k);
    ScanAtLength(s, pat, m, k);
  }

  /** ScanAtMatch, for a match of known length. */
  lemma ScanAtLength(s: string, pat: Pattern, i: nat, k: nat)
    requires i < |s| && MatchAt(s, i, pat).Some? && MatchAt(s, i, pat).value == k
    ensures i + Width(pat) + k + Width(pat) <= |s|
    ensures Scan(s, pat, i) == OpenTag(pat.tag) + s[i + Width(pat)..i + Width(pat) + k]
                               + CloseTag(pat.tag) + Scan(s, pat, i + Width(pat) + k + Width(pat))
  {
    ScanAtMatch(s, pat, i);
  }

  /** Concatenation is associative. */
  lemma Associates(a: string, w: string, b: string)
    ensures a + (w + b) == a + w + b
  {
  }

  /** Where the parts of a + delimiter + x + delimiter + b lie. */
  lemma Layout(pat: Pattern, a: string, x: string, b: string)
    requires forall j :: 0 <= j < |x| ==> InClass(x[j], pat.content) && x[j] != pat.mark
    requires pat.mark !in a && pat.mark !in b
    ensures var s := a + Delim(pat) + x + Delim(pat) + b;
      var m := |a|;
      var e := m + Width(pat) + |x| + Width(pat);
      && |s| == e + |b|
      && (forall p :: 0 <= p < m ==> s[p] != pat.mark)
      && DelimAt(s, m, pat)
      && (forall j :: m + Width(pat) <= j < m + Width(pat) + |x| ==> InClass(s[j], pat.content) && s[j] != pat.mark)
      && DelimAt(s, m + Width(pat) + |x|, pat)
      && (forall p :: e <= p < |s| ==> s[p] != pat.mark)
      && s[..m] == a && s[m + Width(pat)..m + Width(pat) + |x|] == x && s[e..] == b
  {
    var d := Delim(pat);
    var n := |d|;
    var m := |a|;
    var e := m + n + |x| + n;
    var pre := a + d + x + d;
    var s := pre + b;
    assert |pre| == e && s[..e] == pre && s[e..] == b;
    assert pre[..m] == a && pre[m + n..m + n + |x|] == x;
    assert s[..m] == pre[..m] && s[m + n..m + n + |x|] == pre[m + n..m + n + |x|];
    assert forall p :: 0 <= p < m ==> s[p] == a[p];
    assert forall j :: m <= j < m + n ==> s[j] == d[j - m];
    assert forall j :: m + n <= j < m + n + |x| ==> s[j] == x[j - m - n];
    assert forall j :: m + n + |x| <= j < e ==> s[j] == d[j - m - n - |x|];
    assert forall p :: e <= p < |s| ==> s[p] == b[p - e];
  }

  /** Between text without the mark, a delimited content without it either
      is wrapped in the pass's element and nothing else changes. */
  lemma WrapsIn(pat: Pattern, a: string, x: string, b: string)
    requires x != []
    requires forall j :: 0 <= j < |x| ==> InClass(x[j], pat.content) && x[j] != pat.mark
    requires pat.mark !in a && pat.mark !in b
    ensures Pass(a + Delim(pat) + x + Delim(pat) + b, pat) == a + OpenTag(pat.tag) + x + CloseTag(pat.tag) + b
  {
    Layout(pat, a, x, b);
    WrapsAt(a + Delim(pat) + x + Delim(pat) + b, pat, |a|, |x|);
  }

  /** No character the escape step replaces. */
  predicate Inert(t: string) {
    '&' !in t && '<' !in t && '>' !in t && '"' !in t && '\'' !in t
  }

  /** No character formatText treats specially. */
  predicate Plain(t: string) {
    Inert(t) && '*' !in t && '_' !in t && '~' !in t && '`' !in t
  }

  /** No character JavaScript's `.` rejects. */
  predicate SingleLine(t: string) {
    forall j :: 0 <= j < |t| ==> !LineTerminator(t[j])
  }

  /** The escape step leaves a string without `& < > " '` as it is. */
  lemma EscapeInert(t: string)
    requires Inert(t)
    ensures Escape(t) == t
  {
    ReplaceAllAbsent(t, '&', "&amp;");
    ReplaceAllAbsent(t, '<', "&lt;");
    ReplaceAllAbsent(t, '>', "&gt;");
    ReplaceAllAbsent(t, '"', "&quot;");
    ReplaceAllAbsent(t, '\'', "&#039;");
  }

  /** The delimiter characters of the six replacements. */
  lemma MarksOfPasses()
    ensures forall j :: 0 <= j < |Passes| ==> Passes[j].mark in "*_~`"
  {
    forall j | 0 <= j < |Passes|
      ensures Passes[j].mark in "*_~`"
    {
      assert j in {0, 1, 2, 3, 4, 5};
    }
  }

  /** The replacements from the i-th on leave text without their delimiter
      characters unchanged. */
  lemma {:induction false} ApplyIdle(t: string, i: nat)
    requires i <= |Passes|
    requires forall j :: i <= j < |Passes| ==> Passes[j].mark !in t
    ensures Apply(t, i) == t
    decreases |Passes| - i
  {
    if i < |Passes| {
      PassWithoutDelimiter(t, Passes[i]);
      ApplyIdle(t, i + 1);
    }
  }

  /** A title without any of `& < > " ' * _ ~` and the backtick comes back
      unchanged. */
  lemma PlainUnchanged(t: string)
    requires Plain(t)
    ensures Format(t) == t
  {
    EscapeInert(t);
    MarksOfPasses();
    ApplyIdle(t, 0);
  }

  /** A character that is neither in the input nor in the pass's tags is
      not in its output. */
  lemma PassKeepsOut(s: string, pat: Pattern, c: char)
    requires c !in s && c !in OpenTag(pat.tag) && c !in CloseTag(pat.tag)
    ensures c !in Pass(s, pat)
  {
    assert s[0..] == s;
    ScanKeepsOut(s, pat, 0, c);
  }

  /** c occurs in none of the elements the replacements insert. */
  predicate OutsideTags(c: char) {
    forall j :: 0 <= j < |Passes| ==> c !in OpenTag(Passes[j].tag) && c !in CloseTag(Passes[j].tag)
  }

  /** The inserted elements hold no quote and none of the delimiter
      characters, so a later pass never sees a delimiter an earlier one
      produced. */
  lemma TagsHoldNoSpecials(c: char)
    requires c in "\"'*_~`"
    ensures OutsideTags(c)
  {
    forall j | 0 <= j < |Passes|
      ensures c !in OpenTag(Passes[j].tag) && c !in CloseTag(Passes[j].tag)
    {
      var tag := Passes[j].tag;
      TagsAreWords(j);
      assert c !in tag;
      assert OpenTag(tag) == ['<'] + tag + ['>'];
      assert CloseTag(tag) == ['<', '/'] + tag + ['>'];
    }
  }

  /** Every tag name is made of lower-case letters. */
  lemma TagsAreWords(j: nat)
    requires j < |Passes|
    ensures forall i :: 0 <= i < |Passes[j].tag| ==> 'a' <= Passes[j].tag[i] <= 'z'
  {
    assert j in {0, 1, 2, 3, 4, 5};
  }

  /** The entities hold no delimiter character either. */
  lemma EntitiesHoldNoMarkers(c: char, m: char)
    requires m in "*_~`" && m != c
    ensures m !in EscapeChar(c)
  {
  }

  /** A character outside every tag is output by the replacements from the
      i-th on only if it is in their input. */
  lemma {:induction false} ApplyKeepsOut(t: string, i: nat, c: char)
    requires i <= |Passes| && c !in t && OutsideTags(c)
    ensures c !in Apply(t, i)
    decreases |Passes| - i
  {
    if i < |Passes| {
      PassKeepsOut(t, Passes[i], c);
      ApplyKeepsOut(Pass(t, Passes[i]), i + 1, c);
    }
  }

  /** formatText never outputs a double or a single quote. */
  lemma NoQuotes(t: string)
    ensures '"' !in Format(t) && '\'' !in Format(t)
  {
    EscapeIsPerChar(t);
    TagsHoldNoSpecials('"');
    TagsHoldNoSpecials('\'');
    ApplyKeepsOut(Escape(t), 0, '"');
    ApplyKeepsOut(Escape(t), 0, '\'');
  }

  // ------------------------------------------------ the formatting rules

  /** The escape step leaves delimited plain text as it is. */
  lemma EscapeAround(a: string, d: string, x: string, b: string)
    requires Plain(a) && Plain(x) && Plain(b) && Inert(d)
    ensures Escape(a + d + x + d + b) == a + d + x + d + b
  {
    EscapeInert(a + d + x + d + b);
  }

  /** A character outside the plain parts and the tags is outside the
      wrapped text. */
  lemma WrappedKeepsOut(a: string, tag: string, x: string, b: string, c: char)
    requires c !in a && c !in x && c !in b && c !in OpenTag(tag) && c !in CloseTag(tag)
    ensures c !in a + OpenTag(tag) + x + CloseTag(tag) + b
  {
  }

  /** Plain text around a plain content wrapped by the j-th replacement
      holds no delimiter character, so the replacements from the i-th on
      leave it alone. */
  lemma RestIdle(a: string, j: nat, x: string, b: string, i: nat)
    requires Plain(a) && Plain(x) && Plain(b) && j < |Passes| && i <= |Passes|
    ensures var w := a + OpenTag(Passes[j].tag) + x + CloseTag(Passes[j].tag) + b;
      Apply(w, i) == w
  {
    var tag := Passes[j].tag;
    var w := a + OpenTag(tag) + x + CloseTag(tag) + b;
    forall m | m in "*_~`"
      ensures m !in w
    {
      TagsHoldNoSpecials(m);
      WrappedKeepsOut(a, tag, x, b, m);
    }
    MarksOfPasses();
    ApplyIdle(w, i);
  }

  /** Where the mark occurs only in two single delimiters, the pass for the
      doubled mark finds nothing. */
  lemma SingleIsNotDoubled(pat: Pattern, doubled: Pattern, a: string, x: string, b: string)
    requires !pat.doubled && doubled.doubled && doubled.mark == pat.mark && x != []
    requires forall j :: 0 <= j < |x| ==> InClass(x[j], pat.content) && x[j] != pat.mark
    requires pat.mark !in a && pat.mark !in b
    ensures Pass(a + Delim(pat) + x + Delim(pat) + b, doubled) == a + Delim(pat) + x + Delim(pat) + b
  {
    Layout(pat, a, x, b);
    PassWithoutDoubled(a + Delim(pat) + x + Delim(pat) + b, doubled);
  }

  /** The delimiters and elements of the six replacements, spelled out. */
  lemma Spelled()
    ensures Delim(Strong1) == "**" && Delim(Strong2) == "__" && Delim(Em1) == "*"
    ensures Delim(Em2) == "_" && Delim(Del) == "~~" && Delim(Code) == "`"
    ensures OpenTag(Strong1.tag) == "<strong>" && CloseTag(Strong1.tag) == "</strong>"
    ensures OpenTag(Strong2.tag) == "<strong>" && CloseTag(Strong2.tag) == "</strong>"
    ensures OpenTag(Em1.tag) == "<em>" && CloseTag(Em1.tag) == "</em>"
    ensures OpenTag(Em2.tag) == "<em>" && CloseTag(Em2.tag) == "</em>"
    ensures OpenTag(Del.tag) == "<del>" && CloseTag(Del.tag) == "</del>"
    ensures OpenTag(Code.tag) == "<code>" && CloseTag(Code.tag) == "</code>"
  {
  }

  /** `**x**` between plain text becomes a strong element. */
  lemma StrongStars(a: string, x: string, b: string)
    requires Plain(a) && Plain(b) && Plain(x) && SingleLine(x) && x != []
    ensures Format(a + "**" + x + "**" + b) == a + "<strong>" + x + "</strong>" + b
  {
    var s := a + "**" + x + "**" + b;
    Spelled();
    EscapeAround(a, "**", x, b);
    MarksBefore(s, 0);
    WrapsIn(Strong1, a, x, b);
    RestIdle(a, 0, x, b, 1);
  }

  /** `__x__` between plain text becomes a strong element. */
  lemma StrongUnderscores(a: string, x: string, b: string)
    requires Plain(a) && Plain(b) && Plain(x) && SingleLine(x) && x != []
    ensures Format(a + "__" + x + "__" + b) == a + "<strong>" + x + "</strong>" + b
  {
    var s := a + "__" + x + "__" + b;
    Spelled();
    EscapeAround(a, "__", x, b);
    MarksBefore(s, 1);
    WrapsIn(Strong2, a, x, b);
    RestIdle(a, 1, x, b, 2);
  }

  /** A single `*x*` between plain text, with no other `*` next to it,
      becomes an em element; the strong pass for `**` finds nothing. */
  lemma EmStar(a: string, x: string, b: string)
    requires Plain(a) && Plain(b) && Plain(x) && x != []
    ensures Format(a + "*" + x + "*" + b) == a + "<em>" + x + "</em>" + b
  {
    var s := a + "*" + x + "*" + b;
    Spelled();
    EscapeAround(a, "*", x, b);
    MarksBefore(s, 0);
    SingleIsNotDoubled(Em1, Strong1, a, x, b);
    PassWithoutDelimiter(s, Strong2);
    assert Apply(s, 1) == Apply(s, 2) == Apply(Pass(s, Em1), 3);
    WrapsIn(Em1, a, x, b);
    RestIdle(a, 2, x, b, 3);
  }

  /** A single `_x_` between plain text, with no other `_` next to it,
      becomes an em element; the strong pass for `__` finds nothing. */
  lemma EmUnderscore(a: string, x: string, b: string)
    requires Plain(a) && Plain(b) && Plain(x) && x != []
    ensures Format(a + "_" + x + "_" + b) == a + "<em>" + x + "</em>" + b
  {
    var s := a + "_" + x + "_" + b;
    Spelled();
    EscapeAround(a, "_", x, b);
    MarksBefore(s, 1);
    SingleIsNotDoubled(Em2, Strong2, a, x, b);
    PassWithoutDelimiter(s, Em1);
    assert Apply(s, 2) == Apply(s, 3) == Apply(Pass(s, Em2), 4);
    WrapsIn(Em2, a, x, b);
    RestIdle(a, 3, x, b, 4);
  }

  /** `~~x~~` between plain text becomes a del element. */
  lemma Strike(a: string, x: string, b: string)
    requires Plain(a) && Plain(b) && Plain(x) && SingleLine(x) && x != []
    ensures Format(a + "~~" + x + "~~" + b) == a + "<del>" + x + "</del>" + b
  {
    var s := a + "~~" + x + "~~" + b;
    Spelled();
    EscapeAround(a, "~~", x, b);
    MarksBefore(s, 4);
    WrapsIn(Del, a, x, b);
    RestIdle(a, 4, x, b, 5);
  }

  /** A backtick-quoted x between plain text becomes a code element. */
  lemma CodeSpan(a: string, x: string, b: string)
    requires Plain(a) && Plain(b) && Plain(x) && x != []
    ensures Format(a + "`" + x + "`" + b) == a + "<code>" + x + "</code>" + b
  {
    var s := a + "`" + x + "`" + b;
    Spelled();
    EscapeAround(a, "`", x, b);
    MarksBefore(s, 5);
    WrapsIn(Code, a, x, b);
  }

  /** The first n replacements leave text without their delimiter
      characters unchanged. */
  lemma {:induction false} MarksBefore(s: string, n: nat)
    requires n < |Passes|
    requires forall j :: 0 <= j < n ==> Passes[j].mark !in s
    ensures Apply(s, 0) == Apply(Pass(s, Passes[n]), n + 1)
    decreases n
  {
    if n == 0 {
    } else {
      MarksBefore(s, n - 1);
      PassWithoutDelimiter(s, Passes[n - 1]);
    }
  }
}
