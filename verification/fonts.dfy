/**
 * The CSS rewriting of the fonts integration (src/integrations/fonts.ts):
 * the font-file test on file names, transformCss, which points every
 * `url(./path)` at the copied file, and filterCssFontFaces, which drops the
 * `@font-face` blocks whose files the filter rejects. The filter is a
 * function parameter; file-system work and the build hooks are not part of
 * this model.
 */
module Fonts {
  import opened Wrappers

  /** The optional `filter` option. */
  type Filter = Option<string -> bool>

  /** A file name the filter keeps; without a filter, every name. */
  predicate Accepts(filter: Filter, name: string) {
    filter.None? || filter.value(name)
  }

  /** p is a prefix of t. */
  predicate HasPrefix(t: string, p: string) {
    |p| <= |t| && forall i :: 0 <= i < |p| ==> t[i] == p[i]
  }

  // ---------------------------------------------------------- font files

  /** ASCII upper case to lower case, as the `i` flag folds letters. */
  function Lower(c: char): (r: char)
    ensures 'A' <= c <= 'Z' ==> 'a' <= r <= 'z'
    ensures !('A' <= c <= 'Z') ==> r == c
  {
    if 'A' <= c <= 'Z' then (c as int + 32) as char else c
  }

  /** name ends with the lower-case suffix, letters compared without case. */
  predicate EndsWithFolded(name: string, suffix: string) {
    && |suffix| <= |name|
    && forall i :: |name| - |suffix| <= i < |name| ==> Lower(name[i]) == suffix[i - (|name| - |suffix|)]
  }

  /** `/\.(woff2?|ttf|otf|eot)$/i.test(name)`. */
  predicate IsFontFile(name: string) {
    || EndsWithFolded(name, ".woff")
    || EndsWithFolded(name, ".woff2")
    || EndsWithFolded(name, ".ttf")
    || EndsWithFolded(name, ".otf")
    || EndsWithFolded(name, ".eot")
  }

  /** Every character in lower case. */
  function LowerAll(s: string): (r: string)
    ensures |r| == |s|
    ensures forall i :: 0 <= i < |s| ==> r[i] == Lower(s[i])
  {
    if s == [] then [] else [Lower(s[0])] + LowerAll(s[1..])
  }

  /** Folding case twice is folding it once. */
  lemma LowerTwice(c: char)
    ensures Lower(Lower(c)) == Lower(c)
  {
  }

  /** Folded comparison against a lower-case suffix ignores case. */
  lemma FoldedIgnoresCase(name: string, suffix: string)
    ensures EndsWithFolded(name, suffix) <==> EndsWithFolded(LowerAll(name), suffix)
  {
    var low := LowerAll(name);
    forall i | 0 <= i < |name|
      ensures Lower(low[i]) == Lower(name[i])
    {
      LowerTwice(name[i]);
    }
  }

  /** The test ignores case: a name and its lower-case form agree. */
  lemma FontFileIgnoresCase(name: string)
    ensures IsFontFile(name) <==> IsFontFile(LowerAll(name))
  {
    FoldedIgnoresCase(name, ".woff");
    FoldedIgnoresCase(name, ".woff2");
    FoldedIgnoresCase(name, ".ttf");
    FoldedIgnoresCase(name, ".otf");
    FoldedIgnoresCase(name, ".eot");
  }

  /** A folded suffix depends only on the last characters. */
  lemma FoldedByEnding(p: string, name: string, suffix: string)
    requires |suffix| <= |name|
    ensures EndsWithFolded(p + name, suffix) <==> EndsWithFolded(name, suffix)
  {
    var s := p + name;
    forall i | |name| - |suffix| <= i < |name|
      ensures s[|p| + i] == name[i]
    {
    }
    if EndsWithFolded(name, suffix) {
      forall j | |s| - |suffix| <= j < |s|
        ensures Lower(s[j]) == suffix[j - (|s| - |suffix|)]
      {
        assert s[j] == name[j - |p|];
      }
    }
  }

  /** Only the last six characters decide. */
  lemma FontFileByEnding(p: string, name: string)
    requires |name| >= 6
    ensures IsFontFile(p + name) <==> IsFontFile(name)
  {
    FoldedByEnding(p, name, ".woff");
    FoldedByEnding(p, name, ".woff2");
    FoldedByEnding(p, name, ".ttf");
    FoldedByEnding(p, name, ".otf");
    FoldedByEnding(p, name, ".eot");
  }

  /** An upper-case extension counts. */
  lemma UpperCaseExtension(name: string)
    requires name == "Inter.WOFF2"
    ensures IsFontFile(name)
  {
    assert EndsWithFolded(name, ".woff2") by {
      assert Lower('W') == 'w' && Lower('O') == 'o' && Lower('F') == 'f';
    }
  }

  /** Other endings do not count, nor does an extension without its dot. */
  lemma OtherEndings(a: string, b: string, c: string)
    requires a == "Inter.woff3" && b == "woff" && c == "font.ttf.bak"
    ensures !IsFontFile(a) && !IsFontFile(b) && !IsFontFile(c)
  {
    assert a[10] == '3' && b[0] == 'w' && c[11] == 'k';
  }

  // ------------------------------------------------------ url expressions

  /** A character that ends the path: `"`, `'` or `)`. */
  predicate Stop(c: char) {
    c == '"' || c == '\'' || c == ')'
  }

  /** A quote that `["']?` accepts. */
  predicate Quote(c: char) {
    c == '"' || c == '\''
  }

  /** The end of the greedy `[^"')]+` run from k: the first stop character
      at or after k, or the end of the text. */
  function PathEnd(t: string, k: nat): (r: nat)
    requires k <= |t|
    ensures k <= r <= |t|
    ensures forall j :: k <= j < r ==> !Stop(t[j])
    ensures r < |t| ==> Stop(t[r])
    decreases |t| - k
  {
    if k == |t| || Stop(t[k]) then k else PathEnd(t, k + 1)
  }

  /** Where the path of a url expression starts and ends, and where the
      whole expression ends. */
  datatype Url = Url(pathStart: nat, pathEnd: nat, end: nat)

  /** `/url\(["']?\.\/([^"')]+)["']?\)/` tried at the start of t. The
      optional quotes and the greedy run leave no choice that backtracking
      could change: a quote after `url(` is taken, the run stops at the first
      stop character, and the expression closes there or one quote later. */
  function MatchUrl(t: string): (r: Option<Url>)
    ensures r.Some? ==> 6 <= r.value.pathStart < r.value.pathEnd < r.value.end <= |t|
    ensures r.Some? ==> HasPrefix(t, "url(") && t[r.value.end - 1] == ')'
  {
    if !HasPrefix(t, "url(") then None
    else
      var d := if 4 < |t| && Quote(t[4]) then 5 else 4;
      if d + 2 > |t| || t[d] != '.' || t[d + 1] != '/' then None
      else
        var e := PathEnd(t, d + 2);
        if e == d + 2 then None
        else if e < |t| && t[e] == ')' then Some(Url(d + 2, e, e + 1))
        else if e + 1 < |t| && t[e + 1] == ')' then Some(Url(d + 2, e, e + 2))
        else None
  }

  /** `path.basename`: the text after the last `/`. */
  function Basename(p: string): (r: string)
    ensures '/' !in r
    ensures |r| <= |p|
  {
    if p == [] || p[|p| - 1] == '/' then []
    else Basename(p[..|p| - 1]) + [p[|p| - 1]]
  }

  /** The base name is the end of the path, right after its last `/` when
      the path has one. */
  lemma {:induction false} BasenameIsLast(p: string)
    ensures var r := Basename(p);
      && p[|p| - |r|..] == r
      && (|r| < |p| ==> p[|p| - |r| - 1] == '/')
  {
    if p != [] && p[|p| - 1] != '/' {
      var q := p[..|p| - 1];
      BasenameIsLast(q);
      var r := Basename(p);
      assert r == Basename(q) + [p[|p| - 1]];
      assert q[|q| - (|r| - 1)..] == p[|p| - |r|..|p| - 1];
      assert p[|p| - |r|..] == p[|p| - |r|..|p| - 1] + [p[|p| - 1]];
    }
  }

  /** The replacement `url("/<outputDir>/<filename>")`. */
  function Rewritten(outputDir: string, name: string): string {
    "url(\"/" + outputDir + "/" + name + "\")"
  }

  /** One step of the replace at the start of css: what it outputs and
      how much of css it consumes. */
  function Step(css: string, outputDir: string, filter: Filter): (r: (string, nat))
    requires css != []
    ensures 0 < r.1 <= |css|
  {
    var m := MatchUrl(css);
    if m.Some? then
      var name := Basename(css[m.value.pathStart..m.value.pathEnd]);
      (if Accepts(filter, name) then Rewritten(outputDir, name) else css[..m.value.end], m.value.end)
    else ([css[0]], 1)
  }

  /** transformCss: every url expression whose file name the filter
      accepts points at the output directory; rejected ones stay. */
  function TransformCss(css: string, outputDir: string, filter: Filter): (r: string)
    decreases |css|
  {
    if css == [] then []
    else
      var step := Step(css, outputDir, filter);
      step.0 + TransformCss(css[step.1..], outputDir, filter)
  }

  // --------------------------------------------------------- font faces

  /** `\s` in a JavaScript regular expression. */
  predicate Space(c: char) {
    || c == ' ' || c == '\t' || c == '\n' || c == '\r'
    || c as int == 0x0B || c as int == 0x0C || c as int == 0xA0 || c as int == 0x1680
    || 0x2000 <= c as int <= 0x200A
    || c as int == 0x2028 || c as int == 0x2029 || c as int == 0x202F || c as int == 0x205F
    || c as int == 0x3000 || c as int == 0xFEFF
  }

  /** The end of the greedy `\s*` run from k. */
  function SpaceEnd(t: string, k: nat): (r: nat)
    requires k <= |t|
    ensures k <= r <= |t|
    ensures forall j :: k <= j < r ==> Space(t[j])
    ensures r < |t| ==> !Space(t[r])
    decreases |t| - k
  {
    if k == |t| || !Space(t[k]) then k else SpaceEnd(t, k + 1)
  }

  /** The first `}` at or after k, or the end of the text. */
  function BraceAt(t: string, k: nat): (r: nat)
    requires k <= |t|
    ensures k <= r <= |t|
    ensures forall j :: k <= j < r ==> t[j] != '}'
    ensures r < |t| ==> t[r] == '}'
    decreases |t| - k
  {
    if k == |t| || t[k] == '}' then k else BraceAt(t, k + 1)
  }

  /** `/@font-face\s*\{[^}]*\}/` tried at the start of t: the length of the
      block. */
  function MatchFace(t: string): (r: Option<nat>)
    ensures r.Some? ==> 12 <= r.value <= |t| && HasPrefix(t, "@font-face") && t[r.value - 1] == '}'
  {
    if !HasPrefix(t, "@font-face") then None
    else
      var b := SpaceEnd(t, 10);
      if b == |t| || t[b] != '{' then None
      else
        var c := BraceAt(t, b + 1);
        if c == |t| then None else Some(c + 1)
  }

  /** The file names of the url expressions in a block, in order, as
      `matchAll` finds them. */
  function UrlNames(t: string): (r: seq<string>)
    ensures forall i :: 0 <= i < |r| ==> '/' !in r[i]
    decreases |t|
  {
    if t == [] then []
    else
      var m := MatchUrl(t);
      if m.Some? then [Basename(t[m.value.pathStart..m.value.pathEnd])] + UrlNames(t[m.value.end..])
      else UrlNames(t[1..])
  }

  /** The loop over the url matches: some name passes the filter. */
  function AnyAccepted(names: seq<string>, f: string -> bool): (r: bool)
    ensures r <==> exists i :: 0 <= i < |names| && f(names[i])
  {
    if names == [] then false
    else if f(names[0]) then true
    else
      assert forall i :: 1 <= i < |names| ==> names[i] == names[1..][i - 1];
      AnyAccepted(names[1..], f)
  }

  /** The global replace over the blocks. */
  function FaceScan(css: string, f: string -> bool): (r: string)
    ensures |r| <= |css|
    decreases |css|
  {
    if css == [] then []
    else
      var m := MatchFace(css);
      if m.Some? then
        var block := css[..m.value];
        (if AnyAccepted(UrlNames(block), f) then block else []) + FaceScan(css[m.value..], f)
      else [css[0]] + FaceScan(css[1..], f)
  }

  /** filterCssFontFaces. */
  function FilterCssFontFaces(css: string, filter: Filter): (r: string)
    ensures filter.None? ==> r == css
    ensures |r| <= |css|
  {
    if filter.None? then css else FaceScan(css, filter.value)
  }

  // ---------------------------------------------------- transformCss laws

  /** p starts at none of the first n positions of t. */
  predicate OpensNowhere(t: string, n: nat, p: string) {
    forall i :: 0 <= i < n && i < |t| ==> !HasPrefix(t[i..], p)
  }

  /** A pattern whose first character does not recur in it cannot start in
      a and run on into text that starts with that character. */
  lemma OpensAcross(a: string, u: string, p: string)
    requires OpensNowhere(a, |a|, p)
    requires p != [] && p[0] !in p[1..]
    requires u == [] || u[0] == p[0]
    ensures OpensNowhere(a + u, |a|, p)
  {
    forall i | 0 <= i < |a|
      ensures !HasPrefix((a + u)[i..], p)
    {
      var t := (a + u)[i..];
      var k := |a| - i;
      if k >= |p| {
        assert !HasPrefix(a[i..], p);
        assert forall j :: 0 <= j < |p| ==> t[j] == a[i..][j];
      } else if |p| <= |t| {
        assert t[k] == u[0];
        assert p[k] == p[1..][k - 1];
      }
    }
  }

  /** A pattern whose first character is absent from a starts nowhere in a,
      whatever follows a. */
  lemma FirstAbsent(a: string, u: string, p: string)
    requires p != [] && p[0] !in a
    ensures OpensNowhere(a + u, |a|, p)
  {
    forall i | 0 <= i < |a|
      ensures !HasPrefix((a + u)[i..], p)
    {
      assert (a + u)[i..][0] == a[i];
    }
  }

  /** Text without `(` holds no `url(`. */
  lemma NoParenNoOpen(a: string)
    requires '(' !in a
    ensures OpensNowhere(a, |a|, "url(")
  {
    forall i | 0 <= i < |a|
      ensures !HasPrefix(a[i..], "url(")
    {
      if |a[i..]| >= 4 {
        assert a[i..][3] == a[i + 3];
      }
    }
  }

  /** Where no url expression starts before u, the pass copies the text
      before u and goes on with u. */
  lemma {:induction false} TransformSkips(a: string, u: string, outputDir: string, filter: Filter)
    requires OpensNowhere(a + u, |a|, "url(")
    ensures TransformCss(a + u, outputDir, filter) == a + TransformCss(u, outputDir, filter)
    decreases |a|
  {
    if a != [] {
      var t := a + u;
      assert t[0..] == t;
      CopiesFirst(t, outputDir, filter);
      assert t[1..] == a[1..] + u;
      forall i | 0 <= i < |a| - 1
        ensures !HasPrefix((a[1..] + u)[i..], "url(")
      {
        assert (a[1..] + u)[i..] == t[i + 1..];
      }
      TransformSkips(a[1..], u, outputDir, filter);
      ConsJoin(a, TransformCss(u, outputDir, filter));
    } else {
      assert a + u == u;
    }
  }

  /** Putting the first character back. */
  lemma ConsJoin(a: string, rest: string)
    requires a != []
    ensures [a[0]] + (a[1..] + rest) == a + rest
  {
    assert a == [a[0]] + a[1..];
  }

  /** Where no url expression starts, the pass copies one character. */
  lemma CopiesFirst(t: string, outputDir: string, filter: Filter)
    requires t != [] && MatchUrl(t).None?
    ensures TransformCss(t, outputDir, filter) == [t[0]] + TransformCss(t[1..], outputDir, filter)
  {
  }

  /** Text without `(` holds no url expression. */
  lemma NoParenUnchanged(t: string, outputDir: string, filter: Filter)
    requires '(' !in t
    ensures TransformCss(t, outputDir, filter) == t
  {
    NoParenNoOpen(t);
    assert t + [] == t;
    TransformSkips(t, [], outputDir, filter);
  }

  /** The url expression with the given quotes and path. */
  function UrlText(q1: string, path: string, q2: string): string {
    "url(" + q1 + "./" + path + q2 + ")"
  }

  /** The quotes `["']?` accepts. */
  predicate OptionalQuote(q: string) {
    q == [] || (|q| == 1 && Quote(q[0]))
  }

  /** A path the run `[^"')]+` takes whole. */
  predicate PathText(path: string) {
    path != [] && forall i :: 0 <= i < |path| ==> !Stop(path[i])
  }

  /** The expression matches a url text whatever follows it, with the path
      as its group. */
  lemma MatchesUrlText(q1: string, path: string, q2: string, b: string)
    requires OptionalQuote(q1) && OptionalQuote(q2) && PathText(path)
    ensures var t := UrlText(q1, path, q2) + b;
      && MatchUrl(t).Some?
      && MatchUrl(t).value.pathStart == 6 + |q1|
      && MatchUrl(t).value.pathEnd == 6 + |q1| + |path|
      && MatchUrl(t).value.end == |UrlText(q1, path, q2)|
  {
    var u := UrlText(q1, path, q2);
    var t := u + b;
    var d := 4 + |q1|;
    assert HasPrefix(t, "url(");
    assert t[d] == '.' && t[d + 1] == '/';
    assert 4 < |t| && Quote(t[4]) <==> q1 != [];
    var pe := d + 2 + |path|;
    forall j | d + 2 <= j < pe
      ensures !Stop(t[j])
    {
      assert t[j] == path[j - d - 2];
    }
    assert Stop(t[pe]) by {
      if q2 == [] {
        assert t[pe] == ')';
      } else {
        assert t[pe] == q2[0];
      }
    }
    PathEndIs(t, d + 2, pe);
    if q2 != [] {
      assert t[pe] != ')' && t[pe + 1] == ')';
    }
  }

  /** The run stops at the first stop character. */
  lemma {:induction false} PathEndIs(t: string, k: nat, e: nat)
    requires k <= e < |t| && Stop(t[e])
    requires forall j :: k <= j < e ==> !Stop(t[j])
    ensures PathEnd(t, k) == e
    decreases e - k
  {
    if k < e {
      PathEndIs(t, k + 1, e);
    }
  }

  /** The pieces of a url text followed by more text. */
  lemma UrlTextLayout(q1: string, path: string, q2: string, b: string)
    ensures var u := UrlText(q1, path, q2); var t := u + b;
      && t[6 + |q1|..6 + |q1| + |path|] == path
      && t[..|u|] == u
      && t[|u|..] == b
  {
    var u := UrlText(q1, path, q2);
    var t := u + b;
    assert u == ("url(" + q1 + "./") + path + (q2 + ")");
  }

  /** Every match is a url text: the converse of MatchesUrlText. The
      expression matches nothing but `url(`, an optional quote, `./`, a path
      without quotes or `)`, an optional quote and `)`. */
  lemma MatchIsUrlText(t: string)
    requires MatchUrl(t).Some?
    ensures var m := MatchUrl(t).value;
      && OptionalQuote(t[4..m.pathStart - 2])
      && PathText(t[m.pathStart..m.pathEnd])
      && OptionalQuote(t[m.pathEnd..m.end - 1])
      && t[..m.end] == UrlText(t[4..m.pathStart - 2], t[m.pathStart..m.pathEnd], t[m.pathEnd..m.end - 1])
  {
    var m := MatchUrl(t).value;
    var q1 := t[4..m.pathStart - 2];
    var path := t[m.pathStart..m.pathEnd];
    var q2 := t[m.pathEnd..m.end - 1];
    assert |q1| == 1 ==> q1[0] == t[4];
    assert |q2| == 1 ==> q2[0] == t[m.pathEnd];
    forall i | 0 <= i < |path|
      ensures !Stop(path[i])
    {
      assert path[i] == t[m.pathStart + i];
    }
    var u := UrlText(q1, path, q2);
    assert |u| == m.end;
    forall i | 0 <= i < m.end
      ensures u[i] == t[i]
    {
      if i < 4 {
        assert u[i] == "url("[i];
      } else if i < m.pathStart - 2 {
        assert u[i] == q1[i - 4];
      } else if i < m.pathStart {
        assert u[i] == "./"[i - 4 - |q1|];
      } else if i < m.pathEnd {
        assert u[i] == path[i - m.pathStart];
      } else if i < m.end - 1 {
        assert u[i] == q2[i - m.pathEnd];
      }
    }
  }

  /** A url whose path does not begin with `./` is not matched, so the
      replace copies it. */
  lemma NonRelativeUnmatched(q1: string, rest: string)
    requires OptionalQuote(q1)
    requires q1 == [] ==> rest == [] || !Quote(rest[0])
    requires !HasPrefix(rest, "./")
    ensures MatchUrl("url(" + q1 + rest).None?
  {
    var t := "url(" + q1 + rest;
    assert HasPrefix(t, "url(");
    var d := if 4 < |t| && Quote(t[4]) then 5 else 4;
    assert d == 4 + |q1| by {
      if q1 != [] {
        assert t[4] == q1[0];
      } else if |t| > 4 {
        assert t[4] == rest[0];
      }
    }
    if d + 2 <= |t| {
      assert t[d] == rest[0] && t[d + 1] == rest[1];
    }
  }

  /** The first url expression of the CSS, after text holding no `url(`,
      is rewritten when the filter accepts its file name and kept verbatim
      otherwise; the text before it is copied and the replace goes on with
      the text after it. */
  lemma RewritesOne(a: string, q1: string, path: string, q2: string, b: string, outputDir: string, filter: Filter)
    requires OpensNowhere(a, |a|, "url(")
    requires OptionalQuote(q1) && OptionalQuote(q2) && PathText(path)
    ensures var u := UrlText(q1, path, q2); var name := Basename(path);
      TransformCss(a + u + b, outputDir, filter)
        == a + (if Accepts(filter, name) then Rewritten(outputDir, name) else u) + TransformCss(b, outputDir, filter)
  {
    var u := UrlText(q1, path, q2);
    var t := u + b;
    var name := Basename(path);
    var out := if Accepts(filter, name) then Rewritten(outputDir, name) else u;
    assert t[0] == 'u';
    OpensAcross(a, t, "url(");
    TransformSkips(a, t, outputDir, filter);
    StepAtUrl(q1, path, q2, b, outputDir, filter);
    Steps(t, outputDir, filter);
    assert t[|u|..] == b;
    Reassociate(a, u, b);
    Reassociate(a, out, TransformCss(b, outputDir, filter));
  }

  /** A `src` line with two url expressions: each is rewritten or kept on
      its own, the text before and between them is copied when it holds no
      `url(`, and the replace goes on after the second. */
  lemma RewritesBoth(a: string, u1: string, mid: string, u2: string, b: string, outputDir: string, filter: Filter,
                     q1: string, p1: string, q2: string, r1: string, p2: string, r2: string)
    requires OpensNowhere(a, |a|, "url(") && OpensNowhere(mid, |mid|, "url(")
    requires OptionalQuote(q1) && OptionalQuote(q2) && PathText(p1) && u1 == UrlText(q1, p1, q2)
    requires OptionalQuote(r1) && OptionalQuote(r2) && PathText(p2) && u2 == UrlText(r1, p2, r2)
    ensures var n1 := Basename(p1); var n2 := Basename(p2);
      TransformCss(a + u1 + mid + u2 + b, outputDir, filter)
        == a + (if Accepts(filter, n1) then Rewritten(outputDir, n1) else u1)
          + mid + (if Accepts(filter, n2) then Rewritten(outputDir, n2) else u2) + TransformCss(b, outputDir, filter)
  {
    var n1 := Basename(p1);
    var n2 := Basename(p2);
    var out1 := if Accepts(filter, n1) then Rewritten(outputDir, n1) else u1;
    var out2 := if Accepts(filter, n2) then Rewritten(outputDir, n2) else u2;
    var tail := TransformCss(b, outputDir, filter);
    var rest := mid + u2 + b;
    Regroup(a, u1, mid, u2, b);
    RewritesOne(a, q1, p1, q2, rest, outputDir, filter);
    RewritesOne(mid, r1, p2, r2, b, outputDir, filter);
    assert TransformCss(rest, outputDir, filter) == mid + out2 + tail;
    Regroup(a, out1, mid, out2, tail);
  }

  /** A text is its prefix followed by the rest. */
  lemma Rejoin(t: string, k: nat)
    requires k <= |t|
    ensures t[..k] + t[k..] == t
  {
  }

  /** Concatenation is associative, for five pieces. */
  lemma Regroup(a: string, x: string, m: string, y: string, t: string)
    ensures a + x + (m + y + t) == a + x + m + y + t
  {
  }

  /** The separator between the two url expressions of a fontsource `src`
      line holds no `url(`. */
  lemma FormatHintOpensNothing(mid: string)
    requires mid == " format('woff2'), "
    ensures OpensNowhere(mid, |mid|, "url(")
  {
    FirstAbsent(mid, [], "url(");
    assert mid + [] == mid;
  }

  /** One step of the replace consumes the whole url text. */
  lemma StepAtUrl(q1: string, path: string, q2: string, b: string, outputDir: string, filter: Filter)
    requires OptionalQuote(q1) && OptionalQuote(q2) && PathText(path)
    ensures var u := UrlText(q1, path, q2); var name := Basename(path);
      && Step(u + b, outputDir, filter).0 == (if Accepts(filter, name) then Rewritten(outputDir, name) else u)
      && Step(u + b, outputDir, filter).1 == |u|
  {
    var u := UrlText(q1, path, q2);
    var t := u + b;
    MatchesUrlText(q1, path, q2, b);
    UrlTextLayout(q1, path, q2, b);
    var m := MatchUrl(t).value;
    assert t[m.pathStart..m.pathEnd] == path;
    assert t[..m.end] == u;
  }

  /** The replace is a step followed by the replace of the rest. */
  lemma Steps(t: string, outputDir: string, filter: Filter)
    requires t != []
    ensures TransformCss(t, outputDir, filter)
      == Step(t, outputDir, filter).0 + TransformCss(t[Step(t, outputDir, filter).1..], outputDir, filter)
  {
  }

  /** Concatenation is associative. */
  lemma Reassociate(a: string, x: string, b: string)
    ensures a + x + b == a + (x + b)
  {
  }

  /** A filter that rejects every name leaves the CSS as it is: rejected
      expressions are kept verbatim. */
  lemma {:induction false} RejectedKept(css: string, outputDir: string, f: string -> bool)
    requires forall n :: !f(n)
    ensures TransformCss(css, outputDir, Some(f)) == css
    decreases |css|
  {
    if css != [] {
      var st := Step(css, outputDir, Some(f));
      RejectedStep(css, outputDir, f);
      Steps(css, outputDir, Some(f));
      RejectedKept(css[st.1..], outputDir, f);
      Rejoin(css, st.1);
    }
  }

  /** Under a filter that rejects every name, a step outputs what it
      consumes. */
  lemma RejectedStep(css: string, outputDir: string, f: string -> bool)
    requires css != [] && forall n :: !f(n)
    ensures Step(css, outputDir, Some(f)).0 == css[..Step(css, outputDir, Some(f)).1]
  {
    if MatchUrl(css).None? {
      assert [css[0]] == css[..1];
    }
  }

  // ---------------------------------------------- filterCssFontFaces laws

  /** Where no block starts before u, the pass copies the text before u
      and goes on with u. */
  lemma {:induction false} FaceSkips(a: string, u: string, f: string -> bool)
    requires OpensNowhere(a + u, |a|, "@font-face")
    ensures FaceScan(a + u, f) == a + FaceScan(u, f)
    decreases |a|
  {
    if a != [] {
      var t := a + u;
      assert t[0..] == t;
      FaceCopiesFirst(t, f);
      assert t[1..] == a[1..] + u;
      forall i | 0 <= i < |a| - 1
        ensures !HasPrefix((a[1..] + u)[i..], "@font-face")
      {
        assert (a[1..] + u)[i..] == t[i + 1..];
      }
      FaceSkips(a[1..], u, f);
      ConsJoin(a, FaceScan(u, f));
    } else {
      assert a + u == u;
    }
  }

  /** Where no block starts, the pass copies one character. */
  lemma FaceCopiesFirst(t: string, f: string -> bool)
    requires t != [] && !HasPrefix(t, "@font-face")
    ensures FaceScan(t, f) == [t[0]] + FaceScan(t[1..], f)
  {
  }

  /** The block text with the given spacing and body. */
  function FaceText(ws: string, body: string): string {
    "@font-face" + ws + "{" + body + "}"
  }

  /** The expression matches a block whatever follows it. */
  lemma MatchesFaceText(ws: string, body: string, b: string)
    requires forall i :: 0 <= i < |ws| ==> Space(ws[i])
    requires '}' !in body
    ensures MatchFace(FaceText(ws, body) + b).Some?
    ensures MatchFace(FaceText(ws, body) + b).value == |FaceText(ws, body)|
  {
    var u := FaceText(ws, body);
    var t := u + b;
    assert HasPrefix(t, "@font-face");
    var open := 10 + |ws|;
    forall j | 10 <= j < open
      ensures Space(t[j])
    {
      assert t[j] == ws[j - 10];
    }
    assert t[open] == '{';
    SpaceEndIs(t, 10, open);
    var close := open + 1 + |body|;
    forall j | open + 1 <= j < close
      ensures t[j] != '}'
    {
      assert t[j] == body[j - open - 1];
    }
    assert t[close] == '}';
    BraceAtIs(t, open + 1, close);
  }

  /** Every match is a block text: the converse of MatchesFaceText. The
      expression matches nothing but `@font-face`, white space, `{`, a body
      without `}` and the first `}`. */
  lemma MatchIsFaceText(t: string)
    requires MatchFace(t).Some?
    ensures var n := MatchFace(t).value; var o := SpaceEnd(t, 10);
      && (forall i :: 0 <= i < |t[10..o]| ==> Space(t[10..o][i]))
      && '}' !in t[o + 1..n - 1]
      && t[..n] == FaceText(t[10..o], t[o + 1..n - 1])
  {
    var n := MatchFace(t).value;
    var o := SpaceEnd(t, 10);
    var ws := t[10..o];
    var body := t[o + 1..n - 1];
    forall i | 0 <= i < |ws|
      ensures Space(ws[i])
    {
      assert ws[i] == t[10 + i];
    }
    forall i | 0 <= i < |body|
      ensures body[i] != '}'
    {
      assert body[i] == t[o + 1 + i];
    }
    var u := FaceText(ws, body);
    assert |u| == n;
    forall i | 0 <= i < n
      ensures u[i] == t[i]
    {
      if i < 10 {
        assert u[i] == "@font-face"[i];
      } else if i < o {
        assert u[i] == ws[i - 10];
      } else if i == o {
        assert u[i] == '{';
      } else if i < n - 1 {
        assert u[i] == body[i - o - 1];
      }
    }
  }

  /** The space run stops at the first other character. */
  lemma {:induction false} SpaceEndIs(t: string, k: nat, e: nat)
    requires k <= e < |t| && !Space(t[e])
    requires forall j :: k <= j < e ==> Space(t[j])
    ensures SpaceEnd(t, k) == e
    decreases e - k
  {
    if k < e {
      SpaceEndIs(t, k + 1, e);
    }
  }

  /** The body stops at the first `}`. */
  lemma {:induction false} BraceAtIs(t: string, k: nat, e: nat)
    requires k <= e < |t| && t[e] == '}'
    requires forall j :: k <= j < e ==> t[j] != '}'
    ensures BraceAt(t, k) == e
    decreases e - k
  {
    if k < e {
      BraceAtIs(t, k + 1, e);
    }
  }

  /** The first block of the CSS, after text holding no `@font-face`, is
      kept when some file it names passes the filter and replaced by nothing
      otherwise; the text before it is copied and the replace goes on with
      the text after it. */
  lemma KeepsOrDropsBlock(a: string, ws: string, body: string, b: string, f: string -> bool)
    requires OpensNowhere(a, |a|, "@font-face")
    requires forall i :: 0 <= i < |ws| ==> Space(ws[i])
    requires '}' !in body
    ensures var block := FaceText(ws, body);
      FilterCssFontFaces(a + block + b, Some(f))
        == a + (if AnyAccepted(UrlNames(block), f) then block else []) + FilterCssFontFaces(b, Some(f))
  {
    var block := FaceText(ws, body);
    var t := block + b;
    assert (a + block) + b == a + t;
    assert t[0] == '@';
    OpensAcross(a, t, "@font-face");
    FaceSkips(a, t, f);
    BlockStep(ws, body, b, f);
    Reassociate(a, if AnyAccepted(UrlNames(block), f) then block else [], FaceScan(b, f));
  }

  /** At a block, the scan keeps or drops it and goes on after it. */
  lemma BlockStep(ws: string, body: string, b: string, f: string -> bool)
    requires forall i :: 0 <= i < |ws| ==> Space(ws[i])
    requires '}' !in body
    ensures var block := FaceText(ws, body);
      FaceScan(block + b, f) == (if AnyAccepted(UrlNames(block), f) then block else []) + FaceScan(b, f)
  {
    var block := FaceText(ws, body);
    var t := block + b;
    MatchesFaceText(ws, body, b);
    assert t[..|block|] == block && t[|block|..] == b;
  }

  /** Where no url expression starts before u, the names are those of u. */
  lemma {:induction false} NamesSkip(a: string, u: string)
    requires OpensNowhere(a + u, |a|, "url(")
    ensures UrlNames(a + u) == UrlNames(u)
    decreases |a|
  {
    if a != [] {
      var t := a + u;
      assert t[0..] == t;
      assert t[1..] == a[1..] + u;
      forall i | 0 <= i < |a| - 1
        ensures !HasPrefix((a[1..] + u)[i..], "url(")
      {
        assert (a[1..] + u)[i..] == t[i + 1..];
      }
      NamesSkip(a[1..], u);
    } else {
      assert a + u == u;
    }
  }

  /** After text holding no `url(`, the first url expression's file is the
      first name of the block. */
  lemma NamesOne(a: string, q1: string, path: string, q2: string, b: string)
    requires OpensNowhere(a, |a|, "url(")
    requires OptionalQuote(q1) && OptionalQuote(q2) && PathText(path)
    ensures UrlNames(a + UrlText(q1, path, q2) + b) == [Basename(path)] + UrlNames(b)
  {
    var u := UrlText(q1, path, q2);
    var t := u + b;
    Reassociate(a, u, b);
    assert t[0] == 'u';
    OpensAcross(a, t, "url(");
    NamesSkip(a, t);
    NamesAtUrl(q1, path, q2, b);
  }
  /** The names of a url text followed by more text. */
  lemma NamesAtUrl(q1: string, path: string, q2: string, b: string)
    requires OptionalQuote(q1) && OptionalQuote(q2) && PathText(path)
    ensures UrlNames(UrlText(q1, path, q2) + b) == [Basename(path)] + UrlNames(b)
  {
    var u := UrlText(q1, path, q2);
    var t := u + b;
    MatchesUrlText(q1, path, q2, b);
    UrlTextLayout(q1, path, q2, b);
    var m := MatchUrl(t).value;
    assert t[m.pathStart..m.pathEnd] == path;
    assert t[m.end..] == b;
  }

  /** A block without any `(` names no file, so the filter drops it. */
  lemma NoUrlNoNames(block: string)
    requires '(' !in block
    ensures UrlNames(block) == []
  {
    NoParenNoOpen(block);
    assert block + [] == block;
    NamesSkip(block, []);
  }
}
