/**
 * transformCss is idempotent: running it over its own output changes
 * nothing, because a rewritten expression `url("/<dir>/<name>")` does not
 * start with `./` after its opening and so is never matched again, and a
 * rewrite never creates a match where the input had none. This holds when
 * the output directory holds no `(`, which is how the integration names it.
 */
module FontsRewrite {
  import opened Wrappers
  import opened Fonts

  /** s holds the opening `url("/` of a rewritten expression at n. */
  predicate StartsRewrite(s: string, n: nat) {
    && n + 6 <= |s|
    && s[n] == 'u' && s[n + 1] == 'r' && s[n + 2] == 'l'
    && s[n + 3] == '(' && s[n + 4] == '"' && s[n + 5] == '/'
  }

  /** The pieces of a rewritten expression followed by more text. */
  lemma RewrittenLayout(outputDir: string, name: string, v: string)
    ensures var w := Rewritten(outputDir, name) + v;
      var p := 6 + |outputDir|; var len := |Rewritten(outputDir, name)|;
      && len == p + 3 + |name|
      && StartsRewrite(w, 0)
      && ('(' !in outputDir ==> forall i :: 4 <= i <= p ==> w[i] != '(')
      && ('/' !in name ==> forall i :: p < i < len ==> w[i] != '/')
      && w[p] == '/' && w[len - 2] == '"' && w[len - 1] == ')'
      && w[len..] == v
  {
    var w := Rewritten(outputDir, name) + v;
    var p := 6 + |outputDir|;
    var len := |Rewritten(outputDir, name)|;
    assert w == "url(\"/" + outputDir + "/" + name + "\")" + v;
    forall i | 6 <= i < p
      ensures w[i] == outputDir[i - 6]
    {
    }
    forall i | p < i < p + 1 + |name|
      ensures w[i] == name[i - p - 1]
    {
    }
  }

  /** No url expression starts inside a rewritten expression, whatever
      follows it. */
  lemma NoMatchInRewritten(outputDir: string, name: string, v: string, k: nat)
    requires '(' !in outputDir && '/' !in name
    requires k < |Rewritten(outputDir, name)|
    ensures MatchUrl((Rewritten(outputDir, name) + v)[k..]).None?
  {
    var w := Rewritten(outputDir, name) + v;
    var x := w[k..];
    var p := 6 + |outputDir|;
    var len := |Rewritten(outputDir, name)|;
    RewrittenLayout(outputDir, name, v);
    if HasPrefix(x, "url(") {
      assert x[3] == w[k + 3] == '(';
      if k == 0 {
        assert x[4] == '"' && x[5] == '/';
      } else {
        assert k + 3 < len - 2;
        assert k > p;
        assert w[k + 5] != '/';
        if 4 < |x| && Quote(x[4]) {
          if k + 4 == len - 2 {
            assert x[5] == w[len - 1];
          } else {
            assert x[6] == w[k + 6];
          }
        } else {
          assert x[5] == w[k + 5];
        }
      }
    }
  }

  /** Text in which no url expression starts is copied, and what follows
      it is transformed on its own. */
  lemma {:induction false} CopiesAll(r: string, v: string, k: nat, outputDir: string, filter: Filter)
    requires k <= |r|
    requires forall i :: k <= i < |r| ==> MatchUrl((r + v)[i..]).None?
    ensures TransformCss((r + v)[k..], outputDir, filter) == r[k..] + TransformCss(v, outputDir, filter)
    decreases |r| - k
  {
    var w := r + v;
    if k == |r| {
      assert w[k..] == v;
      assert r[k..] == [];
    } else {
      CopiesFirst(w[k..], outputDir, filter);
      assert w[k..][1..] == w[k + 1..];
      CopiesAll(r, v, k + 1, outputDir, filter);
      assert w[k..][0] == r[k..][0];
      assert r[k..][1..] == r[k + 1..];
      ConsJoin(r[k..], TransformCss(v, outputDir, filter));
    }
  }

  /** Text following a rewritten expression is transformed on its own. */
  lemma RewrittenInert(outputDir: string, name: string, v: string, filter: Filter)
    requires '(' !in outputDir && '/' !in name
    ensures var r := Rewritten(outputDir, name);
      TransformCss(r + v, outputDir, filter) == r + TransformCss(v, outputDir, filter)
  {
    var r := Rewritten(outputDir, name);
    forall i | 0 <= i < |r|
      ensures MatchUrl((r + v)[i..]).None?
    {
      NoMatchInRewritten(outputDir, name, v, i);
    }
    CopiesAll(r, v, 0, outputDir, filter);
    assert (r + v)[0..] == r + v;
    assert r[0..] == r;
  }

  /** A url expression decided within its first n characters is decided
      the same way in any text that agrees with them. */
  lemma MatchAgrees(t: string, w: string, n: nat)
    requires MatchUrl(t).Some? && MatchUrl(t).value.end <= n <= |t| && n <= |w|
    requires forall j :: 0 <= j < n ==> w[j] == t[j]
    ensures MatchUrl(w).Some?
    ensures MatchUrl(w).value.pathStart == MatchUrl(t).value.pathStart
    ensures MatchUrl(w).value.pathEnd == MatchUrl(t).value.pathEnd
    ensures MatchUrl(w).value.end == MatchUrl(t).value.end
  {
    var m := MatchUrl(t).value;
    assert HasPrefix(w, "url(");
    var d := if Quote(t[4]) then 5 else 4;
    assert m.pathStart == d + 2;
    forall j | d + 2 <= j < m.pathEnd
      ensures !Stop(w[j])
    {
      assert w[j] == t[j];
    }
    PathEndIs(w, d + 2, m.pathEnd);
  }

  /** Where a rewritten expression's opening follows text that agrees with
      an unmatched text, nothing is matched either. */
  lemma NoMatchStays(t: string, w: string, n: nat)
    requires MatchUrl(t).None?
    requires 1 <= n <= |t|
    requires StartsRewrite(w, n)
    requires forall j :: 0 <= j < n ==> w[j] == t[j]
    ensures MatchUrl(w).None?
  {
    if HasPrefix(w, "url(") {
      assert n >= 4;
      assert HasPrefix(t, "url(");
      if n > 4 {
        assert w[4] == t[4];
        var d := if Quote(t[4]) then 5 else 4;
        if d + 2 <= n && w[d] == '.' && w[d + 1] == '/' {
          assert t[d] == '.' && t[d + 1] == '/';
          var pt := PathEnd(t, d + 2);
          if pt < n {
            forall j | d + 2 <= j < pt
              ensures !Stop(w[j])
            {
              assert w[j] == t[j];
            }
            assert w[pt] == t[pt];
            PathEndIs(w, d + 2, pt);
            if pt + 1 < n {
              assert w[pt + 1] == t[pt + 1];
            }
          } else {
            forall j | d + 2 <= j < n + 4
              ensures !Stop(w[j])
            {
              if j < n {
                assert w[j] == t[j];
              }
            }
            PathEndIs(w, d + 2, n + 4);
          }
        }
      }
    }
  }

  /** The step at the start of u replaces a url expression. */
  predicate Rewrites(u: string, filter: Filter) {
    var m := MatchUrl(u);
    m.Some? && Accepts(filter, Basename(u[m.value.pathStart..m.value.pathEnd]))
  }

  /** A replacing step outputs the opening of a rewritten expression. */
  lemma RewriteOpens(u: string, outputDir: string, filter: Filter)
    requires u != [] && Rewrites(u, filter)
    ensures StartsRewrite(Step(u, outputDir, filter).0 + TransformCss(u[Step(u, outputDir, filter).1..], outputDir, filter), 0)
  {
    var m := MatchUrl(u).value;
    var name := Basename(u[m.pathStart..m.pathEnd]);
    RewrittenLayout(outputDir, name, TransformCss(u[m.end..], outputDir, filter));
  }

  /** Any other step copies what it consumes. */
  lemma CopyStep(u: string, outputDir: string, filter: Filter)
    requires u != [] && !Rewrites(u, filter)
    ensures Step(u, outputDir, filter).0 == u[..Step(u, outputDir, filter).1]
  {
  }

  /** Agreement up to the first rewritten expression carries over from the
      rest to the text with a copied part in front. */
  lemma Shift(u: string, e: nat, tr: string, h: nat)
    requires e <= |u| && h <= |u| - e && h <= |tr|
    requires forall j :: 0 <= j < h ==> tr[j] == u[e + j]
    requires h == |u| - e ==> tr == u[e..]
    requires h < |u| - e ==> StartsRewrite(tr, h)
    ensures var out := u[..e] + tr;
      && e + h <= |out|
      && (forall j :: 0 <= j < e + h ==> out[j] == u[j])
      && (e + h == |u| ==> out == u)
      && (e + h < |u| ==> StartsRewrite(out, e + h))
  {
    var out := u[..e] + tr;
    forall j | 0 <= j < e + h
      ensures out[j] == u[j]
    {
      if j >= e {
        assert out[j] == tr[j - e];
      }
    }
    if h == |u| - e {
      assert u[..e] + u[e..] == u;
    } else {
      assert out[e + h..] == tr[h..];
    }
  }

  /** The output agrees with the input up to the first rewritten
      expression, which starts with `url("/`; without one, the output is
      the input. */
  lemma {:induction false} Head(u: string, outputDir: string, filter: Filter) returns (r: nat)
    ensures r <= |u| && r <= |TransformCss(u, outputDir, filter)|
    ensures forall j :: 0 <= j < r ==> TransformCss(u, outputDir, filter)[j] == u[j]
    ensures r == |u| ==> TransformCss(u, outputDir, filter) == u
    ensures r < |u| ==> StartsRewrite(TransformCss(u, outputDir, filter), r)
    decreases |u|
  {
    if u == [] {
      r := 0;
    } else {
      var e := Step(u, outputDir, filter).1;
      Steps(u, outputDir, filter);
      if Rewrites(u, filter) {
        r := 0;
        RewriteOpens(u, outputDir, filter);
      } else {
        CopyStep(u, outputDir, filter);
        var h := Head(u[e..], outputDir, filter);
        Shift(u, e, TransformCss(u[e..], outputDir, filter), h);
        r := e + h;
      }
    }
  }

  /** A url expression the filter rejects is kept, and the text after it
      is transformed on its own. */
  lemma KeptStep(t: string, v: string, outputDir: string, filter: Filter)
    requires MatchUrl(t).Some?
    requires !Accepts(filter, Basename(t[MatchUrl(t).value.pathStart..MatchUrl(t).value.pathEnd]))
    ensures var e := MatchUrl(t).value.end;
      TransformCss(t[..e] + v, outputDir, filter) == t[..e] + TransformCss(v, outputDir, filter)
  {
    var e := MatchUrl(t).value.end;
    var w := t[..e] + v;
    assert forall j :: 0 <= j < e ==> w[j] == t[j];
    KeptAgain(t, w, outputDir, filter);
    Steps(w, outputDir, filter);
    assert w[e..] == v;
  }

  /** The kept expression is matched and kept again in any text that
      agrees with it. */
  lemma KeptAgain(t: string, w: string, outputDir: string, filter: Filter)
    requires MatchUrl(t).Some? && MatchUrl(t).value.end <= |w|
    requires forall j :: 0 <= j < MatchUrl(t).value.end ==> w[j] == t[j]
    requires !Accepts(filter, Basename(t[MatchUrl(t).value.pathStart..MatchUrl(t).value.pathEnd]))
    ensures w != []
    ensures Step(w, outputDir, filter).0 == t[..MatchUrl(t).value.end]
    ensures Step(w, outputDir, filter).1 == MatchUrl(t).value.end
  {
    var m := MatchUrl(t).value;
    MatchAgrees(t, w, m.end);
    var mw := MatchUrl(w).value;
    assert w[mw.pathStart..mw.pathEnd] == t[m.pathStart..m.pathEnd];
    StepKeeps(w, outputDir, filter);
    assert w[..mw.end] == t[..m.end];
  }

  /** A url expression the filter rejects is copied by the step. */
  lemma StepKeeps(w: string, outputDir: string, filter: Filter)
    requires MatchUrl(w).Some?
    requires !Accepts(filter, Basename(w[MatchUrl(w).value.pathStart..MatchUrl(w).value.pathEnd]))
    ensures w != []
    ensures Step(w, outputDir, filter).0 == w[..MatchUrl(w).value.end]
    ensures Step(w, outputDir, filter).1 == MatchUrl(w).value.end
  {
  }

  /** Where no url expression starts, none starts after the first
      character is put in front of the transformed rest. */
  lemma UnmatchedStep(t: string, outputDir: string, filter: Filter)
    requires t != [] && MatchUrl(t).None?
    ensures MatchUrl([t[0]] + TransformCss(t[1..], outputDir, filter)).None?
  {
    var w := [t[0]] + TransformCss(t[1..], outputDir, filter);
    var h := Head(t[1..], outputDir, filter);
    if h == |t[1..]| {
      assert w == t;
    } else {
      assert StartsRewrite(w, 1 + h);
      NoMatchStays(t, w, 1 + h);
    }
  }

  /** transformCss applied to its own output changes nothing. */
  lemma {:induction false} Idempotent(t: string, outputDir: string, filter: Filter)
    requires '(' !in outputDir
    ensures var once := TransformCss(t, outputDir, filter);
      TransformCss(once, outputDir, filter) == once
    decreases |t|
  {
    if t != [] {
      var s := Step(t, outputDir, filter);
      var e := s.1;
      var v := TransformCss(t[e..], outputDir, filter);
      Steps(t, outputDir, filter);
      Idempotent(t[e..], outputDir, filter);
      var m := MatchUrl(t);
      if m.Some? && Accepts(filter, Basename(t[m.value.pathStart..m.value.pathEnd])) {
        RewrittenInert(outputDir, Basename(t[m.value.pathStart..m.value.pathEnd]), v, filter);
      } else if m.Some? {
        KeptStep(t, v, outputDir, filter);
      } else {
        UnmatchedStep(t, outputDir, filter);
        CopiesFirst([t[0]] + v, outputDir, filter);
        assert ([t[0]] + v)[1..] == v;
      }
    }
  }
}
