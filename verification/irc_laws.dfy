/**
  What parseIRCFormatting (src/parser.ts:60-88) does to IRC control codes
  and to the characters Slack treats as markup, proved from the pass
  definitions in module Parser.
*/
module IrcLaws {
  import opened Wrappers
  import opened Scanner
  import opened Parser
  import opened ParserLaws
  import opened EntityLaws

  /** The IRC formatting control characters. */
  const Controls: set<char> := {COLOR, BOLD, ITALIC, UNDERLINE, REVERSE, RESET}

  /** Text without IRC control characters. */
  predicate Clean(s: string) {
    forall i :: 0 <= i < |s| ==> s[i] !in Controls
  }

  lemma CleanFree(s: string)
    requires Clean(s)
    ensures Free(s, ControlPasses)
  {
  }

  // ---------------------------------------------------------------------
  // The escaping stage.

  /** The three escaping substitutions in source order. */
  function Escape3(s: string): string {
    Subst(Subst(Subst(s, '&', "&amp;"), '<', "&lt;"), '>', "&gt;")
  }

  /** A substitution of a character that does not occur is the identity. */
  lemma {:induction false} SubstAbsent(s: string, c: char, r: string)
    requires c !in s
    ensures Subst(s, c, r) == s
    decreases |s|
  {
    if s != [] {
      SubstAbsent(s[1..], c, r);
      assert s == [s[0]] + s[1..];
    }
  }

  lemma Escape3Append(a: string, b: string)
    ensures Escape3(a + b) == Escape3(a) + Escape3(b)
  {
    SubstAppend(a, b, '&', "&amp;");
    var a1 := Subst(a, '&', "&amp;");
    var b1 := Subst(b, '&', "&amp;");
    SubstAppend(a1, b1, '<', "&lt;");
    SubstAppend(Subst(a1, '<', "&lt;"), Subst(b1, '<', "&lt;"), '>', "&gt;");
  }

  lemma Escape3Char(c: char)
    ensures Escape3([c]) == EscapeChar(c)
  {
    SubstOne(c, '&', "&amp;");
    if c == '&' {
      SubstAbsent("&amp;", '<', "&lt;");
      SubstAbsent("&amp;", '>', "&gt;");
    } else if c == '<' {
      SubstOne(c, '<', "&lt;");
      SubstAbsent("&lt;", '>', "&gt;");
    } else {
      SubstOne(c, '<', "&lt;");
      SubstOne(c, '>', "&gt;");
    }
  }

  /** The substitution on one character. */
  lemma SubstOne(c: char, d: char, r: string)
    ensures Subst([c], d, r) == if c == d then r else [c]
  {
    assert [c][1..] == [];
  }

  /** Three global substitutions, `&` first, escape each character once. */
  lemma {:induction false} Escape3IsEscape(s: string)
    ensures Escape3(s) == EscapeHtml(s)
    decreases |s|
  {
    if s != [] {
      assert s == [s[0]] + s[1..];
      Escape3Append([s[0]], s[1..]);
      Escape3Char(s[0]);
      Escape3IsEscape(s[1..]);
    }
  }

  /** The escaping passes of parseIRCFormatting, as written, escape `&`,
      `<` and `>`, each once. */
  lemma EscapeStage(s: string)
    ensures RunPasses(s, EscapePasses) == EscapeHtml(s)
  {
    var ps := EscapePasses;
    var s1 := ReplaceAll(s, AmpEscape);
    var s2 := ReplaceAll(s1, LtEscape);
    var s3 := ReplaceAll(s2, GtEscape);
    assert ps[0] == Pass('&', AmpEscape);
    assert RunPasses(s, ps) == RunPasses(s1, ps[1..]);
    assert ps[1..] == [Pass('<', LtEscape), Pass('>', GtEscape)];
    assert RunPasses(s1, ps[1..]) == RunPasses(s2, ps[2..]);
    assert ps[2..] == [Pass('>', GtEscape)];
    assert RunPasses(s2, ps[2..]) == RunPasses(s3, []);
    SingleCharIsSubst(s, AmpEscape, '&', "&amp;");
    SingleCharIsSubst(s1, LtEscape, '<', "&lt;");
    SingleCharIsSubst(s2, GtEscape, '>', "&gt;");
    Escape3IsEscape(s);
  }

  /** Text without control codes is only escaped. */
  lemma CleanIsEscaped(s: string)
    requires Clean(s)
    ensures ParseIRCFormatting(s) == EscapeHtml(s)
  {
    ControlAnchored();
    CleanFree(s);
    PassesIdentity(s, ControlPasses);
    EscapeStage(s);
  }

  // ---------------------------------------------------------------------
  // What never survives.

  /** The output of parseIRCFormatting holds no raw `<` or `>`. */
  lemma NoRawAngles(s: string)
    ensures '<' !in ParseIRCFormatting(s) && '>' !in ParseIRCFormatting(s)
  {
    EscapeStage(RunPasses(s, ControlPasses));
    EscapeNoAngles(RunPasses(s, ControlPasses));
  }

  /** The control passes, one by one. */
  lemma ControlSteps(s: string)
    ensures RunPasses(s, ControlPasses)
         == ReplaceAll(ReplaceAll(ReplaceAll(ReplaceAll(ReplaceAll(ReplaceAll(s,
              ColorCode), IrcBold), IrcItalic), IrcUnderline), IrcReverse), IrcReset)
  {
    var ps := ControlPasses;
    var s1 := ReplaceAll(s, ColorCode);
    var s2 := ReplaceAll(s1, IrcBold);
    var s3 := ReplaceAll(s2, IrcItalic);
    var s4 := ReplaceAll(s3, IrcUnderline);
    var s5 := ReplaceAll(s4, IrcReverse);
    var s6 := ReplaceAll(s5, IrcReset);
    assert ps[0] == Pass(COLOR, ColorCode);
    assert RunPasses(s, ps) == RunPasses(s1, ps[1..]);
    assert ps[1..][0] == Pass(BOLD, IrcBold);
    assert RunPasses(s1, ps[1..]) == RunPasses(s2, ps[2..]);
    assert ps[2..][0] == Pass(ITALIC, IrcItalic);
    assert RunPasses(s2, ps[2..]) == RunPasses(s3, ps[3..]);
    assert ps[3..][0] == Pass(UNDERLINE, IrcUnderline);
    assert RunPasses(s3, ps[3..]) == RunPasses(s4, ps[4..]);
    assert ps[4..][0] == Pass(REVERSE, IrcReverse);
    assert RunPasses(s4, ps[4..]) == RunPasses(s5, ps[5..]);
    assert ps[5..][0] == Pass(RESET, IrcReset);
    assert RunPasses(s5, ps[5..]) == RunPasses(s6, ps[6..]);
    assert ps[6..] == [];
  }

  /** A control pair never brings in a character its span did not hold,
      other than its wrapping. */
  lemma PairKeepsAt(x: string, c: char, wrap: string, d: char)
    requires d !in wrap && Fits(x, ControlPair(x, c, wrap))
    requires d in ControlPair(x, c, wrap).value.out
    ensures d in x[..ControlPair(x, c, wrap).value.len]
  {
    var j := Upto(x, 1, {c});
    var out := wrap + x[1..j] + wrap;
    var i :| 0 <= i < |out| && out[i] == d;
    assert x[1..j][i - |wrap|] == x[..j + 1][i - |wrap| + 1];
  }

  /** No control pass brings in a control character. */
  lemma ControlKeeps(d: char)
    requires d in Controls
    ensures Keeps(IrcBold, d) && Keeps(IrcItalic, d) && Keeps(IrcUnderline, d)
    ensures Keeps(IrcReverse, d) && Keeps(IrcReset, d)
  {
    forall x | Fits(x, IrcBold(x)) && d in IrcBold(x).value.out ensures d in x[..IrcBold(x).value.len] {
      PairKeepsAt(x, BOLD, "*", d);
    }
    forall x | Fits(x, IrcItalic(x)) && d in IrcItalic(x).value.out ensures d in x[..IrcItalic(x).value.len] {
      PairKeepsAt(x, ITALIC, "_", d);
    }
    forall x | Fits(x, IrcUnderline(x)) && d in IrcUnderline(x).value.out ensures d in x[..IrcUnderline(x).value.len] {
      PairKeepsAt(x, UNDERLINE, "_", d);
    }
  }

  /** The control stage leaves no `\x03`, `\x16` or `\x0F`. */
  lemma ControlStageRemoves(s: string)
    ensures COLOR !in RunPasses(s, ControlPasses)
    ensures REVERSE !in RunPasses(s, ControlPasses)
    ensures RESET !in RunPasses(s, ControlPasses)
  {
    var s1 := ReplaceAll(s, ColorCode);
    var s2 := ReplaceAll(s1, IrcBold);
    var s3 := ReplaceAll(s2, IrcItalic);
    var s4 := ReplaceAll(s3, IrcUnderline);
    var s5 := ReplaceAll(s4, IrcReverse);
    var s6 := ReplaceAll(s5, IrcReset);
    ControlSteps(s);
    ColorRemoved(s);
    ControlKeeps(COLOR);
    ControlKeeps(REVERSE);
    ReplaceAllChars(s1, IrcBold, COLOR);
    ReplaceAllChars(s2, IrcItalic, COLOR);
    ReplaceAllChars(s3, IrcUnderline, COLOR);
    ReplaceAllChars(s4, IrcReverse, COLOR);
    ReplaceAllChars(s5, IrcReset, COLOR);
    LiteralRemoved(s4, REVERSE, IrcReverse);
    ReplaceAllChars(s5, IrcReset, REVERSE);
    LiteralRemoved(s5, RESET, IrcReset);
  }

  /** parseIRCFormatting deletes every colour code: `\x03` never survives,
      and neither do reverse `\x16` and reset `\x0F`. */
  lemma NoColorReverseReset(s: string)
    ensures COLOR !in ParseIRCFormatting(s)
    ensures REVERSE !in ParseIRCFormatting(s)
    ensures RESET !in ParseIRCFormatting(s)
  {
    var t := RunPasses(s, ControlPasses);
    ControlStageRemoves(s);
    EscapeStage(t);
    EscapeKeeps(t, COLOR);
    EscapeKeeps(t, REVERSE);
    EscapeKeeps(t, RESET);
  }

  /** The colour pass leaves no `\x03`. */
  lemma ColorRemoved(s: string)
    ensures COLOR !in ReplaceAll(s, ColorCode)
  {
    forall x | |x| > 0 && x[0] == COLOR ensures Starts(ColorCode, x) {
    }
    Removes(s, ColorCode, COLOR);
  }

  /** A pass deleting every occurrence of `c` leaves none. */
  lemma LiteralRemoved(s: string, c: char, m: string -> Option<Hit>)
    requires forall x :: m(x) == LiteralHit([c], "", x)
    ensures c !in ReplaceAll(s, m)
  {
    forall x | |x| > 0 && x[0] == c ensures Starts(m, x) {
      assert x[..1] == [c];
    }
    Removes(s, m, c);
  }

  /** Escaping brings in no control character. */
  lemma {:induction false} EscapeKeeps(s: string, c: char)
    requires c in Controls && c !in s
    ensures c !in EscapeHtml(s)
    decreases |s|
  {
    if s != [] {
      EscapeKeeps(s[1..], c);
    }
  }

  // ---------------------------------------------------------------------
  // Pairs, colours, reverse and reset.

  /** The control passes before the `k`th are anchored elsewhere than the
      `k`th: their anchors are the control characters in source order. */
  lemma ControlAnchorOrder()
    ensures ControlPasses[0] == Pass(COLOR, ColorCode) && ControlPasses[1] == Pass(BOLD, IrcBold)
    ensures ControlPasses[2] == Pass(ITALIC, IrcItalic) && ControlPasses[3] == Pass(UNDERLINE, IrcUnderline)
    ensures ControlPasses[4] == Pass(REVERSE, IrcReverse) && ControlPasses[5] == Pass(RESET, IrcReset)
  {
  }

  /** Every pass of `ps` is anchored at a control character. */
  predicate ControlAnchors(ps: seq<Pass>) {
    forall i :: 0 <= i < |ps| ==> ps[i].anchor in Controls
  }

  /** Text of clean parts and characters outside `Controls` is quiet for
      any passes anchored at control characters. */
  lemma CleanQuiet(tok: string, q: string, ps: seq<Pass>)
    requires AllAnchored(ps) && ControlAnchors(ps) && Clean(tok)
    ensures Quiet(tok, q, ps)
  {
    AnchorQuiet(tok, q, ps);
  }

  /** A slice of the control passes is anchored and anchored at controls. */
  lemma ControlSlice(a: nat, b: nat)
    requires a <= b <= |ControlPasses|
    ensures AllAnchored(ControlPasses[a..b]) && ControlAnchors(ControlPasses[a..b])
  {
    ControlAnchored();
    ControlAnchorOrder();
    var ps := ControlPasses[a..b];
    forall i | 0 <= i < |ps| ensures Anchored(ps[i].hit, ps[i].anchor) && ps[i].anchor in Controls {
      assert ps[i] == ControlPasses[a + i];
    }
  }

  /** `ControlPair` matches a whole pair around text without its character. */
  lemma PairMatch(c: char, t: string, q: string, wrap: string)
    requires c !in t
    ensures ControlPair([c] + t + [c] + q, c, wrap) == Some(Hit(|t| + 2, wrap + t + wrap))
  {
    var x := [c] + t + [c] + q;
    UptoIs(x, 1, {c}, 1 + |t|);
    assert x[1..1 + |t|] == t;
  }

  /** Escaping leaves `*` and `_` alone. */
  lemma EscapeWrapped(p: string, w: string, t: string, q: string)
    requires w == "*" || w == "_"
    ensures EscapeHtml(p + w + t + w + q) == EscapeHtml(p) + w + EscapeHtml(t) + w + EscapeHtml(q)
  {
    assert EscapeHtml(w) == w by {
      assert w[1..] == [];
    }
    EscapeAppend(p + w + t + w, q);
    EscapeAppend(p + w + t, w);
    EscapeAppend(p + w, t);
    EscapeAppend(p, w);
  }

  /** Clean text around one control token: the control passes rewrite it
      as its own pass says, then everything is escaped. */
  lemma ControlToken(p: string, tok: string, q: string, out: string, k: nat)
    requires Clean(p) && Clean(q) && Clean(out) && |tok| > 0 && k < |ControlPasses|
    requires Quiet(tok, q, ControlPasses[..k])
    requires ControlPasses[k].hit(tok + q) == Some(Hit(|tok|, out))
    ensures ParseIRCFormatting(p + tok + q) == EscapeHtml(p + out + q)
  {
    ControlAnchored();
    CleanFree(p);
    CleanFree(q);
    ControlSlice(k + 1, |ControlPasses|);
    assert ControlPasses[k + 1..|ControlPasses|] == ControlPasses[k + 1..];
    CleanQuiet(out, q, ControlPasses[k + 1..]);
    PipelineToken(p, tok, q, out, ControlPasses, k);
    EscapeStage(p + out + q);
  }

  /** A pair token is quiet for the control passes before its own. */
  lemma PairQuiet(c: char, t: string, q: string, k: nat)
    requires Clean(t) && 1 <= k <= 3 && c == ControlPasses[k].anchor
    ensures Quiet([c] + t + [c], q, ControlPasses[..k])
  {
    var tok := [c] + t + [c];
    ControlAnchorOrder();
    ControlSlice(0, k);
    assert ControlPasses[0..k] == ControlPasses[..k];
    var ps := ControlPasses[..k];
    forall i, j | 0 <= i < |ps| && 0 <= j < |tok| ensures tok[j] != ps[i].anchor {
      assert ps[i] == ControlPasses[i];
      if 0 < j < |tok| - 1 {
        assert tok[j] == t[j - 1];
      }
    }
    AnchorQuiet(tok, q, ps);
  }

  lemma CleanWrap(w: string, t: string)
    requires Clean(t) && (w == "*" || w == "_" || w == "*_" || w == "_*")
    ensures Clean(w + t + w) && Clean(w + t) && Clean(t + w)
  {
  }

  /** `\x02x\x02` becomes `*x*`; the text between may be empty. */
  lemma BoldPair(p: string, t: string, q: string)
    requires Clean(p) && Clean(t) && Clean(q)
    ensures ParseIRCFormatting(p + ([BOLD] + t + [BOLD]) + q) == EscapeHtml(p) + "*" + EscapeHtml(t) + "*" + EscapeHtml(q)
  {
    var tok := [BOLD] + t + [BOLD];
    assert ControlPasses[1] == Pass(BOLD, IrcBold);
    PairMatch(BOLD, t, q, "*");
    assert tok + q == [BOLD] + t + [BOLD] + q;
    PairQuiet(BOLD, t, q, 1);
    CleanWrap("*", t);
    ControlToken(p, tok, q, "*" + t + "*", 1);
    assert p + ("*" + t + "*") + q == p + "*" + t + "*" + q;
    EscapeWrapped(p, "*", t, q);
  }

  /** `\x1Dx\x1D` becomes `_x_`. */
  lemma ItalicPair(p: string, t: string, q: string)
    requires Clean(p) && Clean(t) && Clean(q)
    ensures ParseIRCFormatting(p + ([ITALIC] + t + [ITALIC]) + q) == EscapeHtml(p) + "_" + EscapeHtml(t) + "_" + EscapeHtml(q)
  {
    var tok := [ITALIC] + t + [ITALIC];
    assert ControlPasses[2] == Pass(ITALIC, IrcItalic);
    PairMatch(ITALIC, t, q, "_");
    assert tok + q == [ITALIC] + t + [ITALIC] + q;
    PairQuiet(ITALIC, t, q, 2);
    CleanWrap("_", t);
    ControlToken(p, tok, q, "_" + t + "_", 2);
    assert p + ("_" + t + "_") + q == p + "_" + t + "_" + q;
    EscapeWrapped(p, "_", t, q);
  }

  /** `\x1Fx\x1F` becomes `_x_` as well. */
  lemma UnderlinePair(p: string, t: string, q: string)
    requires Clean(p) && Clean(t) && Clean(q)
    ensures ParseIRCFormatting(p + ([UNDERLINE] + t + [UNDERLINE]) + q) == EscapeHtml(p) + "_" + EscapeHtml(t) + "_" + EscapeHtml(q)
  {
    var tok := [UNDERLINE] + t + [UNDERLINE];
    assert ControlPasses[3] == Pass(UNDERLINE, IrcUnderline);
    PairMatch(UNDERLINE, t, q, "_");
    assert tok + q == [UNDERLINE] + t + [UNDERLINE] + q;
    PairQuiet(UNDERLINE, t, q, 3);
    CleanWrap("_", t);
    ControlToken(p, tok, q, "_" + t + "_", 3);
    assert p + ("_" + t + "_") + q == p + "_" + t + "_" + q;
    EscapeWrapped(p, "_", t, q);
  }

  /** The bold pair of a nesting is quiet for the colour pass. */
  lemma NestQuiet(t: string, q: string)
    requires Clean(t)
    ensures Quiet([BOLD] + ([ITALIC] + t + [ITALIC]) + [BOLD], q, ControlPasses[..2][..1])
  {
    var tok := [BOLD] + ([ITALIC] + t + [ITALIC]) + [BOLD];
    ControlSlice(0, 1);
    var ps := ControlPasses[..2][..1];
    assert ps == ControlPasses[0..1];
    assert ps[0] == Pass(COLOR, ColorCode);
    forall i, j | 0 <= i < |ps| && 0 <= j < |tok| ensures tok[j] != ps[i].anchor {
      if 1 < j < |tok| - 2 {
        assert tok[j] == t[j - 2];
      }
    }
    AnchorQuiet(tok, q, ps);
  }

  /** The bold pass of a bold pair around an italic pair. */
  lemma BoldStage(p: string, t: string, q: string)
    requires Clean(p) && Clean(t) && Clean(q)
    ensures RunPasses(p + ([BOLD] + ([ITALIC] + t + [ITALIC]) + [BOLD]) + q, ControlPasses[..2])
         == p + ("*" + ([ITALIC] + t + [ITALIC]) + "*") + q
  {
    var inner := [ITALIC] + t + [ITALIC];
    BoldFrame(p, q);
    BoldMatch(t, q);
    NestQuiet(t, q);
    PipelineToken(p, [BOLD] + inner + [BOLD], q, "*" + inner + "*", ControlPasses[..2], 1);
  }

  /** The colour and bold passes are anchored and absent from clean text. */
  lemma BoldFrame(p: string, q: string)
    requires Clean(p) && Clean(q)
    ensures AllAnchored(ControlPasses[..2])
    ensures Free(p, ControlPasses[..2]) && Free(q, ControlPasses[..2])
  {
    ControlSlice(0, 2);
    assert ControlPasses[0..2] == ControlPasses[..2];
    CleanFree(p);
    CleanFree(q);
    FreeSlice(p, ControlPasses, 0, 2);
    FreeSlice(q, ControlPasses, 0, 2);
  }

  /** The bold pass replaces the whole bold span and nothing follows it. */
  lemma BoldMatch(t: string, q: string)
    requires Clean(t)
    ensures var inner := [ITALIC] + t + [ITALIC];
      ControlPasses[..2][1].hit([BOLD] + inner + [BOLD] + q) == Some(Hit(|[BOLD] + inner + [BOLD]|, "*" + inner + "*"))
      && Quiet("*" + inner + "*", q, ControlPasses[..2][2..])
  {
    var inner := [ITALIC] + t + [ITALIC];
    assert ControlPasses[..2][1] == Pass(BOLD, IrcBold);
    PairMatch(BOLD, inner, q, "*");
    assert ControlPasses[..2][2..] == [];
  }

  /** The control passes after the bold one. */
  lemma AfterBold()
    ensures AllAnchored(ControlPasses[2..]) && ControlAnchors(ControlPasses[2..])
  {
    ControlSlice(2, 6);
    assert ControlPasses[2..6] == ControlPasses[2..];
  }

  /** The first of them is the italic pass. */
  lemma ItalicHead(t: string, q: string)
    requires Clean(t)
    ensures ControlPasses[2..][0].hit([ITALIC] + t + [ITALIC] + q) == Some(Hit(|t| + 2, "_" + t + "_"))
  {
    assert ControlPasses[2..][0] == Pass(ITALIC, IrcItalic);
    PairMatch(ITALIC, t, q, "_");
  }

  /** Passes headed by the italic pass turn the italic pair into `_x_`. */
  lemma ItalicStage(p: string, t: string, q: string, ps: seq<Pass>)
    requires Clean(p) && Clean(t) && Clean(q)
    requires AllAnchored(ps) && ControlAnchors(ps) && |ps| > 0
    requires ps[0].hit([ITALIC] + t + [ITALIC] + ("*" + q)) == Some(Hit(|t| + 2, "_" + t + "_"))
    ensures RunPasses((p + "*") + ([ITALIC] + t + [ITALIC]) + ("*" + q), ps)
         == (p + "*") + ("_" + t + "_") + ("*" + q)
  {
    assert AllAnchored(ps[1..]) && ControlAnchors(ps[1..]) by {
      forall i | 0 <= i < |ps| - 1 ensures Anchored(ps[1..][i].hit, ps[1..][i].anchor) && ps[1..][i].anchor in Controls {
        assert ps[1..][i] == ps[i + 1];
      }
    }
    CleanWrap("_", t);
    CleanQuiet("_" + t + "_", "*" + q, ps[1..]);
    assert ps[..0] == [];
    assert Clean(p + "*") && Clean("*" + q);
    assert Free(p + "*", ps) && Free("*" + q, ps);
    PipelineToken(p + "*", [ITALIC] + t + [ITALIC], "*" + q, "_" + t + "_", ps, 0);
  }

  /** The italic stage on the control passes after the bold one. */
  lemma ItalicAfterBold(p: string, t: string, q: string)
    requires Clean(p) && Clean(t) && Clean(q)
    ensures RunPasses((p + "*") + ([ITALIC] + t + [ITALIC]) + ("*" + q), ControlPasses[2..])
         == (p + "*") + ("_" + t + "_") + ("*" + q)
  {
    AfterBold();
    ItalicHead(t, "*" + q);
    ItalicStage(p, t, q, ControlPasses[2..]);
  }

  /** The control passes on a bold pair around an italic pair. */
  lemma NestedControls(p: string, t: string, q: string)
    requires Clean(p) && Clean(t) && Clean(q)
    ensures RunPasses(p + ([BOLD, ITALIC] + t + [ITALIC, BOLD]) + q, ControlPasses) == p + "*_" + t + "_*" + q
  {
    var inner := [ITALIC] + t + [ITALIC];
    var x := p + ([BOLD] + inner + [BOLD]) + q;
    assert p + ([BOLD, ITALIC] + t + [ITALIC, BOLD]) + q == x;
    BoldStage(p, t, q);
    assert p + ("*" + inner + "*") + q == (p + "*") + inner + ("*" + q);
    ItalicAfterBold(p, t, q);
    assert (p + "*") + ("_" + t + "_") + ("*" + q) == p + "*_" + t + "_*" + q;
    assert ControlPasses == ControlPasses[..2] + ControlPasses[2..];
    RunPassesAppend(x, ControlPasses[..2], ControlPasses[2..]);
  }

  /** Nesting: `\x02\x1Dx\x1D\x02` becomes `*_x_*`. */
  lemma NestedBoldItalic(p: string, t: string, q: string)
    requires Clean(p) && Clean(t) && Clean(q)
    ensures ParseIRCFormatting(p + ([BOLD, ITALIC] + t + [ITALIC, BOLD]) + q)
         == EscapeHtml(p) + "*_" + EscapeHtml(t) + "_*" + EscapeHtml(q)
  {
    NestedControls(p, t, q);
    EscapeStage(p + "*_" + t + "_*" + q);
    EscapeNested(p, t, q);
  }

  lemma EscapeNested(p: string, t: string, q: string)
    ensures EscapeHtml(p + "*_" + t + "_*" + q) == EscapeHtml(p) + "*_" + EscapeHtml(t) + "_*" + EscapeHtml(q)
  {
    EscapeAppend(p + "*_" + t + "_*", q);
    EscapeAppend(p + "*_" + t, "_*");
    EscapeAppend(p + "*_", t);
    EscapeAppend(p, "*_");
    EscapeDelimiters();
  }

  lemma EscapeDelimiters()
    ensures EscapeHtml("*_") == "*_" && EscapeHtml("_*") == "_*"
  {
    assert "*_"[1..] == "_" && "_"[1..] == [];
    assert "_*"[1..] == "*" && "*"[1..] == [];
  }

  /** Each control matcher only matches at its own character. */
  lemma ControlMatchersAnchored()
    ensures Anchored(ColorCode, COLOR) && Anchored(IrcBold, BOLD) && Anchored(IrcItalic, ITALIC)
    ensures Anchored(IrcUnderline, UNDERLINE) && Anchored(IrcReverse, REVERSE) && Anchored(IrcReset, RESET)
  {
    forall x | IrcReverse(x).Some? ensures |x| > 0 && x[0] == REVERSE {
      assert x[..1][0] == x[0];
    }
    forall x | IrcReset(x).Some? ensures |x| > 0 && x[0] == RESET {
      assert x[..1][0] == x[0];
    }
  }

  /** A pass leaves text without its character alone. */
  lemma Untouched(s: string, m: string -> Option<Hit>, c: char)
    requires Anchored(m, c) && c !in s
    ensures ReplaceAll(s, m) == s
  {
    SkipPrefix(s, [], m, c);
    assert s + [] == s;
  }

  /** After the colour pass, clean text passes the other control passes
      unchanged: parseIRCFormatting then only escapes it. */
  lemma ColorOnly(s: string, r: string)
    requires ReplaceAll(s, ColorCode) == r && Clean(r)
    ensures ParseIRCFormatting(s) == EscapeHtml(r)
  {
    ControlSteps(s);
    ControlMatchersAnchored();
    Untouched(r, IrcBold, BOLD);
    Untouched(r, IrcItalic, ITALIC);
    Untouched(r, IrcUnderline, UNDERLINE);
    Untouched(r, IrcReverse, REVERSE);
    Untouched(r, IrcReset, RESET);
    EscapeStage(r);
  }

  /** A colour code without digits is `\x03` alone. */
  lemma ColorBare(rest: string)
    requires |rest| == 0 || !IsDigit(rest[0])
    ensures ColorCode([COLOR] + rest) == Some(Hit(1, ""))
  {
  }

  /** A foreground colour of one or two digits, not followed by a
      background, is removed with its digits. */
  lemma ColorFg(fg: string, rest: string)
    requires 1 <= |fg| <= 2 && forall i :: 0 <= i < |fg| ==> IsDigit(fg[i])
    requires |fg| == 1 && |rest| > 0 ==> !IsDigit(rest[0])
    requires !(|rest| > 1 && rest[0] == ',' && IsDigit(rest[1]))
    ensures ColorCode([COLOR] + fg + rest) == Some(Hit(1 + |fg|, ""))
  {
    var x := [COLOR] + fg + rest;
    assert x[1] == fg[0];
    if |fg| == 2 {
      assert x[2] == fg[1];
    } else if |rest| > 0 {
      assert x[2] == rest[0];
    }
    if |rest| > 1 {
      assert x[1 + |fg|] == rest[0] && x[2 + |fg|] == rest[1];
    }
  }

  /** A foreground and a background colour are removed with the comma. */
  lemma ColorFgBg(fg: string, bg: string, rest: string)
    requires 1 <= |fg| <= 2 && forall i :: 0 <= i < |fg| ==> IsDigit(fg[i])
    requires 1 <= |bg| <= 2 && forall i :: 0 <= i < |bg| ==> IsDigit(bg[i])
    requires |bg| == 1 && |rest| > 0 ==> !IsDigit(rest[0])
    ensures ColorCode([COLOR] + fg + "," + bg + rest) == Some(Hit(2 + |fg| + |bg|, ""))
  {
    var x := [COLOR] + fg + "," + bg + rest;
    var f := 1 + |fg|;
    assert x[1] == fg[0];
    if |fg| == 2 {
      assert x[2] == fg[1];
    }
    assert x[f] == ',';
    assert x[f + 1] == bg[0];
    if |bg| == 2 {
      assert x[f + 2] == bg[1];
    } else if |rest| > 0 {
      assert x[f + 2] == rest[0];
    }
  }

  /** A colour code, text without controls, and a bare closing code:
      the colour pass leaves the text and what follows. */
  lemma ColorSpan(tok: string, t: string, q: string)
    requires |tok| > 0 && ColorCode(tok + (t + ([COLOR] + q))) == Some(Hit(|tok|, ""))
    requires Clean(t) && Clean(q) && (|q| == 0 || !IsDigit(q[0]))
    ensures ReplaceAll(tok + (t + ([COLOR] + q)), ColorCode) == t + q
  {
    ScanToken(tok, t + ([COLOR] + q), ColorCode, "");
    assert "" + ReplaceAll(t + ([COLOR] + q), ColorCode) == ReplaceAll(t + ([COLOR] + q), ColorCode);
    ControlMatchersAnchored();
    assert COLOR !in t && COLOR !in q;
    SkipPrefix(t, [COLOR] + q, ColorCode, COLOR);
    ColorBare(q);
    ScanToken([COLOR], q, ColorCode, "");
    assert "" + ReplaceAll(q, ColorCode) == ReplaceAll(q, ColorCode);
    Untouched(q, ColorCode, COLOR);
  }

  /** `\x03fg,bg` text `\x03` rest: both codes vanish and only the text
      and the rest remain, escaped. */
  lemma ColoredSpan(fg: string, bg: string, t: string, q: string)
    requires 1 <= |fg| <= 2 && forall i :: 0 <= i < |fg| ==> IsDigit(fg[i])
    requires 1 <= |bg| <= 2 && forall i :: 0 <= i < |bg| ==> IsDigit(bg[i])
    requires Clean(t) && Clean(q) && |t| > 0 && !IsDigit(t[0])
    requires |q| == 0 || !IsDigit(q[0])
    ensures ParseIRCFormatting([COLOR] + fg + "," + bg + t + [COLOR] + q) == EscapeHtml(t + q)
  {
    var tok := [COLOR] + fg + "," + bg;
    ColorFgBg(fg, bg, t + ([COLOR] + q));
    ColorSpan(tok, t, q);
    ColoredShape(tok, t, q);
    CleanJoin(t, q);
    ColorOnly(tok + (t + ([COLOR] + q)), t + q);
  }

  lemma ColoredShape(tok: string, t: string, q: string)
    ensures tok + t + [COLOR] + q == tok + (t + ([COLOR] + q))
  {
  }

  lemma CleanJoin(a: string, b: string)
    requires Clean(a) && Clean(b)
    ensures Clean(a + b)
  {
    forall i | 0 <= i < |a + b| ensures (a + b)[i] == (if i < |a| then a[i] else b[i - |a|]) {
    }
  }

  lemma ForegroundMatch(fg: string, t: string, q: string)
    requires 1 <= |fg| <= 2 && forall i :: 0 <= i < |fg| ==> IsDigit(fg[i])
    requires |t| > 0 && !IsDigit(t[0]) && t[0] != ','
    ensures ColorCode(([COLOR] + fg) + (t + ([COLOR] + q))) == Some(Hit(1 + |fg|, ""))
  {
    var rest := t + ([COLOR] + q);
    assert rest[0] == t[0];
    ColorFg(fg, rest);
    assert [COLOR] + fg + rest == ([COLOR] + fg) + rest;
  }

  /** The colour pass on a foreground-only span. */
  lemma ForegroundStage(fg: string, t: string, q: string)
    requires 1 <= |fg| <= 2 && forall i :: 0 <= i < |fg| ==> IsDigit(fg[i])
    requires Clean(t) && Clean(q) && |t| > 0 && !IsDigit(t[0]) && t[0] != ','
    requires |q| == 0 || !IsDigit(q[0])
    ensures ReplaceAll([COLOR] + fg + t + [COLOR] + q, ColorCode) == t + q
  {
    ForegroundMatch(fg, t, q);
    ColorSpan([COLOR] + fg, t, q);
    assert [COLOR] + fg + t + [COLOR] + q == ([COLOR] + fg) + (t + ([COLOR] + q));
  }

  /** `\x03fg` text `\x03` rest, with a foreground colour only. */
  lemma ForegroundSpan(fg: string, t: string, q: string)
    requires 1 <= |fg| <= 2 && forall i :: 0 <= i < |fg| ==> IsDigit(fg[i])
    requires Clean(t) && Clean(q) && |t| > 0 && !IsDigit(t[0]) && t[0] != ','
    requires |q| == 0 || !IsDigit(q[0])
    ensures ParseIRCFormatting([COLOR] + fg + t + [COLOR] + q) == EscapeHtml(t + q)
  {
    ForegroundStage(fg, t, q);
    assert Clean(t + q);
    ColorOnly([COLOR] + fg + t + [COLOR] + q, t + q);
  }

  /** Reverse and reset codes are simply deleted. */
  lemma ReverseResetDeleted(s: string)
    requires COLOR !in s && BOLD !in s && ITALIC !in s && UNDERLINE !in s
    ensures ParseIRCFormatting(s) == EscapeHtml(Subst(Subst(s, REVERSE, ""), RESET, ""))
  {
    ControlSteps(s);
    ControlMatchersAnchored();
    Untouched(s, ColorCode, COLOR);
    Untouched(s, IrcBold, BOLD);
    Untouched(s, IrcItalic, ITALIC);
    Untouched(s, IrcUnderline, UNDERLINE);
    SingleCharIsSubst(s, IrcReverse, REVERSE, "");
    SingleCharIsSubst(Subst(s, REVERSE, ""), IrcReset, RESET, "");
    EscapeStage(Subst(Subst(s, REVERSE, ""), RESET, ""));
  }
}
