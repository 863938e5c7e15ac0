/**
  The text passes of the bridge are global regular-expression replacements
  (`s.replace(/re/g, repl)`).  For every regex used, a match is decided by
  a left-to-right scan: at each position the pattern is tried once; on a
  match the replacement is emitted and scanning resumes after the match, on
  a miss one character is copied.  A matcher (`string -> Option<Hit>`) is
  the regex tried at the start of the remaining input; `ReplaceAll` is the
  global replacement and `RunPasses` a fixed sequence of them.
*/
module Scanner {
  import opened Wrappers

  /** A match at the start of the remaining input: how many characters it
      consumed and the text that replaces them. */
  datatype Hit = Hit(len: nat, out: string)

  /** One global replacement: the literal character every match starts
      with, and the pattern tried at a position. */
  datatype Pass = Pass(anchor: char, hit: string -> Option<Hit>)

  /** A hit the scanner can take: it consumes at least one character and
      no more than remain. */
  predicate Fits(x: string, h: Option<Hit>) {
    h.Some? && 0 < h.value.len <= |x|
  }

  /** The pattern of `m` matches at the start of `x`. */
  predicate Starts(m: string -> Option<Hit>, x: string) {
    Fits(x, m(x))
  }

  /** `s.replace(/m/g, ...)`: a hit is replaced and scanning resumes after
      it; elsewhere characters are copied.  (None of the patterns of the
      bridge can match the empty string; a hit that does not fit is read
      as a miss so that the scan is total.) */
  function ReplaceAll(s: string, m: string -> Option<Hit>): string
    decreases |s|
  {
    if s == [] then []
    else if Starts(m, s) then m(s).value.out + ReplaceAll(s[m(s).value.len..], m)
    else [s[0]] + ReplaceAll(s[1..], m)
  }

  /** The replacements of `ps` applied one after another, first to last. */
  function RunPasses(s: string, ps: seq<Pass>): string
    decreases |ps|
  {
    if ps == [] then s else RunPasses(ReplaceAll(s, ps[0].hit), ps[1..])
  }

  /** End of the longest run from `i` whose characters satisfy `p`: the
      greedy `[...]*` of a character class. */
  function Span(x: string, i: nat, p: char -> bool): (j: nat)
    requires i <= |x|
    ensures i <= j <= |x|
    ensures forall k :: i <= k < j ==> p(x[k])
    ensures j < |x| ==> !p(x[j])
    decreases |x| - i
  {
    if i < |x| && p(x[i]) then Span(x, i + 1, p) else i
  }

  /** End of the longest run from `i` of characters outside `stop`: the
      greedy `[^...]*` of a negated character class. */
  function Upto(x: string, i: nat, stop: set<char>): (j: nat)
    requires i <= |x|
    ensures i <= j <= |x|
    ensures forall k :: i <= k < j ==> x[k] !in stop
    ensures j < |x| ==> x[j] in stop
    decreases |x| - i
  {
    if i < |x| && x[i] !in stop then Upto(x, i + 1, stop) else i
  }

  /** `x` begins with `p`. */
  predicate StartsWith(x: string, p: string) {
    |p| <= |x| && x[..|p|] == p
  }

  /** Every hit of `m` begins with the character `c`. */
  ghost predicate Anchored(m: string -> Option<Hit>, c: char) {
    forall x :: m(x).Some? ==> |x| > 0 && x[0] == c
  }

  /** Each pass is anchored at the character it names. */
  ghost predicate AllAnchored(ps: seq<Pass>) {
    forall i :: 0 <= i < |ps| ==> Anchored(ps[i].hit, ps[i].anchor)
  }

  /** `s` holds none of the characters the passes `ps` start with. */
  predicate Free(s: string, ps: seq<Pass>) {
    forall i, j :: 0 <= i < |ps| && 0 <= j < |s| ==> s[j] != ps[i].anchor
  }

  /** The replacement of `m` never puts `c` into the output unless the
      matched input held it. */
  ghost predicate Keeps(m: string -> Option<Hit>, c: char) {
    forall x :: Fits(x, m(x)) && c in m(x).value.out ==> c in x[..m(x).value.len]
  }

  /** A copied character is never lost: every character of the output came
      from the input or from a replacement. */
  lemma {:induction false} ReplaceAllChars(s: string, m: string -> Option<Hit>, c: char)
    requires Keeps(m, c)
    ensures c in ReplaceAll(s, m) ==> c in s
    decreases |s|
  {
    if s != [] {
      if Starts(m, s) {
        var n := m(s).value.len;
        ReplaceAllChars(s[n..], m, c);
        assert s == s[..n] + s[n..];
      } else {
        ReplaceAllChars(s[1..], m, c);
        assert s == [s[0]] + s[1..];
      }
    }
  }

  /** A scan over a string where the pattern matches nowhere is the identity. */
  lemma {:induction false} NoHitIdentity(s: string, m: string -> Option<Hit>)
    requires forall i :: 0 <= i < |s| ==> !Starts(m, s[i..])
    ensures ReplaceAll(s, m) == s
    decreases |s|
  {
    if s != [] {
      assert s[0..] == s;
      forall i | 0 <= i < |s[1..]| ensures !Starts(m, s[1..][i..]) {
        assert s[1..][i..] == s[i + 1..];
      }
      NoHitIdentity(s[1..], m);
    }
  }

  /** A prefix holding no anchor character is copied unchanged and does not
      disturb the scan of what follows it. */
  lemma {:induction false} SkipPrefix(p: string, y: string, m: string -> Option<Hit>, c: char)
    requires Anchored(m, c)
    requires c !in p
    ensures ReplaceAll(p + y, m) == p + ReplaceAll(y, m)
    decreases |p|
  {
    if p == [] {
      assert p + y == y;
    } else {
      assert (p + y)[0] == p[0];
      assert !Starts(m, p + y);
      assert (p + y)[1..] == p[1..] + y;
      SkipPrefix(p[1..], y, m, c);
    }
  }

  /** A string without anchor characters passes through the whole pipeline. */
  lemma {:induction false} PassesIdentity(s: string, ps: seq<Pass>)
    requires AllAnchored(ps)
    requires Free(s, ps)
    ensures RunPasses(s, ps) == s
    decreases |ps|
  {
    if ps != [] {
      assert Anchored(ps[0].hit, ps[0].anchor);
      forall i | 0 <= i < |s| ensures !Starts(ps[0].hit, s[i..]) {
        assert s[i..][0] == s[i];
      }
      NoHitIdentity(s, ps[0].hit);
      assert AllAnchored(ps[1..]) by {
        forall i | 0 <= i < |ps[1..]| ensures Anchored(ps[1..][i].hit, ps[1..][i].anchor) {
          assert ps[1..][i] == ps[i + 1];
        }
      }
      PassesIdentity(s, ps[1..]);
    }
  }

  /** Likewise a prefix without anchor characters is copied through every pass. */
  lemma {:induction false} PassesSkipPrefix(p: string, y: string, ps: seq<Pass>)
    requires AllAnchored(ps)
    requires Free(p, ps)
    ensures RunPasses(p + y, ps) == p + RunPasses(y, ps)
    decreases |ps|
  {
    if ps != [] {
      assert Anchored(ps[0].hit, ps[0].anchor);
      assert ps[0].anchor !in p by {
        forall j | 0 <= j < |p| ensures p[j] != ps[0].anchor { }
      }
      SkipPrefix(p, y, ps[0].hit, ps[0].anchor);
      assert AllAnchored(ps[1..]) by {
        forall i | 0 <= i < |ps[1..]| ensures Anchored(ps[1..][i].hit, ps[1..][i].anchor) {
          assert ps[1..][i] == ps[i + 1];
        }
      }
      PassesSkipPrefix(p, ReplaceAll(y, ps[0].hit), ps[1..]);
    }
  }

  /** Running a pipeline in two parts is running it whole. */
  lemma {:induction false} RunPassesAppend(s: string, ps: seq<Pass>, qs: seq<Pass>)
    ensures RunPasses(s, ps + qs) == RunPasses(RunPasses(s, ps), qs)
    decreases |ps|
  {
    if ps == [] {
      assert ps + qs == qs;
    } else {
      assert (ps + qs)[0] == ps[0];
      assert (ps + qs)[1..] == ps[1..] + qs;
      RunPassesAppend(ReplaceAll(s, ps[0].hit), ps[1..], qs);
    }
  }

  /** No pass of `ps` matches inside the token `tok` (followed by `q`). */
  ghost predicate Quiet(tok: string, q: string, ps: seq<Pass>) {
    forall i, j :: 0 <= i < |ps| && 0 <= j < |tok| ==> !Starts(ps[i].hit, tok[j..] + q)
  }

  /** How one token travels through a pipeline: the passes before the `k`th
      find nothing in it, the `k`th replaces all of it by `out`, the later
      ones leave `out` alone, and an anchor-free tail `q` is copied throughout. */
  lemma {:induction false} TokenThroughPasses(tok: string, q: string, out: string, ps: seq<Pass>, k: nat)
    requires AllAnchored(ps)
    requires k < |ps| && |tok| > 0
    requires Quiet(tok, q, ps[..k]) && Free(q, ps)
    requires ps[k].hit(tok + q) == Some(Hit(|tok|, out))
    requires Quiet(out, q, ps[k + 1..])
    ensures RunPasses(tok + q, ps) == out + q
  {
    assert ps == ps[..k] + [ps[k]] + ps[k + 1..];
    RunPassesAppend(tok + q, ps[..k] + [ps[k]], ps[k + 1..]);
    RunPassesAppend(tok + q, ps[..k], [ps[k]]);
    assert RunPasses(tok + q, ps[..k]) == tok + q by {
      var before := ps[..k];
      assert AllAnchored(before) by {
        forall i | 0 <= i < |before| ensures Anchored(before[i].hit, before[i].anchor) {
          assert before[i] == ps[i];
        }
      }
      assert Free(q, before) by {
        forall i, j | 0 <= i < |before| && 0 <= j < |q| ensures q[j] != before[i].anchor {
          assert before[i] == ps[i];
        }
      }
      BeforeToken(tok, q, before);
    }
    assert (tok + q)[|tok|..] == q;
    var m := ps[k].hit;
    assert ReplaceAll(q, m) == q by {
      assert Anchored(m, ps[k].anchor);
      forall i | 0 <= i < |q| ensures !Starts(m, q[i..]) {
        assert q[i..][0] == q[i];
      }
      NoHitIdentity(q, m);
    }
    assert RunPasses(tok + q, ps[..k] + [ps[k]]) == out + q;
    var later := ps[k + 1..];
    assert Free(q, later) by {
      forall i, j | 0 <= i < |later| && 0 <= j < |q| ensures q[j] != later[i].anchor {
        assert later[i] == ps[k + 1 + i];
      }
    }
    assert AllAnchored(later) by {
      forall i | 0 <= i < |later| ensures Anchored(later[i].hit, later[i].anchor) {
        assert later[i] == ps[k + 1 + i];
      }
    }
    BeforeToken(out, q, later);
  }

  /** Passes that find nothing in a token leave it, and an anchor-free tail,
      as they are. */
  lemma {:induction false} BeforeToken(tok: string, q: string, ps: seq<Pass>)
    requires AllAnchored(ps)
    requires Quiet(tok, q, ps) && Free(q, ps)
    ensures RunPasses(tok + q, ps) == tok + q
    decreases |ps|
  {
    if ps != [] {
      var m := ps[0].hit;
      assert Anchored(m, ps[0].anchor);
      forall i | 0 <= i < |tok + q| ensures !Starts(m, (tok + q)[i..]) {
        if i < |tok| {
          assert (tok + q)[i..] == tok[i..] + q;
        } else {
          assert (tok + q)[i..][0] == q[i - |tok|];
        }
      }
      NoHitIdentity(tok + q, m);
      var rest := ps[1..];
      assert AllAnchored(rest) by {
        forall i | 0 <= i < |rest| ensures Anchored(rest[i].hit, rest[i].anchor) {
          assert rest[i] == ps[i + 1];
        }
      }
      assert Quiet(tok, q, rest) by {
        forall i, j | 0 <= i < |rest| && 0 <= j < |tok| ensures !Starts(rest[i].hit, tok[j..] + q) {
          assert rest[i] == ps[i + 1];
        }
      }
      assert Free(q, rest) by {
        forall i, j | 0 <= i < |rest| && 0 <= j < |q| ensures q[j] != rest[i].anchor {
          assert rest[i] == ps[i + 1];
        }
      }
      BeforeToken(tok, q, rest);
    }
  }

  /** A token none of whose characters after the first is an anchor of `ps`,
      and at whose start no pass matches, is quiet. */
  lemma QuietFree(tok: string, q: string, ps: seq<Pass>)
    requires AllAnchored(ps) && |tok| > 0
    requires forall i :: 0 <= i < |ps| ==> !Starts(ps[i].hit, tok + q)
    requires Free(tok[1..], ps)
    ensures Quiet(tok, q, ps)
  {
    forall i, j | 0 <= i < |ps| && 0 <= j < |tok| ensures !Starts(ps[i].hit, tok[j..] + q) {
      if j == 0 {
        assert tok[j..] == tok;
      } else {
        assert Anchored(ps[i].hit, ps[i].anchor);
        assert (tok[j..] + q)[0] == tok[1..][j - 1];
      }
    }
  }

  /** A `Span` ends exactly where the run of `p` ends. */
  lemma SpanIs(x: string, i: nat, p: char -> bool, j: nat)
    requires i <= j <= |x|
    requires forall k :: i <= k < j ==> p(x[k])
    requires j < |x| ==> !p(x[j])
    ensures Span(x, i, p) == j
  {
  }

  /** An `Upto` ends exactly at the first stop character. */
  lemma UptoIs(x: string, i: nat, stop: set<char>, j: nat)
    requires i <= j <= |x|
    requires forall k :: i <= k < j ==> x[k] !in stop
    requires j < |x| ==> x[j] in stop
    ensures Upto(x, i, stop) == j
  {
  }

  /** The pattern `pat` taken literally (no metacharacters), replaced by `rep`. */
  function LiteralHit(pat: string, rep: string, x: string): Option<Hit> {
    if |pat| > 0 && StartsWith(x, pat) then Some(Hit(|pat|, rep)) else None
  }

  /** Character-by-character substitution of `c` by `r`. */
  function Subst(s: string, c: char, r: string): string
    decreases |s|
  {
    if s == [] then [] else (if s[0] == c then r else [s[0]]) + Subst(s[1..], c, r)
  }

  /** Substitution distributes over concatenation. */
  lemma {:induction false} SubstAppend(a: string, b: string, c: char, r: string)
    ensures Subst(a + b, c, r) == Subst(a, c, r) + Subst(b, c, r)
    decreases |a|
  {
    if a == [] {
      assert a + b == b;
    } else {
      assert (a + b)[0] == a[0];
      assert (a + b)[1..] == a[1..] + b;
      SubstAppend(a[1..], b, c, r);
    }
  }

  /** A global replacement of a one-character literal is a substitution. */
  lemma {:induction false} SingleCharIsSubst(s: string, m: string -> Option<Hit>, c: char, r: string)
    requires forall x :: m(x) == LiteralHit([c], r, x)
    ensures ReplaceAll(s, m) == Subst(s, c, r)
    decreases |s|
  {
    if s != [] {
      assert m(s) == LiteralHit([c], r, s);
      assert StartsWith(s, [c]) <==> s[0] == c by {
        assert |s| >= 1;
        assert s[..1] == [s[0]];
      }
      SingleCharIsSubst(s[1..], m, c, r);
    }
  }

  /** A hit that consumes exactly the token `tok` replaces it and scanning
      resumes right after it. */
  lemma ScanToken(tok: string, rest: string, m: string -> Option<Hit>, out: string)
    requires |tok| > 0
    requires m(tok + rest) == Some(Hit(|tok|, out))
    ensures ReplaceAll(tok + rest, m) == out + ReplaceAll(rest, m)
  {
    assert (tok + rest)[|tok|..] == rest;
  }

  /** A pass whose pattern matches at every occurrence of `c` and whose
      replacements never contain `c` leaves no `c` behind. */
  lemma {:induction false} Removes(s: string, m: string -> Option<Hit>, c: char)
    requires forall x :: |x| > 0 && x[0] == c ==> Starts(m, x)
    requires forall x :: Fits(x, m(x)) ==> c !in m(x).value.out
    ensures c !in ReplaceAll(s, m)
    decreases |s|
  {
    if s != [] {
      if Starts(m, s) {
        Removes(s[m(s).value.len..], m, c);
      } else {
        Removes(s[1..], m, c);
      }
    }
  }

  /** Anchor-freedom survives taking a slice of the passes. */
  lemma FreeSlice(s: string, ps: seq<Pass>, a: nat, b: nat)
    requires a <= b <= |ps| && Free(s, ps)
    ensures Free(s, ps[a..b])
  {
    forall i, j | 0 <= i < b - a && 0 <= j < |s| ensures s[j] != ps[a..b][i].anchor {
      assert ps[a..b][i] == ps[a + i];
    }
  }

  /** A token holding none of the anchors of the passes before its own. */
  lemma AnchorQuiet(tok: string, q: string, ps: seq<Pass>)
    requires AllAnchored(ps) && Free(tok, ps)
    ensures Quiet(tok, q, ps)
  {
    forall i, j | 0 <= i < |ps| && 0 <= j < |tok| ensures !Starts(ps[i].hit, tok[j..] + q) {
      assert Anchored(ps[i].hit, ps[i].anchor);
      assert (tok[j..] + q)[0] == tok[j];
    }
  }

  /** A token between anchor-free text goes through a pipeline as in
      `TokenThroughPasses`, and the text around it is copied. */
  lemma PipelineToken(p: string, tok: string, q: string, out: string, ps: seq<Pass>, k: nat)
    requires AllAnchored(ps) && Free(p, ps) && Free(q, ps)
    requires |tok| > 0 && k < |ps| && Quiet(tok, q, ps[..k])
    requires ps[k].hit(tok + q) == Some(Hit(|tok|, out))
    requires Quiet(out, q, ps[k + 1..])
    ensures RunPasses(p + tok + q, ps) == p + out + q
  {
    assert p + tok + q == p + (tok + q);
    PassesSkipPrefix(p, tok + q, ps);
    TokenThroughPasses(tok, q, out, ps, k);
  }

  /** A token at whose start the pattern does not match, holding its anchor
      only at its start, is copied and scanning goes on after it. */
  lemma SkipToken(tok: string, rest: string, m: string -> Option<Hit>, c: char)
    requires Anchored(m, c) && |tok| > 0
    requires !Starts(m, tok + rest) && c !in tok[1..]
    ensures ReplaceAll(tok + rest, m) == tok + ReplaceAll(rest, m)
  {
    assert (tok + rest)[1..] == tok[1..] + rest;
    SkipPrefix(tok[1..], rest, m, c);
    assert tok == [tok[0]] + tok[1..];
  }
}
