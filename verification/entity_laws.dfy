/**
  The entity stage of parseSlackMarkdown (src/parser.ts:50-52) against the
  escaping Slack applies to message text: as written it decodes `&amp;`
  first and then decodes the `&lt;` and `&gt;` that this produced, so text
  that contained a literal entity comes out changed.
*/
module EntityLaws {
  import opened Wrappers
  import opened Scanner
  import opened Parser
  import opened ParserLaws

  lemma EntitiesAnchored()
    ensures Anchored(AmpEntity, '&') && Anchored(LtEntity, '&') && Anchored(GtEntity, '&')
    ensures Anchored(EntityAt, '&')
  {
    forall x | AmpEntity(x).Some? ensures |x| > 0 && x[0] == '&' {
      assert x[..5][0] == x[0];
    }
    forall x | LtEntity(x).Some? ensures |x| > 0 && x[0] == '&' {
      assert x[..4][0] == x[0];
    }
    forall x | GtEntity(x).Some? ensures |x| > 0 && x[0] == '&' {
      assert x[..4][0] == x[0];
    }
    forall x | EntityAt(x).Some? ensures |x| > 0 && x[0] == '&' {
      if StartsWith(x, "&amp;") {
        assert x[..5][0] == x[0];
      } else {
        assert x[..4][0] == x[0];
      }
    }
  }

  /** Escaping distributes over concatenation. */
  lemma {:induction false} EscapeAppend(a: string, b: string)
    ensures EscapeHtml(a + b) == EscapeHtml(a) + EscapeHtml(b)
    decreases |a|
  {
    if a == [] {
      assert a + b == b;
    } else {
      assert (a + b)[0] == a[0];
      assert (a + b)[1..] == a[1..] + b;
      EscapeAppend(a[1..], b);
    }
  }

  /** Escaped text holds no `<` and no `>`. */
  lemma {:induction false} EscapeNoAngles(s: string)
    ensures '<' !in EscapeHtml(s) && '>' !in EscapeHtml(s)
    decreases |s|
  {
    if s != [] {
      EscapeNoAngles(s[1..]);
    }
  }

  /** The corrected entity stage undoes escaping: every string survives the
      round trip. */
  lemma {:induction false} UnescapeEscape(s: string)
    ensures UnescapeEntities(EscapeHtml(s)) == s
    decreases |s|
  {
    if s != [] {
      var c := s[0];
      var e := EscapeChar(c);
      var rest := EscapeHtml(s[1..]);
      assert EscapeHtml(s) == e + rest;
      UnescapeEscape(s[1..]);
      if c == '&' || c == '<' || c == '>' {
        var x := e + rest;
        assert x[..|e|] == e;
        if c != '&' && |x| >= 5 {
          assert x[..5][1] == e[1] == 'l' || x[..5][1] == e[1] == 'g';
        }
        if c == '>' {
          assert x[..4][1] == 'g';
        }
        ScanToken(e, rest, EntityAt, [c]);
      } else {
        assert e == [c];
        assert !Starts(EntityAt, e + rest) by {
          EntitiesAnchored();
        }
        assert ReplaceAll(e + rest, EntityAt) == [c] + ReplaceAll(rest, EntityAt) by {
          assert (e + rest)[1..] == rest;
        }
      }
      assert s == [c] + s[1..];
    }
  }

  /** The three passes as written, one after another. */
  lemma UnescapeAsWrittenSteps(s: string)
    ensures UnescapeAsWritten(s) == ReplaceAll(ReplaceAll(ReplaceAll(s, AmpEntity), LtEntity), GtEntity)
  {
    var ps := EntityPasses;
    var s1 := ReplaceAll(s, AmpEntity);
    var s2 := ReplaceAll(s1, LtEntity);
    var s3 := ReplaceAll(s2, GtEntity);
    assert ps[0] == Pass('&', AmpEntity);
    assert RunPasses(s, ps) == RunPasses(s1, ps[1..]);
    assert ps[1..] == [Pass('&', LtEntity), Pass('&', GtEntity)];
    assert RunPasses(s1, ps[1..]) == RunPasses(s2, ps[2..]);
    assert ps[2..] == [Pass('&', GtEntity)];
    assert RunPasses(s2, ps[2..]) == RunPasses(s3, []);
  }

  /** On escaped text without `&`, the `&amp;` pass finds nothing. */
  lemma {:induction false} AmpPassOnEscaped(s: string)
    requires '&' !in s
    ensures ReplaceAll(EscapeHtml(s), AmpEntity) == EscapeHtml(s)
    decreases |s|
  {
    if s != [] {
      AmpSkipsChar(s[0], EscapeHtml(s[1..]));
      AmpPassOnEscaped(s[1..]);
    }
  }

  /** The `&amp;` pass copies the escape of any character but `&`. */
  lemma AmpSkipsChar(c: char, rest: string)
    requires c != '&'
    ensures ReplaceAll(EscapeChar(c) + rest, AmpEntity) == EscapeChar(c) + ReplaceAll(rest, AmpEntity)
  {
    var e := EscapeChar(c);
    assert Anchored(AmpEntity, '&') by {
      EntitiesAnchored();
    }
    AmpNotAtEscape(c, rest);
    SkipToken(e, rest, AmpEntity, '&');
  }

  /** `&amp;` does not start at an escaped character other than `&`, and
      the escape holds no `&` after its first character. */
  lemma AmpNotAtEscape(c: char, rest: string)
    requires c != '&'
    ensures !Starts(AmpEntity, EscapeChar(c) + rest) && '&' !in EscapeChar(c)[1..]
  {
    var e := EscapeChar(c);
    var x := e + rest;
    if |e| > 1 && |x| >= 5 {
      assert x[..5][1] == e[1];
    }
    if |e| == 1 {
      assert e[1..] == [];
      if |x| >= 5 {
        assert x[..5][0] == e[0];
      }
    }
  }

  /** On escaped text without `&`, the `&lt;` pass leaves only `>` escaped. */
  lemma {:induction false} LtPassOnEscaped(s: string)
    requires '&' !in s
    ensures ReplaceAll(EscapeHtml(s), LtEntity) == Subst(s, '>', "&gt;")
    decreases |s|
  {
    if s != [] {
      var e := EscapeChar(s[0]);
      var rest := EscapeHtml(s[1..]);
      var x := e + rest;
      EntitiesAnchored();
      LtPassOnEscaped(s[1..]);
      if s[0] == '<' {
        assert x[..4] == e;
        ScanToken(e, rest, LtEntity, "<");
      } else {
        if |e| > 1 {
          assert x[..4][1] == e[1];
        }
        SkipToken(e, rest, LtEntity, '&');
      }
    }
  }

  /** Then the `&gt;` pass restores the text. */
  lemma {:induction false} GtPassOnEscaped(s: string)
    requires '&' !in s
    ensures ReplaceAll(Subst(s, '>', "&gt;"), GtEntity) == s
    decreases |s|
  {
    if s != [] {
      GtDecodesChar(s[0], Subst(s[1..], '>', "&gt;"));
      GtPassOnEscaped(s[1..]);
      assert s == [s[0]] + s[1..];
    }
  }

  /** The `&gt;` pass decodes `&gt;` and copies any other character but `&`. */
  lemma GtDecodesChar(c: char, rest: string)
    requires c != '&'
    ensures ReplaceAll((if c == '>' then "&gt;" else [c]) + rest, GtEntity) == [c] + ReplaceAll(rest, GtEntity)
  {
    var e := if c == '>' then "&gt;" else [c];
    var x := e + rest;
    if c == '>' {
      assert x[..4] == e;
      ScanToken(e, rest, GtEntity, ">");
    } else {
      assert Anchored(GtEntity, '&') by {
        EntitiesAnchored();
      }
      SkipToken(e, rest, GtEntity, '&');
    }
  }

  /** As written, the entity stage undoes escaping of text without `&`. */
  lemma UnescapeAsWrittenNoAmp(s: string)
    requires '&' !in s
    ensures UnescapeAsWritten(EscapeHtml(s)) == s
  {
    UnescapeAsWrittenSteps(EscapeHtml(s));
    AmpPassOnEscaped(s);
    LtPassOnEscaped(s);
    GtPassOnEscaped(s);
  }

  /** The `&amp;` pass decodes a leading `&amp;` and copies a tail without `&`. */
  lemma AmpStep(rest: string)
    requires '&' !in rest
    ensures ReplaceAll("&amp;" + rest, AmpEntity) == "&" + rest
  {
    EntitiesAnchored();
    assert ("&amp;" + rest)[..5] == "&amp;";
    ScanToken("&amp;", rest, AmpEntity, "&");
    SkipPrefix(rest, [], AmpEntity, '&');
    assert rest + [] == rest;
  }

  /** The `&lt;` pass decodes a leading `&lt;` and copies a tail without `&`. */
  lemma LtStep(rest: string)
    requires '&' !in rest
    ensures ReplaceAll("&lt;" + rest, LtEntity) == "<" + rest
  {
    EntitiesAnchored();
    assert ("&lt;" + rest)[..4] == "&lt;";
    ScanToken("&lt;", rest, LtEntity, "<");
    SkipPrefix(rest, [], LtEntity, '&');
    assert rest + [] == rest;
  }

  /** The `&gt;` pass copies text without `&`. */
  lemma GtStep(s: string)
    requires '&' !in s
    ensures ReplaceAll(s, GtEntity) == s
  {
    EntitiesAnchored();
    SkipPrefix(s, [], GtEntity, '&');
    assert s + [] == s;
  }

  /** As written, a literal `&lt;` typed in Slack, delivered as `&amp;lt;`,
      comes out as `<`: the `&` decoded by the first pass starts an entity
      for the second.  The single-scan decoder returns `&lt;`. */
  lemma UnescapeAsWrittenDecodesTwice()
    ensures EscapeHtml("&lt;") == "&amp;lt;"
    ensures UnescapeAsWritten(EscapeHtml("&lt;")) == "<"
    ensures UnescapeEntities(EscapeHtml("&lt;")) == "&lt;"
  {
    var lt: string := "&lt;";
    assert EscapeHtml(lt) == "&amp;" + EscapeHtml(lt[1..]);
    assert EscapeHtml("lt;") == "lt;";
    var x := EscapeHtml(lt);
    UnescapeAsWrittenSteps(x);
    AmpStep("lt;");
    assert "&" + "lt;" == lt;
    LtStep([]);
    GtStep("<");
    UnescapeEscape(lt);
  }

  /** The whole of parseSlackMarkdown shows the same: `&amp;lt;` becomes `<`. */
  lemma ParseSlackDecodesTwice()
    ensures ParseSlackMarkdown("&amp;lt;") == "<"
  {
    MarkupAnchored();
    assert Free("&amp;lt;", MarkupPasses);
    PassesIdentity("&amp;lt;", MarkupPasses);
    QuoteLinesIdentity("&amp;lt;", true);
    UnescapeAsWrittenDecodesTwice();
  }

  /** parseSlackMarkdown with the entity stage replaced by the single-scan
      decoder, which decodes each entity once. */
  function ParseSlackMarkdownIntended(text: string): string {
    UnescapeEntities(QuoteLines(RunPasses(text, MarkupPasses), true))
  }

  /** Escaping brings in none of the emphasis or code delimiters. */
  lemma {:induction false} EscapeKeepsDelimiters(s: string, c: char)
    requires c in "*_~`" && c !in s
    ensures c !in EscapeHtml(s)
    decreases |s|
  {
    if s != [] {
      assert s[0] != c;
      assert forall d :: d in s[1..] ==> d in s;
      EscapeKeepsDelimiters(s[1..], c);
    }
  }

  /** Text without emphasis or code delimiters, as Slack delivers it
      escaped, comes out of the corrected formatter exactly as typed,
      entities included. */
  lemma IntendedRoundTrip(s: string)
    requires forall i :: 0 <= i < |s| ==> s[i] != '*' && s[i] != '_' && s[i] != '~' && s[i] != '`'
    ensures ParseSlackMarkdownIntended(EscapeHtml(s)) == s
  {
    var e := EscapeHtml(s);
    EscapedMarkupFree(s);
    MarkupAnchored();
    PassesIdentity(e, MarkupPasses);
    QuoteLinesIdentity(e, true);
    UnescapeEscape(s);
  }

  /** Escaped text without delimiters starts no markup pass. */
  lemma EscapedMarkupFree(s: string)
    requires forall i :: 0 <= i < |s| ==> s[i] != '*' && s[i] != '_' && s[i] != '~' && s[i] != '`'
    ensures Free(EscapeHtml(s), MarkupPasses)
  {
    var e := EscapeHtml(s);
    EscapeNoAngles(s);
    forall c | c in "*_~`"
      ensures c !in e
    {
      EscapeKeepsDelimiters(s, c);
    }
    MarkupAnchorChars();
    forall i, j | 0 <= i < |MarkupPasses| && 0 <= j < |e|
      ensures e[j] != MarkupPasses[i].anchor
    {
      assert e[j] in e;
    }
  }

  /** On the input of the finding, the corrected formatter keeps the
      literal `&lt;`. */
  lemma IntendedKeepsLiteralEntity()
    ensures ParseSlackMarkdownIntended("&amp;lt;") == "&lt;"
  {
    UnescapeAsWrittenDecodesTwice();
    IntendedRoundTrip("&lt;");
  }
}
