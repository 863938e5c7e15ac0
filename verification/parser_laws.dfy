/**
  What the two formatting pipelines of src/parser.ts do to the tokens the
  bridge sees, proved from their definitions in module Parser.
*/
module ParserLaws {
  import opened Wrappers
  import opened Scanner
  import opened Parser

  // ---------------------------------------------------------------------
  // Every pass starts at the literal character its regex starts with.

  lemma LiteralAnchored(pat: string, rep: string)
    requires |pat| > 0
    ensures Anchored(x => LiteralHit(pat, rep, x), pat[0])
  {
    forall x | LiteralHit(pat, rep, x).Some? ensures |x| > 0 && x[0] == pat[0] {
      assert x[..|pat|][0] == x[0];
    }
  }

  lemma AtZero(x: string, p: string)
    requires |p| > 0 && At(x, 0, p)
    ensures |x| > 0 && x[0] == p[0]
  {
    assert x[0..|p|][0] == x[0];
  }

  lemma ChannelNamedAnchored()
    ensures Anchored(ChannelNamed, '<')
  {
    forall x | ChannelNamed(x).Some? ensures |x| > 0 && x[0] == '<' {
      AtZero(x, "<#");
    }
  }

  lemma ChannelBareAnchored()
    ensures Anchored(ChannelBare, '<')
  {
    forall x | ChannelBare(x).Some? ensures |x| > 0 && x[0] == '<' {
      AtZero(x, "<#");
    }
  }

  lemma LinkNamedAnchored()
    ensures Anchored(LinkNamed, '<')
  {
    forall x | LinkNamed(x).Some? ensures |x| > 0 && x[0] == '<' {
      AtZero(x, "<");
    }
  }

  lemma LinkBareAnchored()
    ensures Anchored(LinkBare, '<')
  {
    forall x | LinkBare(x).Some? ensures |x| > 0 && x[0] == '<' {
      AtZero(x, "<");
    }
  }

  lemma MailtoNamedAnchored()
    ensures Anchored(MailtoNamed, '<')
  {
    forall x | MailtoNamed(x).Some? ensures |x| > 0 && x[0] == '<' {
      AtZero(x, "<mailto:");
    }
  }

  lemma MailtoBareAnchored()
    ensures Anchored(MailtoBare, '<')
  {
    forall x | MailtoBare(x).Some? ensures |x| > 0 && x[0] == '<' {
      AtZero(x, "<mailto:");
    }
  }

  lemma SubteamNamedAnchored()
    ensures Anchored(SubteamNamed, '<')
  {
    forall x | SubteamNamed(x).Some? ensures |x| > 0 && x[0] == '<' {
      AtZero(x, "<!subteam^");
    }
  }

  lemma SubteamBareAnchored()
    ensures Anchored(SubteamBare, '<')
  {
    forall x | SubteamBare(x).Some? ensures |x| > 0 && x[0] == '<' {
      AtZero(x, "<!subteam^");
    }
  }

  lemma DateFallbackAnchored()
    ensures Anchored(DateFallback, '<')
  {
    forall x | DateFallback(x).Some? ensures |x| > 0 && x[0] == '<' {
      AtZero(x, "<!date^");
    }
  }

  lemma CodeBlockAnchored()
    ensures Anchored(CodeBlock, '`')
  {
    forall x | CodeBlock(x).Some? ensures |x| > 0 && x[0] == '`' {
      AtZero(x, "```");
    }
  }

  lemma MarkupAnchored()
    ensures AllAnchored(MarkupPasses)
  {
    var ps := MarkupPasses;
    forall i | 0 <= i < |ps| ensures Anchored(ps[i].hit, ps[i].anchor) {
      if i == 0 {
        assert ps[i] == Pass('<', ChannelNamed);
        ChannelNamedAnchored();
      } else if i == 1 {
        assert ps[i] == Pass('<', ChannelBare);
        ChannelBareAnchored();
      } else if i == 2 {
        assert ps[i] == Pass('<', LinkNamed);
        LinkNamedAnchored();
      } else if i == 3 {
        assert ps[i] == Pass('<', LinkBare);
        LinkBareAnchored();
      } else if i == 4 {
        assert ps[i] == Pass('<', MailtoNamed);
        MailtoNamedAnchored();
      } else if i == 5 {
        assert ps[i] == Pass('<', MailtoBare);
        MailtoBareAnchored();
      } else if i == 6 {
        assert ps[i] == Pass('<', Here);
        LiteralsAnchored();
      } else if i == 7 {
        assert ps[i] == Pass('<', ChannelAll);
        LiteralsAnchored();
      } else if i == 8 {
        assert ps[i] == Pass('<', Everyone);
        LiteralsAnchored();
      } else if i == 9 {
        assert ps[i] == Pass('<', SubteamNamed);
        SubteamNamedAnchored();
      } else if i == 10 {
        assert ps[i] == Pass('<', SubteamBare);
        SubteamBareAnchored();
      } else if i == 11 {
        assert ps[i] == Pass('<', DateFallback);
        DateFallbackAnchored();
      } else if i == 12 {
        assert ps[i] == Pass('*', Bold);
      } else if i == 13 {
        assert ps[i] == Pass('_', Italic);
      } else if i == 14 {
        assert ps[i] == Pass('~', Strike);
      } else if i == 15 {
        assert ps[i] == Pass('`', CodeBlock);
        CodeBlockAnchored();
      } else {
        assert ps[i] == Pass('`', InlineCode);
      }
    }
  }

  lemma LiteralsAnchored()
    ensures Anchored(Here, '<') && Anchored(ChannelAll, '<') && Anchored(Everyone, '<')
  {
    forall x | Here(x).Some? ensures |x| > 0 && x[0] == '<' {
      assert x[..7][0] == x[0];
    }
    forall x | ChannelAll(x).Some? ensures |x| > 0 && x[0] == '<' {
      assert x[..10][0] == x[0];
    }
    forall x | Everyone(x).Some? ensures |x| > 0 && x[0] == '<' {
      assert x[..11][0] == x[0];
    }
  }

  lemma EntityAnchored()
    ensures AllAnchored(EntityPasses)
  {
    forall x | AmpEntity(x).Some? || LtEntity(x).Some? || GtEntity(x).Some? ensures |x| > 0 && x[0] == '&' {
      if AmpEntity(x).Some? { assert x[..5][0] == x[0]; }
      if LtEntity(x).Some? { assert x[..4][0] == x[0]; }
      if GtEntity(x).Some? { assert x[..4][0] == x[0]; }
    }
  }

  lemma ControlAnchored()
    ensures AllAnchored(ControlPasses)
  {
    forall x | IrcReverse(x).Some? ensures |x| > 0 && x[0] == REVERSE {
      assert x[..1][0] == x[0];
    }
    forall x | IrcReset(x).Some? ensures |x| > 0 && x[0] == RESET {
      assert x[..1][0] == x[0];
    }
  }

  lemma EscapeAnchored()
    ensures AllAnchored(EscapePasses)
  {
    forall x | AmpEscape(x).Some? ensures |x| > 0 && x[0] == '&' {
      assert x[..1][0] == x[0];
    }
    forall x | LtEscape(x).Some? ensures |x| > 0 && x[0] == '<' {
      assert x[..1][0] == x[0];
    }
    forall x | GtEscape(x).Some? ensures |x| > 0 && x[0] == '>' {
      assert x[..1][0] == x[0];
    }
  }

  // ---------------------------------------------------------------------
  // Slack to IRC.

  /** No character any Slack pass starts with. */
  predicate Plain(s: string) {
    forall i :: 0 <= i < |s| ==> s[i] != '<' && s[i] != '*' && s[i] != '_' && s[i] != '~' && s[i] != '`' && s[i] != '&'
  }

  lemma PlainJoin(a: string, b: string)
    requires Plain(a) && Plain(b)
    ensures Plain(a + b)
  {
    forall i | 0 <= i < |a + b| ensures (a + b)[i] == (if i < |a| then a[i] else b[i - |a|]) {
    }
  }

  lemma SchemePlain(scheme: string)
    requires IsScheme(scheme)
    ensures Plain(scheme) && |scheme| > 0 && scheme[0] == 'h'
  {
  }

  lemma PlainFree(s: string)
    requires Plain(s)
    ensures Free(s, MarkupPasses) && Free(s, EntityPasses)
  {
  }

  /** The block-quote pass `replace(/^>/gm, ">")` changes nothing. */
  lemma {:induction false} QuoteLinesIdentity(s: string, lineStart: bool)
    ensures QuoteLines(s, lineStart) == s
    decreases |s|
  {
    if s != [] {
      QuoteLinesIdentity(s[1..], IsLineTerminator(s[0]));
      assert s == [s[0]] + s[1..];
    }
  }

  /** Text with no markup character is left as it is. */
  lemma SlackPlainIdentity(s: string)
    requires Plain(s)
    ensures ParseSlackMarkdown(s) == s
  {
    MarkupAnchored();
    EntityAnchored();
    PlainFree(s);
    PassesIdentity(s, MarkupPasses);
    QuoteLinesIdentity(s, true);
    PassesIdentity(s, EntityPasses);
  }

  /** One token between plain text: the markup passes before its own leave
      it alone, its own pass rewrites it, and nothing later touches the
      rewrite. */
  lemma SlackToken(p: string, tok: string, q: string, out: string, k: nat)
    requires Plain(p) && Plain(q) && |tok| > 0 && k < |MarkupPasses|
    requires Quiet(tok, q, MarkupPasses[..k])
    requires MarkupPasses[k].hit(tok + q) == Some(Hit(|tok|, out))
    requires Plain(out)
    ensures ParseSlackMarkdown(p + tok + q) == p + out + q
  {
    MarkupAnchored();
    PlainFree(out);
    FreeSlice(out, MarkupPasses, k + 1, |MarkupPasses|);
    assert MarkupPasses[k + 1..|MarkupPasses|] == MarkupPasses[k + 1..];
    LaterAnchored(k);
    AnchorQuiet(out, q, MarkupPasses[k + 1..]);
    SlackTokenQuiet(p, tok, q, out, k);
  }

  /** As `SlackToken`, for a rewrite that the later passes find nothing in. */
  lemma SlackTokenQuiet(p: string, tok: string, q: string, out: string, k: nat)
    requires Plain(p) && Plain(q) && |tok| > 0 && k < |MarkupPasses|
    requires Quiet(tok, q, MarkupPasses[..k])
    requires MarkupPasses[k].hit(tok + q) == Some(Hit(|tok|, out))
    requires Quiet(out, q, MarkupPasses[k + 1..]) && '&' !in out
    ensures ParseSlackMarkdown(p + tok + q) == p + out + q
  {
    MarkupAnchored();
    PlainFree(p);
    PlainFree(q);
    PipelineToken(p, tok, q, out, MarkupPasses, k);
    assert '&' !in p + out + q;
    AmpFreeTail(p + out + q);
  }

  lemma LaterAnchored(k: nat)
    requires k < |MarkupPasses|
    ensures AllAnchored(MarkupPasses[k + 1..])
  {
    MarkupAnchored();
    var later := MarkupPasses[k + 1..];
    forall i | 0 <= i < |later| ensures Anchored(later[i].hit, later[i].anchor) {
      assert later[i] == MarkupPasses[k + 1 + i];
    }
  }

  /** The stages after the markup passes leave text without `&` as it is. */
  lemma AmpFreeTail(s: string)
    requires '&' !in s
    ensures UnescapeAsWritten(QuoteLines(s, true)) == s
  {
    EntityAnchored();
    QuoteLinesIdentity(s, true);
    assert Free(s, EntityPasses);
    PassesIdentity(s, EntityPasses);
  }

  /** The markup passes in source order start with these characters. */
  lemma MarkupAnchorChars()
    ensures forall i :: 0 <= i < |MarkupPasses| ==> MarkupPasses[i].anchor == "<<<<<<<<<<<<*_~``"[i]
    ensures forall i :: 0 <= i < |MarkupPasses| ==> MarkupPasses[i].anchor in MarkupAnchors
  {
  }

  /** The characters the markup passes start with. */
  const MarkupAnchors: set<char> := {'<', '*', '_', '~', '`'}

  /** The `<` passes from `lo` to `hi`, by name. */
  lemma NoneBetween(x: string, lo: nat, hi: nat)
    requires hi <= 12
    requires lo <= 0 < hi ==> !Starts(ChannelNamed, x)
    requires lo <= 1 < hi ==> !Starts(ChannelBare, x)
    requires lo <= 2 < hi ==> !Starts(LinkNamed, x)
    requires lo <= 3 < hi ==> !Starts(LinkBare, x)
    requires lo <= 4 < hi ==> !Starts(MailtoNamed, x)
    requires lo <= 5 < hi ==> !Starts(MailtoBare, x)
    requires lo <= 6 < hi ==> !Starts(Here, x)
    requires lo <= 7 < hi ==> !Starts(ChannelAll, x)
    requires lo <= 8 < hi ==> !Starts(Everyone, x)
    requires lo <= 9 < hi ==> !Starts(SubteamNamed, x)
    requires lo <= 10 < hi ==> !Starts(SubteamBare, x)
    requires lo <= 11 < hi ==> !Starts(DateFallback, x)
    ensures forall i :: lo <= i < hi ==> !Starts(MarkupPasses[i].hit, x)
  {
    NoneBelowSix(x, if lo < 6 then lo else 6, if hi < 6 then hi else 6);
    NoneFromSix(x, if lo < 6 then 6 else lo, if hi < 6 then 6 else hi);
  }

  /** The channel, link and mailto passes from `lo` to `hi`. */
  lemma NoneBelowSix(x: string, lo: nat, hi: nat)
    requires hi <= 6
    requires lo <= 0 < hi ==> !Starts(ChannelNamed, x)
    requires lo <= 1 < hi ==> !Starts(ChannelBare, x)
    requires lo <= 2 < hi ==> !Starts(LinkNamed, x)
    requires lo <= 3 < hi ==> !Starts(LinkBare, x)
    requires lo <= 4 < hi ==> !Starts(MailtoNamed, x)
    requires lo <= 5 < hi ==> !Starts(MailtoBare, x)
    ensures forall i :: lo <= i < hi ==> !Starts(MarkupPasses[i].hit, x)
  {
    forall i | lo <= i < hi ensures !Starts(MarkupPasses[i].hit, x) {
      if i == 0 {
        assert MarkupPasses[i] == Pass('<', ChannelNamed);
      } else if i == 1 {
        assert MarkupPasses[i] == Pass('<', ChannelBare);
      } else if i == 2 {
        assert MarkupPasses[i] == Pass('<', LinkNamed);
      } else if i == 3 {
        assert MarkupPasses[i] == Pass('<', LinkBare);
      } else if i == 4 {
        assert MarkupPasses[i] == Pass('<', MailtoNamed);
      } else {
        assert MarkupPasses[i] == Pass('<', MailtoBare);
      }
    }
  }

  /** The special, subteam and date passes from `lo` to `hi`. */
  lemma NoneFromSix(x: string, lo: nat, hi: nat)
    requires 6 <= lo && hi <= 12
    requires lo <= 6 < hi ==> !Starts(Here, x)
    requires lo <= 7 < hi ==> !Starts(ChannelAll, x)
    requires lo <= 8 < hi ==> !Starts(Everyone, x)
    requires lo <= 9 < hi ==> !Starts(SubteamNamed, x)
    requires lo <= 10 < hi ==> !Starts(SubteamBare, x)
    requires lo <= 11 < hi ==> !Starts(DateFallback, x)
    ensures forall i :: lo <= i < hi ==> !Starts(MarkupPasses[i].hit, x)
  {
    forall i | lo <= i < hi ensures !Starts(MarkupPasses[i].hit, x) {
      if i == 6 {
        assert MarkupPasses[i] == Pass('<', Here);
      } else if i == 7 {
        assert MarkupPasses[i] == Pass('<', ChannelAll);
      } else if i == 8 {
        assert MarkupPasses[i] == Pass('<', Everyone);
      } else if i == 9 {
        assert MarkupPasses[i] == Pass('<', SubteamNamed);
      } else if i == 10 {
        assert MarkupPasses[i] == Pass('<', SubteamBare);
      } else {
        assert MarkupPasses[i] == Pass('<', DateFallback);
      }
    }
  }

  /** The markup passes before the `k`th find nothing in a token that begins
      with `<`, is plain after it, and where none of them starts. */
  lemma AngleQuiet(tok: string, q: string, k: nat)
    requires |tok| > 0 && Plain(tok[1..]) && k <= |MarkupPasses|
    requires forall i :: 0 <= i < k ==> !Starts(MarkupPasses[i].hit, tok + q)
    ensures Quiet(tok, q, MarkupPasses[..k])
  {
    var ps := MarkupPasses[..k];
    MarkupAnchored();
    PlainFree(tok[1..]);
    FreeSlice(tok[1..], MarkupPasses, 0, k);
    assert AllAnchored(ps) by {
      forall i | 0 <= i < |ps| ensures Anchored(ps[i].hit, ps[i].anchor) {
        assert ps[i] == MarkupPasses[i];
      }
    }
    forall i | 0 <= i < |ps| ensures !Starts(ps[i].hit, tok + q) {
      assert ps[i] == MarkupPasses[i];
    }
    assert MarkupPasses[0..k] == ps;
    QuietFree(tok, q, ps);
  }

  /** `<#ID|name>` becomes `#name`. */
  lemma ChannelNamedToken(p: string, id: string, name: string, q: string)
    requires Plain(p) && Plain(q) && Plain(name) && '>' !in name && |name| > 0
    requires |id| > 0 && forall i :: 0 <= i < |id| ==> IsIdChar(id[i])
    ensures ParseSlackMarkdown(p + ("<#" + id + "|" + name + ">") + q) == p + ("#" + name) + q
  {
    var tok := "<#" + id + "|" + name + ">";
    var x := tok + q;
    var j := 2 + |id|;
    var k := j + 1 + |name|;
    assert x[0..2] == "<#";
    SpanIs(x, 2, IsIdChar, j);
    UptoIs(x, j + 1, {'>'}, k);
    assert x[j + 1..k] == name;
    assert ChannelNamed(x) == Some(Hit(|tok|, "#" + name));
    SlackToken(p, tok, q, "#" + name, 0);
  }

  /** `<#ID>` becomes `#channel`. */
  lemma ChannelBareToken(p: string, id: string, q: string)
    requires Plain(p) && Plain(q)
    requires |id| > 0 && forall i :: 0 <= i < |id| ==> IsIdChar(id[i])
    ensures ParseSlackMarkdown(p + ("<#" + id + ">") + q) == p + "#channel" + q
  {
    var tok := "<#" + id + ">";
    var x := tok + q;
    var j := 2 + |id|;
    assert x[0..2] == "<#";
    SpanIs(x, 2, IsIdChar, j);
    assert ChannelBare(x) == Some(Hit(|tok|, "#channel"));
    assert !Starts(ChannelNamed, x);
    assert tok[1..] == "#" + id + ">";
    AngleQuiet(tok, q, 1);
    SlackToken(p, tok, q, "#channel", 1);
  }

  predicate IsScheme(scheme: string) {
    scheme == "https://" || scheme == "http://"
  }

  /** The scheme of an http or https url after `<` is recognised. */
  lemma SchemeAt(x: string, scheme: string)
    requires scheme == "https://" || scheme == "http://"
    requires At(x, 1, scheme)
    ensures Scheme(x, 1) == Some(1 + |scheme|)
  {
    if scheme == "http://" {
      assert x[1..8] == scheme;
      assert x[1..8][4] == x[5];
    }
  }

  lemma LinkNamedMatch(scheme: string, host: string, text: string, q: string)
    requires scheme == "https://" || scheme == "http://"
    requires |host| > 0 && '|' !in host && '>' !in host
    requires |text| > 0 && '>' !in text
    ensures LinkNamed("<" + scheme + host + "|" + text + ">" + q)
         == Some(Hit(|scheme + host| + |text| + 3, text + " (" + scheme + host + ")"))
  {
    var x := "<" + scheme + host + "|" + text + ">" + q;
    var j := 1 + |scheme + host|;
    LinkNamedUrl(scheme, host, text, q);
    LinkNamedText(scheme, host, text, q);
    assert text + " (" + (scheme + host) + ")" == text + " (" + scheme + host + ")";
  }

  /** The url of a named link runs from its scheme to the `|`. */
  lemma LinkNamedUrl(scheme: string, host: string, text: string, q: string)
    requires scheme == "https://" || scheme == "http://"
    requires |host| > 0 && '|' !in host && '>' !in host
    ensures var x := "<" + scheme + host + "|" + text + ">" + q;
      At(x, 0, "<") && Scheme(x, 1) == Some(1 + |scheme|)
      && Upto(x, 1 + |scheme|, {'|', '>'}) == 1 + |scheme + host|
      && x[1 + |scheme + host|] == '|' && x[1..1 + |scheme + host|] == scheme + host
  {
    var x := "<" + scheme + host + "|" + text + ">" + q;
    var a := 1 + |scheme|;
    var j := 1 + |scheme + host|;
    assert x[0..1] == "<";
    assert x[1..a] == scheme;
    SchemeAt(x, scheme);
    UptoIs(x, a, {'|', '>'}, j);
    assert x[1..j] == scheme + host;
  }

  /** The text of a named link runs from the `|` to the `>`. */
  lemma LinkNamedText(scheme: string, host: string, text: string, q: string)
    requires |text| > 0 && '>' !in text
    ensures var x := "<" + scheme + host + "|" + text + ">" + q;
      var j := 1 + |scheme + host|;
      Upto(x, j + 1, {'>'}) == j + 1 + |text| && j + 1 + |text| < |x|
      && x[j + 1..j + 1 + |text|] == text
  {
    var x := "<" + scheme + host + "|" + text + ">" + q;
    var j := 1 + |scheme + host|;
    var k := j + 1 + |text|;
    UptoIs(x, j + 1, {'>'}, k);
    assert x[j + 1..k] == text;
  }

  /** The channel patterns need `#` after `<`. */
  lemma NotChannel(x: string)
    requires |x| > 1 && x[1] != '#'
    ensures !Starts(ChannelNamed, x) && !Starts(ChannelBare, x)
  {
    assert x[0..2][1] == x[1];
  }

  /** The passes before `LinkNamed` find nothing in a named link. */
  lemma LinkNamedQuiet(scheme: string, host: string, text: string, q: string)
    requires IsScheme(scheme) && Plain(host) && Plain(text)
    ensures Quiet("<" + scheme + host + "|" + text + ">", q, MarkupPasses[..2])
    ensures Plain(text + " (" + scheme + host + ")")
  {
    var tok := "<" + scheme + host + "|" + text + ">";
    SchemePlain(scheme);
    assert Plain(tok[1..]) by {
      PlainJoin(scheme, host);
      PlainJoin(scheme + host, "|");
      PlainJoin(scheme + host + "|", text);
      PlainJoin(scheme + host + "|" + text, ">");
      assert tok[1..] == scheme + host + "|" + text + ">";
    }
    assert forall i :: 0 <= i < 2 ==> !Starts(MarkupPasses[i].hit, tok + q) by {
      assert (tok + q)[1] == scheme[0];
      NotChannel(tok + q);
      NoneBetween(tok + q, 0, 2);
    }
    AngleQuiet(tok, q, 2);
    PlainJoin(text, " (");
    PlainJoin(text + " (", scheme);
    PlainJoin(text + " (" + scheme, host);
    PlainJoin(text + " (" + scheme + host, ")");
  }

  /** `<url|text>` becomes `text (url)` for an http or https url. */
  lemma LinkNamedToken(p: string, scheme: string, host: string, text: string, q: string)
    requires Plain(p) && Plain(q)
    requires IsScheme(scheme)
    requires |host| > 0 && Plain(host) && '|' !in host && '>' !in host
    requires |text| > 0 && Plain(text) && '>' !in text
    ensures ParseSlackMarkdown(p + ("<" + scheme + host + "|" + text + ">") + q)
         == p + (text + " (" + scheme + host + ")") + q
  {
    LinkNamedQuiet(scheme, host, text, q);
    LinkNamedMatch(scheme, host, text, q);
    SlackToken(p, "<" + scheme + host + "|" + text + ">", q, text + " (" + scheme + host + ")", 2);
  }

  /** `<url>` becomes `url` for an http or https url. */
  lemma LinkBareToken(p: string, scheme: string, host: string, q: string)
    requires Plain(p) && Plain(q)
    requires IsScheme(scheme)
    requires |host| > 0 && Plain(host) && '|' !in host && '>' !in host
    ensures ParseSlackMarkdown(p + ("<" + scheme + host + ">") + q) == p + (scheme + host) + q
  {
    LinkBareFacts(scheme, host, q);
    SlackToken(p, "<" + scheme + host + ">", q, scheme + host, 3);
  }

  lemma LinkBareFacts(scheme: string, host: string, q: string)
    requires IsScheme(scheme)
    requires |host| > 0 && Plain(host) && '|' !in host && '>' !in host
    ensures Quiet("<" + scheme + host + ">", q, MarkupPasses[..3])
    ensures LinkBare("<" + scheme + host + ">" + q) == Some(Hit(|scheme + host| + 2, scheme + host))
    ensures Plain(scheme + host)
  {
    var tok := "<" + scheme + host + ">";
    LinkBareMatch(scheme, host, q);
    SchemePlain(scheme);
    PlainJoin(scheme, host);
    assert Plain(tok[1..]) by {
      PlainJoin(scheme + host, ">");
      assert tok[1..] == scheme + host + ">";
    }
    assert forall i :: 0 <= i < 3 ==> !Starts(MarkupPasses[i].hit, tok + q) by {
      assert (tok + q)[1] == scheme[0];
      NotChannel(tok + q);
      NoneBetween(tok + q, 0, 3);
    }
    AngleQuiet(tok, q, 3);
  }

  lemma LinkBareMatch(scheme: string, host: string, q: string)
    requires IsScheme(scheme)
    requires |host| > 0 && '|' !in host && '>' !in host
    ensures LinkBare("<" + scheme + host + ">" + q) == Some(Hit(|scheme + host| + 2, scheme + host))
    ensures !Starts(LinkNamed, "<" + scheme + host + ">" + q)
  {
    var url := scheme + host;
    var x := "<" + scheme + host + ">" + q;
    var a := 1 + |scheme|;
    var j := 1 + |url|;
    assert x[0..1] == "<";
    assert x[1..a] == scheme;
    SchemeAt(x, scheme);
    UptoIs(x, a, {'>'}, j);
    UptoIs(x, a, {'|', '>'}, j);
    assert x[j] == '>';
    assert x[1..j] == url;
  }

  /** The patterns of the channel, link and mailto tokens need something
      other than `!` after `<`. */
  lemma NotLinkLike(x: string)
    requires |x| > 1 && x[1] == '!'
    ensures !Starts(ChannelNamed, x) && !Starts(ChannelBare, x)
    ensures !Starts(LinkNamed, x) && !Starts(LinkBare, x)
    ensures !Starts(MailtoNamed, x) && !Starts(MailtoBare, x)
  {
    NotChannel(x);
    if |x| >= 8 {
      assert x[1..8][0] == x[1];
      assert x[0..8][1] == x[1];
    }
    if |x| >= 9 {
      assert x[1..9][0] == x[1];
    }
    assert Scheme(x, 1).None?;
  }

  /** `<!word>` only matches its own literal. */
  lemma NotSpecial(x: string)
    requires |x| > 2 && x[1] == '!' && x[2] != 'h' && x[2] != 'c' && x[2] != 'e'
    ensures !Starts(Here, x) && !Starts(ChannelAll, x) && !Starts(Everyone, x)
  {
    if |x| >= 7 { assert x[..7][2] == x[2]; }
    if |x| >= 10 { assert x[..10][2] == x[2]; }
    if |x| >= 11 { assert x[..11][2] == x[2]; }
  }

  /** The words of the three special mentions. */
  predicate IsSpecial(word: string) {
    word == "here" || word == "channel" || word == "everyone"
  }

  /** The pass of each special mention. */
  function SpecialPass(word: string): nat
    requires IsSpecial(word)
  {
    if word == "here" then 6 else if word == "channel" then 7 else 8
  }

  lemma SpecialFacts(word: string, q: string)
    requires IsSpecial(word)
    ensures Quiet("<!" + word + ">", q, MarkupPasses[..SpecialPass(word)])
    ensures MarkupPasses[SpecialPass(word)].hit("<!" + word + ">" + q) == Some(Hit(|word| + 3, "@" + word))
  {
    SpecialMatch(word, q);
    if word == "here" {
      SpecialQuiet(word, q, 6);
      assert MarkupPasses[6] == Pass('<', Here);
      assert "@" + word == "@here";
    } else if word == "channel" {
      SpecialQuiet(word, q, 7);
      assert MarkupPasses[7] == Pass('<', ChannelAll);
      assert "@" + word == "@channel";
    } else {
      SpecialQuiet(word, q, 8);
      assert MarkupPasses[8] == Pass('<', Everyone);
      assert "@" + word == "@everyone";
    }
  }

  lemma SpecialQuiet(word: string, q: string, k: nat)
    requires IsSpecial(word) && k == SpecialPass(word)
    ensures Quiet("<!" + word + ">", q, MarkupPasses[..k])
  {
    var tok := "<!" + word + ">";
    var x := tok + q;
    assert Plain(tok[1..]) by {
      assert tok[1..] == "!" + word + ">";
    }
    assert forall i :: 0 <= i < k ==> !Starts(MarkupPasses[i].hit, x) by {
      NotLinkLike(x);
      SpecialMatch(word, q);
      NoneBetween(x, 0, k);
    }
    AngleQuiet(tok, q, k);
  }

  lemma SpecialMatch(word: string, q: string)
    requires IsSpecial(word)
    ensures word == "here" ==> Here("<!" + word + ">" + q) == Some(Hit(7, "@here"))
    ensures word == "channel" ==> !Starts(Here, "<!" + word + ">" + q)
    ensures word == "channel" ==> ChannelAll("<!" + word + ">" + q) == Some(Hit(10, "@channel"))
    ensures word == "everyone" ==> !Starts(Here, "<!" + word + ">" + q) && !Starts(ChannelAll, "<!" + word + ">" + q)
    ensures word == "everyone" ==> Everyone("<!" + word + ">" + q) == Some(Hit(11, "@everyone"))
  {
    var tok := "<!" + word + ">";
    var x := tok + q;
    assert x[..|tok|] == tok;
    if word == "channel" {
      assert x[..7] != "<!here>" by { assert x[..7][2] == x[2] == word[0] == 'c'; }
    } else if word == "everyone" {
      assert x[..7] != "<!here>" by { assert x[..7][2] == x[2] == word[0] == 'e'; }
      assert x[..10] != "<!channel>" by { assert x[..10][2] == x[2] == word[0] == 'e'; }
    }
  }

  /** `<!here>`, `<!channel>` and `<!everyone>` become `@here`, `@channel`
      and `@everyone`. */
  lemma SpecialToken(p: string, word: string, q: string)
    requires Plain(p) && Plain(q) && IsSpecial(word)
    ensures ParseSlackMarkdown(p + ("<!" + word + ">") + q) == p + ("@" + word) + q
  {
    SpecialFacts(word, q);
    SlackToken(p, "<!" + word + ">", q, "@" + word, SpecialPass(word));
  }

  /** All characters of `id` are `[A-Z0-9]`. */
  predicate IsId(id: string) {
    |id| > 0 && forall i :: 0 <= i < |id| ==> IsIdChar(id[i])
  }

  lemma SubteamMatch(id: string, h: string, q: string)
    requires IsId(id) && |h| > 0 && '>' !in h
    ensures SubteamNamed("<!subteam^" + id + "|" + h + ">" + q) == Some(Hit(|id| + |h| + 12, "@" + h))
    ensures SubteamBare("<!subteam^" + id + ">" + q) == Some(Hit(|id| + 11, "@group"))
    ensures !Starts(SubteamNamed, "<!subteam^" + id + ">" + q)
  {
    var x := "<!subteam^" + id + "|" + h + ">" + q;
    var j := 10 + |id|;
    var k := j + 1 + |h|;
    assert x[0..10] == "<!subteam^";
    SpanIs(x, 10, IsIdChar, j);
    UptoIs(x, j + 1, {'>'}, k);
    assert x[j] == '|' && x[k] == '>';
    assert x[j + 1..k] == h;
    var y := "<!subteam^" + id + ">" + q;
    assert y[0..10] == "<!subteam^";
    SpanIs(y, 10, IsIdChar, j);
    assert y[j] == '>';
  }

  /** The `<!` tokens other than the specials leave the first nine passes
      without a match. */
  lemma BangQuiet(tok: string, q: string, k: nat)
    requires |tok| > 2 && tok[0] == '<' && tok[1] == '!' && tok[2] != 'h' && tok[2] != 'c' && tok[2] != 'e'
    requires Plain(tok[1..]) && 9 <= k <= 12
    requires forall i :: 9 <= i < k ==> !Starts(MarkupPasses[i].hit, tok + q)
    ensures Quiet(tok, q, MarkupPasses[..k])
  {
    var x := tok + q;
    NotLinkLike(x);
    NotSpecial(x);
    NoneBetween(x, 0, 9);
    AngleQuiet(tok, q, k);
  }

  /** `<!subteam^ID|h>` becomes `@h`. */
  lemma SubteamNamedToken(p: string, id: string, h: string, q: string)
    requires Plain(p) && Plain(q) && IsId(id) && |h| > 0 && Plain(h) && '>' !in h
    ensures ParseSlackMarkdown(p + ("<!subteam^" + id + "|" + h + ">") + q) == p + ("@" + h) + q
  {
    SubteamNamedFacts(id, h, q);
    SlackToken(p, "<!subteam^" + id + "|" + h + ">", q, "@" + h, 9);
  }

  lemma SubteamNamedFacts(id: string, h: string, q: string)
    requires IsId(id) && |h| > 0 && Plain(h) && '>' !in h
    ensures Quiet("<!subteam^" + id + "|" + h + ">", q, MarkupPasses[..9])
    ensures MarkupPasses[9].hit("<!subteam^" + id + "|" + h + ">" + q) == Some(Hit(|id| + |h| + 12, "@" + h))
    ensures Plain("@" + h)
  {
    var tok := "<!subteam^" + id + "|" + h + ">";
    SubteamMatch(id, h, q);
    SubteamNamedPlain(id, h);
    BangQuiet(tok, q, 9);
    assert MarkupPasses[9] == Pass('<', SubteamNamed);
    PlainJoin("@", h);
  }

  lemma SubteamNamedPlain(id: string, h: string)
    requires IsId(id) && Plain(h)
    ensures Plain(("<!subteam^" + id + "|" + h + ">")[1..])
  {
    IdPlain(id);
    PlainJoin("!subteam^", id);
    PlainJoin("!subteam^" + id, "|");
    PlainJoin("!subteam^" + id + "|", h);
    PlainJoin("!subteam^" + id + "|" + h, ">");
    assert ("<!subteam^" + id + "|" + h + ">")[1..] == "!subteam^" + id + "|" + h + ">";
  }

  lemma IdPlain(id: string)
    requires IsId(id)
    ensures Plain(id)
  {
  }

  /** `<!subteam^ID>` becomes `@group`. */
  lemma SubteamBareToken(p: string, id: string, q: string)
    requires Plain(p) && Plain(q) && IsId(id)
    ensures ParseSlackMarkdown(p + ("<!subteam^" + id + ">") + q) == p + "@group" + q
  {
    var tok := "<!subteam^" + id + ">";
    SubteamMatch(id, "x", q);
    assert tok[1..] == "!subteam^" + id + ">";
    NoneBetween(tok + q, 9, 10);
    BangQuiet(tok, q, 10);
    assert MarkupPasses[10] == Pass('<', SubteamBare);
    SlackToken(p, tok, q, "@group", 10);
  }

  lemma DateMatch(digits: string, format: string, fallback: string, q: string)
    requires |digits| > 0 && forall i :: 0 <= i < |digits| ==> IsDigit(digits[i])
    requires |format| > 0 && '|' !in format
    requires |fallback| > 0 && '>' !in fallback
    ensures DateFallback("<!date^" + digits + "^" + format + "|" + fallback + ">" + q)
         == Some(Hit(|digits| + |format| + |fallback| + 10, fallback))
    ensures !Starts(SubteamNamed, "<!date^" + digits + "^" + format + "|" + fallback + ">" + q)
    ensures !Starts(SubteamBare, "<!date^" + digits + "^" + format + "|" + fallback + ">" + q)
  {
    var x := "<!date^" + digits + "^" + format + "|" + fallback + ">" + q;
    DateStamp(digits, format + "|" + fallback + ">" + q);
    assert x == "<!date^" + digits + "^" + (format + "|" + fallback + ">" + q);
    DateFormat("<!date^" + digits + "^", format, fallback, q);
    assert !At(x, 0, "<!subteam^") by {
      if |x| >= 10 {
        assert x[0..10][2] == x[2];
      }
    }
  }

  /** The digits of a date token run from `^` to `^`. */
  lemma DateStamp(digits: string, rest: string)
    requires |digits| > 0 && forall i :: 0 <= i < |digits| ==> IsDigit(digits[i])
    ensures var x := "<!date^" + digits + "^" + rest;
      At(x, 0, "<!date^") && Span(x, 7, IsDigit) == 7 + |digits| && x[7 + |digits|] == '^'
  {
    var x := "<!date^" + digits + "^" + rest;
    assert x[0..7] == "<!date^";
    SpanIs(x, 7, IsDigit, 7 + |digits|);
  }

  /** The format runs to the `|` and the fallback from there to the `>`. */
  lemma DateFormat(head: string, format: string, fallback: string, q: string)
    requires |format| > 0 && '|' !in format
    requires |fallback| > 0 && '>' !in fallback
    ensures var x := head + (format + "|" + fallback + ">" + q);
      var f := |head| + |format|;
      Upto(x, |head|, {'|'}) == f && f < |x|
      && Upto(x, f + 1, {'>'}) == f + 1 + |fallback| && f + 1 + |fallback| < |x|
      && x[f + 1..f + 1 + |fallback|] == fallback
  {
    var x := head + (format + "|" + fallback + ">" + q);
    var f := |head| + |format|;
    var k := f + 1 + |fallback|;
    UptoIs(x, |head|, {'|'}, f);
    UptoIs(x, f + 1, {'>'}, k);
    assert x[f + 1..k] == fallback;
  }

  /** `<!date^N^format|fallback>` becomes its fallback text. */
  lemma DateToken(p: string, digits: string, format: string, fallback: string, q: string)
    requires Plain(p) && Plain(q)
    requires |digits| > 0 && forall i :: 0 <= i < |digits| ==> IsDigit(digits[i])
    requires |format| > 0 && '|' !in format && Plain(format)
    requires |fallback| > 0 && '>' !in fallback && Plain(fallback)
    ensures ParseSlackMarkdown(p + ("<!date^" + digits + "^" + format + "|" + fallback + ">") + q) == p + fallback + q
  {
    DateFacts(digits, format, fallback, q);
    SlackToken(p, "<!date^" + digits + "^" + format + "|" + fallback + ">", q, fallback, 11);
  }

  lemma DateFacts(digits: string, format: string, fallback: string, q: string)
    requires |digits| > 0 && forall i :: 0 <= i < |digits| ==> IsDigit(digits[i])
    requires |format| > 0 && '|' !in format && Plain(format)
    requires |fallback| > 0 && '>' !in fallback && Plain(fallback)
    ensures Quiet("<!date^" + digits + "^" + format + "|" + fallback + ">", q, MarkupPasses[..11])
    ensures MarkupPasses[11].hit("<!date^" + digits + "^" + format + "|" + fallback + ">" + q)
         == Some(Hit(|digits| + |format| + |fallback| + 10, fallback))
  {
    var tok := "<!date^" + digits + "^" + format + "|" + fallback + ">";
    DateMatch(digits, format, fallback, q);
    DatePlain(digits, format, fallback);
    NoneBetween(tok + q, 9, 11);
    BangQuiet(tok, q, 11);
    assert MarkupPasses[11] == Pass('<', DateFallback);
  }

  lemma DatePlain(digits: string, format: string, fallback: string)
    requires forall i :: 0 <= i < |digits| ==> IsDigit(digits[i])
    requires Plain(format) && Plain(fallback)
    ensures Plain(("<!date^" + digits + "^" + format + "|" + fallback + ">")[1..])
  {
    var tok := "<!date^" + digits + "^" + format + "|" + fallback + ">";
    assert tok[1..] == "!date^" + digits + "^" + format + "|" + fallback + ">";
  }

  /** The `<!` patterns need `!` after `<`. */
  lemma NotBang(x: string)
    requires |x| > 1 && x[1] != '!'
    ensures !Starts(Here, x) && !Starts(ChannelAll, x) && !Starts(Everyone, x)
    ensures !Starts(SubteamNamed, x) && !Starts(SubteamBare, x) && !Starts(DateFallback, x)
  {
    if |x| >= 7 { assert x[..7][1] == x[1]; assert x[0..7][1] == x[1]; }
    if |x| >= 10 { assert x[..10][1] == x[1]; assert x[0..10][1] == x[1]; }
    if |x| >= 11 { assert x[..11][1] == x[1]; }
  }

  /** A mail address, as far as these lemmas need: no markup, no `|`, `>`
      or `:`, and not beginning with `!`. */
  predicate IsAddress(addr: string) {
    |addr| > 0 && Plain(addr) && '|' !in addr && '>' !in addr && ':' !in addr && addr[0] != '!'
  }

  lemma MailtoMatch(addr: string, text: string, q: string)
    requires IsAddress(addr) && |text| > 0 && '>' !in text
    ensures MailtoNamed("<mailto:" + addr + "|" + text + ">" + q)
         == Some(Hit(|addr| + |text| + 10, text + " <" + addr + ">"))
  {
    var x := "<mailto:" + addr + "|" + text + ">" + q;
    var j := 8 + |addr|;
    var k := j + 1 + |text|;
    assert x[0..8] == "<mailto:";
    UptoIs(x, 8, {'|', '>'}, j);
    UptoIs(x, j + 1, {'>'}, k);
    assert x[j] == '|' && x[k] == '>';
    assert x[8..j] == addr;
    assert x[j + 1..k] == text;
  }

  /** No markup pass starts at a character that is no anchor. */
  lemma NoAnchorNoStart(y: string)
    requires |y| > 0 && y[0] !in MarkupAnchors
    ensures forall i :: 0 <= i < |MarkupPasses| ==> !Starts(MarkupPasses[i].hit, y)
  {
    MarkupAnchored();
    MarkupAnchorChars();
    forall i | 0 <= i < |MarkupPasses| ensures !Starts(MarkupPasses[i].hit, y) {
      var a := MarkupPasses[i].anchor;
      assert a in MarkupAnchors;
      assert Anchored(MarkupPasses[i].hit, a);
    }
  }

  /** After a mailto rewrite, the `<` before the address starts no later
      pass. */
  lemma AddressNoStart(addr: string, q: string)
    requires IsAddress(addr)
    ensures forall i :: 5 <= i < |MarkupPasses| ==> !Starts(MarkupPasses[i].hit, "<" + addr + ">" + q)
  {
    var y := "<" + addr + ">" + q;
    NotBang(y);
    assert !Starts(MailtoBare, y) by {
      if |y| >= 8 {
        if |addr| >= 7 {
          assert y[0..8][7] == addr[6] != ':';
        } else {
          assert y[0..8][1 + |addr|] == '>';
        }
      }
    }
    NoneBetween(y, 5, 12);
    EmphasisNotAngle(y);
  }

  /** The emphasis and code passes do not start at `<`. */
  lemma EmphasisNotAngle(y: string)
    requires |y| > 0 && y[0] == '<'
    ensures forall i :: 12 <= i < |MarkupPasses| ==> !Starts(MarkupPasses[i].hit, y)
  {
    MarkupAnchored();
    MarkupAnchorChars();
    forall i | 12 <= i < |MarkupPasses| ensures !Starts(MarkupPasses[i].hit, y) {
      var a := MarkupPasses[i].anchor;
      assert a == "<<<<<<<<<<<<*_~``"[i] != '<';
      assert Anchored(MarkupPasses[i].hit, a);
    }
  }

  /** What `<mailto:a|t>` leaves, `t <a>`, is not a token of a later pass. */
  lemma MailtoOutQuiet(addr: string, text: string, q: string)
    requires IsAddress(addr) && Plain(text)
    ensures Quiet(text + " <" + addr + ">", q, MarkupPasses[5..])
  {
    var out := text + " <" + addr + ">";
    var later := MarkupPasses[5..];
    AddressNoStart(addr, q);
    forall i, j | 0 <= i < |later| && 0 <= j < |out| ensures !Starts(later[i].hit, out[j..] + q) {
      assert later[i] == MarkupPasses[5 + i];
      if j == |text| + 1 {
        assert out[j..] + q == "<" + addr + ">" + q;
      } else {
        assert (out[j..] + q)[0] == out[j];
        if j < |text| {
          assert out[j] == text[j];
        } else if j > |text| + 1 && j < |out| - 1 {
          assert out[j] == addr[j - |text| - 2];
        }
        NoAnchorNoStart(out[j..] + q);
      }
    }
  }

  /** `<mailto:a|t>` becomes `t <a>`. */
  lemma MailtoNamedToken(p: string, addr: string, text: string, q: string)
    requires Plain(p) && Plain(q) && IsAddress(addr)
    requires |text| > 0 && Plain(text) && '>' !in text
    ensures ParseSlackMarkdown(p + ("<mailto:" + addr + "|" + text + ">") + q) == p + (text + " <" + addr + ">") + q
  {
    MailtoFacts(addr, text, q);
    MailtoOutQuiet(addr, text, q);
    SlackTokenQuiet(p, "<mailto:" + addr + "|" + text + ">", q, text + " <" + addr + ">", 4);
  }

  lemma MailtoFacts(addr: string, text: string, q: string)
    requires IsAddress(addr) && |text| > 0 && Plain(text) && '>' !in text
    ensures Quiet("<mailto:" + addr + "|" + text + ">", q, MarkupPasses[..4])
    ensures MarkupPasses[4].hit("<mailto:" + addr + "|" + text + ">" + q) == Some(Hit(|addr| + |text| + 10, text + " <" + addr + ">"))
    ensures '&' !in text + " <" + addr + ">"
  {
    var tok := "<mailto:" + addr + "|" + text + ">";
    var x := tok + q;
    MailtoMatch(addr, text, q);
    MailtoPlain(addr, text);
    assert forall i :: 0 <= i < 4 ==> !Starts(MarkupPasses[i].hit, x) by {
      assert x[1] == 'm';
      NotLinkAtM(x);
      NoneBetween(x, 0, 4);
    }
    AngleQuiet(tok, q, 4);
    assert MarkupPasses[4] == Pass('<', MailtoNamed);
    MailtoOutAmpFree(addr, text);
  }

  /** `<mailto:a>` becomes `a`. */
  lemma MailtoBareToken(p: string, addr: string, q: string)
    requires Plain(p) && Plain(q) && IsAddress(addr)
    ensures ParseSlackMarkdown(p + ("<mailto:" + addr + ">") + q) == p + addr + q
  {
    MailtoBareFacts(addr, q);
    SlackToken(p, "<mailto:" + addr + ">", q, addr, 5);
  }

  lemma MailtoBareFacts(addr: string, q: string)
    requires IsAddress(addr)
    ensures Quiet("<mailto:" + addr + ">", q, MarkupPasses[..5])
    ensures MarkupPasses[5].hit("<mailto:" + addr + ">" + q) == Some(Hit(|addr| + 9, addr))
  {
    var tok := "<mailto:" + addr + ">";
    var x := tok + q;
    var j := 8 + |addr|;
    assert x[0..8] == "<mailto:";
    UptoIs(x, 8, {'|', '>'}, j);
    UptoIs(x, 8, {'>'}, j);
    assert x[j] == '>' && x[8..j] == addr;
    MailtoBarePlain(addr);
    assert forall i :: 0 <= i < 5 ==> !Starts(MarkupPasses[i].hit, x) by {
      assert x[1] == 'm';
      NotLinkAtM(x);
      NoneBetween(x, 0, 5);
    }
    AngleQuiet(tok, q, 5);
    assert MarkupPasses[5] == Pass('<', MailtoBare);
  }

  lemma MailtoBarePlain(addr: string)
    requires Plain(addr)
    ensures Plain(("<mailto:" + addr + ">")[1..])
  {
    PlainJoin("mailto:", addr);
    PlainJoin("mailto:" + addr, ">");
    assert ("<mailto:" + addr + ">")[1..] == "mailto:" + addr + ">";
  }

  lemma MailtoPlain(addr: string, text: string)
    requires Plain(addr) && Plain(text)
    ensures Plain(("<mailto:" + addr + "|" + text + ">")[1..])
  {
    PlainJoin("mailto:", addr);
    PlainJoin("mailto:" + addr, "|");
    PlainJoin("mailto:" + addr + "|", text);
    PlainJoin("mailto:" + addr + "|" + text, ">");
    assert ("<mailto:" + addr + "|" + text + ">")[1..] == "mailto:" + addr + "|" + text + ">";
  }

  lemma MailtoOutAmpFree(addr: string, text: string)
    requires Plain(addr) && Plain(text)
    ensures '&' !in text + " <" + addr + ">"
  {
    var out := text + " <" + addr + ">";
    forall j | 0 <= j < |out| ensures out[j] != '&' {
      if j < |text| {
        assert out[j] == text[j];
      } else if |text| + 1 < j < |out| - 1 {
        assert out[j] == addr[j - |text| - 2];
      }
    }
  }

  /** The channel and link patterns need something other than `m` after `<`. */
  lemma NotLinkAtM(x: string)
    requires |x| > 1 && x[1] == 'm'
    ensures !Starts(ChannelNamed, x) && !Starts(ChannelBare, x)
    ensures !Starts(LinkNamed, x) && !Starts(LinkBare, x)
  {
    NotChannel(x);
    if |x| >= 9 { assert x[1..9][0] == x[1]; }
    if |x| >= 8 { assert x[1..8][0] == x[1]; }
    assert Scheme(x, 1).None?;
  }

  // ---------------------------------------------------------------------
  // Emphasis and code.

  lemma DelimitedMatch(d: char, t: string, q: string, wrap: string)
    requires |t| > 0 && d !in t
    ensures Delimited([d] + t + [d] + q, d, wrap) == Some(Hit(|t| + 2, wrap + t + wrap))
  {
    var x := [d] + t + [d] + q;
    UptoIs(x, 1, {d}, 1 + |t|);
    assert x[1..1 + |t|] == t;
  }

  /** Every character of `tok` is `d` or no markup anchor. */
  predicate Only(tok: string, d: char) {
    forall j :: 0 <= j < |tok| ==> tok[j] == d || tok[j] !in MarkupAnchors
  }

  /** The anchors of the markup passes, by position. */
  lemma AnchorOrder()
    ensures forall i :: 0 <= i < 12 ==> MarkupPasses[i].anchor == '<'
    ensures MarkupPasses[12].anchor == '*' && MarkupPasses[13].anchor == '_'
    ensures MarkupPasses[14].anchor == '~' && MarkupPasses[15].anchor == '`'
  {
    MarkupAnchorChars();
  }

  /** A token of `d`s and plain text, where no pass before the `k`th is
      anchored at `d`. */
  lemma EarlyQuiet(tok: string, q: string, d: char, k: nat)
    requires k <= |MarkupPasses| && Only(tok, d)
    requires forall i :: 0 <= i < k ==> MarkupPasses[i].anchor != d
    ensures Quiet(tok, q, MarkupPasses[..k])
  {
    MarkupAnchored();
    MarkupAnchorChars();
    var before := MarkupPasses[..k];
    assert AllAnchored(before) by {
      forall i | 0 <= i < |before| ensures Anchored(before[i].hit, before[i].anchor) {
        assert before[i] == MarkupPasses[i];
      }
    }
    assert Free(tok, before) by {
      forall i, j | 0 <= i < |before| && 0 <= j < |tok| ensures tok[j] != before[i].anchor {
        assert before[i] == MarkupPasses[i];
        assert before[i].anchor in MarkupAnchors;
      }
    }
    AnchorQuiet(tok, q, before);
  }

  /** A delimited span of plain text has only its delimiter as anchor. */
  lemma DelimitedOnly(d: char, t: string, n: nat)
    requires Plain(t)
    ensures Only([d] + t + [d], d)
    ensures n == 3 ==> Only([d, d, d] + t + [d, d, d], d)
  {
    var tok := [d] + t + [d];
    forall j | 0 <= j < |tok| ensures tok[j] == d || tok[j] !in MarkupAnchors {
      if 0 < j < |tok| - 1 {
        assert tok[j] == t[j - 1];
      }
    }
    if n == 3 {
      var code := [d, d, d] + t + [d, d, d];
      forall j | 0 <= j < |code| ensures code[j] == d || code[j] !in MarkupAnchors {
        if 3 <= j < |code| - 3 {
          assert code[j] == t[j - 3];
        }
      }
    }
  }

  /** A token made of `d`s around plain text, where none of the passes
      before the `k`th starts. */
  lemma EmphasisQuiet(d: char, t: string, q: string, k: nat)
    requires 12 <= k <= 14 && Plain(t) && d == "*_~"[k - 12]
    ensures Quiet([d] + t + [d], q, MarkupPasses[..k])
  {
    AnchorOrder();
    DelimitedOnly(d, t, 1);
    EarlyQuiet([d] + t + [d], q, d, k);
  }

  /** `*x*` becomes `\x02x\x02`. */
  lemma BoldToken(p: string, t: string, q: string)
    requires Plain(p) && Plain(q) && Plain(t) && |t| > 0
    ensures ParseSlackMarkdown(p + ("*" + t + "*") + q) == p + ([BOLD] + t + [BOLD]) + q
  {
    DelimitedMatch('*', t, q, [BOLD]);
    EmphasisQuiet('*', t, q, 12);
    assert MarkupPasses[12] == Pass('*', Bold);
    assert Plain([BOLD] + t + [BOLD]);
    SlackToken(p, "*" + t + "*", q, [BOLD] + t + [BOLD], 12);
  }

  /** `_x_` becomes `\x1Dx\x1D`. */
  lemma ItalicToken(p: string, t: string, q: string)
    requires Plain(p) && Plain(q) && Plain(t) && |t| > 0
    ensures ParseSlackMarkdown(p + ("_" + t + "_") + q) == p + ([ITALIC] + t + [ITALIC]) + q
  {
    DelimitedMatch('_', t, q, [ITALIC]);
    EmphasisQuiet('_', t, q, 13);
    assert MarkupPasses[13] == Pass('_', Italic);
    assert Plain([ITALIC] + t + [ITALIC]);
    SlackToken(p, "_" + t + "_", q, [ITALIC] + t + [ITALIC], 13);
  }

  /** `~x~` becomes `x`. */
  lemma StrikeToken(p: string, t: string, q: string)
    requires Plain(p) && Plain(q) && Plain(t) && |t| > 0
    ensures ParseSlackMarkdown(p + ("~" + t + "~") + q) == p + t + q
  {
    DelimitedMatch('~', t, q, "");
    EmphasisQuiet('~', t, q, 14);
    assert MarkupPasses[14] == Pass('~', Strike);
    assert "" + t + "" == t;
    SlackToken(p, "~" + t + "~", q, t, 14);
  }

  /** A code block between triple backquotes becomes its contents. */
  lemma CodeBlockToken(p: string, t: string, q: string)
    requires Plain(p) && Plain(q) && Plain(t) && |t| > 0
    ensures ParseSlackMarkdown(p + ("```" + t + "```") + q) == p + t + q
  {
    var x := "```" + t + "```" + q;
    var j := 3 + |t|;
    assert x[0..3] == "```";
    UptoIs(x, 3, {'`'}, j);
    assert x[j..j + 3] == "```";
    assert x[3..j] == t;
    assert CodeBlock(x) == Some(Hit(|t| + 6, t));
    AnchorOrder();
    DelimitedOnly('`', t, 3);
    assert "```" + t + "```" == ['`', '`', '`'] + t + ['`', '`', '`'];
    EarlyQuiet("```" + t + "```", q, '`', 15);
    assert MarkupPasses[15] == Pass('`', CodeBlock);
    SlackToken(p, "```" + t + "```", q, t, 15);
  }

  /** The code-block pattern needs three backquotes in a row. */
  lemma NotCodeBlock(y: string)
    requires |y| > 1 && y[1] != '`'
    ensures !Starts(CodeBlock, y)
  {
    if |y| >= 3 {
      assert y[0..3][1] == y[1];
    }
  }

  /** Inline code between single backquotes becomes its contents. */
  lemma InlineCodeToken(p: string, t: string, q: string)
    requires Plain(p) && Plain(q) && Plain(t) && |t| > 0
    ensures ParseSlackMarkdown(p + ("`" + t + "`") + q) == p + t + q
  {
    InlineFacts(t, q);
    SlackToken(p, "`" + t + "`", q, t, 16);
  }

  lemma InlineFacts(t: string, q: string)
    requires Plain(q) && Plain(t) && |t| > 0
    ensures Quiet("`" + t + "`", q, MarkupPasses[..16])
    ensures MarkupPasses[16].hit("`" + t + "`" + q) == Some(Hit(|t| + 2, t))
  {
    InlineMatch(t, q);
    InlineEarlyQuiet(t, q);
    InlineNotBlock(t, q);
    QuietExtend("`" + t + "`", q, 15);
  }

  lemma InlineMatch(t: string, q: string)
    requires |t| > 0 && '`' !in t
    ensures MarkupPasses[16].hit("`" + t + "`" + q) == Some(Hit(|t| + 2, t))
  {
    DelimitedMatch('`', t, q, "");
    assert "" + t + "" == t;
    assert MarkupPasses[16] == Pass('`', InlineCode);
  }

  lemma InlineEarlyQuiet(t: string, q: string)
    requires Plain(t)
    ensures Quiet("`" + t + "`", q, MarkupPasses[..15])
  {
    AnchorOrder();
    DelimitedOnly('`', t, 1);
    EarlyQuiet("`" + t + "`", q, '`', 15);
  }

  /** The code-block pass finds nothing in inline code. */
  lemma InlineNotBlock(t: string, q: string)
    requires Plain(q) && Plain(t) && |t| > 0
    ensures forall j :: 0 <= j < |t| + 2 ==> !Starts(CodeBlock, ("`" + t + "`")[j..] + q)
  {
    var tok := "`" + t + "`";
    forall j | 0 <= j < |tok| ensures !Starts(CodeBlock, tok[j..] + q) {
      var y := tok[j..] + q;
      assert y[0] == tok[j];
      if 0 < j < |tok| - 1 {
        assert tok[j] == t[j - 1];
        assert y[0] != '`';
        if |y| >= 3 { assert y[0..3][0] == y[0]; }
      } else if j == 0 {
        assert y[1] == t[0];
        NotCodeBlock(y);
      } else if |q| > 0 {
        assert y[1] == q[0];
        NotCodeBlock(y);
      }
    }
  }

  /** Quietness for the first 15 passes and the code-block pass give it for
      the first 16. */
  lemma QuietExtend(tok: string, q: string, k: nat)
    requires k == 15 && Quiet(tok, q, MarkupPasses[..k])
    requires forall j :: 0 <= j < |tok| ==> !Starts(CodeBlock, tok[j..] + q)
    ensures Quiet(tok, q, MarkupPasses[..k + 1])
  {
    assert MarkupPasses[15] == Pass('`', CodeBlock);
    var ps := MarkupPasses[..k + 1];
    forall i, j | 0 <= i < k + 1 && 0 <= j < |tok| ensures !Starts(ps[i].hit, tok[j..] + q) {
      assert ps[i] == MarkupPasses[i];
      if i < k {
        assert MarkupPasses[..k][i] == MarkupPasses[i];
      }
    }
  }

  /** An unclosed `*` is left as it is: the pattern needs its closing
      delimiter. */
  lemma UnclosedStar(p: string, q: string)
    requires Plain(p) && Plain(q)
    ensures ParseSlackMarkdown(p + "*" + q) == p + "*" + q
  {
    var ps := MarkupPasses;
    MarkupAnchored();
    PlainFree(p);
    PlainFree(q);
    StarQuiet(q);
    assert p + "*" + q == p + ("*" + q);
    PassesSkipPrefix(p, "*" + q, ps);
    BeforeToken("*", q, ps);
    assert '&' !in p + "*" + q;
    AmpFreeTail(p + "*" + q);
  }

  lemma StarQuiet(q: string)
    requires Plain(q)
    ensures Quiet("*", q, MarkupPasses)
  {
    var x := "*" + q;
    MarkupAnchored();
    MarkupAnchorChars();
    UptoIs(x, 1, {'*'}, |x|);
    assert !Starts(Bold, x);
    forall i, j | 0 <= i < |MarkupPasses| && 0 <= j < 1 ensures !Starts(MarkupPasses[i].hit, "*"[j..] + q) {
      assert "*"[j..] + q == x;
      if i == 12 {
        assert MarkupPasses[12] == Pass('*', Bold);
      } else {
        assert Anchored(MarkupPasses[i].hit, MarkupPasses[i].anchor);
        assert MarkupPasses[i].anchor != '*';
      }
    }
  }
}
