/**
  The formatting transformer (src/parser.ts): two total string-to-string
  functions, each a fixed sequence of global regex replacements.

  Slack to IRC (`ParseSlackMarkdown`): channel, link, mailto, special,
  subteam and date tokens first, then emphasis and code, then the
  block-quote pass, then the three HTML entities.

  IRC to Slack (`ParseIRCFormatting`): colour codes stripped, bold, italic
  and underline pairs rewritten, reverse and reset stripped, then `&`, `<`,
  `>` escaped.
*/
module Parser {
  import opened Wrappers
  import opened Scanner

  // IRC control characters.
  const BOLD: char := '\U{2}'
  const COLOR: char := '\U{3}'
  const RESET: char := '\U{F}'
  const REVERSE: char := '\U{16}'
  const ITALIC: char := '\U{1D}'
  const UNDERLINE: char := '\U{1F}'

  /** `[A-Z0-9]`, the characters of a Slack id. */
  predicate IsIdChar(c: char) {
    ('A' <= c <= 'Z') || ('0' <= c <= '9')
  }

  /** `\d` (ASCII digits only, as in JavaScript). */
  predicate IsDigit(c: char) {
    '0' <= c <= '9'
  }

  /** `x[i..]` begins with `p`. */
  predicate At(x: string, i: nat, p: string) {
    i + |p| <= |x| && x[i..i + |p|] == p
  }

  /** End of `https?:\/\/` at `i`, if it is there. */
  function Scheme(x: string, i: nat): (r: Option<nat>)
    ensures r.Some? ==> i + 7 <= r.value <= |x|
    ensures r.Some? ==> forall k :: i <= k < r.value ==> x[k] != '>' && x[k] != '|'
  {
    if At(x, i, "https://") then AtPlain(x, i, "https://"); Some(i + 8)
    else if At(x, i, "http://") then AtPlain(x, i, "http://"); Some(i + 7)
    else None
  }

  /** Where `p` stands, `x` holds the characters of `p`. */
  lemma AtPlain(x: string, i: nat, p: string)
    requires At(x, i, p) && '>' !in p && '|' !in p
    ensures forall k :: i <= k < i + |p| ==> x[k] != '>' && x[k] != '|'
  {
    forall k | i <= k < i + |p|
      ensures x[k] != '>' && x[k] != '|'
    {
      assert x[k] == x[i..i + |p|][k - i] == p[k - i];
    }
  }

  /** A match is one whole token: it begins with `open` and ends with
      `close`. */
  predicate Enclosed(x: string, r: Option<Hit>, open: string, close: char) {
    r.Some? ==> |open| < r.value.len <= |x| && At(x, 0, open) && x[r.value.len - 1] == close
  }

  /** A match is one whole token that ends at the first `close` after
      `open`. */
  predicate Token(x: string, r: Option<Hit>, open: string, close: char) {
    Enclosed(x, r, open, close) &&
    (r.Some? ==> forall k :: |open| <= k < r.value.len - 1 ==> x[k] != close)
  }

  // ---------------------------------------------------------------------
  // Slack mrkdwn to IRC: one matcher per regex of parseSlackMarkdown.

  /** `<#[A-Z0-9]+\|([^>]+)>` becomes `#$1`. */
  function ChannelNamed(x: string): (r: Option<Hit>)
    ensures Token(x, r, "<#", '>')
  {
    if !At(x, 0, "<#") then None else
    var j := Span(x, 2, IsIdChar);
    if j == 2 || j == |x| || x[j] != '|' then None else
    var k := Upto(x, j + 1, {'>'});
    if k == j + 1 || k == |x| then None else Some(Hit(k + 1, "#" + x[j + 1..k]))
  }

  /** `<#[A-Z0-9]+>` becomes `#channel`. */
  function ChannelBare(x: string): (r: Option<Hit>)
    ensures Token(x, r, "<#", '>')
  {
    if !At(x, 0, "<#") then None else
    var j := Span(x, 2, IsIdChar);
    if j == 2 || j == |x| || x[j] != '>' then None else Some(Hit(j + 1, "#channel"))
  }

  /** `<(https?:\/\/[^|>]+)\|([^>]+)>` becomes `$2 ($1)`. */
  function LinkNamed(x: string): (r: Option<Hit>)
    ensures Token(x, r, "<", '>')
  {
    if !At(x, 0, "<") || Scheme(x, 1).None? then None else
    var a := Scheme(x, 1).value;
    var j := Upto(x, a, {'|', '>'});
    if j == a || j == |x| || x[j] != '|' then None else
    var k := Upto(x, j + 1, {'>'});
    if k == j + 1 || k == |x| then None
    else Some(Hit(k + 1, x[j + 1..k] + " (" + x[1..j] + ")"))
  }

  /** `<(https?:\/\/[^>]+)>` becomes `$1`. */
  function LinkBare(x: string): (r: Option<Hit>)
    ensures Token(x, r, "<", '>')
  {
    if !At(x, 0, "<") || Scheme(x, 1).None? then None else
    var a := Scheme(x, 1).value;
    var j := Upto(x, a, {'>'});
    if j == a || j == |x| then None else Some(Hit(j + 1, x[1..j]))
  }

  /** `<mailto:([^|>]+)\|([^>]+)>` becomes `$2 <$1>`. */
  function MailtoNamed(x: string): (r: Option<Hit>)
    ensures Token(x, r, "<mailto:", '>')
  {
    if !At(x, 0, "<mailto:") then None else
    var j := Upto(x, 8, {'|', '>'});
    if j == 8 || j == |x| || x[j] != '|' then None else
    var k := Upto(x, j + 1, {'>'});
    if k == j + 1 || k == |x| then None
    else Some(Hit(k + 1, x[j + 1..k] + " <" + x[8..j] + ">"))
  }

  /** `<mailto:([^>]+)>` becomes `$1`. */
  function MailtoBare(x: string): (r: Option<Hit>)
    ensures Token(x, r, "<mailto:", '>')
  {
    if !At(x, 0, "<mailto:") then None else
    var j := Upto(x, 8, {'>'});
    if j == 8 || j == |x| then None else Some(Hit(j + 1, x[8..j]))
  }

  function Here(x: string): Option<Hit> { LiteralHit("<!here>", "@here", x) }
  function ChannelAll(x: string): Option<Hit> { LiteralHit("<!channel>", "@channel", x) }
  function Everyone(x: string): Option<Hit> { LiteralHit("<!everyone>", "@everyone", x) }

  /** `<!subteam\^[A-Z0-9]+\|([^>]+)>` becomes `@$1`. */
  function SubteamNamed(x: string): (r: Option<Hit>)
    ensures Token(x, r, "<!subteam^", '>')
  {
    if !At(x, 0, "<!subteam^") then None else
    var j := Span(x, 10, IsIdChar);
    if j == 10 || j == |x| || x[j] != '|' then None else
    var k := Upto(x, j + 1, {'>'});
    if k == j + 1 || k == |x| then None else Some(Hit(k + 1, "@" + x[j + 1..k]))
  }

  /** `<!subteam\^[A-Z0-9]+>` becomes `@group`. */
  function SubteamBare(x: string): (r: Option<Hit>)
    ensures Token(x, r, "<!subteam^", '>')
  {
    if !At(x, 0, "<!subteam^") then None else
    var j := Span(x, 10, IsIdChar);
    if j == 10 || j == |x| || x[j] != '>' then None else Some(Hit(j + 1, "@group"))
  }

  /** `<!date\^[0-9]+\^[^|]+\|([^>]+)>` becomes its fallback text `$1`. */
  function DateFallback(x: string): (r: Option<Hit>)
    ensures Enclosed(x, r, "<!date^", '>')
  {
    if !At(x, 0, "<!date^") then None else
    var d := Span(x, 7, IsDigit);
    if d == 7 || d == |x| || x[d] != '^' then None else
    var f := Upto(x, d + 1, {'|'});
    if f == d + 1 || f == |x| then None else
    var k := Upto(x, f + 1, {'>'});
    if k == f + 1 || k == |x| then None else Some(Hit(k + 1, x[f + 1..k]))
  }

  /** `d([^d]+)d`: a non-empty span between two single delimiters, replaced
      by the span wrapped in `wrap` (the empty string strips the delimiters). */
  function Delimited(x: string, d: char, wrap: string): (r: Option<Hit>)
    ensures Token(x, r, [d], d) && (r.Some? ==> r.value.len > 2)
  {
    if |x| == 0 || x[0] != d then None else
    var j := Upto(x, 1, {d});
    if j == 1 || j == |x| then None else Some(Hit(j + 1, wrap + x[1..j] + wrap))
  }

  /** `\*((?:[^\*]|\\\*)+)\*` becomes `\x02$1\x02`. */
  function Bold(x: string): Option<Hit> { Delimited(x, '*', [BOLD]) }

  /** `_((?:[^_]|\\_)+)_` becomes `\x1D$1\x1D`. */
  function Italic(x: string): Option<Hit> { Delimited(x, '_', [ITALIC]) }

  /** `~((?:[^~]|\\~)+)~` becomes `$1`. */
  function Strike(x: string): Option<Hit> { Delimited(x, '~', "") }

  /** "```([^`]+)```" becomes `$1`. */
  function CodeBlock(x: string): (r: Option<Hit>)
    ensures r.Some? ==> 6 < r.value.len <= |x| && At(x, 0, "```") && At(x, r.value.len - 3, "```")
    ensures r.Some? ==> forall k :: 3 <= k < r.value.len - 3 ==> x[k] != '`'
  {
    if !At(x, 0, "```") then None else
    var j := Upto(x, 3, {'`'});
    if j == 3 || !At(x, j, "```") then None else Some(Hit(j + 3, x[3..j]))
  }

  /** "`([^`]+)`" becomes `$1`. */
  function InlineCode(x: string): Option<Hit> { Delimited(x, '`', "") }

  function AmpEntity(x: string): Option<Hit> { LiteralHit("&amp;", "&", x) }
  function LtEntity(x: string): Option<Hit> { LiteralHit("&lt;", "<", x) }
  function GtEntity(x: string): Option<Hit> { LiteralHit("&gt;", ">", x) }

  /** The replacements of parseSlackMarkdown before the block-quote pass, in
      source order. */
  const MarkupPasses: seq<Pass> := [
    Pass('<', ChannelNamed), Pass('<', ChannelBare),
    Pass('<', LinkNamed), Pass('<', LinkBare),
    Pass('<', MailtoNamed), Pass('<', MailtoBare),
    Pass('<', Here), Pass('<', ChannelAll), Pass('<', Everyone),
    Pass('<', SubteamNamed), Pass('<', SubteamBare),
    Pass('<', DateFallback),
    Pass('*', Bold), Pass('_', Italic), Pass('~', Strike),
    Pass('`', CodeBlock), Pass('`', InlineCode)
  ]

  /** The entity replacements that end parseSlackMarkdown, in source order. */
  const EntityPasses: seq<Pass> := [Pass('&', AmpEntity), Pass('&', LtEntity), Pass('&', GtEntity)]

  /** A line terminator for the `m` flag of a JavaScript regex. */
  predicate IsLineTerminator(c: char) {
    c == '\n' || c == '\r' || c == '\U{2028}' || c == '\U{2029}'
  }

  /** `s.replace(/^>/gm, ">")`: every `>` that begins a line is replaced by
      `>`; `lineStart` says whether `s` begins a line. */
  function QuoteLines(s: string, lineStart: bool): string
    decreases |s|
  {
    if s == [] then []
    else (if lineStart && s[0] == '>' then ">" else [s[0]]) + QuoteLines(s[1..], IsLineTerminator(s[0]))
  }

  /** The entity stage as written: `&amp;`, then `&lt;`, then `&gt;`. */
  function UnescapeAsWritten(s: string): string {
    RunPasses(s, EntityPasses)
  }

  /** The HTML escaping of one character, as Slack applies it to `&`, `<`
      and `>`. */
  function EscapeChar(c: char): string {
    if c == '&' then "&amp;" else if c == '<' then "&lt;" else if c == '>' then "&gt;" else [c]
  }

  /** Escaping character by character: the reference meaning of both the
      escaping stage of parseIRCFormatting and the text Slack delivers. */
  function EscapeHtml(s: string): string
    decreases |s|
  {
    if s == [] then [] else EscapeChar(s[0]) + EscapeHtml(s[1..])
  }

  /** Any of the three entities, decoded in a single scan. */
  function EntityAt(x: string): Option<Hit> {
    if StartsWith(x, "&amp;") then Some(Hit(5, "&"))
    else if StartsWith(x, "&lt;") then Some(Hit(4, "<"))
    else if StartsWith(x, "&gt;") then Some(Hit(4, ">"))
    else None
  }

  /** The entity stage decoding every entity once, left to right. */
  function UnescapeEntities(s: string): string {
    ReplaceAll(s, EntityAt)
  }

  /** parseSlackMarkdown. */
  function ParseSlackMarkdown(text: string): string {
    UnescapeAsWritten(QuoteLines(RunPasses(text, MarkupPasses), true))
  }

  // ---------------------------------------------------------------------
  // IRC control codes to Slack mrkdwn: one matcher per regex of
  // parseIRCFormatting.

  /** End of `\d{1,2}` at `i` (equal to `i` when no digit is there). */
  function Digits12(x: string, i: nat): (j: nat)
    requires i <= |x|
    ensures i <= j <= |x| && j <= i + 2
  {
    if i < |x| && IsDigit(x[i]) then
      (if i + 1 < |x| && IsDigit(x[i + 1]) then i + 2 else i + 1)
    else i
  }

  /** `\x03(\d{1,2}(,\d{1,2})?)?` is deleted. */
  function ColorCode(x: string): (r: Option<Hit>)
    ensures r.Some? <==> |x| > 0 && x[0] == COLOR
    ensures r.Some? ==> 1 <= r.value.len <= 6 && r.value.len <= |x| && r.value.out == ""
    ensures r.Some? ==> forall k :: 1 <= k < r.value.len ==> IsDigit(x[k]) || x[k] == ','
  {
    if |x| == 0 || x[0] != COLOR then None else
    var f := Digits12(x, 1);
    var b := if f > 1 && f < |x| && x[f] == ',' then Digits12(x, f + 1) else f;
    Some(Hit(if b > f + 1 then b else f, ""))
  }

  /** `c([^c]*)c`: a possibly empty span between two control characters,
      replaced by the span wrapped in `wrap`. */
  function ControlPair(x: string, c: char, wrap: string): (r: Option<Hit>)
    ensures Token(x, r, [c], c)
    ensures r.Some? <==> |x| > 0 && x[0] == c && c in x[1..]
  {
    if |x| == 0 || x[0] != c then None else
    var j := Upto(x, 1, {c});
    if j == |x| then None else Some(Hit(j + 1, wrap + x[1..j] + wrap))
  }

  /** `\x02([^\x02]*)\x02` becomes `*$1*`. */
  function IrcBold(x: string): Option<Hit> { ControlPair(x, BOLD, "*") }

  /** `\x1D([^\x1D]*)\x1D` becomes `_$1_`. */
  function IrcItalic(x: string): Option<Hit> { ControlPair(x, ITALIC, "_") }

  /** `\x1F([^\x1F]*)\x1F` becomes `_$1_`. */
  function IrcUnderline(x: string): Option<Hit> { ControlPair(x, UNDERLINE, "_") }

  function IrcReverse(x: string): Option<Hit> { LiteralHit([REVERSE], "", x) }
  function IrcReset(x: string): Option<Hit> { LiteralHit([RESET], "", x) }

  function AmpEscape(x: string): Option<Hit> { LiteralHit("&", "&amp;", x) }
  function LtEscape(x: string): Option<Hit> { LiteralHit("<", "&lt;", x) }
  function GtEscape(x: string): Option<Hit> { LiteralHit(">", "&gt;", x) }

  /** The control-code replacements of parseIRCFormatting, in source order. */
  const ControlPasses: seq<Pass> := [
    Pass(COLOR, ColorCode), Pass(BOLD, IrcBold), Pass(ITALIC, IrcItalic),
    Pass(UNDERLINE, IrcUnderline), Pass(REVERSE, IrcReverse), Pass(RESET, IrcReset)
  ]

  /** The escaping replacements that end parseIRCFormatting: `&` first. */
  const EscapePasses: seq<Pass> := [Pass('&', AmpEscape), Pass('<', LtEscape), Pass('>', GtEscape)]

  /** parseIRCFormatting. */
  function ParseIRCFormatting(text: string): string {
    RunPasses(RunPasses(text, ControlPasses), EscapePasses)
  }
}
