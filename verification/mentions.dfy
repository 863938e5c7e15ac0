/**
  The mention rewriting of src/lib/mentions.ts. Both directions collect the
  mentions of the original text first, then loop over them, rewriting the
  current text with JavaScript's `String.prototype.replace` on a string
  pattern, which rewrites the FIRST occurrence of the matched text.

  The user_mappings table is the sequence of its rows (`Store.Mapping`,
  Slack user id and IRC nick); the Cachet directory is a map from Slack
  user id to display name.
*/
module Mentions {
  import opened Wrappers
  import opened Store
  import Parser

  // ---------------------------------------------------------------------
  // Text search and `replace`

  /** `pat` occurs in `s` at position `k`. */
  predicate OccursAt(s: string, pat: string, k: nat) {
    k + |pat| <= |s| && s[k..k + |pat|] == pat
  }

  /** The first occurrence of `pat` at or after `j`. */
  function IndexFrom(s: string, pat: string, j: nat): (r: Option<nat>)
    requires j <= |s|
    ensures r.Some? ==> j <= r.value && OccursAt(s, pat, r.value)
    ensures r.Some? ==> forall k :: j <= k < r.value ==> !OccursAt(s, pat, k)
    ensures r.None? ==> forall k :: j <= k <= |s| ==> !OccursAt(s, pat, k)
    decreases |s| - j
  {
    if OccursAt(s, pat, j) then Some(j)
    else if j == |s| then None
    else IndexFrom(s, pat, j + 1)
  }

  /** `s.indexOf(pat)`. */
  function IndexOf(s: string, pat: string): Option<nat> {
    IndexFrom(s, pat, 0)
  }

  /** `s.replace(pat, rep)` for a string pattern: the first occurrence only,
      and the text unchanged when there is none. */
  function ReplaceFirst(s: string, pat: string, rep: string): string {
    match IndexOf(s, pat)
    case None => s
    case Some(k) => s[..k] + rep + s[k + |pat|..]
  }

  /** One `result = result.replace(pattern, replacement)` of the loops. */
  datatype Rewrite = Rewrite(pattern: string, replacement: string)

  /** The loop body applied to each rewrite in turn. */
  function ApplyRewrites(s: string, rws: seq<Rewrite>): string
    decreases |rws|
  {
    if rws == [] then s
    else ApplyRewrites(ReplaceFirst(s, rws[0].pattern, rws[0].replacement), rws[1..])
  }

  lemma {:induction false} ApplyAppend(s: string, a: seq<Rewrite>, b: seq<Rewrite>)
    ensures ApplyRewrites(s, a + b) == ApplyRewrites(ApplyRewrites(s, a), b)
    decreases |a|
  {
    if a == [] {
      assert a + b == b;
    } else {
      assert (a + b)[1..] == a[1..] + b;
      ApplyAppend(ReplaceFirst(s, a[0].pattern, a[0].replacement), a[1..], b);
    }
  }

  // ---------------------------------------------------------------------
  // IRC to Slack: the matches of /@(\w+)/g and /(\w+):/g

  /** `\w`. */
  predicate IsWordChar(c: char) {
    'a' <= c <= 'z' || 'A' <= c <= 'Z' || '0' <= c <= '9' || c == '_'
  }

  /** The length of the run of word characters that starts `s`. */
  function WordRun(s: string): (n: nat)
    ensures n <= |s|
    ensures n < |s| ==> !IsWordChar(s[n])
    decreases |s|
  {
    if s != [] && IsWordChar(s[0]) then 1 + WordRun(s[1..]) else 0
  }

  /** The run is made of word characters only. */
  lemma {:induction false} WordRunChars(s: string)
    ensures forall i :: 0 <= i < WordRun(s) ==> IsWordChar(s[i])
    decreases |s|
  {
    if s != [] && IsWordChar(s[0]) {
      WordRunChars(s[1..]);
      assert forall i :: 1 <= i < WordRun(s) ==> s[i] == s[1..][i - 1];
    }
  }

  /** A match: its whole text (`match[0]`) and the nick (`match[1]`). */
  datatype IrcMention = IrcMention(text: string, nick: string)

  /** The text of a match is its nick with the `@` before it (`at`) or the
      `:` after it. */
  predicate MatchShape(m: IrcMention, at: bool) {
    (if at then m.text == "@" + m.nick else m.text == m.nick + ":") && IsNick(m.nick)
  }

  lemma MentionsCons(m: IrcMention, ms: seq<IrcMention>, at: bool)
    requires MatchShape(m, at)
    requires forall k :: 0 <= k < |ms| ==> MatchShape(ms[k], at)
    ensures forall k :: 0 <= k < |[m] + ms| ==> MatchShape(([m] + ms)[k], at)
  {
    forall k | 0 <= k < |[m] + ms| ensures MatchShape(([m] + ms)[k], at) {
      if k > 0 {
        assert ([m] + ms)[k] == ms[k - 1];
      }
    }
  }

  /** An `@` followed by word characters is matched as `@nick`. */
  lemma AtMatch(s: string)
    requires |s| > 0 && s[0] == '@' && WordRun(s[1..]) > 0
    ensures var n := WordRun(s[1..]);
      MatchShape(IrcMention(s[..n + 1], s[1..n + 1]), true)
  {
    var n := WordRun(s[1..]);
    WordRunChars(s[1..]);
    assert s[..n + 1] == "@" + s[1..n + 1];
    var nick := s[1..n + 1];
    forall i | 0 <= i < n ensures IsWordChar(nick[i]) {
      assert nick[i] == s[1..][i];
    }
  }

  /** A run of word characters directly followed by `:` is matched as
      `nick:`. */
  lemma NickMatch(s: string)
    requires 0 < WordRun(s) < |s| && s[WordRun(s)] == ':'
    ensures var n := WordRun(s);
      MatchShape(IrcMention(s[..n + 1], s[..n]), false)
  {
    var n := WordRun(s);
    WordRunChars(s);
    assert s[..n + 1] == s[..n] + ":";
    var nick := s[..n];
    forall i | 0 <= i < n ensures IsWordChar(nick[i]) {
      assert nick[i] == s[i];
    }
  }

  predicate IsNick(nick: string) {
    |nick| > 0 && forall i :: 0 <= i < |nick| ==> IsWordChar(nick[i])
  }

  /** `matchAll(/@(\w+)/g)`: an `@` and the longest run of word characters
      after it, scanning on after each match. */
  function AtMentions(s: string): (ms: seq<IrcMention>)
    ensures forall k :: 0 <= k < |ms| ==> ms[k].text == "@" + ms[k].nick && IsNick(ms[k].nick)
    decreases |s|
  {
    if s == [] then []
    else if s[0] == '@' && WordRun(s[1..]) > 0 then
      var n := WordRun(s[1..]);
      AtMatch(s);
      MentionsCons(IrcMention(s[..n + 1], s[1..n + 1]), AtMentions(s[n + 1..]), true);
      [IrcMention(s[..n + 1], s[1..n + 1])] + AtMentions(s[n + 1..])
    else AtMentions(s[1..])
  }

  /** `matchAll(/(\w+):/g)`: a run of word characters directly followed by
      a colon. A run that is not followed by one fails at every position
      inside it, so scanning on by one character is the regex's own
      advance. */
  function NickMentions(s: string): (ms: seq<IrcMention>)
    ensures forall k :: 0 <= k < |ms| ==> ms[k].text == ms[k].nick + ":" && IsNick(ms[k].nick)
    decreases |s|
  {
    if s == [] then []
    else
      var n := WordRun(s);
      if 0 < n < |s| && s[n] == ':' then
        NickMatch(s);
        MentionsCons(IrcMention(s[..n + 1], s[..n]), NickMentions(s[n + 1..]), false);
        [IrcMention(s[..n + 1], s[..n])] + NickMentions(s[n + 1..])
      else NickMentions(s[1..])
  }

  /** The rewrites of the `@nick` loop: the mapped mentions, in order. */
  function AtRewrites(ms: seq<IrcMention>, link: string -> Option<string>): seq<Rewrite>
    decreases |ms|
  {
    if ms == [] then []
    else match link(ms[0].nick)
      case Some(id) => [Rewrite(ms[0].text, "<@" + id + ">")] + AtRewrites(ms[1..], link)
      case None => AtRewrites(ms[1..], link)
  }

  /** The rewrites of the `nick:` loop. */
  function NickRewrites(ms: seq<IrcMention>, link: string -> Option<string>): seq<Rewrite>
    decreases |ms|
  {
    if ms == [] then []
    else match link(ms[0].nick)
      case Some(id) => [Rewrite(ms[0].text, "<@" + id + ">:")] + NickRewrites(ms[1..], link)
      case None => NickRewrites(ms[1..], link)
  }

  /** What `convertIrcMentionsToSlack` computes, as written: both match
      lists come from the original text, then every mapped match rewrites
      the first occurrence of its text in the current result. */
  function IrcToSlackAsWritten(text: string, link: string -> Option<string>): string {
    ApplyRewrites(text, AtRewrites(AtMentions(text), link) + NickRewrites(NickMentions(text), link))
  }

  /** `convertIrcMentionsToSlack`: the two loops over the precomputed
      matches. */
  method ConvertIrcMentionsToSlack(text: string, link: string -> Option<string>) returns (result: string)
    ensures result == IrcToSlackAsWritten(text, link)
  {
    result := text;
    var atMentions := AtMentions(text);
    var nickMentions := NickMentions(text);
    var rest := NickRewrites(nickMentions, link);
    ApplyAppend(text, AtRewrites(atMentions, link), rest);
    var k := 0;
    while k < |atMentions|
      invariant 0 <= k <= |atMentions|
      invariant ApplyRewrites(ApplyRewrites(result, AtRewrites(atMentions[k..], link)), rest)
             == IrcToSlackAsWritten(text, link)
    {
      assert atMentions[k..][1..] == atMentions[k + 1..];
      var mapping := link(atMentions[k].nick);
      if mapping.Some? {
        result := ReplaceFirst(result, atMentions[k].text, "<@" + mapping.value + ">");
      }
      k := k + 1;
    }
    assert atMentions[k..] == [];
    k := 0;
    while k < |nickMentions|
      invariant 0 <= k <= |nickMentions|
      invariant ApplyRewrites(result, NickRewrites(nickMentions[k..], link)) == IrcToSlackAsWritten(text, link)
    {
      assert nickMentions[k..][1..] == nickMentions[k + 1..];
      var mapping := link(nickMentions[k].nick);
      if mapping.Some? {
        result := ReplaceFirst(result, nickMentions[k].text, "<@" + mapping.value + ">:");
      }
      k := k + 1;
    }
    assert nickMentions[k..] == [];
  }

  /** With no mentioned nick linked, the text comes back unchanged. */
  lemma IrcUnmappedIdentity(text: string, link: string -> Option<string>)
    requires forall m :: m in AtMentions(text) ==> link(m.nick).None?
    requires forall m :: m in NickMentions(text) ==> link(m.nick).None?
    ensures IrcToSlackAsWritten(text, link) == text
  {
    NoRewrites(AtMentions(text), link, true);
    NoRewrites(NickMentions(text), link, false);
  }

  lemma {:induction false} NoRewrites(ms: seq<IrcMention>, link: string -> Option<string>, at: bool)
    requires forall m :: m in ms ==> link(m.nick).None?
    ensures at ==> AtRewrites(ms, link) == []
    ensures !at ==> NickRewrites(ms, link) == []
    decreases |ms|
  {
    if ms != [] {
      assert ms[0] in ms;
      assert forall m :: m in ms[1..] ==> m in ms;
      NoRewrites(ms[1..], link, at);
    }
  }

  // ---------------------------------------------------------------------
  // IRC to Slack, rewriting each mention where it stands

  /** An `@nick` in the intended rewrite: the Slack mention when linked. */
  function AtLink(nick: string, link: string -> Option<string>): string {
    match link(nick)
    case Some(id) => "<@" + id + ">"
    case None => "@" + nick
  }

  /** One token of the intended pass: what it writes and how many
      characters of the input it consumes. */
  datatype Token = Token(out: string, len: nat)

  /** The token at the start of a non-empty text: an `@nick` (read before
      the `nick:` that overlaps it, as the loops do), a run of word
      characters with its colon when it is a linked `nick:`, or else one
      character copied. */
  function Step(s: string, link: string -> Option<string>): (t: Token)
    requires s != []
    ensures 1 <= t.len <= |s|
  {
    if s[0] == '@' && WordRun(s[1..]) > 0 then
      var n := WordRun(s[1..]);
      Token(AtLink(s[1..n + 1], link), n + 1)
    else if WordRun(s) > 0 then
      var n := WordRun(s);
      if n < |s| && s[n] == ':' && link(s[..n]).Some? then
        Token("<@" + link(s[..n]).value + ">:", n + 1)
      else Token(s[..n], n)
    else Token([s[0]], 1)
  }

  /** The intended rewrite: one left-to-right pass in which every linked
      `@nick` and every linked `nick:` is replaced where it stands and all
      other text is copied. */
  function IrcToSlack(s: string, link: string -> Option<string>): string
    decreases |s|
  {
    if s == [] then []
    else
      var t := Step(s, link);
      t.out + IrcToSlack(s[t.len..], link)
  }

  /** A run of word characters is cut short only by a non-word character. */
  lemma {:induction false} WordRunAppend(a: string, b: string)
    requires b == [] || !IsWordChar(b[0])
    ensures WordRun(a + b) == WordRun(a)
    decreases |a|
  {
    if a == [] {
      assert a + b == b;
    } else {
      assert (a + b)[1..] == a[1..] + b;
      WordRunAppend(a[1..], b);
    }
  }

  lemma {:induction false} WordRunWhole(nick: string)
    requires forall i :: 0 <= i < |nick| ==> IsWordChar(nick[i])
    ensures WordRun(nick) == |nick|
    decreases |nick|
  {
    if nick != [] {
      WordRunWhole(nick[1..]);
    }
  }

  /** The first token does not look past a character that neither extends
      a word nor completes a `nick:`. */
  lemma StepAppend(p: string, q: string, link: string -> Option<string>)
    requires p != []
    requires q == [] || (!IsWordChar(q[0]) && q[0] != ':')
    ensures Step(p + q, link) == Step(p, link)
  {
    var s := p + q;
    assert s[0] == p[0] && s[1..] == p[1..] + q;
    WordRunAppend(p[1..], q);
    WordRunAppend(p, q);
    var n := WordRun(p);
    assert s[..n] == p[..n];
    var m := WordRun(p[1..]);
    assert s[1..m + 1] == p[1..m + 1];
    if n < |p| {
      assert s[n] == p[n];
    }
  }

  /** The pass works piece by piece across any point followed by a
      character that neither extends a word nor completes a `nick:`. */
  lemma {:induction false} IrcToSlackAppend(p: string, q: string, link: string -> Option<string>)
    requires q == [] || (!IsWordChar(q[0]) && q[0] != ':')
    ensures IrcToSlack(p + q, link) == IrcToSlack(p, link) + IrcToSlack(q, link)
    decreases |p|
  {
    if p == [] {
      assert p + q == q;
    } else {
      var t := Step(p, link);
      StepAppend(p, q, link);
      DropAppend(p, q, t.len);
      IrcToSlackAppend(p[t.len..], q, link);
      Associate(t.out, IrcToSlack(p[t.len..], link), IrcToSlack(q, link));
    }
  }

  lemma DropAppend(p: string, q: string, n: nat)
    requires n <= |p|
    ensures (p + q)[n..] == p[n..] + q
  {
  }

  /** The token of a whole `@nick`. */
  lemma StepAt(nick: string, t: string, link: string -> Option<string>)
    requires IsNick(nick)
    requires t == [] || !IsWordChar(t[0])
    ensures Step("@" + nick + t, link) == Token(AtLink(nick, link), |nick| + 1)
  {
    var s := "@" + nick + t;
    assert s[1..] == nick + t;
    WordRunAppend(nick, t);
    WordRunWhole(nick);
    assert s[1..|nick| + 1] == nick;
  }

  /** The pass over a whole `@nick`. */
  lemma UnfoldAt(nick: string, q: string, link: string -> Option<string>)
    requires IsNick(nick)
    requires q == [] || !IsWordChar(q[0])
    ensures IrcToSlack("@" + nick + q, link) == AtLink(nick, link) + IrcToSlack(q, link)
  {
    var t := "@" + nick + q;
    StepAt(nick, q, link);
    assert t[|nick| + 1..] == q;
  }

  /** A linked `@nick` becomes that user's Slack mention exactly where it
      stands; the text on either side is rewritten on its own. */
  lemma MentionInPlace(p: string, nick: string, q: string, link: string -> Option<string>, id: string)
    requires IsNick(nick) && link(nick) == Some(id)
    requires q == [] || !IsWordChar(q[0])
    ensures IrcToSlack(p + "@" + nick + q, link)
         == IrcToSlack(p, link) + ("<@" + id + ">") + IrcToSlack(q, link)
  {
    var t := "@" + nick + q;
    Associate(p, "@" + nick, q);
    Associate(p, "@", nick);
    IrcToSlackAppend(p, t, link);
    UnfoldAt(nick, q, link);
    Associate(IrcToSlack(p, link), "<@" + id + ">", IrcToSlack(q, link));
  }

  lemma Associate(a: string, b: string, c: string)
    ensures a + b + c == a + (b + c)
  {
  }

  /** With no linked nick, every token is the text it consumed. */
  lemma StepUnlinked(s: string, link: string -> Option<string>)
    requires s != []
    requires forall nick :: link(nick).None?
    ensures Step(s, link).out == s[..Step(s, link).len]
  {
    if s[0] == '@' && WordRun(s[1..]) > 0 {
      var n := WordRun(s[1..]);
      assert s[..n + 1] == "@" + s[1..n + 1];
    }
  }

  /** Without an `@` or a colon, every token is the text it consumed. */
  lemma StepPlain(s: string, link: string -> Option<string>)
    requires s != []
    requires forall i :: 0 <= i < |s| ==> s[i] != '@' && s[i] != ':'
    ensures Step(s, link).out == s[..Step(s, link).len]
  {
  }

  /** With no linked nick at all, the pass copies its input. */
  lemma {:induction false} IrcToSlackUnlinked(s: string, link: string -> Option<string>)
    requires forall nick :: link(nick).None?
    ensures IrcToSlack(s, link) == s
    decreases |s|
  {
    if s != [] {
      var t := Step(s, link);
      StepUnlinked(s, link);
      IrcToSlackUnlinked(s[t.len..], link);
      assert s[..t.len] + s[t.len..] == s;
    }
  }

  /** Text with no mention at all is copied. */
  lemma {:induction false} IrcToSlackPlain(s: string, link: string -> Option<string>)
    requires forall i :: 0 <= i < |s| ==> s[i] != '@' && s[i] != ':'
    ensures IrcToSlack(s, link) == s
    decreases |s|
  {
    if s != [] {
      var t := Step(s, link);
      StepPlain(s, link);
      IrcToSlackPlain(s[t.len..], link);
      assert s[..t.len] + s[t.len..] == s;
    }
  }

  /** The nick mention in the intended rewrite: the Slack mention and its
      colon when linked. */
  function NickLink(nick: string, link: string -> Option<string>): string {
    match link(nick)
    case Some(id) => "<@" + id + ">:"
    case None => nick + ":"
  }

  /** A text ending in a non-word character is not all one run. */
  lemma {:induction false} WordRunBeforeLast(a: string)
    requires a != [] && !IsWordChar(a[|a| - 1])
    ensures WordRun(a) < |a|
    decreases |a|
  {
    if |a| > 1 && IsWordChar(a[0]) {
      assert a[1..][|a| - 2] == a[|a| - 1];
      WordRunBeforeLast(a[1..]);
    }
  }

  /** A run of word characters cut short inside `a` stays inside `a`. */
  lemma {:induction false} WordRunStops(a: string, b: string)
    requires WordRun(a) < |a|
    ensures WordRun(a + b) == WordRun(a)
    decreases |a|
  {
    assert (a + b)[1..] == a[1..] + b;
    if IsWordChar(a[0]) {
      WordRunStops(a[1..], b);
    }
  }

  /** The first token of a text ending in a character that is neither a
      word character nor an `@` lies within that text. */
  lemma StepAppendAfter(p: string, q: string, link: string -> Option<string>)
    requires p != [] && !IsWordChar(p[|p| - 1]) && p[|p| - 1] != '@'
    ensures Step(p + q, link) == Step(p, link)
  {
    var s := p + q;
    assert s[0] == p[0] && s[1..] == p[1..] + q;
    WordRunBeforeLast(p);
    WordRunStops(p, q);
    var n := WordRun(p);
    assert s[..n] == p[..n] && s[n] == p[n];
    if p[0] == '@' {
      assert p[1..][|p| - 2] == p[|p| - 1];
      WordRunBeforeLast(p[1..]);
      WordRunStops(p[1..], q);
      var m := WordRun(p[1..]);
      assert s[1..m + 1] == p[1..m + 1];
    }
  }

  /** The pass works piece by piece after any character that is neither a
      word character nor an `@`. */
  lemma {:induction false} IrcToSlackAppendAfter(p: string, q: string, link: string -> Option<string>)
    requires p == [] || (!IsWordChar(p[|p| - 1]) && p[|p| - 1] != '@')
    ensures IrcToSlack(p + q, link) == IrcToSlack(p, link) + IrcToSlack(q, link)
    decreases |p|
  {
    if p == [] {
      assert p + q == q;
    } else {
      var t := Step(p, link);
      StepAppendAfter(p, q, link);
      assert (p + q)[t.len..] == p[t.len..] + q;
      if t.len < |p| {
        assert p[t.len..][|p[t.len..]| - 1] == p[|p| - 1];
      }
      IrcToSlackAppendAfter(p[t.len..], q, link);
      Associate(t.out, IrcToSlack(p[t.len..], link), IrcToSlack(q, link));
    }
  }

  /** The pass over a whole `nick:`. */
  lemma UnfoldNick(nick: string, q: string, link: string -> Option<string>)
    requires IsNick(nick)
    ensures IrcToSlack(nick + ":" + q, link) == NickLink(nick, link) + IrcToSlack(q, link)
  {
    var s := nick + ":" + q;
    assert s == nick + (":" + q);
    WordRunAppend(nick, ":" + q);
    WordRunWhole(nick);
    var n := |nick|;
    assert s[n] == ':' && s[..n] == nick && s[n + 1..] == q;
    if link(nick).None? {
      assert s[n..] == ":" + q;
      assert (":" + q)[1..] == q;
      assert Step(":" + q, link) == Token(":", 1);
      Associate(nick, ":", IrcToSlack(q, link));
    }
  }

  /** A linked `nick:` after a non-word character becomes that user's Slack
      mention and its colon exactly where it stands. */
  lemma NickInPlace(p: string, nick: string, q: string, link: string -> Option<string>, id: string)
    requires p == [] || (!IsWordChar(p[|p| - 1]) && p[|p| - 1] != '@')
    requires IsNick(nick) && link(nick) == Some(id)
    ensures IrcToSlack(p + nick + ":" + q, link)
         == IrcToSlack(p, link) + ("<@" + id + ">:") + IrcToSlack(q, link)
  {
    var t := nick + ":" + q;
    Associate(p, nick, ":");
    Associate(p, nick + ":", q);
    IrcToSlackAppendAfter(p, t, link);
    UnfoldNick(nick, q, link);
    Associate(IrcToSlack(p, link), "<@" + id + ">:", IrcToSlack(q, link));
  }

  // ---------------------------------------------------------------------
  // The loops against the in-place rewrite

  /** `pat` cannot start inside `p` when one of its characters occurs
      neither in `p` nor earlier in `pat`. */
  lemma OnlyOccurrence(p: string, pat: string, x: string, i: nat)
    requires i < |pat|
    requires pat[i] !in p && pat[i] !in pat[..i]
    ensures forall j :: 0 <= j < |p| ==> !OccursAt(p + pat + x, pat, j)
  {
    var s := p + pat + x;
    assert forall j :: 0 <= j < |p| ==> p[j] != pat[i];
    assert forall j :: 0 <= j < i ==> pat[..i][j] != pat[i];
    forall j | 0 <= j < |p|
      ensures !OccursAt(s, pat, j)
    {
      if j + i < |p| {
        assert s[j + i] == p[j + i];
      } else {
        assert s[j + i] == pat[j + i - |p|];
      }
      if j + |pat| <= |s| {
        assert s[j..j + |pat|][i] == s[j + i];
      }
    }
  }

  /** `replace` rewrites the occurrence after `p` when there is none
      before it. */
  lemma ReplaceAt(p: string, pat: string, x: string, rep: string)
    requires forall j :: 0 <= j < |p| ==> !OccursAt(p + pat + x, pat, j)
    ensures ReplaceFirst(p + pat + x, pat, rep) == p + rep + x
  {
    var s := p + pat + x;
    assert s[|p|..|p| + |pat|] == pat;
    assert OccursAt(s, pat, |p|);
    assert IndexOf(s, pat) == Some(|p|);
    assert s[..|p|] == p && s[|p| + |pat|..] == x;
  }

  lemma {:induction false} AtMentionsSkip(p: string, x: string)
    requires forall i :: 0 <= i < |p| ==> p[i] != '@'
    ensures AtMentions(p + x) == AtMentions(x)
    decreases |p|
  {
    if p == [] {
      assert p + x == x;
    } else {
      assert (p + x)[0] == p[0] && (p + x)[1..] == p[1..] + x;
      AtMentionsSkip(p[1..], x);
    }
  }

  lemma AtMentionsAt(nick: string, q: string)
    requires IsNick(nick)
    requires q == [] || !IsWordChar(q[0])
    ensures AtMentions("@" + nick + q) == [IrcMention("@" + nick, nick)] + AtMentions(q)
  {
    var s := "@" + nick + q;
    assert s[1..] == nick + q;
    WordRunAppend(nick, q);
    WordRunWhole(nick);
    var n := |nick|;
    assert s[..n + 1] == "@" + nick && s[1..n + 1] == nick && s[n + 1..] == q;
  }

  lemma {:induction false} NickMentionsNone(s: string)
    requires forall i :: 0 <= i < |s| ==> s[i] != ':'
    ensures NickMentions(s) == []
    decreases |s|
  {
    if s != [] {
      NickMentionsNone(s[1..]);
    }
  }

  lemma {:induction false} NickMentionsSkip(p: string, x: string)
    requires forall i :: 0 <= i < |p| ==> p[i] != ':'
    requires p == [] || !IsWordChar(p[|p| - 1])
    ensures NickMentions(p + x) == NickMentions(x)
    decreases |p|
  {
    if p == [] {
      assert p + x == x;
    } else {
      var s := p + x;
      assert s[1..] == p[1..] + x;
      WordRunBeforeLast(p);
      WordRunStops(p, x);
      assert s[WordRun(p)] == p[WordRun(p)];
      if |p| > 1 {
        assert p[1..][|p| - 2] == p[|p| - 1];
      }
      NickMentionsSkip(p[1..], x);
    }
  }

  lemma NickMentionsAt(nick: string, q: string)
    requires IsNick(nick)
    ensures NickMentions(nick + ":" + q) == [IrcMention(nick + ":", nick)] + NickMentions(q)
  {
    var s := nick + ":" + q;
    assert s == nick + (":" + q);
    WordRunAppend(nick, ":" + q);
    WordRunWhole(nick);
    var n := |nick|;
    assert s[n] == ':' && s[..n + 1] == nick + ":" && s[..n] == nick && s[n + 1..] == q;
  }

  /** One `@nick` in text without other mentions: the loops rewrite it
      where it stands, as the in-place pass does. */
  lemma AtMentionAsWritten(p: string, nick: string, q: string, link: string -> Option<string>)
    requires forall i :: 0 <= i < |p| ==> p[i] != '@' && p[i] != ':'
    requires forall i :: 0 <= i < |q| ==> q[i] != '@' && q[i] != ':'
    requires IsNick(nick)
    requires q == [] || !IsWordChar(q[0])
    ensures IrcToSlackAsWritten(p + "@" + nick + q, link) == p + AtLink(nick, link) + q
  {
    var pat := "@" + nick;
    Associate(p, "@", nick);
    var s := p + pat + q;
    AtMatchesOne(p, nick, q);
    RewritesOfOne(pat, nick, link);
    var rws := AtRewrites([IrcMention(pat, nick)], link);
    assert rws + [] == rws;
    if link(nick).Some? {
      OnlyOccurrence(p, pat, q, 0);
      ApplyOne(p, pat, q, "<@" + link(nick).value + ">");
    }
  }

  /** The rewrites of a single match. */
  lemma RewritesOfOne(pat: string, nick: string, link: string -> Option<string>)
    ensures link(nick).Some? ==> AtRewrites([IrcMention(pat, nick)], link) == [Rewrite(pat, "<@" + link(nick).value + ">")]
    ensures link(nick).Some? ==> NickRewrites([IrcMention(pat, nick)], link) == [Rewrite(pat, "<@" + link(nick).value + ">:")]
    ensures link(nick).None? ==> AtRewrites([IrcMention(pat, nick)], link) == []
    ensures link(nick).None? ==> NickRewrites([IrcMention(pat, nick)], link) == []
  {
    var ms := [IrcMention(pat, nick)];
    assert ms[1..] == [] && ms[0].nick == nick;
    assert AtRewrites(ms[1..], link) == [] && NickRewrites(ms[1..], link) == [];
  }

  /** A single rewrite whose text cannot start inside `p`. */
  lemma ApplyOne(p: string, pat: string, x: string, rep: string)
    requires forall j :: 0 <= j < |p| ==> !OccursAt(p + pat + x, pat, j)
    ensures ApplyRewrites(p + pat + x, [Rewrite(pat, rep)]) == p + rep + x
  {
    ReplaceAt(p, pat, x, rep);
    assert [Rewrite(pat, rep)][1..] == [];
  }

  /** The match lists of text with one `@nick` and no other mention. */
  lemma AtMatchesOne(p: string, nick: string, q: string)
    requires forall i :: 0 <= i < |p| ==> p[i] != '@' && p[i] != ':'
    requires forall i :: 0 <= i < |q| ==> q[i] != '@' && q[i] != ':'
    requires IsNick(nick)
    requires q == [] || !IsWordChar(q[0])
    ensures AtMentions(p + "@" + nick + q) == [IrcMention("@" + nick, nick)]
    ensures NickMentions(p + "@" + nick + q) == []
  {
    var s := p + "@" + nick + q;
    AtListOne(p, nick, q);
    NoColon(p, nick, q);
    NickMentionsNone(s);
  }

  lemma AtListOne(p: string, nick: string, q: string)
    requires forall i :: 0 <= i < |p| ==> p[i] != '@'
    requires forall i :: 0 <= i < |q| ==> q[i] != '@'
    requires IsNick(nick)
    requires q == [] || !IsWordChar(q[0])
    ensures AtMentions(p + "@" + nick + q) == [IrcMention("@" + nick, nick)]
  {
    Associate(p, "@", nick);
    Associate(p, "@" + nick, q);
    AtMentionsSkip(p, "@" + nick + q);
    AtMentionsAt(nick, q);
    AtMentionsNone(q);
  }

  lemma AtMentionsNone(q: string)
    requires forall i :: 0 <= i < |q| ==> q[i] != '@'
    ensures AtMentions(q) == []
  {
    AtMentionsSkip(q, []);
    assert q + [] == q;
  }

  lemma NoColon(p: string, nick: string, q: string)
    requires forall i :: 0 <= i < |p| ==> p[i] != ':'
    requires forall i :: 0 <= i < |q| ==> q[i] != ':'
    requires IsNick(nick)
    ensures forall i :: 0 <= i < |p + "@" + nick + q| ==> (p + "@" + nick + q)[i] != ':'
  {
    var s := p + "@" + nick + q;
    forall i | 0 <= i < |s|
      ensures s[i] != ':'
    {
      if i < |p| {
        assert s[i] == p[i];
      } else if |p| < i <= |p| + |nick| {
        assert s[i] == nick[i - |p| - 1];
      } else if i > |p| + |nick| {
        assert s[i] == q[i - |p| - |nick| - 1];
      }
    }
  }

  /** The same text under the in-place pass. */
  lemma AtMentionIntended(p: string, nick: string, q: string, link: string -> Option<string>)
    requires forall i :: 0 <= i < |p| ==> p[i] != '@' && p[i] != ':'
    requires forall i :: 0 <= i < |q| ==> q[i] != '@' && q[i] != ':'
    requires IsNick(nick)
    requires q == [] || !IsWordChar(q[0])
    ensures IrcToSlack(p + "@" + nick + q, link) == p + AtLink(nick, link) + q
  {
    var t := "@" + nick + q;
    Associate(p, "@" + nick, q);
    Associate(p, "@", nick);
    IrcToSlackAppend(p, t, link);
    UnfoldAt(nick, q, link);
    IrcToSlackPlain(p, link);
    IrcToSlackPlain(q, link);
    Associate(p, AtLink(nick, link), q);
  }

  /** One `nick:` after a non-word character in text without other
      mentions: the loops rewrite it where it stands. */
  lemma NickMentionAsWritten(p: string, nick: string, q: string, link: string -> Option<string>)
    requires forall i :: 0 <= i < |p| ==> p[i] != '@' && p[i] != ':'
    requires forall i :: 0 <= i < |q| ==> q[i] != '@' && q[i] != ':'
    requires p == [] || !IsWordChar(p[|p| - 1])
    requires IsNick(nick)
    ensures IrcToSlackAsWritten(p + nick + ":" + q, link) == p + NickLink(nick, link) + q
  {
    var pat := nick + ":";
    Associate(p, nick, ":");
    var s := p + pat + q;
    NickMatchesOne(p, nick, q);
    RewritesOfOne(pat, nick, link);
    var rws := NickRewrites([IrcMention(pat, nick)], link);
    assert [] + rws == rws;
    if link(nick).Some? {
      OnlyOccurrence(p, pat, q, |nick|);
      ApplyOne(p, pat, q, "<@" + link(nick).value + ">:");
    }
  }

  /** The match lists of text with one `nick:` and no other mention. */
  lemma NickMatchesOne(p: string, nick: string, q: string)
    requires forall i :: 0 <= i < |p| ==> p[i] != '@' && p[i] != ':'
    requires forall i :: 0 <= i < |q| ==> q[i] != '@' && q[i] != ':'
    requires p == [] || !IsWordChar(p[|p| - 1])
    requires IsNick(nick)
    ensures AtMentions(p + nick + ":" + q) == []
    ensures NickMentions(p + nick + ":" + q) == [IrcMention(nick + ":", nick)]
  {
    var s := p + nick + ":" + q;
    NickListOne(p, nick, q);
    NoAt(p, nick, q);
    AtMentionsSkip(s, []);
    assert s + [] == s;
  }

  lemma NickListOne(p: string, nick: string, q: string)
    requires forall i :: 0 <= i < |p| ==> p[i] != ':'
    requires forall i :: 0 <= i < |q| ==> q[i] != ':'
    requires p == [] || !IsWordChar(p[|p| - 1])
    requires IsNick(nick)
    ensures NickMentions(p + nick + ":" + q) == [IrcMention(nick + ":", nick)]
  {
    Associate(p, nick, ":");
    Associate(p, nick + ":", q);
    NickMentionsSkip(p, nick + ":" + q);
    NickMentionsAt(nick, q);
    NickMentionsNone(q);
  }

  lemma NoAt(p: string, nick: string, q: string)
    requires forall i :: 0 <= i < |p| ==> p[i] != '@'
    requires forall i :: 0 <= i < |q| ==> q[i] != '@'
    requires IsNick(nick)
    ensures forall i :: 0 <= i < |p + nick + ":" + q| ==> (p + nick + ":" + q)[i] != '@'
  {
    var s := p + nick + ":" + q;
    forall i | 0 <= i < |s|
      ensures s[i] != '@'
    {
      if i < |p| {
        assert s[i] == p[i];
      } else if i < |p| + |nick| {
        assert s[i] == nick[i - |p|];
      } else if i > |p| + |nick| {
        assert s[i] == q[i - |p| - |nick| - 1];
      }
    }
  }

  /** The same text under the in-place pass. */
  lemma NickMentionIntended(p: string, nick: string, q: string, link: string -> Option<string>)
    requires forall i :: 0 <= i < |p| ==> p[i] != '@' && p[i] != ':'
    requires forall i :: 0 <= i < |q| ==> q[i] != '@' && q[i] != ':'
    requires p == [] || !IsWordChar(p[|p| - 1])
    requires IsNick(nick)
    ensures IrcToSlack(p + nick + ":" + q, link) == p + NickLink(nick, link) + q
  {
    var t := nick + ":" + q;
    Associate(p, nick, ":");
    Associate(p, nick + ":", q);
    IrcToSlackAppendAfter(p, t, link);
    UnfoldNick(nick, q, link);
    IrcToSlackPlain(p, link);
    IrcToSlackPlain(q, link);
    Associate(p, NickLink(nick, link), q);
  }

  // ---------------------------------------------------------------------
  // Slack to IRC: the matches of /<@(U[A-Z0-9]+)(\|([^>]+))?>/g

  /** The length of the run of `[A-Z0-9]` that starts `s`. */
  function IdRun(s: string): (n: nat)
    ensures n <= |s|
    ensures n < |s| ==> !Parser.IsIdChar(s[n])
    decreases |s|
  {
    if s != [] && Parser.IsIdChar(s[0]) then 1 + IdRun(s[1..]) else 0
  }

  lemma {:induction false} IdRunChars(s: string)
    ensures forall i :: 0 <= i < IdRun(s) ==> Parser.IsIdChar(s[i])
    decreases |s|
  {
    if s != [] && Parser.IsIdChar(s[0]) {
      IdRunChars(s[1..]);
      assert forall i :: 1 <= i < IdRun(s) ==> s[i] == s[1..][i - 1];
    }
  }

  /** The length of the run of `[^>]` that starts `s`. */
  function LabelRun(s: string): (n: nat)
    ensures n <= |s|
    ensures n < |s| ==> s[n] == '>'
    decreases |s|
  {
    if s != [] && s[0] != '>' then 1 + LabelRun(s[1..]) else 0
  }

  lemma {:induction false} LabelRunChars(s: string)
    ensures '>' !in s[..LabelRun(s)]
    decreases |s|
  {
    if s != [] && s[0] != '>' {
      LabelRunChars(s[1..]);
      assert s[..LabelRun(s)] == [s[0]] + s[1..][..LabelRun(s[1..])];
    }
  }

  /** `U[A-Z0-9]+`. */
  predicate IsUserId(id: string) {
    |id| >= 2 && id[0] == 'U' && forall i :: 1 <= i < |id| ==> Parser.IsIdChar(id[i])
  }

  /** `[^>]+`. */
  predicate IsLabel(l: string) {
    |l| > 0 && '>' !in l
  }

  /** The mention token for a user, with the optional name after `|`. */
  function MentionText(userId: string, name: Option<string>): string {
    match name
    case None => "<@" + userId + ">"
    case Some(l) => "<@" + userId + "|" + l + ">"
  }

  /** A match: its whole text, the user id (`match[1]`) and the name
      (`match[3]`, absent when the group did not take part). */
  datatype SlackMention = SlackMention(text: string, userId: string, name: Option<string>)

  predicate WellFormed(m: SlackMention) {
    IsUserId(m.userId) && (m.name.Some? ==> IsLabel(m.name.value))
    && m.text == MentionText(m.userId, m.name)
  }

  /** The match of the mention pattern at the start of `s`. Both runs are
      greedy and the character after each is the one the pattern needs
      next, so backing off never helps: the match is unique when there is
      one. */
  function MentionAt(s: string): (r: Option<SlackMention>)
    ensures r.Some? ==> WellFormed(r.value) && r.value.text <= s
  {
    if |s| < 3 || s[..3] != "<@U" then None
    else
      var i := 3 + IdRun(s[3..]);
      if i == 3 || i == |s| then None
      else if s[i] == '>' then
        BareMatched(s, i);
        Some(SlackMention(s[..i + 1], s[2..i], None))
      else if s[i] == '|' then
        var n := LabelRun(s[i + 1..]);
        if n == 0 || i + 1 + n == |s| then None
        else
          NamedMatched(s, i, n);
          Some(SlackMention(s[..i + 2 + n], s[2..i], Some(s[i + 1..i + 1 + n])))
      else None
  }

  lemma IdMatched(s: string, i: nat)
    requires 3 <= |s| && s[2] == 'U' && i == 3 + IdRun(s[3..]) && 3 < i
    ensures IsUserId(s[2..i])
  {
    IdRunChars(s[3..]);
    assert forall k :: 1 <= k < i - 2 ==> s[2..i][k] == s[3..][k - 1];
  }

  lemma BareMatched(s: string, i: nat)
    requires 3 <= |s| && s[..3] == "<@U" && i == 3 + IdRun(s[3..]) && 3 < i < |s| && s[i] == '>'
    ensures WellFormed(SlackMention(s[..i + 1], s[2..i], None))
  {
    IdMatched(s, i);
    assert s[..i + 1] == "<@" + s[2..i] + ">";
  }

  lemma NamedMatched(s: string, i: nat, n: nat)
    requires 3 <= |s| && s[..3] == "<@U" && i == 3 + IdRun(s[3..]) && 3 < i < |s| && s[i] == '|'
    requires n == LabelRun(s[i + 1..]) && 0 < n && i + 1 + n < |s|
    ensures WellFormed(SlackMention(s[..i + 2 + n], s[2..i], Some(s[i + 1..i + 1 + n])))
  {
    IdMatched(s, i);
    LabelMatched(s[i + 1..], n);
    assert s[i + 1..][..n] == s[i + 1..i + 1 + n];
    assert s[i + 1 + n] == s[i + 1..][n];
    NamedText(s, i, n);
  }

  lemma LabelMatched(y: string, n: nat)
    requires n == LabelRun(y) && 0 < n < |y|
    ensures IsLabel(y[..n]) && y[n] == '>'
  {
    LabelRunChars(y);
  }

  /** The matched text is the mention token of the id and name it holds. */
  lemma NamedText(s: string, i: nat, n: nat)
    requires 3 <= i && i + 1 + n < |s| && s[..3] == "<@U" && s[i] == '|' && s[i + 1 + n] == '>'
    ensures s[..i + 2 + n] == "<@" + s[2..i] + "|" + s[i + 1..i + 1 + n] + ">"
  {
    assert s[..2] == "<@" by {
      assert s[..2] == s[..3][..2];
    }
    assert s[..i + 1] == s[..2] + s[2..i] + [s[i]];
    assert s[..i + 2 + n] == s[..i + 1] + s[i + 1..i + 1 + n] + [s[i + 1 + n]];
  }

  /** `matchAll`: scanning on after each match and by one character
      elsewhere. */
  function SlackMentions(s: string): (ms: seq<SlackMention>)
    ensures forall k :: 0 <= k < |ms| ==> WellFormed(ms[k])
    decreases |s|
  {
    if s == [] then []
    else match MentionAt(s)
      case Some(m) => [m] + SlackMentions(s[|m.text|..])
      case None => SlackMentions(s[1..])
  }

  /** The replacement for one mention, in the order of the source: the
      linked IRC nick, else the name inside the mention, else the Cachet
      display name; None leaves the mention as it is. */
  function Resolve(m: SlackMention, nickOf: string -> Option<string>, cachetName: string -> Option<string>): Option<string> {
    match nickOf(m.userId)
    case Some(nick) => Some("@" + nick)
    case None =>
      match m.name
      case Some(l) => Some("@" + l)
      case None =>
        match cachetName(m.userId)
        case Some(display) => Some("@" + display)
        case None => None
  }

  /** The rewrites of the loop: the resolved mentions, in order. */
  function SlackRewrites(ms: seq<SlackMention>, nickOf: string -> Option<string>,
                         cachetName: string -> Option<string>): seq<Rewrite>
    decreases |ms|
  {
    if ms == [] then []
    else match Resolve(ms[0], nickOf, cachetName)
      case Some(r) => [Rewrite(ms[0].text, r)] + SlackRewrites(ms[1..], nickOf, cachetName)
      case None => SlackRewrites(ms[1..], nickOf, cachetName)
  }

  /** What `convertSlackMentionsToIrc` computes, as written. */
  function SlackToIrcAsWritten(text: string, nickOf: string -> Option<string>,
                               cachetName: string -> Option<string>): string {
    ApplyRewrites(text, SlackRewrites(SlackMentions(text), nickOf, cachetName))
  }

  /** `convertSlackMentionsToIrc`: the loop over the precomputed matches,
      consulting Cachet only when neither a link nor a name is there. */
  method ConvertSlackMentionsToIrc(text: string, nickOf: string -> Option<string>,
                                   cachetName: string -> Option<string>) returns (result: string)
    ensures result == SlackToIrcAsWritten(text, nickOf, cachetName)
  {
    result := text;
    var mentions := SlackMentions(text);
    var k := 0;
    while k < |mentions|
      invariant 0 <= k <= |mentions|
      invariant ApplyRewrites(result, SlackRewrites(mentions[k..], nickOf, cachetName))
             == SlackToIrcAsWritten(text, nickOf, cachetName)
    {
      assert mentions[k..][1..] == mentions[k + 1..];
      var userId := mentions[k].userId;
      var displayName := mentions[k].name;
      var mapping := nickOf(userId);
      if mapping.Some? {
        result := ReplaceFirst(result, mentions[k].text, "@" + mapping.value);
      } else if displayName.Some? {
        result := ReplaceFirst(result, mentions[k].text, "@" + displayName.value);
      } else {
        var data := cachetName(userId);
        if data.Some? {
          result := ReplaceFirst(result, mentions[k].text, "@" + data.value);
        }
      }
      k := k + 1;
    }
    assert mentions[k..] == [];
  }

  /** What a mention becomes in the loop's output. */
  function Shown(m: SlackMention, nickOf: string -> Option<string>, cachetName: string -> Option<string>): string {
    match Resolve(m, nickOf, cachetName)
    case Some(r) => r
    case None => m.text
  }

  /** A linked user is written as the linked nick, whatever the mention's
      name and whatever Cachet says. */
  lemma LinkedNickFirst(m1: SlackMention, m2: SlackMention, nickOf: string -> Option<string>,
                        c1: string -> Option<string>, c2: string -> Option<string>)
    requires m1.userId == m2.userId && nickOf(m1.userId).Some?
    ensures Resolve(m1, nickOf, c1) == Resolve(m2, nickOf, c2) == Some("@" + nickOf(m1.userId).value)
  {
  }

  /** Cachet is consulted only for an unlinked mention without a name. */
  lemma CachetLastResort(m: SlackMention, nickOf: string -> Option<string>,
                         c1: string -> Option<string>, c2: string -> Option<string>)
    requires nickOf(m.userId).Some? || m.name.Some?
    ensures Resolve(m, nickOf, c1) == Resolve(m, nickOf, c2)
  {
  }

  /** A mention is left alone exactly when all three sources fail. */
  lemma UnresolvedIff(m: SlackMention, nickOf: string -> Option<string>, cachetName: string -> Option<string>)
    ensures Resolve(m, nickOf, cachetName).None?
        <==> nickOf(m.userId).None? && m.name.None? && cachetName(m.userId).None?
  {
  }

  /** A run of `[A-Z0-9]` followed by another character. */
  lemma {:induction false} IdRunOf(a: string, b: string)
    requires forall i :: 0 <= i < |a| ==> Parser.IsIdChar(a[i])
    requires b != [] && !Parser.IsIdChar(b[0])
    ensures IdRun(a + b) == |a|
    decreases |a|
  {
    if a == [] {
      assert a + b == b;
    } else {
      assert (a + b)[1..] == a[1..] + b;
      IdRunOf(a[1..], b);
    }
  }

  /** A run of `[^>]` followed by `>`. */
  lemma {:induction false} LabelRunOf(a: string, b: string)
    requires '>' !in a
    ensures LabelRun(a + ">" + b) == |a|
    decreases |a|
  {
    if a == [] {
      assert a + ">" + b == ">" + b;
    } else {
      assert a[0] in a;
      assert forall c :: c in a[1..] ==> c in a;
      assert (a + ">" + b)[1..] == a[1..] + ">" + b;
      LabelRunOf(a[1..], b);
    }
  }

  /** Rendering a mention and matching it give back the same mention: the
      match is exactly the token, its id and its name. */
  lemma MentionRoundTrip(userId: string, name: Option<string>, rest: string)
    requires IsUserId(userId) && (name.Some? ==> IsLabel(name.value))
    ensures MentionAt(MentionText(userId, name) + rest)
         == Some(SlackMention(MentionText(userId, name), userId, name))
  {
    if name.None? {
      BareRoundTrip(userId, rest);
    } else {
      NamedRoundTrip(userId, name.value, rest);
    }
  }

  lemma BareRoundTrip(userId: string, rest: string)
    requires IsUserId(userId)
    ensures MentionAt(MentionText(userId, None) + rest)
         == Some(SlackMention(MentionText(userId, None), userId, None))
  {
    var t := MentionText(userId, None);
    var s := t + rest;
    var i := |userId| + 2;
    assert s[..3] == "<@U";
    assert s[3..] == userId[1..] + (">" + rest);
    IdRunOf(userId[1..], ">" + rest);
    assert s[i] == '>';
    assert s[..i + 1] == t && s[2..i] == userId;
  }

  lemma NamedRoundTrip(userId: string, l: string, rest: string)
    requires IsUserId(userId) && IsLabel(l)
    ensures MentionAt(MentionText(userId, Some(l)) + rest)
         == Some(SlackMention(MentionText(userId, Some(l)), userId, Some(l)))
  {
    var t := MentionText(userId, Some(l));
    var s := t + rest;
    var i := |userId| + 2;
    var n := |l|;
    NamedIdPart(userId, l, rest);
    NamedLabelPart(l, rest);
    assert s[i + 1 + n] == s[i + 1..][n];
    assert s[i + 1..i + 1 + n] == s[i + 1..][..n];
    NamedWhole(userId, l, rest);
  }

  /** In a named mention the id runs from `U` to the `|`. */
  lemma NamedIdPart(userId: string, l: string, rest: string)
    requires IsUserId(userId)
    ensures var s := MentionText(userId, Some(l)) + rest;
      var i := |userId| + 2;
      |s| >= 3 && s[..3] == "<@U" && 3 + IdRun(s[3..]) == i && i < |s| && s[i] == '|'
      && s[2..i] == userId && s[i + 1..] == l + ">" + rest
  {
    var t := "|" + l + ">" + rest;
    var a := "<@" + userId;
    IdPart(userId, t);
    Associate(a, "|", l);
    Associate(a, "|" + l, ">");
    Associate(a, "|" + l + ">", rest);
    Associate("|", l, ">");
    Associate("|", l + ">", rest);
    DropHead("|", l + ">" + rest);
  }

  lemma DropHead(a: string, b: string)
    requires |a| == 1
    ensures (a + b)[1..] == b
  {
  }

  /** After `<@` a user id runs to the first character that is no id
      character. */
  lemma IdPart(userId: string, t: string)
    requires IsUserId(userId) && t != [] && !Parser.IsIdChar(t[0])
    ensures var s := "<@" + userId + t;
      var i := |userId| + 2;
      |s| >= 3 && s[..3] == "<@U" && 3 + IdRun(s[3..]) == i && i < |s| && s[i] == t[0]
      && s[2..i] == userId && s[i + 1..] == t[1..]
  {
    var s := "<@" + userId + t;
    var i := |userId| + 2;
    assert s[..3] == "<@U";
    assert s[3..] == userId[1..] + t;
    IdRunOf(userId[1..], t);
    assert s[2..i] == userId;
  }

  /** After the `|` the name runs to the `>`. */
  lemma NamedLabelPart(l: string, rest: string)
    requires IsLabel(l)
    ensures var y := l + ">" + rest;
      LabelRun(y) == |l| && |l| < |y| && y[|l|] == '>' && y[..|l|] == l
  {
    LabelRunOf(l, rest);
    var y := l + ">" + rest;
    assert y[..|l|] == l;
  }

  lemma NamedWhole(userId: string, l: string, rest: string)
    ensures (MentionText(userId, Some(l)) + rest)[..|userId| + |l| + 4] == MentionText(userId, Some(l))
  {
  }

  lemma {:induction false} SlackMentionsSkip(p: string, x: string)
    requires '<' !in p
    ensures SlackMentions(p + x) == SlackMentions(x)
    decreases |p|
  {
    if p == [] {
      assert p + x == x;
    } else {
      assert p[0] in p;
      assert forall c :: c in p[1..] ==> c in p;
      assert MentionAt(p + x).None? by {
        assert (p + x)[0] == p[0];
        assert |p + x| >= 3 ==> (p + x)[..3][0] == p[0];
      }
      assert (p + x)[1..] == p[1..] + x;
      SlackMentionsSkip(p[1..], x);
    }
  }

  lemma SlackMentionsAt(userId: string, name: Option<string>, q: string)
    requires IsUserId(userId) && (name.Some? ==> IsLabel(name.value))
    ensures SlackMentions(MentionText(userId, name) + q)
         == [SlackMention(MentionText(userId, name), userId, name)] + SlackMentions(q)
  {
    var t := MentionText(userId, name);
    MentionRoundTrip(userId, name, q);
    assert (t + q)[|t|..] == q;
  }

  /** The rewrites of a single match. */
  lemma SlackRewritesOfOne(m: SlackMention, nickOf: string -> Option<string>, cachetName: string -> Option<string>)
    ensures Resolve(m, nickOf, cachetName).Some?
        ==> SlackRewrites([m], nickOf, cachetName) == [Rewrite(m.text, Resolve(m, nickOf, cachetName).value)]
    ensures Resolve(m, nickOf, cachetName).None? ==> SlackRewrites([m], nickOf, cachetName) == []
  {
    assert [m][1..] == [] && [m][0] == m;
    assert SlackRewrites([m][1..], nickOf, cachetName) == [];
  }

  /** One mention in text without another `<`: the loop rewrites it where
      it stands. */
  lemma SlackMentionInPlace(p: string, userId: string, name: Option<string>, q: string,
                            nickOf: string -> Option<string>, cachetName: string -> Option<string>)
    requires '<' !in p && '<' !in q
    requires IsUserId(userId) && (name.Some? ==> IsLabel(name.value))
    ensures SlackToIrcAsWritten(p + MentionText(userId, name) + q, nickOf, cachetName)
         == p + Shown(SlackMention(MentionText(userId, name), userId, name), nickOf, cachetName) + q
  {
    var t := MentionText(userId, name);
    var m := SlackMention(t, userId, name);
    var s := p + t + q;
    assert SlackMentions(s) == [m] by {
      assert s == p + (t + q);
      SlackMentionsSkip(p, t + q);
      SlackMentionsAt(userId, name, q);
      SlackMentionsSkip(q, []);
      assert q + [] == q;
    }
    SlackRewritesOfOne(m, nickOf, cachetName);
    if Resolve(m, nickOf, cachetName).Some? {
      assert t[0] == '<' && t[..0] == [];
      OnlyOccurrence(p, t, q, 0);
      ApplyOne(p, t, q, Resolve(m, nickOf, cachetName).value);
    }
  }

  lemma {:induction false} NoSlackRewrites(ms: seq<SlackMention>, nickOf: string -> Option<string>,
                                          cachetName: string -> Option<string>)
    requires forall m :: m in ms ==> Resolve(m, nickOf, cachetName).None?
    ensures SlackRewrites(ms, nickOf, cachetName) == []
    decreases |ms|
  {
    if ms != [] {
      assert ms[0] in ms;
      assert forall m :: m in ms[1..] ==> m in ms;
      NoSlackRewrites(ms[1..], nickOf, cachetName);
    }
  }

  /** When no mention resolves, the text comes back unchanged. */
  lemma SlackUnresolvedIdentity(text: string, nickOf: string -> Option<string>,
                                cachetName: string -> Option<string>)
    requires forall m :: m in SlackMentions(text) ==> Resolve(m, nickOf, cachetName).None?
    ensures SlackToIrcAsWritten(text, nickOf, cachetName) == text
  {
    NoSlackRewrites(SlackMentions(text), nickOf, cachetName);
  }

  /** Text without `<` has no mention and comes back unchanged. */
  lemma SlackPlainIdentity(text: string, nickOf: string -> Option<string>,
                           cachetName: string -> Option<string>)
    requires '<' !in text
    ensures SlackMentions(text) == []
    ensures SlackToIrcAsWritten(text, nickOf, cachetName) == text
  {
    SlackMentionsSkip(text, []);
    assert text + [] == text;
  }

  /** A named mention of an unlinked user shows the name from the mention. */
  lemma NamedMentionExample(text: string, nickOf: string -> Option<string>, cachetName: string -> Option<string>)
    requires text == "hi <@U1|ann>!"
    requires nickOf("U1").None?
    ensures SlackToIrcAsWritten(text, nickOf, cachetName) == "hi @ann!"
  {
    NamedMentionText(text);
    ExampleIdAndName();
    SlackMentionInPlace("hi ", "U1", Some("ann"), "!", nickOf, cachetName);
    ExampleShown(nickOf, cachetName);
    NamedMentionResult();
  }

  lemma ExampleShown(nickOf: string -> Option<string>, cachetName: string -> Option<string>)
    requires nickOf("U1").None?
    ensures Shown(SlackMention(MentionText("U1", Some("ann")), "U1", Some("ann")), nickOf, cachetName) == "@ann"
  {
  }

  lemma ExampleIdAndName()
    ensures IsUserId("U1") && IsLabel("ann")
  {
    assert "U1"[0] == 'U' && Parser.IsIdChar("U1"[1]);
  }

  lemma NamedMentionResult()
    ensures "hi " + "@ann" + "!" == "hi @ann!"
  {
  }

  lemma NamedMentionText(text: string)
    requires text == "hi <@U1|ann>!"
    ensures text == "hi " + MentionText("U1", Some("ann")) + "!"
  {
  }

  // ---------------------------------------------------------------------
  // Both directions over the user_mappings rows

  /** The Slack id linked to an IRC nick. */
  function SlackIdOf(users: seq<Mapping>, nick: string): Option<string> {
    match FindByIrc(users, nick)
    case Some(r) => Some(r.slack)
    case None => None
  }

  /** The IRC nick linked to a Slack id. */
  function NickOf(users: seq<Mapping>, userId: string): Option<string> {
    match FindBySlack(users, userId)
    case Some(r) => Some(r.irc)
    case None => None
  }

  /** Under both UNIQUE constraints the two lookups are inverse. */
  lemma LookupsInverse(users: seq<Mapping>, nick: string)
    requires OneToOne(users) && SlackIdOf(users, nick).Some?
    ensures NickOf(users, SlackIdOf(users, nick).value) == Some(nick)
  {
    var r := FindByIrc(users, nick).value;
    var r2 := FindBySlack(users, r.slack).value;
    var i :| 0 <= i < |users| && users[i] == r;
    var j :| 0 <= j < |users| && users[j] == r2;
    assert i == j;
  }

  /** A linked `@nick` sent to Slack and its mention sent back to IRC
      is the `@nick` again. */
  lemma MentionRoundTripThroughStore(users: seq<Mapping>, p: string, nick: string, q: string,
                                     link: string -> Option<string>, nickOf: string -> Option<string>,
                                     cachetName: string -> Option<string>)
    requires OneToOne(users)
    requires forall n :: link(n) == SlackIdOf(users, n)
    requires forall id :: nickOf(id) == NickOf(users, id)
    requires forall i :: 0 <= i < |p| ==> p[i] != '@' && p[i] != ':' && p[i] != '<'
    requires forall i :: 0 <= i < |q| ==> q[i] != '@' && q[i] != ':' && q[i] != '<'
    requires IsNick(nick) && (q == [] || !IsWordChar(q[0]))
    requires SlackIdOf(users, nick).Some? && IsUserId(SlackIdOf(users, nick).value)
    ensures SlackToIrcAsWritten(IrcToSlackAsWritten(p + "@" + nick + q, link), nickOf, cachetName)
         == p + "@" + nick + q
  {
    var id := SlackIdOf(users, nick).value;
    AtMentionAsWritten(p, nick, q, link);
    assert AtLink(nick, link) == MentionText(id, None);
    assert '<' !in p && '<' !in q by {
      assert forall c :: c in p ==> exists i :: 0 <= i < |p| && p[i] == c;
      assert forall c :: c in q ==> exists i :: 0 <= i < |q| && q[i] == c;
    }
    SlackMentionInPlace(p, id, None, q, nickOf, cachetName);
    LookupsInverse(users, nick);
    Associate(p, "@", nick);
  }

  // ---------------------------------------------------------------------
  // Worked examples

  /** A linked `@nick` in the middle of a message. */
  lemma AtMentionExample(text: string, link: string -> Option<string>)
    requires text == "Hey @testuser how are you?" && link("testuser") == Some("U123")
    ensures IrcToSlackAsWritten(text, link) == "Hey <@U123> how are you?"
  {
    AtMentionText(text);
    AtMentionAsWritten("Hey ", "testuser", " how are you?", link);
    AtLinkOf("testuser", link, "U123");
  }

  lemma AtMentionText(text: string)
    requires text == "Hey @testuser how are you?"
    ensures text == "Hey " + "@" + "testuser" + " how are you?"
    ensures "Hey " + ("<@" + "U123" + ">") + " how are you?" == "Hey <@U123> how are you?"
  {
  }

  lemma AtLinkOf(nick: string, link: string -> Option<string>, id: string)
    requires link(nick) == Some(id)
    ensures AtLink(nick, link) == "<@" + id + ">"
  {
  }

  /** An unlinked `@nick` is left as it is. */
  lemma UnlinkedAtExample(text: string, link: string -> Option<string>)
    requires text == "Hey @unknownuser" && link("unknownuser") == None
    ensures IrcToSlackAsWritten(text, link) == text
  {
    UnlinkedAtText(text);
    AtMentionAsWritten("Hey ", "unknownuser", "", link);
  }

  lemma UnlinkedAtText(text: string)
    requires text == "Hey @unknownuser"
    ensures text == "Hey " + "@" + "unknownuser" + ""
    ensures "Hey " + ("@" + "unknownuser") + "" == text
  {
  }

  /** A linked `nick:` at the start of a message. */
  lemma NickMentionExample(text: string, link: string -> Option<string>)
    requires text == "alice: hello" && link("alice") == Some("U456")
    ensures IrcToSlackAsWritten(text, link) == "<@U456>: hello"
  {
    NickMentionText(text);
    NickMentionAsWritten("", "alice", " hello", link);
    NickLinkOf("alice", link, "U456");
  }

  lemma NickMentionText(text: string)
    requires text == "alice: hello"
    ensures text == "" + "alice" + ":" + " hello"
    ensures "" + ("<@" + "U456" + ">:") + " hello" == "<@U456>: hello"
  {
  }

  lemma NickLinkOf(nick: string, link: string -> Option<string>, id: string)
    requires link(nick) == Some(id)
    ensures NickLink(nick, link) == "<@" + id + ">:"
  {
  }

  /** An unlinked `nick:` is left as it is. */
  lemma UnlinkedNickExample(text: string, link: string -> Option<string>)
    requires text == "bob: hello" && link("bob") == None
    ensures IrcToSlackAsWritten(text, link) == text
  {
    UnlinkedNickText(text);
    NickMentionAsWritten("", "bob", " hello", link);
  }

  lemma UnlinkedNickText(text: string)
    requires text == "bob: hello"
    ensures text == "" + "bob" + ":" + " hello"
    ensures "" + ("bob" + ":") + " hello" == text
  {
  }

  /** Both kinds of mention in one message. */
  lemma MultipleMentionsExample(text: string, link: string -> Option<string>)
    requires text == "@alice and bob: hello!"
    requires link("alice") == Some("U123") && link("bob") == Some("U456")
    ensures IrcToSlackAsWritten(text, link) == "<@U123> and <@U456>: hello!"
  {
    MultipleMentionsMatches(text);
    RewritesOfOne("@alice", "alice", link);
    RewritesOfOne("bob:", "bob", link);
    var r1, r2 := Rewrite("@alice", "<@" + "U123" + ">"), Rewrite("bob:", "<@" + "U456" + ">:");
    assert IrcToSlackAsWritten(text, link) == ApplyRewrites(text, [r1] + [r2]);
    ApplyAppend(text, [r1], [r2]);
    MultipleMentionsText(text);
    ApplyOne("", "@alice", " and bob: hello!", "<@" + "U123" + ">");
    MultipleMentionsSecond();
  }

  /** The second rewrite finds `bob:` after the first one's output. */
  lemma MultipleMentionsSecond()
    ensures ApplyRewrites("<@U123> and " + "bob:" + " hello!", [Rewrite("bob:", "<@" + "U456" + ">:")])
         == "<@U123> and " + ("<@" + "U456" + ">:") + " hello!"
  {
    OnlyOccurrence("<@U123> and ", "bob:", " hello!", 3);
    ApplyOne("<@U123> and ", "bob:", " hello!", "<@" + "U456" + ">:");
  }

  lemma MultipleMentionsText(text: string)
    requires text == "@alice and bob: hello!"
    ensures text == "" + "@alice" + " and bob: hello!"
    ensures "" + ("<@" + "U123" + ">") + " and bob: hello!" == "<@U123> and " + "bob:" + " hello!"
    ensures "<@U123> and " + ("<@" + "U456" + ">:") + " hello!" == "<@U123> and <@U456>: hello!"
  {
    MiddleText();
  }

  lemma MiddleText()
    ensures "" + ("<@" + "U123" + ">") + " and bob: hello!" == "<@U123> and " + "bob:" + " hello!"
  {
    assert "" + ("<@" + "U123" + ">") + " and bob: hello!" == "<@U123> and bob: hello!";
  }

  lemma MultipleMentionsMatches(text: string)
    requires text == "@alice and bob: hello!"
    ensures AtMentions(text) == [IrcMention("@alice", "alice")]
    ensures NickMentions(text) == [IrcMention("bob:", "bob")]
  {
    MultipleMentionsAt(text);
    MultipleMentionsNick(text);
  }

  lemma MultipleMentionsAt(text: string)
    requires text == "@alice and bob: hello!"
    ensures AtMentions(text) == [IrcMention("@alice", "alice")]
  {
    assert text == "" + "@" + "alice" + " and bob: hello!" && "@" + "alice" == "@alice" by {
      MultipleMentionsPieces(text);
    }
    AtListOne("", "alice", " and bob: hello!");
  }

  lemma MultipleMentionsNick(text: string)
    requires text == "@alice and bob: hello!"
    ensures NickMentions(text) == [IrcMention("bob:", "bob")]
  {
    assert text == "@alice and " + "bob" + ":" + " hello!" && "bob" + ":" == "bob:" by {
      MultipleMentionsPieces(text);
    }
    NickListOne("@alice and ", "bob", " hello!");
  }

  lemma MultipleMentionsPieces(text: string)
    requires text == "@alice and bob: hello!"
    ensures text == "" + "@" + "alice" + " and bob: hello!"
    ensures text == "@alice and " + "bob" + ":" + " hello!"
    ensures "@" + "alice" == "@alice" && "bob" + ":" == "bob:"
  {
  }

  /** A linked nick that is a prefix of an earlier unlinked one: the loop
      rewrites the first occurrence of `@al`, inside `@alice`, and leaves
      the mention itself alone. */
  lemma PrefixNickAsWritten(text: string, link: string -> Option<string>)
    requires text == "@alice @al"
    requires link("alice") == None && link("al") == Some("U1")
    ensures IrcToSlackAsWritten(text, link) == "<@U1>ice @al"
  {
    var m1, m2 := IrcMention("@alice", "alice"), IrcMention("@al", "al");
    PrefixNickMatches(text);
    assert [m1, m2][1..] == [m2] && [m1, m2][0].nick == "alice";
    RewritesOfOne("@al", "al", link);
    assert AtRewrites([m1, m2], link) == [Rewrite("@al", "<@" + "U1" + ">")];
    PrefixNickText(text);
    ApplyOne("", "@al", "ice @al", "<@" + "U1" + ">");
  }

  lemma PrefixNickText(text: string)
    requires text == "@alice @al"
    ensures text == "" + "@al" + "ice @al"
    ensures "" + ("<@" + "U1" + ">") + "ice @al" == "<@U1>ice @al"
  {
  }

  /** Both `@alice` and `@al` are matched, and no `nick:`. */
  lemma PrefixNickMatches(text: string)
    requires text == "@alice @al"
    ensures AtMentions(text) == [IrcMention("@alice", "alice"), IrcMention("@al", "al")]
    ensures NickMentions(text) == []
  {
    PrefixNickAts(text);
    PrefixNickNoColon(text);
  }

  lemma PrefixNickNoColon(text: string)
    requires text == "@alice @al"
    ensures NickMentions(text) == []
  {
    NickMentionsNone(text);
  }

  lemma PrefixNickAts(text: string)
    requires text == "@alice @al"
    ensures AtMentions(text) == [IrcMention("@alice", "alice"), IrcMention("@al", "al")]
  {
    PrefixNickPieces(text);
    AtMentionsAt("alice", " @al");
    AtMentionsSkip(" ", "@" + "al" + "");
    AtMentionsAt("al", "");
  }

  lemma PrefixNickPieces(text: string)
    requires text == "@alice @al"
    ensures text == "@" + "alice" + " @al"
    ensures " @al" == " " + ("@" + "al" + "")
    ensures "@" + "alice" == "@alice" && "@" + "al" == "@al"
    ensures [IrcMention("@alice", "alice")] + ([IrcMention("@al", "al")] + [])
         == [IrcMention("@alice", "alice"), IrcMention("@al", "al")]
  {
  }

  /** The same text under the in-place pass: the linked mention is the
      one rewritten. */
  lemma PrefixNickIntended(text: string, link: string -> Option<string>)
    requires text == "@alice @al"
    requires link("alice") == None && link("al") == Some("U1")
    ensures IrcToSlack(text, link) == "@alice <@U1>"
  {
    PrefixNickIntendedPieces(text);
    UnfoldAt("alice", " @al", link);
    AtMentionIntended(" ", "al", "", link);
    AtLinkOf("al", link, "U1");
  }

  lemma PrefixNickIntendedPieces(text: string)
    requires text == "@alice @al"
    ensures text == "@" + "alice" + " @al"
    ensures " @al" == " " + "@" + "al" + ""
    ensures "@" + "alice" + (" " + ("<@" + "U1" + ">") + "") == "@alice <@U1>"
  {
  }
}
