/**
 Admonition rewriting: Obsidian callouts `> [!tag] title` become Typora's
 `> [!tag]` line followed by a bold title line, unsupported tags lose the tag,
 and every other line is copied.

 `BQ_RE`, `^(\s*>\s*)\[!([A-Za-z0-9_-]+)\](.*)$`, is modelled by the matcher
 `MatchAdmonition`, proved to return exactly the decomposition the pattern
 describes (`IsAdmonitionLine`). The line loop of `rewrite_blockquotes` is the
 method `RewriteBlockquotes`, proved against the specification `RewriteAll`.
 */
module Admonitions {
  import opened Wrappers
  import opened Text

  /** The tags Typora renders, compared with the tag in lower case. */
  const SupportedAdmonitions: set<string> := {"note", "tip", "important", "warning", "caution"}

  /** `[A-Za-z0-9_-]`. */
  predicate IsTagChar(c: char)
  {
    'A' <= c <= 'Z' || 'a' <= c <= 'z' || '0' <= c <= '9' || c == '_' || c == '-'
  }

  predicate IsTag(t: string)
  {
    t != [] && forall k :: 0 <= k < |t| ==> IsTagChar(t[k])
  }

  /**
   Every supported admonition type is a tag `BQ_RE` can capture, and it is
   its own lower-case form, so `tag.lower() in SUPPORTED_ADMONITIONS` holds
   for each of them as written.
   */
  lemma SupportedAdmonitionsAreTags(t: string)
    requires t in SupportedAdmonitions
    ensures IsTag(t) && Lower(t) == t
  {
    SupportedMembers(t);
    NoteIsLowerTag(t);
    TipIsLowerTag(t);
    ImportantIsLowerTag(t);
    WarningIsLowerTag(t);
    CautionIsLowerTag(t);
  }

  lemma SupportedMembers(t: string)
    requires t in SupportedAdmonitions
    ensures t == "note" || t == "tip" || t == "important" || t == "warning" || t == "caution"
  {
  }

  lemma NoteIsLowerTag(w: string)
    ensures w == "note" ==> IsTag(w) && Lower(w) == w
  {
    if w == "note" {
      assert forall k :: 0 <= k < |w| ==> 'a' <= w[k] <= 'z';
      LowerWordIsTag(w);
    }
  }

  lemma TipIsLowerTag(w: string)
    ensures w == "tip" ==> IsTag(w) && Lower(w) == w
  {
    if w == "tip" {
      assert forall k :: 0 <= k < |w| ==> 'a' <= w[k] <= 'z';
      LowerWordIsTag(w);
    }
  }

  lemma ImportantIsLowerTag(w: string)
    ensures w == "important" ==> IsTag(w) && Lower(w) == w
  {
    if w == "important" {
      assert forall k :: 0 <= k < |w| ==> 'a' <= w[k] <= 'z';
      LowerWordIsTag(w);
    }
  }

  lemma WarningIsLowerTag(w: string)
    ensures w == "warning" ==> IsTag(w) && Lower(w) == w
  {
    if w == "warning" {
      assert forall k :: 0 <= k < |w| ==> 'a' <= w[k] <= 'z';
      LowerWordIsTag(w);
    }
  }

  lemma CautionIsLowerTag(w: string)
    ensures w == "caution" ==> IsTag(w) && Lower(w) == w
  {
    if w == "caution" {
      assert forall k :: 0 <= k < |w| ==> 'a' <= w[k] <= 'z';
      LowerWordIsTag(w);
    }
  }

  lemma LowerWordIsTag(w: string)
    requires w != [] && forall k :: 0 <= k < |w| ==> 'a' <= w[k] <= 'z'
    ensures IsTag(w) && Lower(w) == w
  {
  }

  predicate NotNewline(c: char)
  {
    c != '\n'
  }

  /** `\s*>\s*`: optional whitespace, one `>`, optional whitespace. */
  predicate IsLeader(s: string)
  {
    var n := LeadingSpaces(s);
    n < |s| && s[n] == '>' && AllSpace(s[n + 1..])
  }

  /** The three groups of a `BQ_RE` match. */
  datatype Admonition = Admonition(leader: string, tag: string, rest: string)

  /** Groups the pattern can capture: a leader, a non-empty tag, and a rest without a line break. */
  predicate IsGroups(adm: Admonition)
  {
    IsLeader(adm.leader) && IsTag(adm.tag) && '\n' !in adm.rest
  }

  /** The line an admonition is read from, without its line break. */
  function Head(adm: Admonition): string
  {
    adm.leader + "[!" + adm.tag + "]" + adm.rest
  }

  /**
   `line` is what `BQ_RE` describes, with `adm` as its groups: `rest` runs to
   the end of the line, and `$` allows one final line break after it.
   */
  predicate IsAdmonitionLine(line: string, adm: Admonition)
  {
    IsGroups(adm) && (line == Head(adm) || line == Head(adm) + "\n")
  }

  /** Where `\s*>\s*` at the start of `line` ends, when `line` starts with one. */
  function QuoteEnd(line: string): (r: Option<nat>)
    ensures r.Some? ==> r.value <= |line|
  {
    var a := LeadingSpaces(line);
    if a < |line| && line[a] == '>' then Some(Span(line, a + 1, IsSpace)) else None
  }

  /** What `QuoteEnd` finds is a leader, and no more whitespace follows it. */
  lemma QuoteEndSound(line: string)
    ensures var r := QuoteEnd(line);
      r.Some? ==> IsLeader(line[..r.value]) && (r.value < |line| ==> !IsSpace(line[r.value]))
  {
    var a := LeadingSpaces(line);
    if a < |line| && line[a] == '>' {
      var b := Span(line, a + 1, IsSpace);
      assert line[..b][..a] == line[..a];
      SpanUnique(line[..b], 0, IsSpace, a);
      assert line[..b][a + 1..] == line[a + 1..b];
    }
  }

  /** A leader followed by anything but whitespace is found in full. */
  lemma QuoteEndComplete(leader: string, s: string)
    requires IsLeader(leader) && s != [] && !IsSpace(s[0])
    ensures QuoteEnd(leader + s) == Some(|leader|)
  {
    var line := leader + s;
    var n := LeadingSpaces(leader);
    var b := |leader|;
    assert forall j :: 0 <= j < b ==> line[j] == leader[j];
    assert forall j :: 0 <= j < n ==> IsSpace(leader[j]) by {
      assert forall j :: 0 <= j < n ==> leader[j] == leader[..n][j];
    }
    assert forall j :: n + 1 <= j < b ==> IsSpace(leader[j]) by {
      assert forall j :: n + 1 <= j < b ==> leader[j] == leader[n + 1..][j - n - 1];
    }
    SpanUnique(line, 0, IsSpace, n);
    SpanUnique(line, n + 1, IsSpace, b);
  }

  /** Where `\[!([A-Za-z0-9_-]+)\]` starting at `from` has its `]`, when it is there. */
  function TagEnd(line: string, from: nat): (r: Option<nat>)
    requires from <= |line|
    ensures r.Some? ==> from + 2 < r.value < |line|
  {
    if from + 2 <= |line| && line[from] == '[' && line[from + 1] == '!' then
      var t := Span(line, from + 2, IsTagChar);
      if from + 2 < t < |line| && line[t] == ']' then Some(t) else None
    else
      None
  }

  /** What `TagEnd` finds is `[!`, a tag, and `]`. */
  lemma TagEndSound(line: string, from: nat)
    requires from <= |line|
    ensures var r := TagEnd(line, from);
      r.Some? ==> line[from] == '[' && line[from + 1] == '!' && line[r.value] == ']' && IsTag(line[from + 2..r.value])
  {
  }

  lemma TagEndComplete(p: string, tag: string, s: string)
    requires IsTag(tag)
    ensures TagEnd(p + "[!" + tag + "]" + s, |p|) == Some(|p| + 2 + |tag|)
  {
    var line := p + "[!" + tag + "]" + s;
    var t := |p| + 2 + |tag|;
    assert forall j :: |p| + 2 <= j < t ==> line[j] == tag[j - |p| - 2];
    SpanUnique(line, |p| + 2, IsTagChar, t);
  }

  /** `(.*)$` from `from`: where the rest ends, when at most a final `\n` follows it. */
  function RestEnd(line: string, from: nat): (r: Option<nat>)
    requires from <= |line|
    ensures r.Some? ==> from <= r.value <= |line|
  {
    var e := Span(line, from, NotNewline);
    if e + 1 >= |line| then Some(e) else None
  }

  /** What `RestEnd` finds holds no line break, and at most a final `\n` follows it. */
  lemma RestEndSound(line: string, from: nat)
    requires from <= |line|
    ensures var r := RestEnd(line, from);
      r.Some? ==> '\n' !in line[from..r.value] && (line[r.value..] == "" || line[r.value..] == "\n")
  {
    var e := Span(line, from, NotNewline);
    if e + 1 >= |line| && e < |line| {
      assert line[e..] == [line[e]];
    }
  }

  lemma RestEndComplete(p: string, rest: string, eol: string)
    requires '\n' !in rest && (eol == "" || eol == "\n")
    ensures RestEnd(p + rest + eol, |p|) == Some(|p| + |rest|)
  {
    var line := p + rest + eol;
    var e := |p| + |rest|;
    assert forall j :: |p| <= j < e ==> line[j] == rest[j - |p|];
    SpanUnique(line, |p|, NotNewline, e);
  }

  /** `BQ_RE.match(line)`, as the groups it captures. */
  function MatchAdmonition(line: string): Option<Admonition>
  {
    match QuoteEnd(line)
    case None => None
    case Some(b) =>
      match TagEnd(line, b)
      case None => None
      case Some(t) =>
        match RestEnd(line, t + 1)
        case None => None
        case Some(e) => Some(Admonition(line[..b], line[b + 2..t], line[t + 1..e]))
  }

  /** Whatever the matcher returns is a reading of the line that `BQ_RE` describes. */
  lemma MatchAdmonitionSound(line: string)
    ensures MatchAdmonition(line).Some? ==> IsAdmonitionLine(line, MatchAdmonition(line).value)
  {
    match QuoteEnd(line)
    case None =>
    case Some(b) =>
      match TagEnd(line, b)
      case None =>
      case Some(t) =>
        match RestEnd(line, t + 1)
        case None =>
        case Some(e) =>
          MatchAt(line, b, t, e);
          SoundAt(line, b, t, e);
  }

  /** The groups cut at the ends of the three parts read the line as `BQ_RE` does. */
  lemma SoundAt(line: string, b: nat, t: nat, e: nat)
    requires b + 2 < t < e + 1 <= |line| + 1
    requires QuoteEnd(line) == Some(b) && TagEnd(line, b) == Some(t) && RestEnd(line, t + 1) == Some(e)
    ensures IsAdmonitionLine(line, Admonition(line[..b], line[b + 2..t], line[t + 1..e]))
  {
    QuoteEndSound(line);
    TagEndSound(line, b);
    RestEndSound(line, t + 1);
    HeadOfLine(line, b, t, e);
    SliceJoin(line, e);
  }

  /** Cutting a line at the brackets around its tag gives back the line. */
  lemma HeadOfLine(line: string, b: nat, t: nat, e: nat)
    requires b + 2 <= t < e <= |line|
    requires line[b] == '[' && line[b + 1] == '!' && line[t] == ']'
    ensures line[..e] == Head(Admonition(line[..b], line[b + 2..t], line[t + 1..e]))
  {
    assert line[b..b + 2] == "[!";
    assert line[t..t + 1] == "]";
    assert line[..e] == line[..b] + line[b..b + 2] + line[b + 2..t] + line[t..t + 1] + line[t + 1..e];
  }

  /**
   Wherever a line has the shape `BQ_RE` describes, the matcher finds it with
   the same groups; with `MatchAdmonitionSound`, the matcher returns `adm`
   exactly when `line` is read as `adm`, so the reading is unique.
   */
  lemma MatchAdmonitionComplete(line: string, adm: Admonition)
    requires IsAdmonitionLine(line, adm)
    ensures MatchAdmonition(line) == Some(adm)
  {
    if line == Head(adm) {
      assert line == Head(adm) + "";
      MatchReadsGroups(adm, "");
    } else {
      MatchReadsGroups(adm, "\n");
    }
  }

  lemma MatchReadsGroups(adm: Admonition, eol: string)
    requires IsGroups(adm) && (eol == "" || eol == "\n")
    ensures MatchAdmonition(Head(adm) + eol) == Some(adm)
  {
    var line := Head(adm) + eol;
    var b := |adm.leader|;
    var t := b + 2 + |adm.tag|;
    var e := t + 1 + |adm.rest|;
    StagesOfGroups(adm, eol, line, b, t, e);
    MatchIs(line, b, t, e, adm);
  }

  lemma MatchIs(line: string, b: nat, t: nat, e: nat, adm: Admonition)
    requires b + 2 < t < e + 1 <= |line| + 1
    requires QuoteEnd(line) == Some(b) && TagEnd(line, b) == Some(t) && RestEnd(line, t + 1) == Some(e)
    requires line[..b] == adm.leader && line[b + 2..t] == adm.tag && line[t + 1..e] == adm.rest
    ensures MatchAdmonition(line) == Some(adm)
  {
    MatchAt(line, b, t, e);
  }

  /** The three stages of the matcher end where the groups of `adm` end. */
  lemma StagesOfGroups(adm: Admonition, eol: string, line: string, b: nat, t: nat, e: nat)
    requires IsGroups(adm) && (eol == "" || eol == "\n") && line == Head(adm) + eol
    requires b == |adm.leader| && t == b + 2 + |adm.tag| && e == t + 1 + |adm.rest|
    ensures b + 2 < t < e + 1 <= |line| + 1
    ensures QuoteEnd(line) == Some(b) && TagEnd(line, b) == Some(t) && RestEnd(line, t + 1) == Some(e)
    ensures line[..b] == adm.leader && line[b + 2..t] == adm.tag && line[t + 1..e] == adm.rest
  {
    QuoteEndOfGroups(adm, eol, line, b);
    TagEndOfGroups(adm, eol, line, b, t);
    RestEndOfGroups(adm, eol, line, t, e);
    HeadSlices(adm, eol, line, b, t, e);
  }

  /** The groups stand in the line at the places the matcher cuts it. */
  lemma HeadSlices(adm: Admonition, eol: string, line: string, b: nat, t: nat, e: nat)
    requires line == Head(adm) + eol
    requires b == |adm.leader| && t == b + 2 + |adm.tag| && e == t + 1 + |adm.rest|
    ensures e <= |line|
    ensures line[..b] == adm.leader && line[b + 2..t] == adm.tag && line[t + 1..e] == adm.rest
  {
    assert line == adm.leader + "[!" + adm.tag + "]" + adm.rest + eol;
    assert forall q :: 0 <= q < |adm.tag| ==> line[b + 2 + q] == adm.tag[q];
    assert forall q :: 0 <= q < |adm.rest| ==> line[t + 1 + q] == adm.rest[q];
  }

  lemma QuoteEndOfGroups(adm: Admonition, eol: string, line: string, b: nat)
    requires IsLeader(adm.leader)
    requires line == Head(adm) + eol && b == |adm.leader|
    ensures QuoteEnd(line) == Some(b)
  {
    var s := "[!" + adm.tag + "]" + adm.rest + eol;
    assert line == adm.leader + s;
    QuoteEndComplete(adm.leader, s);
  }

  lemma TagEndOfGroups(adm: Admonition, eol: string, line: string, b: nat, t: nat)
    requires IsTag(adm.tag)
    requires line == Head(adm) + eol && b == |adm.leader| && t == b + 2 + |adm.tag|
    ensures TagEnd(line, b) == Some(t)
  {
    assert line == adm.leader + "[!" + adm.tag + "]" + (adm.rest + eol);
    TagEndComplete(adm.leader, adm.tag, adm.rest + eol);
  }

  lemma RestEndOfGroups(adm: Admonition, eol: string, line: string, t: nat, e: nat)
    requires '\n' !in adm.rest && (eol == "" || eol == "\n")
    requires line == Head(adm) + eol && t == |adm.leader| + 2 + |adm.tag| && e == t + 1 + |adm.rest|
    ensures RestEnd(line, t + 1) == Some(e)
  {
    var p := adm.leader + "[!" + adm.tag + "]";
    assert line == p + adm.rest + eol;
    RestEndComplete(p, adm.rest, eol);
  }

  /** The matcher's groups once the ends of its three parts are known. */
  lemma MatchAt(line: string, b: nat, t: nat, e: nat)
    requires b + 2 < t < e + 1 <= |line| + 1
    requires QuoteEnd(line) == Some(b) && TagEnd(line, b) == Some(t) && RestEnd(line, t + 1) == Some(e)
    ensures MatchAdmonition(line) == Some(Admonition(line[..b], line[b + 2..t], line[t + 1..e]))
  {
  }

  /**
   One line of `rewrite_blockquotes`: a supported tag with a title becomes the
   bare tag line and a bold title line; a supported tag without a title stays
   as it is; an unsupported tag is replaced by the bold title alone, or dropped
   when there is none; a line that does not match is copied.
   */
  function RewriteLine(line: string): seq<string>
  {
    match MatchAdmonition(line)
    case None => [line]
    case Some(adm) => RewriteMatched(line, adm)
  }

  /** The output for a line that matched with groups `adm`. */
  function RewriteMatched(line: string, adm: Admonition): seq<string>
  {
    var title := Strip(adm.rest);
    if Lower(adm.tag) in SupportedAdmonitions then
      if title != "" then [TagLine(adm.leader, adm.tag), TitleLine(adm.leader, title)] else [line]
    else
      if title != "" then [TitleLine(adm.leader, title)] else []
  }

  predicate EndsInNewline(s: string)
  {
    s != "" && s[|s| - 1] == '\n'
  }

  /** `leader + "[!" + tag + "]\n"`. */
  function TagLine(leader: string, tag: string): string
  {
    leader + "[!" + tag + "]" + "\n"
  }

  /** `leader + "**" + title + "**\n"`. */
  function TitleLine(leader: string, title: string): string
  {
    leader + "**" + title + "**" + "\n"
  }

  /**
   A line gives at most two output lines, and each of them is the line itself
   or a generated line ending in `\n`.
   */
  lemma RewriteLineShape(line: string)
    ensures |RewriteLine(line)| <= 2
    ensures forall k :: 0 <= k < |RewriteLine(line)| ==> RewriteLine(line)[k] == line || EndsInNewline(RewriteLine(line)[k])
  {
    match MatchAdmonition(line)
    case None =>
    case Some(adm) =>
      RewriteMatchedShape(line, adm);
  }

  lemma RewriteMatchedShape(line: string, adm: Admonition)
    ensures var r := RewriteMatched(line, adm);
      |r| <= 2 && forall k :: 0 <= k < |r| ==> r[k] == line || EndsInNewline(r[k])
  {
    GeneratedLinesEndInNewline(adm.leader, adm.tag, Strip(adm.rest));
  }

  lemma GeneratedLinesEndInNewline(leader: string, tag: string, title: string)
    ensures EndsInNewline(TagLine(leader, tag)) && EndsInNewline(TitleLine(leader, title))
  {
  }

  /** A line that `BQ_RE` does not describe is copied as it is. */
  lemma CopiesOtherLines(line: string)
    ensures (forall adm :: !IsAdmonitionLine(line, adm)) ==> RewriteLine(line) == [line]
  {
    MatchAdmonitionSound(line);
  }

  /** A supported tag (in any letter case) with a non-empty title gives the tag line and the bold title line. */
  lemma SupportedWithTitle(line: string, adm: Admonition)
    requires IsAdmonitionLine(line, adm)
    requires Lower(adm.tag) in SupportedAdmonitions && Strip(adm.rest) != ""
    ensures RewriteLine(line) == [TagLine(adm.leader, adm.tag), TitleLine(adm.leader, Strip(adm.rest))]
  {
    MatchAdmonitionComplete(line, adm);
  }

  /** A supported tag with a title that is empty or all whitespace leaves the line byte for byte. */
  lemma SupportedWithoutTitle(line: string, adm: Admonition)
    requires IsAdmonitionLine(line, adm)
    requires Lower(adm.tag) in SupportedAdmonitions && AllSpace(adm.rest)
    ensures RewriteLine(line) == [line]
  {
    MatchAdmonitionComplete(line, adm);
    StripEmpty(adm.rest);
  }

  /** An unsupported tag with a non-empty title gives the bold title line alone. */
  lemma UnsupportedWithTitle(line: string, adm: Admonition)
    requires IsAdmonitionLine(line, adm)
    requires Lower(adm.tag) !in SupportedAdmonitions && Strip(adm.rest) != ""
    ensures RewriteLine(line) == [TitleLine(adm.leader, Strip(adm.rest))]
  {
    MatchAdmonitionComplete(line, adm);
  }

  /** An unsupported tag without a title drops the line. */
  lemma UnsupportedWithoutTitle(line: string, adm: Admonition)
    requires IsAdmonitionLine(line, adm)
    requires Lower(adm.tag) !in SupportedAdmonitions && AllSpace(adm.rest)
    ensures RewriteLine(line) == []
  {
    MatchAdmonitionComplete(line, adm);
    StripEmpty(adm.rest);
  }

  /**
   Only one `>` may precede the tag: a nested quote `> > [!tag] ...` does not
   match and is copied.
   */
  lemma NestedQuoteIsCopied(a: string, b: string, rest: string)
    requires AllSpace(a) && AllSpace(b)
    ensures RewriteLine(a + ">" + b + ">" + rest) == [a + ">" + b + ">" + rest]
  {
    var leader := a + ">" + b;
    var line := a + ">" + b + ">" + rest;
    SpacedQuoteIsLeader(a, b);
    assert line == leader + (">" + rest);
    QuoteEndComplete(leader, ">" + rest);
    assert line[|leader|] == '>';
  }

  /** Whitespace, one `>` and whitespace make a leader. */
  lemma SpacedQuoteIsLeader(a: string, b: string)
    requires AllSpace(a) && AllSpace(b)
    ensures IsLeader(a + ">" + b)
  {
    var s := a + ">" + b;
    assert forall j :: 0 <= j < |a| ==> s[j] == a[j];
    SpanUnique(s, 0, IsSpace, |a|);
    assert s[|a| + 1..] == b;
  }

  /** `markdown.splitlines(keepends=True)` for text whose only line break is `\n`. */
  function SplitLines(text: string): (lines: seq<string>)
    decreases |text|
  {
    if text == "" then []
    else
      var k := Span(text, 0, NotNewline);
      if k == |text| then [text] else [text[..k + 1]] + SplitLines(text[k + 1..])
  }

  /** `"".join(lines)`. */
  function Join(lines: seq<string>): string
  {
    if lines == [] then "" else lines[0] + Join(lines[1..])
  }

  /** A line as `splitlines` yields it: not empty, and `\n` at most as its last character. */
  predicate IsSplitLine(line: string)
  {
    line != "" && '\n' !in line[..|line| - 1]
  }

  /** The shape of a `splitlines(keepends=True)` result: split lines, all but the last ending in `\n`. */
  predicate WellSplit(lines: seq<string>)
  {
    forall k :: 0 <= k < |lines| ==> IsSplitLine(lines[k]) && (k < |lines| - 1 ==> EndsInNewline(lines[k]))
  }

  /** The outputs of `f` on each element of `xs`, one after another. */
  function FlatMap<A, B>(f: A -> seq<B>, xs: seq<A>): seq<B>
  {
    if xs == [] then [] else FlatMap(f, xs[..|xs| - 1]) + f(xs[|xs| - 1])
  }

  /** The specification of `rewrite_blockquotes` on a list of lines: each line's output, in order. */
  function RewriteAll(lines: seq<string>): seq<string>
  {
    FlatMap(RewriteLine, lines)
  }

  /** Taking one more line appends that line's output. */
  lemma RewriteAllStep(lines: seq<string>, i: nat)
    requires i < |lines|
    ensures RewriteAll(lines[..i + 1]) == RewriteAll(lines[..i]) + RewriteLine(lines[i])
  {
    assert lines[..i + 1][..i] == lines[..i];
    assert lines[..i + 1][i] == lines[i];
  }

  /**
   `rewrite_blockquotes`: splits the text into lines, appends each line's
   output to `newLines`, and joins the result.
   */
  method RewriteBlockquotes(markdown: string) returns (result: string)
    ensures result == Join(RewriteAll(SplitLines(markdown)))
  {
    var lines := SplitLines(markdown);
    var newLines: seq<string> := [];
    for i := 0 to |lines|
      invariant newLines == RewriteAll(lines[..i])
    {
      var line := lines[i];
      RewriteAllStep(lines, i);
      var m := MatchAdmonition(line);
      if m.None? {
        newLines := newLines + [line];
        continue;
      }
      ghost var before := newLines;
      assert RewriteLine(line) == RewriteMatched(line, m.value);
      var leader, tag, rest := m.value.leader, m.value.tag, m.value.rest;
      var tagLow := Lower(tag);
      var title := Strip(rest);
      if tagLow in SupportedAdmonitions {
        if title != "" {
          newLines := newLines + [TagLine(leader, tag)];
          newLines := newLines + [TitleLine(leader, title)];
          assert newLines == before + [TagLine(leader, tag), TitleLine(leader, title)];
        } else {
          newLines := newLines + [line];
        }
      } else {
        if title != "" {
          newLines := newLines + [TitleLine(leader, title)];
        }
      }
    }
    assert lines[..|lines|] == lines;
    result := Join(newLines);
  }

  /** Joining the split lines gives back the text. */
  lemma {:induction false} JoinSplitLines(text: string)
    ensures Join(SplitLines(text)) == text
    decreases |text|
  {
    if text != "" {
      var k := Span(text, 0, NotNewline);
      if k == |text| {
        assert Join([text]) == text + Join([]);
      } else {
        JoinSplitLines(text[k + 1..]);
        assert text == text[..k + 1] + text[k + 1..];
      }
    }
  }

  /** `SplitLines` yields lines of the `splitlines` shape. */
  lemma {:induction false} SplitLinesWellSplit(text: string)
    ensures WellSplit(SplitLines(text))
    decreases |text|
  {
    if text != "" {
      var k := Span(text, 0, NotNewline);
      assert '\n' !in text[..k] by {
        assert forall j :: 0 <= j < k ==> text[..k][j] == text[j];
      }
      if k == |text| {
        assert text[..|text| - 1] == text[..k][..|text| - 1];
      } else {
        var h := text[..k + 1];
        var t := SplitLines(text[k + 1..]);
        SplitLinesWellSplit(text[k + 1..]);
        assert h[..|h| - 1] == text[..k];
        assert forall j :: 1 <= j < |[h] + t| ==> ([h] + t)[j] == t[j - 1];
      }
    }
  }

  /** Splitting joined lines of the `splitlines` shape gives back the lines. */
  lemma {:induction false} SplitLinesOfJoin(lines: seq<string>)
    requires WellSplit(lines)
    ensures SplitLines(Join(lines)) == lines
    decreases |lines|
  {
    if lines != [] {
      var h, t := lines[0], lines[1..];
      assert Join(lines) == h + Join(t);
      if t == [] {
        assert Join(lines) == h;
        SplitLinesOfLine(h);
      } else {
        assert WellSplit(t) by {
          assert forall j :: 0 <= j < |t| ==> t[j] == lines[j + 1];
        }
        SplitLinesCons(h, Join(t));
        SplitLinesOfJoin(t);
        assert lines == [h] + t;
      }
    }
  }

  /** A closed line at the front of a text is its first line. */
  lemma SplitLinesCons(h: string, rest: string)
    requires IsSplitLine(h) && EndsInNewline(h)
    ensures SplitLines(h + rest) == [h] + SplitLines(rest)
  {
    var text, k := h + rest, |h| - 1;
    forall j | 0 <= j < k
      ensures text[j] != '\n'
    {
      assert text[j] == h[..k][j];
    }
    SpanUnique(text, 0, NotNewline, k);
    assert text[..k + 1] == h && text[k + 1..] == rest;
  }

  /** A split line on its own is one line. */
  lemma SplitLinesOfLine(h: string)
    requires IsSplitLine(h)
    ensures SplitLines(h) == [h]
  {
    if EndsInNewline(h) {
      SplitLinesCons(h, "");
      assert h + "" == h;
    } else {
      forall j | 0 <= j < |h|
        ensures h[j] != '\n'
      {
        if j < |h| - 1 {
          assert h[j] == h[..|h| - 1][j];
        }
      }
      SpanUnique(h, 0, NotNewline, |h|);
    }
  }


  lemma {:induction false} FlatMapAppend<A, B>(f: A -> seq<B>, xs: seq<A>, ys: seq<A>)
    ensures FlatMap(f, xs + ys) == FlatMap(f, xs) + FlatMap(f, ys)
    decreases |ys|
  {
    if ys == [] {
      assert xs + ys == xs;
    } else {
      var init := ys[..|ys| - 1];
      FlatMapAppend(f, xs, init);
      assert (xs + ys)[..|xs + ys| - 1] == xs + init;
      assert (xs + ys)[|xs + ys| - 1] == ys[|ys| - 1];
    }
  }

  lemma {:induction false} FlatMapBound<A, B>(f: A -> seq<B>, xs: seq<A>, n: nat)
    requires forall k :: 0 <= k < |xs| ==> |f(xs[k])| <= n
    ensures |FlatMap(f, xs)| <= n * |xs|
  {
    if xs != [] {
      var init, last := xs[..|xs| - 1], xs[|xs| - 1];
      forall k | 0 <= k < |init|
        ensures |f(init[k])| <= n
      {
        assert init[k] == xs[k];
      }
      FlatMapBound(f, init, n);
      assert |f(last)| <= n;
      assert n * |xs| == n * |init| + n;
    }
  }

  lemma {:induction false} FlatMapIdentity<A>(f: A -> seq<A>, xs: seq<A>)
    requires forall k :: 0 <= k < |xs| ==> f(xs[k]) == [xs[k]]
    ensures FlatMap(f, xs) == xs
  {
    if xs != [] {
      var init, last := xs[..|xs| - 1], xs[|xs| - 1];
      forall k | 0 <= k < |init|
        ensures f(init[k]) == [init[k]]
      {
        assert init[k] == xs[k];
      }
      FlatMapIdentity(f, init);
      assert f(last) == [last];
      assert xs == init + [last];
    }
  }

  /** The output of two runs of lines is the two outputs in order. */
  lemma RewriteAllAppend(a: seq<string>, b: seq<string>)
    ensures RewriteAll(a + b) == RewriteAll(a) + RewriteAll(b)
  {
    FlatMapAppend(RewriteLine, a, b);
  }

  /** The output has at most twice as many lines as the input. */
  lemma RewriteAllBound(lines: seq<string>)
    ensures |RewriteAll(lines)| <= 2 * |lines|
  {
    forall k | 0 <= k < |lines|
      ensures |RewriteLine(lines[k])| <= 2
    {
      RewriteLineShape(lines[k]);
    }
    FlatMapBound(RewriteLine, lines, 2);
  }

  /** A line that no admonition matches. */
  ghost predicate IsPlainLine(line: string)
  {
    forall adm :: !IsAdmonitionLine(line, adm)
  }

  /** When no line is an admonition line, every line is copied and nothing else is emitted. */
  lemma RewriteAllCopies(lines: seq<string>)
    requires forall k :: 0 <= k < |lines| ==> IsPlainLine(lines[k])
    ensures RewriteAll(lines) == lines
  {
    forall k | 0 <= k < |lines|
      ensures RewriteLine(lines[k]) == [lines[k]]
    {
      CopiesOtherLines(lines[k]);
    }
    FlatMapIdentity(RewriteLine, lines);
  }

  /** A text in which no line is an admonition line comes out of `rewrite_blockquotes` unchanged. */
  lemma BlockquotesWithoutAdmonitions(markdown: string)
    requires forall line :: line in SplitLines(markdown) ==> IsPlainLine(line)
    ensures Join(RewriteAll(SplitLines(markdown))) == markdown
  {
    var lines := SplitLines(markdown);
    RewriteAllCopies(lines);
    JoinSplitLines(markdown);
  }

  /** A generated tag line of a supported tag is copied by a second pass. */
  lemma TagLineIsKept(leader: string, tag: string)
    requires IsLeader(leader) && IsTag(tag) && Lower(tag) in SupportedAdmonitions
    ensures RewriteLine(TagLine(leader, tag)) == [TagLine(leader, tag)]
  {
    var adm := Admonition(leader, tag, "");
    assert TagLine(leader, tag) == Head(adm) + "\n";
    MatchReadsGroups(adm, "\n");
    StripEmpty("");
  }

  /** A generated title line is copied by a second pass: a `*` stands where the tag's `[` would be. */
  lemma TitleLineIsKept(leader: string, title: string)
    requires IsLeader(leader)
    ensures RewriteLine(TitleLine(leader, title)) == [TitleLine(leader, title)]
  {
    var s := "**" + title + "**" + "\n";
    assert TitleLine(leader, title) == leader + s;
    QuoteEndComplete(leader, s);
    assert TitleLine(leader, title)[|leader|] == '*';
  }

  lemma {:induction false} FlatMapOfOne<A, B>(f: A -> seq<B>, x: A)
    ensures FlatMap(f, [x]) == f(x)
  {
    assert [x][..0] == [];
  }

  lemma {:induction false} FlatMapOfTwo<A, B>(f: A -> seq<B>, x: A, y: A)
    ensures FlatMap(f, [x, y]) == f(x) + f(y)
  {
    assert [x, y][..1] == [x];
    FlatMapOfOne(f, x);
  }

  /** A second pass over one line's output changes nothing. */
  lemma RewriteLineFixed(line: string)
    ensures RewriteAll(RewriteLine(line)) == RewriteLine(line)
  {
    match MatchAdmonition(line)
    case None =>
      FlatMapOfOne(RewriteLine, line);
    case Some(adm) =>
      MatchAdmonitionSound(line);
      RewriteMatchedFixed(line, adm);
  }

  lemma RewriteMatchedFixed(line: string, adm: Admonition)
    requires IsLeader(adm.leader) && IsTag(adm.tag)
    requires RewriteLine(line) == RewriteMatched(line, adm)
    ensures RewriteAll(RewriteMatched(line, adm)) == RewriteMatched(line, adm)
  {
    var title := Strip(adm.rest);
    if Lower(adm.tag) in SupportedAdmonitions {
      if title != "" {
        GeneratedPairIsKept(adm.leader, adm.tag, title);
      } else {
        FlatMapOfOne(RewriteLine, line);
      }
    } else if title != "" {
      TitleLineIsKept(adm.leader, title);
      FlatMapOfOne(RewriteLine, TitleLine(adm.leader, title));
    }
  }

  lemma GeneratedPairIsKept(leader: string, tag: string, title: string)
    requires IsLeader(leader) && IsTag(tag) && Lower(tag) in SupportedAdmonitions
    ensures var lines := [TagLine(leader, tag), TitleLine(leader, title)];
      RewriteAll(lines) == lines
  {
    TagLineIsKept(leader, tag);
    TitleLineIsKept(leader, title);
    FlatMapOfTwo(RewriteLine, TagLine(leader, tag), TitleLine(leader, title));
  }

  /** Rewriting a list of lines twice gives what rewriting it once gives. */
  lemma {:induction false} RewriteAllIdempotent(lines: seq<string>)
    ensures RewriteAll(RewriteAll(lines)) == RewriteAll(lines)
  {
    if lines != [] {
      var init, last := lines[..|lines| - 1], lines[|lines| - 1];
      RewriteAllIdempotent(init);
      RewriteAllAppend(RewriteAll(init), RewriteLine(last));
      RewriteLineFixed(last);
    }
  }

  /** A split line that ends in `\n`: a line that another line may follow. */
  predicate IsClosedLine(line: string)
  {
    IsSplitLine(line) && EndsInNewline(line)
  }

  /** The groups of a matched split line hold no line break. */
  lemma MatchedPartsOfSplitLine(line: string)
    requires IsSplitLine(line) && MatchAdmonition(line).Some?
    ensures var adm := MatchAdmonition(line).value;
      '\n' !in adm.leader && '\n' !in adm.tag && '\n' !in Strip(adm.rest)
  {
    match QuoteEnd(line)
    case None =>
    case Some(b) =>
      match TagEnd(line, b)
      case None =>
      case Some(t) =>
        match RestEnd(line, t + 1)
        case None =>
        case Some(e) =>
          MatchAt(line, b, t, e);
          PartsAt(line, b, t, e);
  }

  lemma PartsAt(line: string, b: nat, t: nat, e: nat)
    requires IsSplitLine(line) && b + 2 < t < e + 1 <= |line| + 1
    requires TagEnd(line, b) == Some(t) && RestEnd(line, t + 1) == Some(e)
    ensures '\n' !in line[..b] && '\n' !in line[b + 2..t] && '\n' !in Strip(line[t + 1..e])
  {
    forall q | 0 <= q < b
      ensures line[q] != '\n'
    {
      assert line[q] == line[..|line| - 1][q];
    }
    NotInSlice(line, 0, b, '\n');
    assert line[..b] == line[0..b];
    TagEndSound(line, b);
    forall q | b + 2 <= q < t
      ensures line[q] != '\n'
    {
      assert IsTagChar(line[b + 2..t][q - b - 2]);
    }
    NotInSlice(line, b + 2, t, '\n');
    RestEndSound(line, t + 1);
    StripDrawsOn(line[t + 1..e], '\n');
  }

  /** The lines generated from line-break-free groups are closed lines. */
  lemma GeneratedLinesAreClosed(leader: string, tag: string, title: string)
    requires '\n' !in leader && '\n' !in tag && '\n' !in title
    ensures IsClosedLine(TagLine(leader, tag)) && IsClosedLine(TitleLine(leader, title))
  {
    var a, b := TagLine(leader, tag), TitleLine(leader, title);
    assert a[..|a| - 1] == leader + "[!" + tag + "]";
    assert b[..|b| - 1] == leader + "**" + title + "**";
  }

  /** A split line's output lines are split lines, and all but the last are closed. */
  lemma RewriteLineSplit(line: string)
    requires IsSplitLine(line)
    ensures var r := RewriteLine(line);
      forall k :: 0 <= k < |r| ==> IsSplitLine(r[k]) && (k < |r| - 1 || EndsInNewline(line) ==> EndsInNewline(r[k]))
  {
    match MatchAdmonition(line)
    case None =>
    case Some(adm) =>
      var title := Strip(adm.rest);
      var a, b := TagLine(adm.leader, adm.tag), TitleLine(adm.leader, title);
      MatchedPartsOfSplitLine(line);
      GeneratedLinesAreClosed(adm.leader, adm.tag, title);
      assert RewriteLine(line) == RewriteMatched(line, adm);
      if Lower(adm.tag) in SupportedAdmonitions {
        if title != "" {
          assert RewriteLine(line) == [a, b];
        } else {
          assert RewriteLine(line) == [line];
        }
      } else if title != "" {
        assert RewriteLine(line) == [b];
      } else {
        assert RewriteLine(line) == [];
      }
  }

  lemma {:induction false} FlatMapKeeps<A>(f: A -> seq<A>, p: A -> bool, xs: seq<A>)
    requires forall k, j :: 0 <= k < |xs| && 0 <= j < |f(xs[k])| ==> p(f(xs[k])[j])
    ensures forall j :: 0 <= j < |FlatMap(f, xs)| ==> p(FlatMap(f, xs)[j])
  {
    if xs != [] {
      var init, last := xs[..|xs| - 1], xs[|xs| - 1];
      forall k, j | 0 <= k < |init| && 0 <= j < |f(init[k])|
        ensures p(f(init[k])[j])
      {
        assert init[k] == xs[k];
      }
      FlatMapKeeps(f, p, init);
      var a, b := FlatMap(f, init), f(last);
      forall j | 0 <= j < |b|
        ensures p(b[j])
      {
        assert last == xs[|xs| - 1];
      }
      assert forall j :: 0 <= j < |a + b| ==> (a + b)[j] == if j < |a| then a[j] else b[j - |a|];
    }
  }

  /** Closed lines give closed lines. */
  lemma RewriteAllClosed(lines: seq<string>)
    requires forall k :: 0 <= k < |lines| ==> IsClosedLine(lines[k])
    ensures forall j :: 0 <= j < |RewriteAll(lines)| ==> IsClosedLine(RewriteAll(lines)[j])
  {
    forall k, j | 0 <= k < |lines| && 0 <= j < |RewriteLine(lines[k])|
      ensures IsClosedLine(RewriteLine(lines[k])[j])
    {
      RewriteLineSplit(lines[k]);
    }
    FlatMapKeeps(RewriteLine, IsClosedLine, lines);
  }

  /** Closed lines followed by `splitlines`-shaped lines have the `splitlines` shape. */
  lemma WellSplitAppend(a: seq<string>, b: seq<string>)
    requires forall j :: 0 <= j < |a| ==> IsClosedLine(a[j])
    requires WellSplit(b)
    ensures WellSplit(a + b)
  {
    assert forall j :: 0 <= j < |a + b| ==> (a + b)[j] == if j < |a| then a[j] else b[j - |a|];
  }

  /** The output of `splitlines`-shaped lines has the `splitlines` shape again. */
  lemma RewriteAllWellSplit(lines: seq<string>)
    requires WellSplit(lines)
    ensures WellSplit(RewriteAll(lines))
  {
    if lines != [] {
      var n := |lines| - 1;
      var init := lines[..n];
      assert forall k :: 0 <= k < |init| ==> init[k] == lines[k];
      RewriteAllClosed(init);
      RewriteLineSplit(lines[n]);
      RewriteAllStep(lines, n);
      assert lines[..n + 1] == lines;
      WellSplitAppend(RewriteAll(init), RewriteLine(lines[n]));
    }
  }

  /**
   Running the rewrite on its own output changes nothing: the tag lines of
   supported admonitions and the bold title lines are left as they are.
   */
  lemma BlockquotesIdempotent(markdown: string)
    ensures var once := Join(RewriteAll(SplitLines(markdown)));
      Join(RewriteAll(SplitLines(once))) == once
  {
    var out := RewriteAll(SplitLines(markdown));
    SplitLinesWellSplit(markdown);
    RewriteAllWellSplit(SplitLines(markdown));
    SplitLinesOfJoin(out);
    RewriteAllIdempotent(SplitLines(markdown));
  }

  /**
   `> [!note] Remember this` becomes the bare `> [!note]` line and the bold
   title line `> **Remember this**`. The lines are written as the
   concatenations the rewrite builds them from.
   */
  lemma NoteWithTitleExample()
    ensures RewriteLine("> " + "[!" + "note" + "]" + " Remember this" + "\n")
      == ["> " + "[!" + "note" + "]" + "\n", "> " + "**" + "Remember this" + "**" + "\n"]
  {
    var adm := Admonition("> ", "note", " Remember this");
    NoteExampleGroups();
    NoteExampleTitle();
    assert Head(adm) + "\n" == "> " + "[!" + "note" + "]" + " Remember this" + "\n";
    SupportedWithTitle(Head(adm) + "\n", adm);
  }

  /** The example's groups: the leader `> `, the tag `note`, and a rest without a line break. */
  lemma NoteExampleGroups()
    ensures IsGroups(Admonition("> ", "note", " Remember this"))
  {
    assert IsLeader("> ") by {
      assert LeadingSpaces("> ") == 0 && "> "[1..] == " ";
    }
    assert IsTag("note");
    assert '\n' !in " Remember this";
  }

  /** The tag `note` is supported, and the stripped title is `Remember this`. */
  lemma NoteExampleTitle()
    ensures Lower("note") in SupportedAdmonitions
    ensures Strip(" Remember this") == "Remember this"
  {
    assert Lower("note") == "note";
    assert " Remember this" == [' '] + "Remember this";
    StripLeadingSpace(' ', "Remember this");
  }
}
