/**
 Image rewriting: Obsidian embeds `![[path|size]]` and Markdown images
 `![alt](src)` both become `![alt](./assets/<file name>)`.

 The per-match rewriters work on a match's captured groups. The two regular
 expressions are modelled by hand-written matchers (`MatchEmbedAt`,
 `MatchImageAt`), each proved to find exactly the text its pattern describes
 (`IsEmbedAt`, `IsImageAt`), and by the left-to-right substitution `re.sub`
 performs with them (`SubEmbeds`, `SubImages`).
 */
module Images {
  import opened Wrappers
  import opened Text
  import opened Paths

  /** The flat directory every rewritten image points into. */
  const AssetsPrefix: string := "./assets/"

  /** Markdown image syntax `![alt](src)`. */
  function Image(alt: string, src: string): string
  {
    "![" + alt + "](" + src + ")"
  }

  predicate IsDashOrUnderscore(c: char)
  {
    c == '-' || c == '_'
  }

  /**
   `_derive_alt(filename)`: the stem of the file name with every `-` and `_`
   turned into a space and every other character kept. The `or stem` fallback
   of the source never changes the result: the replaced text has the stem's
   length, so it is empty only when the stem is.
   */
  function DeriveAlt(filename: string): (alt: string)
    ensures |alt| == |Stem(filename)|
    ensures forall k :: 0 <= k < |alt| ==>
      alt[k] == if IsDashOrUnderscore(Stem(filename)[k]) then ' ' else Stem(filename)[k]
    ensures alt == "" <==> Name(filename) == ""
  {
    var stem := Stem(filename);
    var spaced := ReplaceChar(ReplaceChar(stem, '-', ' '), '_', ' ');
    if spaced != "" then spaced else stem
  }

  /** Every character of a derived alt text other than a space comes from the file name. */
  lemma DeriveAltDrawsOnName(filename: string, c: char)
    ensures c in DeriveAlt(filename) && c != ' ' ==> c in Name(filename)
  {
    var alt := DeriveAlt(filename);
    var stem := Stem(filename);
    if c in alt && c != ' ' {
      var k :| 0 <= k < |alt| && alt[k] == c;
      assert stem[k] == (stem + Suffix(filename))[k];
    }
  }

  /** A name with no `.`, `-` or `_` is its own alt text. */
  lemma DeriveAltOfPlainName(name: string)
    requires '/' !in name && name != "." && '.' !in name && '-' !in name && '_' !in name
    ensures DeriveAlt(name) == name
  {
    NameOfBareName(name);
    assert LastIndex(name, '.') == -1;
    assert Stem(name) == name;
  }

  /**
   `_rewrite_embed` on the captured inner text of `![[inner]]`: the file name
   is the last path segment of the text before the first `|`.
   */
  function RewriteEmbed(inner: string): (r: string)
    ensures var name := Name(BeforeFirst(inner, '|'));
      r == Image(DeriveAlt(name), AssetsPrefix + name)
  {
    var pathPart := if '|' in inner then BeforeFirst(inner, '|') else inner;
    var filename := Name(pathPart);
    Image(DeriveAlt(filename), AssetsPrefix + filename)
  }

  /** Whatever follows the first `|` of an embed (a display size, say) is ignored. */
  lemma EmbedIgnoresDisplaySize(path: string, size: string)
    requires '|' !in path
    ensures RewriteEmbed(path + "|" + size) == RewriteEmbed(path)
  {
    BeforeFirstOfJoin(path, '|', size);
  }

  /**
   An embed `![[dir/file|size]]` points at `./assets/file`, with its alt text
   derived from `file`, however deep `dir` is.
   */
  lemma EmbedOfNestedFile(dir: string, file: string, size: string)
    requires '|' !in dir && '|' !in file
    requires '/' !in file && file != "" && file != "."
    ensures RewriteEmbed(dir + "/" + file + "|" + size) == Image(DeriveAlt(file), AssetsPrefix + file)
  {
    assert dir + "/" + file + "|" + size == (dir + "/" + file) + "|" + size;
    EmbedIgnoresDisplaySize(dir + "/" + file, size);
    NameUnderDirectory(dir, file);
    NameOfBareName(file);
  }

  /**
   The alt text `_rewrite_md_img` writes: the part before the first `|`,
   stripped, when the alt holds a `|`, the alt itself otherwise, and the text
   derived from the source's file name when that is empty. It is empty only
   when the source has no file name, and a `|` in it can only come from the
   file name.
   */
  function CleanAlt(alt: string, src: string): (r: string)
    ensures r == "" ==> Name(src) == ""
    ensures '|' in r ==> r == DeriveAlt(Name(src))
  {
    var cut := if '|' in alt then Strip(BeforeFirst(alt, '|')) else alt;
    assert '|' !in cut by {
      if '|' in alt {
        StripDrawsOn(BeforeFirst(alt, '|'), '|');
      }
    }
    NameIdempotent(src);
    if cut != "" then cut else DeriveAlt(Name(src))
  }

  /** An alt text with a `|` and something other than whitespace before it is cut there and stripped. */
  lemma CleanAltCutsAtBar(alt: string, src: string)
    requires '|' in alt && !AllSpace(BeforeFirst(alt, '|'))
    ensures CleanAlt(alt, src) == Strip(BeforeFirst(alt, '|'))
  {
    StripEmpty(BeforeFirst(alt, '|'));
  }

  /** A non-empty alt text without `|` is kept as it is, whitespace included. */
  lemma CleanAltKeepsPlainAlt(alt: string, src: string)
    requires '|' !in alt && alt != ""
    ensures CleanAlt(alt, src) == alt
  {
  }

  /** An empty alt text, or one with only whitespace before its first `|`, is derived from the file name. */
  lemma CleanAltDerivesFromName(alt: string, src: string)
    requires alt == "" || ('|' in alt && AllSpace(BeforeFirst(alt, '|')))
    ensures CleanAlt(alt, src) == DeriveAlt(Name(src))
  {
    StripEmpty(BeforeFirst(alt, '|'));
  }

  /** An alt text `a|size` is cut to `a` when `a` has no surrounding whitespace. */
  lemma CleanAltDropsSize(a: string, size: string, src: string)
    requires '|' !in a && a != "" && !IsSpace(a[0]) && !IsSpace(a[|a| - 1])
    ensures CleanAlt(a + "|" + size, src) == a
  {
    BeforeFirstOfJoin(a, '|', size);
    StripOfTrimmed(a);
    assert (a + "|" + size)[|a|] == '|';
  }

  /** Apart from spaces, the alt text is made of characters of the original alt or of the file name. */
  lemma CleanAltDrawsOn(alt: string, src: string, c: char)
    ensures c in CleanAlt(alt, src) && c != ' ' ==> c in alt || c in Name(src)
  {
    var cut := if '|' in alt then Strip(BeforeFirst(alt, '|')) else alt;
    if cut != "" {
      if '|' in alt && c in cut {
        var before := BeforeFirst(alt, '|');
        StripDrawsOn(before, c);
        var k :| 0 <= k < |before| && before[k] == c;
        assert alt[k] == c;
      }
    } else {
      DeriveAltDrawsOnName(Name(src), c);
      NameIdempotent(src);
    }
  }

  /**
   `_rewrite_md_img` on the captured alt and src of `![alt](src)`: the source
   becomes `./assets/` followed by the last segment of the original source.
   */
  function RewriteMdImg(alt: string, src: string): (r: string)
    ensures r == Image(CleanAlt(alt, src), AssetsPrefix + Name(src))
  {
    var altText := CleanAlt(alt, src);
    var filename := Name(src);
    Image(altText, AssetsPrefix + filename)
  }

  /** The directories in front of the file name do not matter. */
  lemma MdImgFlattensSource(alt: string, dir: string, file: string)
    requires '/' !in file && file != "" && file != "."
    ensures RewriteMdImg(alt, dir + "/" + file) == RewriteMdImg(alt, file)
  {
    NameUnderDirectory(dir, file);
    NameOfBareName(file);
  }

  /**
   Rewriting the groups of a rewritten image again gives the same image,
   provided the file name is non-empty and holds no `|`.
   */
  lemma MdImgIdempotent(alt: string, src: string)
    requires Name(src) != "" && '|' !in Name(src)
    ensures RewriteMdImg(CleanAlt(alt, src), AssetsPrefix + Name(src)) == RewriteMdImg(alt, src)
  {
    var name := Name(src);
    var cleaned := CleanAlt(alt, src);
    var normal := AssetsPrefix + name;
    NameUnderAssets(name);
    assert '|' !in cleaned by {
      StripDrawsOn(BeforeFirst(alt, '|'), '|');
      DeriveAltDrawsOnName(name, '|');
      NameIdempotent(src);
    }
    assert CleanAlt(cleaned, normal) == cleaned;
  }

  /** A bare file name under `./assets/` is read back as itself. */
  lemma NameUnderAssets(name: string)
    requires '/' !in name && name != "" && name != "."
    ensures Name(AssetsPrefix + name) == name
  {
    assert AssetsPrefix + name == "./assets" + "/" + name;
    NameUnderDirectory("./assets", name);
  }

  /** Without a file name the rewrite is not idempotent: `./assets/` re-normalises to `./assets/assets`. */
  lemma MdImgNotIdempotentWithoutName(alt: string)
    requires alt != "" && '|' !in alt
    ensures RewriteMdImg(alt, "") == Image(alt, AssetsPrefix)
    ensures RewriteMdImg(CleanAlt(alt, ""), AssetsPrefix + Name("")) == Image(alt, AssetsPrefix + "assets")
  {
    assert Name("") == "";
    assert AssetsPrefix + Name("") == AssetsPrefix;
    NameOfAssetsDirectory();
  }

  /** The name of the bare directory `./assets/` is `assets`. */
  lemma NameOfAssetsDirectory()
    ensures Name(AssetsPrefix) == "assets"
  {
    assert LastIndex(AssetsPrefix, '/') == |AssetsPrefix| - 1;
    assert AssetsPrefix[..|AssetsPrefix| - 1] == "." + "/" + "assets";
    NameUnderDirectory(".", "assets");
  }

  /** The alt text derived from a file name `a|` keeps the `|`. */
  lemma MdImgDerivesAltWithBar(a: string)
    requires a != "" && '/' !in a && '.' !in a && '-' !in a && '_' !in a
    ensures Name(a + "|") == a + "|"
    ensures CleanAlt("", a + "|") == a + "|"
    ensures RewriteMdImg("", a + "|") == Image(a + "|", AssetsPrefix + (a + "|"))
  {
    var file := a + "|";
    NameOfBareName(file);
    DeriveAltOfPlainName(file);
  }

  /**
   So with a `|` in the file name the rewrite is not idempotent either: the
   second time, the derived alt text `a|` is cut to `a`.
   */
  lemma MdImgNotIdempotentWithBar(a: string)
    requires a != "" && !IsSpace(a[0]) && !IsSpace(a[|a| - 1])
    requires '/' !in a && '.' !in a && '-' !in a && '_' !in a && '|' !in a
    ensures RewriteMdImg(CleanAlt("", a + "|"), AssetsPrefix + Name(a + "|")) == Image(a, AssetsPrefix + (a + "|"))
  {
    MdImgDerivesAltWithBar(a);
    MdImgCutsBarAlt(a);
  }

  /** The image `![a|](./assets/a|)` is rewritten with the alt text cut to `a`. */
  lemma MdImgCutsBarAlt(a: string)
    requires a != "" && !IsSpace(a[0]) && !IsSpace(a[|a| - 1])
    requires '/' !in a && '|' !in a
    ensures RewriteMdImg(a + "|", AssetsPrefix + (a + "|")) == Image(a, AssetsPrefix + (a + "|"))
  {
    var file := a + "|";
    var src := AssetsPrefix + file;
    NameUnderAssets(file);
    assert file == a + "|" + "";
    CleanAltDropsSize(a, "", src);
  }


  predicate NotCloseBracket(c: char)
  {
    c != ']'
  }

  predicate NotCloseParen(c: char)
  {
    c != ')'
  }

  predicate NotCloseParenOrNewline(c: char)
  {
    c != ')' && c != '\n'
  }

  /**
   The text of `s` from `i` to `end` is one that `EMBED_RE`,
   `!\[\[([^\]]+?)\]\](?:\([^)]*\))?`, describes with `inner` as its group.
   */
  ghost predicate IsEmbedAt(s: string, i: nat, inner: string, end: nat)
  {
    var k := i + |inner| + 5;
    && k <= end <= |s|
    && s[i..k] == "![[" + inner + "]]"
    && inner != "" && ']' !in inner
    && (end == k || (k + 2 <= end && s[k] == '(' && s[end - 1] == ')' && ')' !in s[k + 1..end - 1]))
  }

  /** One match of `EMBED_RE`: its captured group and the position where it ends. */
  datatype EmbedMatch = EmbedMatch(inner: string, end: nat)

  /** `EMBED_RE` tried at position `i` of `s`. */
  function MatchEmbedAt(s: string, i: nat): (m: Option<EmbedMatch>)
    requires i <= |s|
    ensures m.Some? ==> IsEmbedAt(s, i, m.value.inner, m.value.end)
  {
    if i + 3 <= |s| && s[i..i + 3] == "![[" then
      var j := Span(s, i + 3, NotCloseBracket);
      if i + 3 < j && j + 2 <= |s| && s[j + 1] == ']' then
        var k := j + 2;
        var close := if k < |s| && s[k] == '(' then Span(s, k + 1, NotCloseParen) else |s|;
        var end := if close < |s| then close + 1 else k;
        EmbedFromChars(s, i, j, end);
        Some(EmbedMatch(s[i + 3..j], end))
      else
        None
    else
      None
  }

  /** Where the characters of `![[inner]]` and an optional `(...)` stand in `s`, the pattern reads them there. */
  lemma EmbedFromChars(s: string, i: nat, j: nat, end: nat)
    requires i + 3 < j && j + 2 <= end <= |s|
    requires s[i..i + 3] == "![[" && s[j] == ']' && s[j + 1] == ']'
    requires forall q :: i + 3 <= q < j ==> s[q] != ']'
    requires end == j + 2 || (j + 4 <= end && s[j + 2] == '(' && s[end - 1] == ')')
    requires forall q :: j + 3 <= q < end - 1 ==> s[q] != ')'
    ensures IsEmbedAt(s, i, s[i + 3..j], end)
  {
    var inner := s[i + 3..j];
    assert s[i..j + 2] == s[i..i + 3] + inner + s[j..j + 2];
    assert s[j..j + 2] == "]]";
    NotInSlice(s, i + 3, j, ']');
    if end > j + 2 {
      NotInSlice(s, j + 3, end - 1, ')');
    }
  }

  /** Where `![[inner]]` stands in `s`, its characters stand there one by one. */
  lemma CharsOfEmbed(s: string, i: nat, inner: string, end: nat)
    requires IsEmbedAt(s, i, inner, end)
    ensures var j := i + 3 + |inner|;
      && s[i..i + 3] == "![[" && s[j] == ']' && s[j + 1] == ']' && s[i + 3..j] == inner
  {
    var t := "![[" + inner + "]]";
    var j := i + 3 + |inner|;
    assert t[..3] == "![[" && t[3..3 + |inner|] == inner && t[|t| - 2] == ']' && t[|t| - 1] == ']';
    SliceOfSlice(s, i, i + |t|, 0, 3);
    SliceOfSlice(s, i, i + |t|, 3, 3 + |inner|);
    var u := s[i..i + |t|];
    assert s[j] == u[|t| - 2] && s[j + 1] == u[|t| - 1];
  }

  /**
   Wherever the embed syntax occurs, the matcher finds it, with the same
   group, and takes the optional `(...)` tail whenever one is there.
   */
  lemma MatchEmbedComplete(s: string, i: nat, inner: string, end: nat)
    requires IsEmbedAt(s, i, inner, end)
    ensures MatchEmbedAt(s, i).Some?
    ensures MatchEmbedAt(s, i).value.inner == inner
    ensures MatchEmbedAt(s, i).value.end >= end
  {
    var j := i + 3 + |inner|;
    var k := j + 2;
    CharsOfEmbed(s, i, inner, end);
    forall q | i + 3 <= q < j
      ensures s[q] != ']'
    {
      assert s[q] == s[i + 3..j][q - i - 3];
    }
    SpanUnique(s, i + 3, NotCloseBracket, j);
    if end > k {
      ParenTailEnd(s, k + 1, end - 1);
    }
  }

  /** A run without `)` that a `)` closes is the run the matcher scans. */
  lemma ParenTailEnd(s: string, from: nat, to: nat)
    requires from <= to < |s| && s[to] == ')' && ')' !in s[from..to]
    ensures Span(s, from, NotCloseParen) == to
  {
    assert forall q :: from <= q < to ==> s[q] == s[from..to][q - from];
    SpanUnique(s, from, NotCloseParen, to);
  }

  /** The text of `s` at `i` is `![alt](src)` as `MD_IMG_RE`, `!\[([^\]]*?)\]\((.*?)\)`, reads it. */
  ghost predicate IsImageAt(s: string, i: nat, alt: string, src: string)
  {
    && i + |Image(alt, src)| <= |s|
    && s[i..i + |Image(alt, src)|] == Image(alt, src)
    && ']' !in alt && ')' !in src && '\n' !in src
  }

  /** One match of `MD_IMG_RE`: its two captured groups. */
  datatype ImageMatch = ImageMatch(alt: string, src: string)

  /** `MD_IMG_RE` tried at position `i` of `s`. */
  function MatchImageAt(s: string, i: nat): (m: Option<ImageMatch>)
    requires i <= |s|
    ensures m.Some? ==> IsImageAt(s, i, m.value.alt, m.value.src)
  {
    if i + 2 <= |s| && s[i] == '!' && s[i + 1] == '[' then
      var j := Span(s, i + 2, NotCloseBracket);
      if j + 2 <= |s| && s[j + 1] == '(' then
        var k := Span(s, j + 2, NotCloseParenOrNewline);
        if k < |s| && s[k] == ')' then
          ImageFromChars(s, i, j, k);
          Some(ImageMatch(s[i + 2..j], s[j + 2..k]))
        else
          None
      else
        None
    else
      None
  }

  /** Where the characters of `![alt](src)` stand in `s`, the pattern reads them there. */
  lemma ImageFromChars(s: string, i: nat, j: nat, k: nat)
    requires i + 2 <= j && j + 2 <= k < |s|
    requires s[i] == '!' && s[i + 1] == '[' && s[j] == ']' && s[j + 1] == '(' && s[k] == ')'
    requires forall q :: i + 2 <= q < j ==> s[q] != ']'
    requires forall q :: j + 2 <= q < k ==> s[q] != ')' && s[q] != '\n'
    ensures IsImageAt(s, i, s[i + 2..j], s[j + 2..k])
  {
    var alt, src := s[i + 2..j], s[j + 2..k];
    assert s[i..k + 1] == s[i..i + 2] + alt + s[j..j + 2] + src + s[k..k + 1];
    assert s[i..i + 2] == "![" && s[j..j + 2] == "](" && s[k..k + 1] == ")";
    assert forall q :: 0 <= q < |alt| ==> alt[q] == s[i + 2 + q];
    assert forall q :: 0 <= q < |src| ==> src[q] == s[j + 2 + q];
  }

  /** Where the groups and the punctuation of `![alt](src)` stand. */
  lemma ImageLayout(alt: string, src: string)
    ensures var t, j := Image(alt, src), 2 + |alt|;
      && |t| == j + 3 + |src| && t[0] == '!' && t[1] == '[' && t[j] == ']' && t[j + 1] == '(' && t[|t| - 1] == ')'
      && t[2..j] == alt && t[j + 2..|t| - 1] == src
  {
  }

  /** Where `![alt](src)` stands in `s`, its characters stand there one by one. */
  lemma CharsOfImage(s: string, i: nat, alt: string, src: string)
    requires IsImageAt(s, i, alt, src)
    ensures var j, k := i + 2 + |alt|, i + 4 + |alt| + |src|;
      && k < |s| && s[i] == '!' && s[i + 1] == '[' && s[j] == ']' && s[j + 1] == '(' && s[k] == ')'
      && s[i + 2..j] == alt && s[j + 2..k] == src
  {
    var t := Image(alt, src);
    var j, k := i + 2 + |alt|, i + 4 + |alt| + |src|;
    ImageLayout(alt, src);
    SliceOfSlice(s, i, i + |t|, 2, 2 + |alt|);
    SliceOfSlice(s, i, i + |t|, 4 + |alt|, |t| - 1);
    var u := s[i..i + |t|];
    assert s[i] == u[0] && s[i + 1] == u[1] && s[j] == u[2 + |alt|] && s[j + 1] == u[3 + |alt|] && s[k] == u[|t| - 1];
  }

  /** Wherever `![alt](src)` occurs in the form the pattern reads, the matcher returns exactly its groups. */
  lemma MatchImageComplete(s: string, i: nat, alt: string, src: string)
    requires IsImageAt(s, i, alt, src)
    ensures MatchImageAt(s, i) == Some(ImageMatch(alt, src))
  {
    var j := i + 2 + |alt|;
    var k := j + 2 + |src|;
    CharsOfImage(s, i, alt, src);
    forall q | i + 2 <= q < j
      ensures s[q] != ']'
    {
      assert s[q] == s[i + 2..j][q - i - 2];
    }
    forall q | j + 2 <= q < k
      ensures s[q] != ')' && s[q] != '\n'
    {
      assert s[q] == s[j + 2..k][q - j - 2];
    }
    MatchImageAtChars(s, i, j, k);
  }

  /** The matcher's groups once the characters around them are known. */
  lemma MatchImageAtChars(s: string, i: nat, j: nat, k: nat)
    requires i + 2 <= j && j + 2 <= k < |s|
    requires s[i] == '!' && s[i + 1] == '[' && s[j] == ']' && s[j + 1] == '(' && s[k] == ')'
    requires forall q :: i + 2 <= q < j ==> s[q] != ']'
    requires forall q :: j + 2 <= q < k ==> s[q] != ')' && s[q] != '\n'
    ensures MatchImageAt(s, i) == Some(ImageMatch(s[i + 2..j], s[j + 2..k]))
  {
    SpanUnique(s, i + 2, NotCloseBracket, j);
    SpanUnique(s, j + 2, NotCloseParenOrNewline, k);
  }

  /** `EMBED_RE.sub(_rewrite_embed, ...)` over `s` from position `i` on. */
  function SubEmbeds(s: string, i: nat): string
    requires i <= |s|
    decreases |s| - i
  {
    if i == |s| then ""
    else match MatchEmbedAt(s, i)
      case Some(m) => RewriteEmbed(m.inner) + SubEmbeds(s, m.end)
      case None => [s[i]] + SubEmbeds(s, i + 1)
  }

  /** `MD_IMG_RE.sub(_rewrite_md_img, ...)` over `s` from position `i` on. */
  function SubImages(s: string, i: nat): string
    requires i <= |s|
    decreases |s| - i
  {
    if i == |s| then ""
    else match MatchImageAt(s, i)
      case Some(m) => RewriteMdImg(m.alt, m.src) + SubImages(s, i + |Image(m.alt, m.src)|)
      case None => [s[i]] + SubImages(s, i + 1)
  }

  /**
   `rewrite_images`: embeds first, then Markdown images (including the embeds
   just rewritten). Text in which `![` never occurs comes out unchanged.
   */
  function RewriteImages(markdown: string): (r: string)
    ensures NoImageOpener(markdown, 0) ==> r == markdown
  {
    assert NoImageOpener(markdown, 0) ==> SubImages(SubEmbeds(markdown, 0), 0) == markdown by {
      if NoImageOpener(markdown, 0) {
        SubEmbedsWithoutOpener(markdown, 0);
        SubImagesWithoutOpener(markdown, 0);
      }
    }
    SubImages(SubEmbeds(markdown, 0), 0)
  }

  /** `s` has no `![` from position `i` on. */
  predicate NoImageOpener(s: string, i: nat)
  {
    forall k :: i <= k < |s| - 1 ==> !(s[k] == '!' && s[k + 1] == '[')
  }

  lemma {:induction false} SubEmbedsWithoutOpener(s: string, i: nat)
    requires i <= |s| && NoImageOpener(s, i)
    ensures SubEmbeds(s, i) == s[i..]
    decreases |s| - i
  {
    if i < |s| {
      NoEmbedWithoutOpener(s, i);
      SubEmbedsCopies(s, i);
      assert NoImageOpener(s, i + 1);
      SubEmbedsWithoutOpener(s, i + 1);
      SliceCons(s, i);
    }
  }

  /** Where no embed starts, the embed pass copies one character. */
  lemma SubEmbedsCopies(s: string, i: nat)
    requires i < |s| && MatchEmbedAt(s, i) == None
    ensures SubEmbeds(s, i) == [s[i]] + SubEmbeds(s, i + 1)
  {
  }

  lemma NoEmbedWithoutOpener(s: string, i: nat)
    requires i < |s| && !(i + 1 < |s| && s[i] == '!' && s[i + 1] == '[')
    ensures MatchEmbedAt(s, i) == None
  {
    if i + 3 <= |s| {
      assert s[i..i + 3][0] == s[i] && s[i..i + 3][1] == s[i + 1];
    }
  }

  lemma {:induction false} SubImagesWithoutOpener(s: string, i: nat)
    requires i <= |s| && NoImageOpener(s, i)
    ensures SubImages(s, i) == s[i..]
    decreases |s| - i
  {
    if i < |s| {
      SubImagesWithoutOpener(s, i + 1);
      SliceCons(s, i);
    }
  }

  /**
   The image pass leaves the image it wrote unchanged when read as text again,
   provided the file name is non-empty and holds none of `|`, `]`, `)`. A name
   with a line break is not matched at all, since `MD_IMG_RE`'s source group
   stops at line breaks.
   */
  lemma ImagePassFixesItsOutput(alt: string, src: string)
    requires ']' !in alt
    requires var name := Name(src);
      name != "" && '|' !in name && ']' !in name && ')' !in name
    ensures SubImages(RewriteMdImg(alt, src), 0) == RewriteMdImg(alt, src)
  {
    if '\n' in Name(src) {
      ImagePassCopiesBrokenName(alt, src);
    } else {
      ImagePassFixesOneLineName(alt, src);
    }
  }

  lemma ImagePassFixesOneLineName(alt: string, src: string)
    requires ']' !in alt
    requires var name := Name(src);
      name != "" && '|' !in name && ']' !in name && ')' !in name && '\n' !in name
    ensures SubImages(RewriteMdImg(alt, src), 0) == RewriteMdImg(alt, src)
  {
    var out := RewriteMdImg(alt, src);
    var cleaned, normal := CleanAlt(alt, src), AssetsPrefix + Name(src);
    CleanAltDrawsOn(alt, src, ']');
    assert IsImageAt(out, 0, cleaned, normal);
    MatchImageComplete(out, 0, cleaned, normal);
    MdImgIdempotent(alt, src);
  }

  /** A file name with a line break is not matched again, since `MD_IMG_RE`'s source group stops at line breaks. */
  lemma ImagePassCopiesBrokenName(alt: string, src: string)
    requires ']' !in alt
    requires var name := Name(src); ']' !in name && ')' !in name && '\n' in name
    ensures SubImages(RewriteMdImg(alt, src), 0) == RewriteMdImg(alt, src)
  {
    var cleaned, normal := CleanAlt(alt, src), AssetsPrefix + Name(src);
    CleanAltDrawsOn(alt, src, ']');
    assert '\n' in normal && ']' !in normal && ')' !in normal by {
      NotInSlice(normal, 0, |normal|, ']');
      NotInSlice(normal, 0, |normal|, ')');
      assert normal[..] == normal;
      var q :| 0 <= q < |Name(src)| && Name(src)[q] == '\n';
      assert normal[|AssetsPrefix| + q] == '\n';
    }
    BrokenImageIsCopied(cleaned, normal);
  }

  /** The image pass copies an image whose source holds a line break but no `)` or `]`. */
  lemma BrokenImageIsCopied(alt: string, src: string)
    requires ']' !in alt && ']' !in src && ')' !in src && '\n' in src
    ensures SubImages(Image(alt, src), 0) == Image(alt, src)
  {
    var s := Image(alt, src);
    forall q | 0 <= q < |s|
      ensures MatchImageAt(s, q) == None
    {
      NoMatchInBrokenImage(alt, src, q);
    }
    SubImagesWithoutMatch(s, 0);
  }

  /**
   An image whose source holds a line break but no `)` or `]`, and whose alt
   text holds no `]`, contains no match of `MD_IMG_RE` at any position.
   */
  lemma NoMatchInBrokenImage(alt: string, src: string, i: nat)
    requires ']' !in alt && ']' !in src && ')' !in src && '\n' in src
    requires i < |Image(alt, src)|
    ensures MatchImageAt(Image(alt, src), i) == None
  {
    var s, j := Image(alt, src), 2 + |alt|;
    ImageLayout(alt, src);
    if i + 2 <= |s| && s[i] == '!' && s[i + 1] == '[' {
      if i + 2 <= j {
        forall q | i + 2 <= q < j
          ensures s[q] != ']'
        {
          assert s[q] == s[2..j][q - 2];
        }
        SpanUnique(s, i + 2, NotCloseBracket, j);
        var k := Span(s, j + 2, NotCloseParenOrNewline);
        var m :| 0 <= m < |src| && src[m] == '\n';
        assert s[j + 2 + m] == s[j + 2..|s| - 1][m];
        assert k <= j + 2 + m;
        if k < |s| {
          assert s[k] == s[j + 2..|s| - 1][k - j - 2];
        }
      } else {
        forall q | j < q < |s|
          ensures s[q] != ']'
        {
          if q == j + 1 || q == |s| - 1 {
          } else {
            assert s[q] == s[j + 2..|s| - 1][q - j - 2];
          }
        }
      }
    }
  }

  /** Where `MD_IMG_RE` matches nowhere from `i` on, the image pass copies the text. */
  lemma {:induction false} SubImagesWithoutMatch(s: string, i: nat)
    requires i <= |s|
    requires forall q :: i <= q < |s| ==> MatchImageAt(s, q) == None
    ensures SubImages(s, i) == s[i..]
    decreases |s| - i
  {
    if i < |s| {
      SubImagesWithoutMatch(s, i + 1);
      SliceCons(s, i);
    }
  }

  /** An embed's rewrite is already in the normal form the image rewriter produces. */
  lemma EmbedOutputIsNormal(inner: string)
    requires Name(BeforeFirst(inner, '|')) != ""
    ensures var name := Name(BeforeFirst(inner, '|'));
      RewriteMdImg(DeriveAlt(name), AssetsPrefix + name) == RewriteEmbed(inner)
  {
    var name := Name(BeforeFirst(inner, '|'));
    var alt := DeriveAlt(name);
    NameUnderAssets(name);
    assert '|' !in alt by {
      DeriveAltDrawsOnName(name, '|');
      NameIdempotent(BeforeFirst(inner, '|'));
    }
    assert CleanAlt(alt, AssetsPrefix + name) == alt;
  }

  /** The embed pass turns a text that is one embed `![[p]]` into that embed's rewrite. */
  lemma EmbedPassOfSingleEmbed(p: string)
    requires p != "" && ']' !in p
    ensures SubEmbeds("![[" + p + "]]", 0) == RewriteEmbed(p)
  {
    var s := "![[" + p + "]]";
    MatchEmbedComplete(s, 0, p, |s|);
    assert MatchEmbedAt(s, 0) == Some(EmbedMatch(p, |s|));
  }

  /** The image pass leaves an embed's rewrite as it is when the file name is non-empty and holds no `)`. */
  lemma ImagePassFixesEmbedOutput(p: string)
    requires ']' !in p && ')' !in p
    requires Name(BeforeFirst(p, '|')) != ""
    ensures SubImages(RewriteEmbed(p), 0) == RewriteEmbed(p)
  {
    var name := Name(BeforeFirst(p, '|'));
    var alt, src := DeriveAlt(name), AssetsPrefix + name;
    assert ']' !in alt && ']' !in name && ')' !in name && '|' !in name by {
      DeriveAltDrawsOnName(name, ']');
      NameIdempotent(BeforeFirst(p, '|'));
    }
    NameUnderAssets(name);
    assert RewriteMdImg(alt, src) == RewriteEmbed(p) by {
      EmbedOutputIsNormal(p);
    }
    ImagePassFixesItsOutput(alt, src);
  }

  /**
   A text that is one embed `![[p]]` becomes `![alt](./assets/<name>)` after
   both passes: the second pass leaves the first pass's image as it is.
   */
  lemma RewriteSingleEmbed(p: string)
    requires p != "" && ']' !in p && ')' !in p
    requires Name(BeforeFirst(p, '|')) != ""
    ensures RewriteImages("![[" + p + "]]") == RewriteEmbed(p)
  {
    EmbedPassOfSingleEmbed(p);
    ImagePassFixesEmbedOutput(p);
  }

  /**
   An embed without a file name, `![[|size]]`, is not stable under the two
   passes: the embed pass writes `![](./assets/)`, and the image pass then
   reads the name `assets` from that and writes `![assets](./assets/assets)`.
   */
  lemma EmbedWithoutNameIsRewrittenTwice(size: string)
    requires ']' !in size
    ensures RewriteEmbed("|" + size) == Image("", AssetsPrefix)
    ensures RewriteImages("![[" + ("|" + size) + "]]") == Image("assets", AssetsPrefix + "assets")
  {
    var p, first := "|" + size, Image("", AssetsPrefix);
    assert RewriteEmbed(p) == first && SubEmbeds("![[" + p + "]]", 0) == first by {
      EmbedOfEmptyName(size);
      EmbedPassOfSingleEmbed(p);
    }
    assert SubImages(first, 0) == Image("assets", AssetsPrefix + "assets") by {
      AssetsPrefixChars();
      SubImagesOfImageThenText("", AssetsPrefix, "");
      assert first + "" == first;
      MdImgOfAssetsDirectoryWithoutAlt();
    }
  }

  /** `![[|size]]` has the empty file name, so its image has an empty alt text and the source `./assets/`. */
  lemma EmbedOfEmptyName(size: string)
    ensures RewriteEmbed("|" + size) == Image("", AssetsPrefix)
  {
    assert "|" + size == "" + "|" + size;
    BeforeFirstOfJoin("", '|', size);
    assert Name("") == "";
    assert AssetsPrefix + "" == AssetsPrefix;
  }

  lemma AssetsPrefixChars()
    ensures ')' !in AssetsPrefix && '\n' !in AssetsPrefix && '|' !in AssetsPrefix
  {
    assert forall k :: 0 <= k < |AssetsPrefix| ==> AssetsPrefix[k] == '.' || AssetsPrefix[k] == '/' || 'a' <= AssetsPrefix[k] <= 'z';
  }

  /** The image `![alt](./assets/)` is rewritten with the name `assets`, keeping a non-empty alt text without `|`. */
  lemma MdImgOfAssetsDirectory(alt: string)
    requires alt != "" && '|' !in alt
    ensures RewriteMdImg(alt, AssetsPrefix) == Image(alt, AssetsPrefix + "assets")
  {
    NameOfAssetsDirectory();
  }

  /** The image `![](./assets/)` is rewritten with the name `assets`, and the alt text is derived from it. */
  lemma MdImgOfAssetsDirectoryWithoutAlt()
    ensures RewriteMdImg("", AssetsPrefix) == Image("assets", AssetsPrefix + "assets")
  {
    NameOfAssetsDirectory();
    AssetsIsItsOwnAlt();
    CleanAltDerivesFromName("", AssetsPrefix);
  }

  lemma AssetsIsItsOwnAlt()
    ensures DeriveAlt("assets") == "assets"
  {
    var name := "assets";
    assert forall k :: 0 <= k < |name| ==> 'a' <= name[k] <= 'z';
    DeriveAltOfPlainName(name);
  }

  /**
   A file name starting with `)` is cut short by the image pass. For example
   the embed `![[)b.png]]` becomes `![)b](./assets/)b.png)`, in which
   `MD_IMG_RE` reads the source `./assets/` only, so the result is
   `![)b](./assets/assets)b.png)`.
   */
  lemma EmbedWithParenIsCutShort(base: string, ext: string)
    requires '.' !in base && '/' !in base && '-' !in base && '_' !in base
    requires '|' !in base && ']' !in base && '!' !in base
    requires ext != "" && '.' !in ext && '/' !in ext && '|' !in ext && ']' !in ext && '!' !in ext
    ensures var rest := base + "." + ext;
      && RewriteEmbed(")" + rest) == Image(")" + base, AssetsPrefix + (")" + rest))
      && RewriteImages("![[" + (")" + rest) + "]]") == Image(")" + base, AssetsPrefix + "assets") + (rest + ")")
  {
    var alt, rest := ")" + base, base + "." + ext;
    var first := Image(alt, AssetsPrefix) + (rest + ")");
    assert RewriteEmbed(")" + rest) == Image(alt, AssetsPrefix + (")" + rest))
      && SubEmbeds("![[" + (")" + rest) + "]]", 0) == first
    by {
      ParenEmbedFirstPass(base, ext);
      ImageSplitsAtParen(alt, AssetsPrefix, rest);
    }
    assert SubImages(first, 0) == Image(alt, AssetsPrefix + "assets") + (rest + ")") by {
      AssetsPrefixChars();
      NoBangAfterParen(base, ext);
      SubImagesOfImageThenText(alt, AssetsPrefix, rest + ")");
      MdImgOfAssetsDirectory(alt);
    }
  }

  lemma NoBangAfterParen(base: string, ext: string)
    requires '!' !in base && '!' !in ext
    ensures '!' !in base + "." + ext + ")"
  {
    var t := base + "." + ext + ")";
    assert forall k :: 0 <= k < |t| ==> t[k] == ')' || t[k] == '.' || t[k] in base || t[k] in ext;
  }

  /** The embed pass writes `![)base](./assets/)base.ext)` for `![[)base.ext]]`. */
  lemma ParenEmbedFirstPass(base: string, ext: string)
    requires '.' !in base && '/' !in base && '-' !in base && '_' !in base && '|' !in base && ']' !in base
    requires ext != "" && '.' !in ext && '/' !in ext && '|' !in ext && ']' !in ext
    ensures var file := ")" + (base + "." + ext);
      && RewriteEmbed(file) == Image(")" + base, AssetsPrefix + file)
      && SubEmbeds("![[" + file + "]]", 0) == Image(")" + base, AssetsPrefix + file)
  {
    var alt := ")" + base;
    var file := ")" + (base + "." + ext);
    assert file == alt + "." + ext;
    assert '|' !in file && '/' !in file && ']' !in file && file != ".";
    NameOfBareName(file);
    DeriveAltOfPlainBase(alt, ext);
    EmbedPassOfSingleEmbed(file);
  }

  /** A `)` in an image's source closes the image there: the rest follows as plain text. */
  lemma ImageSplitsAtParen(alt: string, dir: string, rest: string)
    ensures Image(alt, dir + (")" + rest)) == Image(alt, dir) + (rest + ")")
  {
  }

  /** An image followed by text without `!` is rewritten, and the text after it copied. */
  lemma SubImagesOfImageThenText(alt: string, src: string, rest: string)
    requires ']' !in alt && ')' !in src && '\n' !in src && '!' !in rest
    ensures SubImages(Image(alt, src) + rest, 0) == RewriteMdImg(alt, src) + rest
  {
    var s, n := Image(alt, src) + rest, |Image(alt, src)|;
    assert s[..n] == Image(alt, src) && s[n..] == rest;
    assert IsImageAt(s, 0, alt, src);
    MatchImageComplete(s, 0, alt, src);
    assert NoImageOpener(s, n) by {
      forall k | n <= k < |s| - 1
        ensures s[k] != '!'
      {
        assert s[k] == rest[k - n];
      }
    }
    SubImagesWithoutOpener(s, n);
  }

  /** The stem of `base.ext` is `base` when neither part holds a `.` or `/`. */
  lemma StemOfBaseAndExtension(base: string, ext: string)
    requires base != "" && '/' !in base && '.' !in base
    requires ext != "" && '/' !in ext && '.' !in ext
    ensures Stem(base + "." + ext) == base
  {
    var name := base + "." + ext;
    NameOfBareName(name);
    LastIndexOfJoin(base, '.', ext);
    assert name[..|base|] == base;
  }

  /** A file name `base.ext` whose base has no `.`, `-` or `_` has the base as its alt text. */
  lemma DeriveAltOfPlainBase(base: string, ext: string)
    requires base != "" && '/' !in base && '.' !in base && '-' !in base && '_' !in base
    requires ext != "" && '/' !in ext && '.' !in ext
    ensures DeriveAlt(base + "." + ext) == base
  {
    StemOfBaseAndExtension(base, ext);
    var alt := DeriveAlt(base + "." + ext);
    forall k | 0 <= k < |base|
      ensures alt[k] == base[k]
    {
      assert base[k] != '-' && base[k] != '_';
    }
  }

  /**
   `![[dir/base.ext|size]]` becomes `![base](./assets/base.ext)` when the base
   has no `.`, `-` or `_`; `![[img/cat.png|500]]` becomes `![cat](./assets/cat.png)`.
   */
  lemma EmbedOfPlainFile(dir: string, base: string, ext: string, size: string)
    requires '|' !in dir && '|' !in base && '|' !in ext
    requires base != "" && '/' !in base && '.' !in base && '-' !in base && '_' !in base
    requires ext != "" && '/' !in ext && '.' !in ext
    ensures var file := base + "." + ext;
      RewriteEmbed(dir + "/" + file + "|" + size) == Image(base, AssetsPrefix + file)
  {
    var file := base + "." + ext;
    EmbedOfNestedFile(dir, file, size);
    DeriveAltOfPlainBase(base, ext);
  }
}
