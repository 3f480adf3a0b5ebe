# obsidian_to_typora: the text conversion, in Dafny

`obsidian_to_typora.py` converts a folder of Obsidian notes for Typora. This
project models the two text rewrites at its core and proves properties of them:

- **Images** (`rewrite_images`). Obsidian embeds `![[path|size]]` become Markdown
  images. Existing Markdown images `![alt](src)` get a cleaned alt text. Both kinds
  end up pointing at `./assets/<file name>`. The alt text comes from the given
  alt, or else from the file name's stem (`_derive_alt`).
- **Admonitions** (`rewrite_blockquotes`). A callout line `> [!tag] title`
  becomes Typora's `> [!tag]` followed by `> **title**`. An unsupported tag keeps
  only the bold title, or is dropped when there is no title. Every other line is
  copied.

Files and modules:

| file | module | contents |
|---|---|---|
| `wrappers.dfy` | `Wrappers` | `Option`, for "the pattern did not match" |
| `text.dfy` | `Text` | what the converter uses from `str`: `isspace`, `strip`, `split(c, 1)[0]`, single-character `replace`, `lower`, `rfind` |
| `paths.dfy` | `Paths` | `PurePosixPath(p).name`, `.stem`, `.suffix` |
| `images.dfy` | `Images` | `_derive_alt`, `_rewrite_embed`, `_rewrite_md_img`; matchers for `EMBED_RE` and `MD_IMG_RE`; the two `re.sub` passes; `rewrite_images` |
| `admonitions.dfy` | `Admonitions` | `SUPPORTED_ADMONITIONS`; the matcher for `BQ_RE`; the per-line rewrite; `splitlines(keepends=True)` and `"".join`; `rewrite_blockquotes` as a method with a loop |

The three regular expressions are modelled as hand-written matchers. Each
matcher is proved sound and complete against a predicate that states, in
Dafny, the text the pattern describes: `IsEmbedAt`, `IsImageAt` and
`IsAdmonitionLine`. `re.sub` is modelled as a left-to-right scan that resumes
after each match (`SubEmbeds`, `SubImages`). Functions that only compute,
such as `SubEmbeds`, `SubImages`, `MatchAdmonition`, `RewriteLine`,
`SplitLines`, `Join` and `RewriteAll`, are specified by the lemmas about them
in the table below.

`rewrite_blockquotes` appends to a list inside a loop. It is therefore the method
`Admonitions.RewriteBlockquotes`. The loop invariant ties the method to the
specification function `RewriteAll`, which maps each line to its output lines.
The other properties are lemmas about `RewriteAll`: copying, bounds,
well-formed line splitting, and idempotence.

Python details that the model follows exactly:

- `\s` and `str.strip()` use the `str.isspace()` character set.
- `Path(p).name` splits at `/` and drops the empty and `.` components, as
  pathlib does. `Paths.NameIsLastComponent` proves that `Paths.Name` agrees
  with that reading.
- `.stem` and `.suffix` split at the last `.` only when that dot is neither the
  first nor the last character of the name.
- `tag.lower()` is modelled on ASCII. This is exact, because `BQ_RE` only
  admits `[A-Za-z0-9_-]` in a tag.

### Behaviour worth knowing

- **Only one `>`.** `BQ_RE` allows whitespace, one `>` and whitespace before
  the tag. A nested quote `> > [!note]` therefore does not match and is copied
  (`Admonitions.NestedQuoteIsCopied`).
- **Generated lines end in `\n`.** Copied lines keep their line endings.
  Generated lines always end in `"\n"`, even when the callout was the last line
  and had no line break (`Admonitions.RewriteLineShape`).
- **The image rewrite is idempotent only under conditions.** Rewriting an
  image again changes nothing when the source's file name is non-empty and
  contains no `|` (`Images.MdImgIdempotent`). Otherwise a second pass changes
  it:
  - With an empty name, `![x]()` becomes `![x](./assets/)`. A second pass turns
    that into `![x](./assets/assets)`
    (`Images.MdImgNotIdempotentWithoutName`).
  - With a name such as `a|`, `![](a|)` becomes `![a|](./assets/a|)`. A second
    pass cuts the alt text at the `|` and gives `![a](./assets/a|)`
    (`Images.MdImgNotIdempotentWithBar`).
- **`rewrite_images` rewrites some embeds twice.** Its image pass also reads
  the images the embed pass has just written. For most embeds that changes
  nothing (`Images.RewriteSingleEmbed`), but:
  - An embed without a file name, `![[|500]]`, first becomes `![](./assets/)`
    and then `![assets](./assets/assets)`
    (`Images.EmbedWithoutNameIsRewrittenTwice`).
  - A file name starting with `)`, as in `![[)b.png]]`, first gives
    `![)b](./assets/)b.png)`. `MD_IMG_RE` then reads only `./assets/` as the
    source, and the result is `![)b](./assets/assets)b.png)`
    (`Images.EmbedWithParenIsCutShort`).

## Model

| member | source | states |
|---|---|---|
| Text.StripIsTrimmedSlice | obsidian_to_typora.py:74 | `strip()` returns the slice of the text between an all-whitespace prefix and an all-whitespace suffix, and the result neither starts nor ends with whitespace |
| Text.StripEmpty | obsidian_to_typora.py:74-77 | a stripped title is empty exactly when the rest of the line is all whitespace, the case in which `if title` fails |
| Text.StripDrawsOn | obsidian_to_typora.py:47 | every character of a stripped text occurs in the original |
| Text.BeforeFirst | obsidian_to_typora.py:34 | `split("\|", 1)[0]` is a prefix without `\|`, stops at the first `\|`, and is the whole text when there is no `\|` |
| Text.BeforeFirstOfJoin | obsidian_to_typora.py:34 | splitting `a + "\|" + b` with `a` free of `\|` gives `a` |
| Text.ReplaceChar | obsidian_to_typora.py:28 | `replace` of one character keeps the length and changes exactly the positions holding that character |
| Text.Strip | obsidian_to_typora.py:74 | `strip()` is no longer than the text, and a non-empty result neither starts nor ends with whitespace |
| Text.Lower | obsidian_to_typora.py:73 | `lower()` keeps the length and lowers each character on its own |
| Paths.Name | obsidian_to_typora.py:37 | `Path(p).name` holds no `/`, is not `.`, and is no longer than the path |
| Paths.NameIsLastComponent | obsidian_to_typora.py:37 | the name is the last component left after pathlib drops the empty and `.` segments, or "" when none is left |
| Paths.NameUnderDirectory | obsidian_to_typora.py:52 | a directory in front of a bare file name does not change the name |
| Paths.NameIdempotent | obsidian_to_typora.py:52 | taking the name of a name changes nothing |
| Paths.SuffixStart | obsidian_to_typora.py:27 | the name is split at its last `.` when that dot is neither its first nor its last character, and at its end otherwise |
| Paths.Suffix | obsidian_to_typora.py:27 | `.suffix` is "" exactly when the name is empty, ends in `.`, or has no `.` after its first character; otherwise it is a `.` followed by at least one character and no further `.` |
| Paths.Stem | obsidian_to_typora.py:27 | the stem followed by the suffix is the name, so with the suffix's contract the split is at the name's last `.`; the stem is empty exactly when the name is |
| Images.DeriveAlt | obsidian_to_typora.py:25-28 | the alt text has the stem's length; each `-` and `_` of the stem becomes a space and every other character is kept; it is empty exactly when the name is, so the `or stem` fallback never changes the result |
| Images.DeriveAltDrawsOnName | obsidian_to_typora.py:25-28 | every non-space character of the derived alt text comes from the file name |
| Images.DeriveAltOfPlainName | obsidian_to_typora.py:25-28 | a bare name without `.`, `-` or `_` is its own alt text |
| Images.StemOfBaseAndExtension | obsidian_to_typora.py:27 | the stem of `base.ext` is `base` |
| Images.DeriveAltOfPlainBase | obsidian_to_typora.py:25-28 | the alt text of `base.ext` is `base` when `base` has no `-` or `_` |
| Images.RewriteEmbed | obsidian_to_typora.py:31-39 | an embed becomes `![alt](./assets/name)`, where `name` is the file name of the text before the first `\|` and `alt` is derived from that name |
| Images.EmbedIgnoresDisplaySize | obsidian_to_typora.py:32-36 | whatever follows the `\|` of an embed has no effect on the output |
| Images.EmbedOfNestedFile | obsidian_to_typora.py:31-39 | `![[dir/file\|size]]` gives `![alt](./assets/file)`, with the alt text derived from `file` alone |
| Images.EmbedOfPlainFile | obsidian_to_typora.py:31-39 | `![[dir/base.ext\|size]]` gives `![base](./assets/base.ext)`, as in `![[img/cat.png\|500]]` to `![cat](./assets/cat.png)` |
| Images.CleanAltCutsAtBar | obsidian_to_typora.py:46-47 | an alt text with a `\|` and a non-blank part before it becomes that part, stripped |
| Images.CleanAltKeepsPlainAlt | obsidian_to_typora.py:45-48 | a non-empty alt text without `\|` is kept unchanged, even when it is all whitespace |
| Images.CleanAltDerivesFromName | obsidian_to_typora.py:48-49 | an empty alt text, or one whose part before `\|` is blank, is derived from the source's file name |
| Images.CleanAlt | obsidian_to_typora.py:45-49 | the cleaned alt text is empty only when the source's file name is empty, and a `\|` in it can only come from the alt text derived from the file name |
| Images.CleanAltDropsSize | obsidian_to_typora.py:46-47 | `alt\|size` becomes `alt` for a trimmed `alt` without `\|` |
| Images.CleanAltDrawsOn | obsidian_to_typora.py:45-49 | every non-space character of the cleaned alt text comes from the alt text or from the file name |
| Images.RewriteMdImg | obsidian_to_typora.py:42-54 | a Markdown image becomes `![cleaned alt](./assets/name)`, where `name` is the source's file name |
| Images.MdImgFlattensSource | obsidian_to_typora.py:51-53 | the source's directories are dropped: `dir/file` and `file` give the same image |
| Images.NameUnderAssets | obsidian_to_typora.py:53 | the name of `./assets/name` is `name` for a non-empty bare name |
| Images.MdImgIdempotent | obsidian_to_typora.py:42-54 | rewriting an already rewritten image again changes nothing, when the file name is non-empty and has no `\|` |
| Images.MdImgNotIdempotentWithoutName | obsidian_to_typora.py:48-53 | with an empty file name the output points at `./assets/`, and a second pass changes it to `./assets/assets` |
| Images.MdImgDerivesAltWithBar | obsidian_to_typora.py:48-53 | an empty alt with source `a\|` derives the alt text `a\|` |
| Images.MdImgCutsBarAlt | obsidian_to_typora.py:46-53 | the alt text `a\|` is cut to `a` |
| Images.MdImgNotIdempotentWithBar | obsidian_to_typora.py:45-53 | with the file name `a\|`, a second pass changes the alt text from `a\|` to `a` |
| Images.MatchEmbedAt | obsidian_to_typora.py:12 | every match the embed matcher returns is text `EMBED_RE` describes: `![[`, a non-empty group without `]`, `]]`, and an optional `(...)` without `)` |
| Images.MatchEmbedComplete | obsidian_to_typora.py:12 | wherever such text stands, the matcher finds it with the same group |
| Images.MatchImageAt | obsidian_to_typora.py:14 | every match the image matcher returns is text `MD_IMG_RE` describes: `![alt](src)` with no `]` in `alt` and no `)` or line break in `src` |
| Images.MatchImageComplete | obsidian_to_typora.py:14 | wherever such text stands, the matcher finds it with the same groups |
| Images.SubEmbedsWithoutOpener | obsidian_to_typora.py:58 | the embed pass copies text that has no `![` |
| Images.SubImagesWithoutOpener | obsidian_to_typora.py:59 | the image pass copies text that has no `![` |
| Images.RewriteImages | obsidian_to_typora.py:57-60 | `rewrite_images` leaves text without `![` unchanged |
| Images.EmbedPassOfSingleEmbed | obsidian_to_typora.py:58 | the embed pass turns the text `![[p]]` into `_rewrite_embed`'s output for `p` |
| Images.EmbedOutputIsNormal | obsidian_to_typora.py:39 | when the embed's file name is non-empty, its output is what `_rewrite_md_img` gives on that output's own groups |
| Images.ImagePassFixesItsOutput | obsidian_to_typora.py:59 | the image pass leaves the output of `_rewrite_md_img` unchanged, when the alt text holds no `]` and the file name is non-empty and holds no `\|`, `]` or `)` |
| Images.ImagePassFixesOneLineName | obsidian_to_typora.py:59 | the image pass matches the output of `_rewrite_md_img` again, with the same groups, when the file name also holds no line break |
| Images.ImagePassCopiesBrokenName | obsidian_to_typora.py:59 | the image pass copies that output when the file name holds a line break |
| Images.BrokenImageIsCopied | obsidian_to_typora.py:59 | the image pass copies an image whose source holds a line break but no `)` or `]` |
| Images.NoMatchInBrokenImage | obsidian_to_typora.py:14 | `MD_IMG_RE` matches nowhere inside such an image |
| Images.SubImagesWithoutMatch | obsidian_to_typora.py:59 | where `MD_IMG_RE` matches nowhere, the image pass copies the text |
| Images.SubImagesOfImageThenText | obsidian_to_typora.py:59 | an image followed by text without `!` is rewritten, and the text after it is copied |
| Images.ImagePassFixesEmbedOutput | obsidian_to_typora.py:57-60 | when `p` holds no `]` or `)` and its file name is non-empty, the second pass of `rewrite_images` leaves the first pass's output for `p` unchanged |
| Images.RewriteSingleEmbed | obsidian_to_typora.py:57-60 | when `p` is non-empty, holds no `]` or `)`, and its file name is non-empty, `rewrite_images` of the text `![[p]]` is `_rewrite_embed`'s output for `p` |
| Images.EmbedOfEmptyName | obsidian_to_typora.py:31-39 | `![[\|size]]` has an empty file name and gives `![](./assets/)` |
| Images.NameOfAssetsDirectory | obsidian_to_typora.py:52-53 | the file name of `./assets/` is `assets` |
| Images.MdImgOfAssetsDirectory | obsidian_to_typora.py:42-54 | `![alt](./assets/)` with a non-empty alt without `\|` becomes `![alt](./assets/assets)` |
| Images.MdImgOfAssetsDirectoryWithoutAlt | obsidian_to_typora.py:48-53 | `![](./assets/)` becomes `![assets](./assets/assets)` |
| Images.EmbedWithoutNameIsRewrittenTwice | obsidian_to_typora.py:57-60 | `![[\|size]]` gives `![](./assets/)` in the embed pass and `![assets](./assets/assets)` out of `rewrite_images` |
| Images.ParenEmbedFirstPass | obsidian_to_typora.py:58 | the embed pass turns `![[)base.ext]]` into `![)base](./assets/)base.ext)` |
| Images.EmbedWithParenIsCutShort | obsidian_to_typora.py:57-60 | `![[)base.ext]]` gives `![)base](./assets/)base.ext)` in the embed pass and `![)base](./assets/assets)base.ext)` out of `rewrite_images` |
| Admonitions.SupportedAdmonitionsAreTags | obsidian_to_typora.py:18-20 | each supported type is a tag `BQ_RE` can capture and equals its own lower-case form |
| Admonitions.QuoteEndSound | obsidian_to_typora.py:16 | the leader stage of the matcher finds `\s*>\s*` and stops before a non-space character |
| Admonitions.QuoteEndComplete | obsidian_to_typora.py:16 | a leader followed by a non-space character is found in full |
| Admonitions.TagEndSound | obsidian_to_typora.py:16 | the tag stage finds `[!`, a non-empty tag of `[A-Za-z0-9_-]`, and `]` |
| Admonitions.TagEndComplete | obsidian_to_typora.py:16 | such a tag is found wherever it stands |
| Admonitions.RestEndSound | obsidian_to_typora.py:16 | the rest found holds no line break, and at most one final `\n` follows it (`$`) |
| Admonitions.RestEndComplete | obsidian_to_typora.py:16 | a rest without line breaks, followed by nothing or by `\n`, is found in full |
| Admonitions.MatchAdmonitionSound | obsidian_to_typora.py:16 | every match is a reading of the line that `BQ_RE` describes |
| Admonitions.MatchAdmonitionComplete | obsidian_to_typora.py:16 | every reading of a line that `BQ_RE` describes is the one the matcher returns, so the reading is unique |
| Admonitions.NestedQuoteIsCopied | obsidian_to_typora.py:16 | a line with a second `>` before the tag does not match and is copied |
| Admonitions.CopiesOtherLines | obsidian_to_typora.py:68-71 | a line that `BQ_RE` does not describe is copied as it is |
| Admonitions.SupportedWithTitle | obsidian_to_typora.py:76-79 | a supported tag, in any letter case, with a non-blank title gives `leader[!tag]\n` and `leader**title**\n`, with the tag's original spelling and the stripped title |
| Admonitions.SupportedWithoutTitle | obsidian_to_typora.py:80-81 | a supported tag with a blank title leaves the line unchanged |
| Admonitions.UnsupportedWithTitle | obsidian_to_typora.py:82-84 | an unsupported tag with a non-blank title gives only `leader**title**\n` |
| Admonitions.UnsupportedWithoutTitle | obsidian_to_typora.py:82-85 | an unsupported tag with a blank title drops the line |
| Admonitions.GeneratedLinesEndInNewline | obsidian_to_typora.py:75-79 | both generated lines end in `\n` |
| Admonitions.RewriteLineShape | obsidian_to_typora.py:68-85 | a line gives at most two output lines, each of which is either the line itself or a line ending in `\n` |
| Admonitions.NoteWithTitleExample | obsidian_to_typora.py:76-79 | `> [!note] Remember this\n` gives `> [!note]\n` and `> **Remember this**\n` |
| Admonitions.RewriteBlockquotes | obsidian_to_typora.py:65-86 | the loop appends each line's output in order, and the result is the join of `RewriteAll` of the split lines |
| Admonitions.JoinSplitLines | obsidian_to_typora.py:67 | joining the split lines gives back the text |
| Admonitions.SplitLinesWellSplit | obsidian_to_typora.py:67 | split lines are non-empty, each holds `\n` at most as its last character, and all but the last end in `\n` |
| Admonitions.SplitLinesOfJoin | obsidian_to_typora.py:67 | splitting the join of such lines gives back the lines |
| Admonitions.RewriteAllAppend | obsidian_to_typora.py:66-85 | the output for two blocks of lines is the first block's output followed by the second's |
| Admonitions.RewriteAllBound | obsidian_to_typora.py:66-85 | there are at most twice as many output lines as input lines |
| Admonitions.RewriteAllCopies | obsidian_to_typora.py:68-71 | lines that `BQ_RE` does not describe are copied in order |
| Admonitions.BlockquotesWithoutAdmonitions | obsidian_to_typora.py:65-86 | a text without callout lines is returned unchanged |
| Admonitions.TagLineIsKept | obsidian_to_typora.py:78 | a generated tag line with a supported tag is left unchanged by another rewrite |
| Admonitions.TitleLineIsKept | obsidian_to_typora.py:79 | a generated title line does not match `BQ_RE` and is left unchanged |
| Admonitions.RewriteAllIdempotent | obsidian_to_typora.py:66-85 | rewriting the output lines again changes nothing |
| Admonitions.GeneratedLinesAreClosed | obsidian_to_typora.py:78-79 | the generated lines are single lines ending in `\n` |
| Admonitions.RewriteLineSplit | obsidian_to_typora.py:68-85 | the output lines of a split line are split lines, and all of them end in `\n` except possibly a copied last line |
| Admonitions.RewriteAllWellSplit | obsidian_to_typora.py:66-85 | the output of well-split lines is again well split |
| Admonitions.BlockquotesIdempotent | obsidian_to_typora.py:65-86 | `rewrite_blockquotes` applied to its own output changes nothing |

## Left out

- `rename_attachment_dirs`, `update_markdown_files` and `main` are left out. They walk the file system, read and write files, and print; only the text functions they call are modelled.
- `str.splitlines` also splits at `\r`, `\r\n`, `\v`, `\f`, `\x1c`-`\x1e`, `\x85`, `\u2028` and `\u2029`. The model splits at `\n` only.
- Only POSIX paths are modelled. On Windows, `pathlib.Path` also splits at `\` and treats drive letters specially.
- Paths.Stem: follows Python 3.13 and earlier. Python 3.14 changed the suffix of a name that ends in a single `.`.
- The `re` engine in general is not modelled. Only the three patterns of this file are, as hand-written matchers.
- Images.MatchEmbedComplete: states only that the match ends no earlier than the described text. When a `(...)` tail follows, `EMBED_RE` takes it as well.
- Images.RewriteImages: no lemma about whole documents other than those without `![`. `rewrite_images` is not idempotent in general (`Images.EmbedWithoutNameIsRewrittenTwice`, `Images.EmbedWithParenIsCutShort`). Stability is proved per image (`Images.MdImgIdempotent`), for the image pass on its own output (`Images.ImagePassFixesItsOutput`), and for a document made of a single embed (`Images.RewriteSingleEmbed`). Images that touch each other or overlap are not covered.
