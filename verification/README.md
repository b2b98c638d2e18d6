# string_tools in Dafny

This project models the deterministic core of the Ruby library
`string_tools` (`lib/string_tools.rb`). It covers the following:

- **Sanitizer configuration.** `Sanitizer::Base#sanitize` builds what it hands to the markup sanitizer:
  - the character size guard;
  - the right-biased merge of the caller's tag→attributes map over `TAGS_WITH_ATTRIBUTES`;
  - the element set;
  - the ordered transformer list.
- **Per-node transformers.** These work over an abstract `Node` tree.
  - `LinkNormalizer` rewrites `href` on `a` and `src` on `img`. If normalisation fails, the element is swapped for its children.
  - `IframeNormalizer` unlinks an `iframe` whose `src` does not match `^(http|https):?\/\/(www\.)?youtube?\.com\/`. Otherwise it restricts the iframe's attributes to the configured list.
- **String functions of `Sanitizing`.**
  - `clear_control_characters` and `clear_unicode_separator_characters`.
  - The removal pass that `strip_all_tags_and_entities` applies before parsing.
  - The three regular-expression rewrites that `strip_tags_leave_br` applies after sanitizing.
- **`WordProcessing#truncate_words`.**

Ruby's `gsub` is modelled once, in module `Rewrite`. A pattern becomes a *matcher*: the length of the match at the start of a text, or 0 when there is none. `Gsub` scans left to right. It replaces a match and resumes after it, and otherwise copies one character. `String#tr(range, '')` becomes `Without`, which deletes characters.

`EmbedUrlPrefix` matches the iframe source pattern at one position. It takes each optional part when present and never gives it back, unlike Ruby's backtracking regular-expression engine. The two still agree, because `EmbedUrlPrefixMeaning` proves the matcher equal to a reference definition: one of the sixteen strings of the pattern's language is a prefix of the text.

Ruby's `^` matches at the start of the text and after every line feed that is not the last character. `MatchesEmbedPattern` models the check as written: `AnyLine` tries the pattern at every such line start, and that search is proved equal to "some line start begins a match". `NormalizeIframe` is the transformer as written and is the one `Transform` dispatches to. `NormalizeTrustedIframe` is the same transformer with the check anchored at the start of the attribute (`TrustedEmbed`), as explained under Findings.

Two operations come from libraries and are parameters of the model:

- URI normalisation (`Addressable::URI.parse(...).normalize`) is a partial function `string -> Option<string>`. `None` stands for `InvalidURIError`.
- The `[:word:]` class of `truncate_words` is a predicate `char -> bool`.

Modules: `Wrappers` (`Option`), `Rewrite`, `Sanitizing`, `StripTagsExample`, `WordProcessing`, `Nodes`, `Sanitizer`.

## Model

| member | source | states |
|---|---|---|
| Rewrite.IndexOf | lib/string_tools.rb:225 | the first line feed at or after a position, or none: the line boundaries where Ruby's `^` may match |
| Rewrite.WithoutIsSubsequence | lib/string_tools.rb:103 | deleting characters with `tr` keeps the remaining ones in their order |
| Rewrite.WithoutKeepsOthers | lib/string_tools.rb:103 | every character that is not deleted keeps its number of occurrences |
| Rewrite.WithoutIdempotent | lib/string_tools.rb:103 | deleting the same class twice equals deleting it once |
| Rewrite.WithoutConcat | lib/string_tools.rb:103 | deletion works character by character: it distributes over concatenation |
| Rewrite.GsubWithoutMatch | lib/string_tools.rb:126 | a text with no match anywhere passes through `gsub` unchanged |
| Rewrite.GsubWithoutNeededChar | lib/string_tools.rb:142-143 | a text lacking a character that every match must contain (the closing `>`) passes through unchanged |
| Rewrite.GsubDeleteIsSubsequence | lib/string_tools.rb:126 | `gsub` with an empty replacement leaves a subsequence of its input |
| Rewrite.GsubKeepsProperty | lib/string_tools.rb:126 | a character property that holds for the replacement and for every character where no match starts holds for every character of the result |
| Rewrite.GsubPlainPrefix | lib/string_tools.rb:142-144 | text without the character every match starts with (`<`) is copied through unchanged, whatever follows |
| Rewrite.GsubCopyThrough | lib/string_tools.rb:142-144 | a position with no match, then plain text: `gsub` copies both |
| Rewrite.GsubReplaceThrough | lib/string_tools.rb:142-144 | a match, then plain text: `gsub` emits the replacement, copies the text and resumes after it |
| Rewrite.GsubCopiedPrefix | lib/string_tools.rb:143-144 | until the first character of the replacement shows up in the result, the result agrees with the input |
| Sanitizing.ClearControlCharacters | lib/string_tools.rb:102-104 | no character U+0000–U+001F is left; every other character keeps its count and order |
| Sanitizing.ClearControlCharactersIdempotent | lib/string_tools.rb:102-104 | a second call changes nothing |
| Sanitizing.ClearUnicodeSeparatorCharacters | lib/string_tools.rb:111-113 | no U+2028 or U+2029 is left; every other character keeps its count and order |
| Sanitizing.ClearUnicodeSeparatorCharactersIdempotent | lib/string_tools.rb:111-113 | a second call changes nothing |
| Sanitizing.EntityOrSpaceLength | lib/string_tools.rb:126 | a match is exactly one of the removable tokens (`&#0;`–`&#13;`, `&nbsp;`, U+00A0, a white-space character) and none of them is skipped; a leading space is matched alone |
| Sanitizing.StripEntitiesAndSpaces | lib/string_tools.rb:126 | the text given to the parser is a subsequence of the input with no white space and no no-break space |
| Sanitizing.StripEntitiesAndSpacesKeepsPlainText | lib/string_tools.rb:126 | text with no `&` and no spaces is unchanged |
| Sanitizing.StripEntitiesAndSpacesNotIdempotent | lib/string_tools.rb:126 | deleting one entity can join its neighbours into another: `&&nbsp;nbsp;` becomes `&nbsp;` and then the empty text |
| Sanitizing.ThroughFirstClose | lib/string_tools.rb:142-143 | `[^>]*>` ends at the first `>` after the tag name and exists exactly when there is one |
| Sanitizing.BlockOpeningLength | lib/string_tools.rb:142 | a match exists exactly when the text starts with `<p`, `<li` or `<blockquote` and holds a `>`; it runs to the first `>` |
| Sanitizing.DropBlockOpenings | lib/string_tools.rb:142 | the first pass only deletes: its result is a subsequence, and it is the identity on text with no `>` |
| Sanitizing.DropBlockOpeningsCanJoin | lib/string_tools.rb:142 | the first pass does not promise that no opening tag is left: deleting `<p>` from `<<p>p>` leaves `<p>` |
| Sanitizing.BreakingTagLength | lib/string_tools.rb:143 | a match exists exactly when the text starts with `<br />`, or with `<ul` or `</` and holds a `>`; it runs to the first `>` |
| Sanitizing.CanonicalBreaks | lib/string_tools.rb:143 | after the second pass no complete closing tag or list opening tag is left; text with no `>` is unchanged |
| Sanitizing.CanonicalBreaksLeaveNoTag | lib/string_tools.rb:143 | the replacement `<br />` never forms a new tag with the text that follows it |
| Sanitizing.SpaceRunLength | lib/string_tools.rb:144 | `(\s\|\302\240)+` is greedy: it takes every leading space and stops before a non-space |
| Sanitizing.BreakThenSpacesLength | lib/string_tools.rb:144 | a match exists exactly when `<br />` is followed by a space, and it takes the whole run of spaces |
| Sanitizing.CollapseBreakSpaces | lib/string_tools.rb:144 | after the third pass no `<br />` is directly followed by white space or a no-break space; a text without complete closing or list tags still has none |
| Sanitizing.CollapseLeavesNoSpaceAfterBreak | lib/string_tools.rb:144 | no match is left over, even across a replaced break |
| Sanitizing.CollapseKeepsNoTag | lib/string_tools.rb:144 | removing the spaces after line breaks never completes a closing or list tag: the second pass's guarantee survives the third |
| Sanitizing.LeaveBreaks | lib/string_tools.rb:142-146 | the three passes in order leave no complete closing or list tag (only line breaks remain as tags of that kind) and no line break followed by a space |
| StripTagsExample.DocumentedExample | lib/string_tools.rb:135-144 | the documented example: after the sanitizer, the three passes give `<br />элемент списка<br /><br />параграф<br />просто перенос<br>`, and the bare `<br>` survives the second pass |
| WordProcessing.LastIndexWhere | lib/string_tools.rb:52 | `rindex`: the last position with the property, or none when no position has it |
| WordProcessing.TruncateWords | lib/string_tools.rb:48-56 | `nil` stays `nil`; a text of at most `length` characters is kept; a longer one is cut to a prefix that ends just before the last non-word character of its first `length` characters, or is empty when there is none |
| WordProcessing.WordCutUnique | lib/string_tools.rb:52-53 | the cut position the contract describes is unique, so it determines the result |
| WordProcessing.TruncateWordsIdempotent | lib/string_tools.rb:48-56 | truncating a truncated text again changes nothing |
| Sanitizer.SizeGuard | lib/string_tools.rb:171 | the input's prefix of at most 2^19 + 1 characters; exactly that many when the input is longer; the input itself otherwise |
| Sanitizer.SizeGuardKeepsShortPrefixes | lib/string_tools.rb:171 | no prefix within the bound is ever cut |
| Sanitizer.SizeGuardIdempotent | lib/string_tools.rb:171 | guarding twice equals guarding once |
| Sanitizer.Configure | lib/string_tools.rb:166-189 | caller entries replace defaults wholesale and default-only tags are kept; the elements are the merged tags plus `TAGS_WITHOUT_ATTRIBUTES`; the link normaliser comes first; an iframe normaliser bound to the merged `iframe` list is registered exactly when that key exists, so there are exactly one or two transformers; comments are dropped and `style`/`javascript` contents removed |
| Sanitizer.DefaultConfiguration | lib/string_tools.rb:174-178 | without overrides the defaults are used, iframes are not allowed, and only links are normalised |
| Sanitizer.NormalizeLink | lib/string_tools.rb:195-211 | a node that is not an `a` with `href` or an `img` with `src` is unchanged; on success only that attribute changes; on failure the node gives way to its children in order |
| Sanitizer.AtConcat | lib/string_tools.rb:225 | matching a concatenation equals matching its parts one after the other |
| Sanitizer.AtMeaning | lib/string_tools.rb:225 | the recursive literal matcher agrees with character-by-character comparison |
| Sanitizer.PrefixIsAt | lib/string_tools.rb:225 | matching a literal at position 0 is the prefix test |
| Sanitizer.SkipDecided | lib/string_tools.rb:225 | an optional group followed by text it cannot start with is taken exactly when it is present |
| Sanitizer.AfterHostNameMeaning | lib/string_tools.rb:225 | `e?\.com\/` accepts exactly the texts starting with `.com/` or `e.com/` |
| Sanitizer.AfterSlashesMeaning | lib/string_tools.rb:225 | `(www\.)?youtube?\.com\/` accepts exactly the four host spellings |
| Sanitizer.AfterSchemeMeaning | lib/string_tools.rb:225 | `:?\/\/…` accepts exactly the eight spellings after the scheme |
| Sanitizer.EmbedUrlPrefixMeaning | lib/string_tools.rb:225 | the greedy matcher accepts a text exactly when one of the sixteen strings of the pattern's language is its prefix |
| Sanitizer.AnyLineMeaning | lib/string_tools.rb:225 | the line-by-line search succeeds exactly when the anchored pattern matches at the start or just after some line feed that is not the last character |
| Sanitizer.EmbedSourceMeaning | lib/string_tools.rb:225 | the check as written succeeds exactly when some line start of `src` begins one of the sixteen strings |
| Sanitizer.LaterLineEmbedAccepted | lib/string_tools.rb:225 | the check as written accepts `http://evil.example/` followed by a line feed and `https://www.youtube.com/`, although the attribute does not begin with an embed URL |
| Sanitizer.TrustedEmbedMeaning | lib/string_tools.rb:225 | the corrected check trusts a `src` exactly when it begins with one of the sixteen strings, and everything it trusts the check as written trusts too |
| Sanitizer.RestrictAttributes | lib/string_tools.rb:230 | exactly the attributes named in the list are kept, with their values |
| Sanitizer.RestrictAttributesIdempotent | lib/string_tools.rb:230 | restricting twice equals restricting once |
| Sanitizer.NormalizeIframe | lib/string_tools.rb:220-231 | other nodes are unchanged; an iframe is kept exactly when its `src` is present and some line of it begins with an embed URL (the check as written); a dropped iframe goes with its subtree; a kept one has only the listed attributes, with their values, and the same children |
| Sanitizer.NormalizeTrustedIframe | lib/string_tools.rb:220-231 | the same transformer with the corrected check: an iframe is kept exactly when its `src` begins with an embed URL |
| Sanitizer.NormalizeTrustedIframeKeepsLess | lib/string_tools.rb:225-230 | everything the corrected transformer keeps the transformer as written keeps too, and the two differ exactly on accepted iframes whose `src` does not begin with an embed URL |
| Sanitizer.SmuggledIframeKept | lib/string_tools.rb:225-230 | an iframe whose embed URL is on the second line of `src` is kept as written and unlinked by the corrected transformer |
| Sanitizer.NormalizeIframeIdempotent | lib/string_tools.rb:220-231 | while `src` is in the configured list, normalising an iframe that was already normalised changes nothing |
| Sanitizer.Transform | lib/string_tools.rb:194-231 | a transformer acts on the visited node only: the node is kept, dropped (only by the iframe normaliser or for a childless node), swapped for its children, or kept with its name and children and no new attribute; text nodes pass unchanged |
| Sanitizer.NormalizeLinkKeepsConformance | lib/string_tools.rb:195-211 | a node that meets the configuration still meets it after link normalisation, whether it is rewritten or swapped for its children |
| Sanitizer.NormalizeIframeKeepsConformance | lib/string_tools.rb:220-231 | a node that meets the configuration still meets it after the iframe normaliser bound to that configuration |
| Sanitizer.NormalizeTrustedIframeKeepsConformance | lib/string_tools.rb:220-231 | the same holds for the corrected iframe normaliser |
| Sanitizer.NormalizeIframeRestores | lib/string_tools.rb:174-230 | an accepted iframe comes out meeting the configuration even when its own attributes did not, once iframes are configured |
| Sanitizer.TransformersKeepConformance | lib/string_tools.rb:174-188 | every transformer `Base#sanitize` registers keeps every node that meets the configuration meeting it |

## Left out

- The markup sanitizer library's tree walk (`Sanitize.fragment`, `Sanitize.node!`) is not part of this model (lines 126, 140, 180-188, 230). This also covers parsing, CSS filtering with `Sanitize::Config::RELAXED`, comment removal and serialisation. Because of this, `strip_all_tags_and_entities` and `strip_tags_leave_br` are modelled only in their regular-expression passes. The transformers are modelled as functions from one node to the nodes that take its place.
- Sanitizer.NormalizeIframe: it models `Sanitize.node!` only as the restriction of the iframe's own attributes. The re-cleaning of the iframe's descendants belongs to the library. `NormalizeIframeRestores` therefore assumes the children already meet the configuration.
- Sanitizer.Conforms: the invariant covers element names and attribute names. It does not cover comments, CSS properties or the removed contents of `style` and `javascript`, which the library enforces.
- `Addressable::URI` parsing, normalisation and IDN encoding are a parameter, `normalize: string -> Option<string>`. `Uri#add_params_to_url` (lines 249-256) is left out for the same reason.
- `Sanitizing#sanitize` (lines 91-95) is left out. It only picks a sanitizer object and forwards to it.
- `CharDet` (lines 11-44) is left out. It delegates to encoding-detection extensions.
- `ActionControllerExtension` (lines 63-88) is left out. It is Rails controller plumbing.
- `SumInWords#rublej_propisju` (lines 239-244) is left out. It relies on float rounding and an external gem.
- WordProcessing.TruncateWords: the `rescue` fallback `text[0...length]` (lines 57-58) is not modelled, because it only runs when `mb_chars` raises. `length` is a natural number, because Ruby's meaning of a negative length (slicing from the end) is not modelled.
- Ruby symbol keys and attributes without a value are not modelled: an attribute map is `map<string, string>`. `node[:src]` and `node['src']` are the same lookup.
- A nesting-depth limit, a malformed-input error and a configuration-collision error are not modelled. The code implements none of them.
- The concrete `[:word:]` character class is a parameter. Its Unicode categories are not modelled.

## Findings

| source | as written | input that shows it | evidently intended | confidence | as-written member | corrected member |
|---|---|---|---|---|---|---|
| lib/string_tools.rb:225 | the trusted-embed pattern is anchored with `^`, which Ruby matches at the start of every line | `src` = `http://evil.example/`, a line feed, `https://www.youtube.com/`: the check passes, but browsers drop the line feed and load `evil.example` | the whole attribute must begin with the embed URL (`\A`) | medium, not executed | Sanitizer.SmuggledIframeKept | Sanitizer.NormalizeTrustedIframe |
