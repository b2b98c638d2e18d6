/**
  `StringTools::Sanitizer`: the configuration `Base#sanitize` hands to the
  markup sanitizer, and the two transformers it registers. The tree walk,
  parsing and serialisation belong to the sanitizer library and are not part
  of this model; URI normalisation is a parameter.
*/
module Sanitizer {
  import opened Wrappers
  import opened Nodes
  import Rewrite

  // ---------------------------------------------------------------------------
  // Size guard
  // ---------------------------------------------------------------------------

  /** 2^19: the inclusive upper index of the character slice. */
  const MaxIndex: nat := 0x8_0000

  /**
    `str.mb_chars.slice(0..(2**19))`: at most 2^19 + 1 characters from the
    start, counted by character.
  */
  function SizeGuard(text: string): (r: string)
    ensures r <= text
    ensures |r| <= MaxIndex + 1
    ensures |text| <= MaxIndex + 1 ==> r == text
    ensures |text| > MaxIndex + 1 ==> |r| == MaxIndex + 1
  {
    if |text| <= MaxIndex + 1 then text else text[..MaxIndex + 1]
  }

  /** Every short enough prefix of the input survives the guard. */
  lemma SizeGuardKeepsShortPrefixes(text: string, p: string)
    requires p <= text && |p| <= MaxIndex + 1
    ensures p <= SizeGuard(text)
  {
  }

  lemma SizeGuardIdempotent(text: string)
    ensures SizeGuard(SizeGuard(text)) == SizeGuard(text)
  {
  }

  // ---------------------------------------------------------------------------
  // Configuration
  // ---------------------------------------------------------------------------

  /** `TAGS_WITH_ATTRIBUTES`: the default attribute list of each tag. */
  const TagsWithAttributes: map<string, seq<string>> := map[
    "p" := ["align", "style"],
    "div" := ["align", "style"],
    "span" := ["align", "style"],
    "td" := ["align", "width", "valign", "colspan", "rowspan", "style"],
    "th" := ["align", "width", "valign", "colspan", "rowspan", "style"],
    "a" := ["href", "target", "name", "style"],
    "table" := ["cellpadding", "cellspacing", "width", "border", "align", "style"],
    "img" := ["src", "width", "height", "style"]
  ]

  /** `TAGS_WITHOUT_ATTRIBUTES`: tags kept with no attribute at all. */
  const TagsWithoutAttributes: set<string> := {
    "b", "strong", "i", "em", "sup", "sub", "ul", "ol", "li", "blockquote",
    "br", "tr", "u", "caption", "thead", "s"
  }

  /** Tags removed together with their contents. */
  const RemoveContents: set<string> := {"style", "javascript"}

  /** A registered transformer, with the configuration it is bound to. */
  datatype Transformer =
    | LinkNormalizer
    | IframeNormalizer(allowed: seq<string>)

  /** The arguments `Base#sanitize` passes to `Sanitize.fragment`. */
  datatype Config = Config(
    text: string,
    attributes: map<string, seq<string>>,
    elements: set<string>,
    removeContents: set<string>,
    allowComments: bool,
    transformers: seq<Transformer>)

  /**
    `Base#sanitize(str, attrs)` up to the call into the sanitizer: the guarded
    text, the caller's attribute lists merged over the defaults, the element
    set and the transformer list.
  */
  function Configure(text: string, overrides: map<string, seq<string>>): (c: Config)
    ensures c.text == SizeGuard(text)
    ensures c.attributes.Keys == TagsWithAttributes.Keys + overrides.Keys
    ensures forall tag :: tag in overrides ==> c.attributes[tag] == overrides[tag]
    ensures forall tag :: tag in TagsWithAttributes && tag !in overrides ==>
      c.attributes[tag] == TagsWithAttributes[tag]
    ensures forall tag :: tag in c.elements <==> tag in c.attributes || tag in TagsWithoutAttributes
    ensures c.removeContents == RemoveContents && !c.allowComments
    ensures |c.transformers| == if "iframe" in c.attributes then 2 else 1
    ensures c.transformers[0] == LinkNormalizer
    ensures forall a :: IframeNormalizer(a) in c.transformers <==>
      "iframe" in c.attributes && a == c.attributes["iframe"]
    ensures forall k :: 1 <= k < |c.transformers| ==> c.transformers[k].IframeNormalizer?
  {
    var attributes := TagsWithAttributes + overrides;
    var transformers :=
      if "iframe" in attributes then [LinkNormalizer, IframeNormalizer(attributes["iframe"])]
      else [LinkNormalizer];
    Config(SizeGuard(text), attributes, attributes.Keys + TagsWithoutAttributes,
           RemoveContents, false, transformers)
  }

  /** Without overrides iframes are not allowed and only links are normalised. */
  lemma DefaultConfiguration(text: string)
    ensures Configure(text, map[]).attributes == TagsWithAttributes
    ensures "iframe" !in Configure(text, map[]).elements
    ensures Configure(text, map[]).transformers == [LinkNormalizer]
  {
    var c := Configure(text, map[]);
    assert c.attributes.Keys == TagsWithAttributes.Keys;
  }

  // ---------------------------------------------------------------------------
  // LinkNormalizer
  // ---------------------------------------------------------------------------

  /** The attribute holding the link of an element: `href` of `a`, `src` of `img`. */
  function LinkAttribute(name: string): Option<string> {
    if name == "a" then Some("href")
    else if name == "img" then Some("src")
    else None
  }

  /** The node is an element whose link attribute is present. */
  predicate HasLink(node: Node) {
    node.Element? && LinkAttribute(node.name).Some? && LinkAttribute(node.name).value in node.attributes
  }

  /** `changed` is `node` with only the value of attribute `attr` replaced by `value`. */
  predicate OnlyAttributeChanged(node: Node, changed: Node, attr: string, value: string)
    requires node.Element?
  {
    && changed.Element?
    && changed.name == node.name
    && changed.children == node.children
    && changed.attributes.Keys == node.attributes.Keys
    && attr in changed.attributes && changed.attributes[attr] == value
    && forall k :: k in node.attributes && k != attr ==> changed.attributes[k] == node.attributes[k]
  }

  /**
    `LinkNormalizer#call`: the link of an `a` or `img` is replaced by its
    normalised form; when `normalize` rejects it (Ruby raises
    `InvalidURIError`) the element is replaced by its children.
  */
  function NormalizeLink(node: Node, normalize: string -> Option<string>): (r: seq<Node>)
    ensures !HasLink(node) ==> r == [node]
    ensures HasLink(node) ==>
      var attr := LinkAttribute(node.name).value;
      match normalize(node.attributes[attr])
      case Some(value) => |r| == 1 && OnlyAttributeChanged(node, r[0], attr, value)
      case None => r == node.children
  {
    if !HasLink(node) then [node]
    else
      var attr := LinkAttribute(node.name).value;
      match normalize(node.attributes[attr])
      case Some(value) => [node.(attributes := node.attributes[attr := value])]
      case None => node.children
  }

  // ---------------------------------------------------------------------------
  // IframeNormalizer
  // ---------------------------------------------------------------------------

  /** `t` holds `w` at position `i`. */
  predicate At(t: string, i: nat, w: string)
    decreases |w|
  {
    |w| == 0 || (i < |t| && t[i] == w[0] && At(t, i + 1, w[1..]))
  }

  lemma {:induction false} AtConcat(t: string, i: nat, a: string, b: string)
    ensures At(t, i, a + b) <==> At(t, i, a) && At(t, i + |a|, b)
    decreases |a|
  {
    if |a| == 0 {
      assert a + b == b;
    } else {
      assert (a + b)[0] == a[0];
      assert (a + b)[1..] == a[1..] + b;
      AtConcat(t, i + 1, a[1..], b);
    }
  }

  lemma {:induction false} PrefixIsAt(t: string, u: string)
    ensures u <= t <==> At(t, 0, u)
  {
    AtMeaning(t, 0, u);
    if At(t, 0, u) {
      assert t[..|u|] == u;
    }
  }

  lemma {:induction false} AtMeaning(t: string, i: nat, w: string)
    requires i <= |t|
    ensures At(t, i, w) <==> i + |w| <= |t| && forall k :: 0 <= k < |w| ==> t[i + k] == w[k]
    decreases |w|
  {
    if |w| > 0 && i < |t| {
      var rest := w[1..];
      AtMeaning(t, i + 1, rest);
      if At(t, i, w) {
        assert i + 1 + |rest| <= |t|;
        forall k | 0 <= k < |w|
          ensures t[i + k] == w[k]
        {
          if k > 0 {
            assert t[(i + 1) + (k - 1)] == rest[k - 1];
          }
        }
      }
      if i + |w| <= |t| && forall k :: 0 <= k < |w| ==> t[i + k] == w[k] {
        assert t[i + 0] == w[0];
        forall k | 0 <= k < |rest|
          ensures t[(i + 1) + k] == rest[k]
        {
          assert t[i + (k + 1)] == w[k + 1];
        }
        assert At(t, i + 1, rest);
      }
    }
  }

  /** Skips `w` at position `i` if it is there: a greedy optional group. */
  function SkipOptional(t: string, i: nat, w: string): (j: nat)
    ensures j == i || (j == i + |w| && At(t, i, w))
  {
    if At(t, i, w) then i + |w| else i
  }

  /**
    `(http|https):?\/\/(www\.)?youtube?\.com\/` anchored at the start of `t`.
    Each optional part is taken when present and never given back, which is
    not how the backtracking regular-expression engine searches; the two
    accept the same texts because both accept exactly the sixteen strings of
    the pattern's language (`EmbedUrlPrefixMeaning`).
  */
  predicate EmbedUrlPrefix(t: string) {
    At(t, 0, "http") && AfterScheme(t, SkipOptional(t, 4, "s"))
  }

  predicate AfterScheme(t: string, i: nat) {
    var j := SkipOptional(t, i, ":");
    At(t, j, "//") && AfterSlashes(t, j + 2)
  }

  predicate AfterSlashes(t: string, i: nat) {
    var j := SkipOptional(t, i, "www.");
    At(t, j, "youtub") && AfterHostName(t, j + 6)
  }

  predicate AfterHostName(t: string, i: nat) {
    At(t, SkipOptional(t, i, "e"), ".com/")
  }

  function OptionalPart(present: bool, w: string): string {
    if present then w else ""
  }

  /** One of the sixteen strings the pattern accepts. */
  function EmbedUrl(secure: bool, colon: bool, www: bool, e: bool): string {
    "http" + (OptionalPart(secure, "s") + SchemeTail(colon, www, e))
  }

  function SchemeTail(colon: bool, www: bool, e: bool): string {
    OptionalPart(colon, ":") + ("//" + HostPart(www, e))
  }

  function HostPart(www: bool, e: bool): string {
    OptionalPart(www, "www.") + ("youtub" + DomainTail(e))
  }

  function DomainTail(e: bool): string {
    OptionalPart(e, "e") + ".com/"
  }

  /** An optional part followed by text that cannot start it is taken exactly when present. */
  lemma SkipDecided(t: string, i: nat, w: string, present: bool, next: string)
    requires |w| > 0 && |next| > 0 && w[0] != next[0]
    requires At(t, i, OptionalPart(present, w) + next)
    ensures SkipOptional(t, i, w) == i + |OptionalPart(present, w)|
    ensures At(t, SkipOptional(t, i, w), next)
  {
    AtConcat(t, i, OptionalPart(present, w), next);
  }

  /** What follows a greedily skipped optional part, together with that part as found. */
  lemma OptionalThenSpells(t: string, i: nat, w: string, next: string)
    requires At(t, SkipOptional(t, i, w), next)
    ensures At(t, i, OptionalPart(At(t, i, w), w) + next)
  {
    AtConcat(t, i, OptionalPart(At(t, i, w), w), next);
  }

  lemma AfterHostNameMeaning(t: string, i: nat)
    ensures AfterHostName(t, i) <==> exists e :: At(t, i, DomainTail(e))
  {
    if AfterHostName(t, i) {
      var e := At(t, i, "e");
      assert At(t, i, OptionalPart(e, "e"));
      AtConcat(t, i, OptionalPart(e, "e"), ".com/");
      assert At(t, i, DomainTail(e));
    }
    if exists e :: At(t, i, DomainTail(e)) {
      var e :| At(t, i, DomainTail(e));
      SkipDecided(t, i, "e", e, ".com/");
      assert At(t, SkipOptional(t, i, "e"), ".com/");
    }
  }

  lemma AfterSlashesMeaning(t: string, i: nat)
    ensures AfterSlashes(t, i) <==> exists www, e :: At(t, i, HostPart(www, e))
  {
    if AfterSlashes(t, i) {
      AfterSlashesSpells(t, i);
    }
    if exists www, e :: At(t, i, HostPart(www, e)) {
      var www, e :| At(t, i, HostPart(www, e));
      HostPartMatches(t, i, www, e);
    }
  }

  lemma AfterSlashesSpells(t: string, i: nat)
    requires AfterSlashes(t, i)
    ensures exists www, e :: At(t, i, HostPart(www, e))
  {
    var j := SkipOptional(t, i, "www.");
    AfterHostNameMeaning(t, j + 6);
    var e :| At(t, j + 6, DomainTail(e));
    AtConcat(t, j, "youtub", DomainTail(e));
    OptionalThenSpells(t, i, "www.", "youtub" + DomainTail(e));
    assert At(t, i, HostPart(At(t, i, "www."), e));
  }

  lemma HostPartMatches(t: string, i: nat, www: bool, e: bool)
    requires At(t, i, HostPart(www, e))
    ensures AfterSlashes(t, i)
  {
    var next := "youtub" + DomainTail(e);
    assert next[0] == 'y';
    assert HostPart(www, e) == OptionalPart(www, "www.") + next;
    SkipDecided(t, i, "www.", www, next);
    var j := SkipOptional(t, i, "www.");
    AtConcat(t, j, "youtub", DomainTail(e));
    AfterHostNameMeaning(t, j + 6);
    assert At(t, j, "youtub") && AfterHostName(t, j + 6);
  }

  lemma AfterSchemeMeaning(t: string, i: nat)
    ensures AfterScheme(t, i) <==> exists colon, www, e :: At(t, i, SchemeTail(colon, www, e))
  {
    if AfterScheme(t, i) {
      AfterSchemeSpells(t, i);
    }
    if exists colon, www, e :: At(t, i, SchemeTail(colon, www, e)) {
      var colon, www, e :| At(t, i, SchemeTail(colon, www, e));
      SchemeTailMatches(t, i, colon, www, e);
    }
  }

  lemma AfterSchemeSpells(t: string, i: nat)
    requires AfterScheme(t, i)
    ensures exists colon, www, e :: At(t, i, SchemeTail(colon, www, e))
  {
    var j := SkipOptional(t, i, ":");
    AfterSlashesMeaning(t, j + 2);
    var www, e :| At(t, j + 2, HostPart(www, e));
    AtConcat(t, j, "//", HostPart(www, e));
    OptionalThenSpells(t, i, ":", "//" + HostPart(www, e));
    assert At(t, i, SchemeTail(At(t, i, ":"), www, e));
  }

  lemma SchemeTailMatches(t: string, i: nat, colon: bool, www: bool, e: bool)
    requires At(t, i, SchemeTail(colon, www, e))
    ensures AfterScheme(t, i)
  {
    var next := "//" + HostPart(www, e);
    assert next[0] == '/';
    assert SchemeTail(colon, www, e) == OptionalPart(colon, ":") + next;
    SkipDecided(t, i, ":", colon, next);
    var j := SkipOptional(t, i, ":");
    AtConcat(t, j, "//", HostPart(www, e));
    AfterSlashesMeaning(t, j + 2);
    assert At(t, j, "//") && AfterSlashes(t, j + 2);
  }

  /**
    The greedy matcher accepts exactly the texts that start with one of the
    sixteen strings of the pattern's language.
  */
  lemma EmbedUrlPrefixMeaning(t: string)
    ensures EmbedUrlPrefix(t) <==> exists secure, colon, www, e :: EmbedUrl(secure, colon, www, e) <= t
  {
    if EmbedUrlPrefix(t) {
      EmbedUrlPrefixSpells(t);
    }
    if exists secure, colon, www, e :: EmbedUrl(secure, colon, www, e) <= t {
      var secure, colon, www, e :| EmbedUrl(secure, colon, www, e) <= t;
      EmbedUrlMatches(t, secure, colon, www, e);
    }
  }

  lemma EmbedUrlPrefixSpells(t: string)
    requires EmbedUrlPrefix(t)
    ensures exists secure, colon, www, e :: EmbedUrl(secure, colon, www, e) <= t
  {
    var j := SkipOptional(t, 4, "s");
    AfterSchemeMeaning(t, j);
    var colon, www, e :| At(t, j, SchemeTail(colon, www, e));
    OptionalThenSpells(t, 4, "s", SchemeTail(colon, www, e));
    var secure := At(t, 4, "s");
    AtConcat(t, 0, "http", OptionalPart(secure, "s") + SchemeTail(colon, www, e));
    PrefixIsAt(t, EmbedUrl(secure, colon, www, e));
  }

  lemma EmbedUrlMatches(t: string, secure: bool, colon: bool, www: bool, e: bool)
    requires EmbedUrl(secure, colon, www, e) <= t
    ensures EmbedUrlPrefix(t)
  {
    PrefixIsAt(t, EmbedUrl(secure, colon, www, e));
    var next := SchemeTail(colon, www, e);
    assert next[0] == ':' || next[0] == '/';
    AtConcat(t, 0, "http", OptionalPart(secure, "s") + next);
    SkipDecided(t, 4, "s", secure, next);
    SchemeTailMatches(t, SkipOptional(t, 4, "s"), colon, www, e);
    assert At(t, 0, "http") && AfterScheme(t, SkipOptional(t, 4, "s"));
  }

  // ---------------------------------------------------------------------------
  // The anchored source pattern, line by line
  // ---------------------------------------------------------------------------

  /**
    Where `^` matches: the start of the text, or just after a line feed that
    is not the last character (Ruby's beginning-of-line test fails at the end
    of the text).
  */
  predicate LineStart(s: string, i: nat) {
    i == 0 || (0 < i < |s| && s[i - 1] == '\n')
  }

  /**
    A pattern anchored with `^`, given as the test `anchored` of the text from
    a position on, is tried at the start of the text and then after each line
    feed that has text after it.
  */
  function AnyLine(src: string, anchored: string -> bool): (r: bool)
    ensures anchored(src) ==> r
    decreases |src|
  {
    if anchored(src) then true
    else
      match Rewrite.IndexOf(src, '\n', 0)
      case None => false
      case Some(n) => n + 1 < |src| && AnyLine(src[n + 1..], anchored)
  }

  /** The line-by-line search finds a match exactly when one exists at some line start. */
  lemma {:induction false} AnyLineMeaning(src: string, anchored: string -> bool)
    ensures AnyLine(src, anchored) <==>
      exists i: nat :: LineStart(src, i) && i <= |src| && anchored(src[i..])
    decreases |src|
  {
    if anchored(src) {
      assert LineStart(src, 0) && src[0..] == src;
    } else {
      match Rewrite.IndexOf(src, '\n', 0)
      case None =>
      case Some(n) =>
        if n + 1 < |src| {
          var rest := src[n + 1..];
          AnyLineMeaning(rest, anchored);
          if AnyLine(rest, anchored) {
            AnyLineFromRest(src, n, rest, anchored);
          }
          if exists i: nat :: LineStart(src, i) && i <= |src| && anchored(src[i..]) {
            AnyLineInRest(src, n, rest, anchored);
          }
        } else {
          forall i: nat | 0 < i <= |src|
            ensures !LineStart(src, i)
          {
            if i < |src| {
              assert src[i - 1] != '\n';
            }
          }
          assert src[0..] == src;
        }
    }
  }

  /** A match at a line start after the first line feed is a match at a line start of the text. */
  lemma AnyLineFromRest(src: string, n: nat, rest: string, anchored: string -> bool)
    requires n + 1 < |src| && src[n] == '\n' && rest == src[n + 1..]
    requires exists j: nat :: LineStart(rest, j) && j <= |rest| && anchored(rest[j..])
    ensures exists i: nat :: LineStart(src, i) && i <= |src| && anchored(src[i..])
  {
    var j: nat :| LineStart(rest, j) && j <= |rest| && anchored(rest[j..]);
    assert src[n + 1 + j..] == rest[j..];
    assert LineStart(src, n + 1 + j) by {
      if j > 0 {
        assert rest[j - 1] == src[n + 1 + j - 1];
      }
    }
  }

  /** With the first line failing, a match at a line start lies after the first line feed. */
  lemma AnyLineInRest(src: string, n: nat, rest: string, anchored: string -> bool)
    requires n < |src| && src[n] == '\n' && !anchored(src) && rest == src[n + 1..]
    requires forall k :: 0 <= k < n ==> src[k] != '\n'
    requires exists i: nat :: LineStart(src, i) && i <= |src| && anchored(src[i..])
    ensures exists j: nat :: LineStart(rest, j) && j <= |rest| && anchored(rest[j..])
  {
    var i: nat :| LineStart(src, i) && i <= |src| && anchored(src[i..]);
    assert i != 0 by { assert src[0..] == src; }
    assert src[i - 1] == '\n';
    var j := i - (n + 1);
    assert rest[j..] == src[i..];
    assert LineStart(rest, j) by {
      if j > 0 {
        assert rest[j - 1] == src[i - 1];
      }
    }
  }

  /**
    `src =~ %r{^(http|https):?\/\/(www\.)?youtube?\.com\/}` as written. Since
    `^` matches after every line feed, the trusted URL may sit on any line of
    the attribute; see `LaterLineEmbedAccepted`.
  */
  function MatchesEmbedPattern(src: string): (r: bool)
    ensures EmbedUrlPrefix(src) ==> r
  {
    AnyLine(src, EmbedUrlPrefix)
  }

  /**
    The source check against the sixteen strings of the pattern's language:
    one of them starts at a line start.
  */
  lemma EmbedSourceMeaning(src: string)
    ensures MatchesEmbedPattern(src) <==>
      exists i: nat, secure, colon, www, e :: LineStart(src, i) && i <= |src| &&
        EmbedUrl(secure, colon, www, e) <= src[i..]
  {
    AnyLineMeaning(src, EmbedUrlPrefix);
    if MatchesEmbedPattern(src) {
      EmbedSourceSpells(src);
    }
    if exists i: nat, secure, colon, www, e :: LineStart(src, i) && i <= |src| &&
        EmbedUrl(secure, colon, www, e) <= src[i..] {
      EmbedSourceMatches(src);
    }
  }

  lemma EmbedSourceSpells(src: string)
    requires exists i: nat :: LineStart(src, i) && i <= |src| && EmbedUrlPrefix(src[i..])
    ensures exists i: nat, secure, colon, www, e ::
              LineStart(src, i) && i <= |src| && EmbedUrl(secure, colon, www, e) <= src[i..]
  {
    var i: nat :| LineStart(src, i) && i <= |src| && EmbedUrlPrefix(src[i..]);
    EmbedUrlPrefixMeaning(src[i..]);
  }

  lemma EmbedSourceMatches(src: string)
    requires exists i: nat, secure, colon, www, e ::
               LineStart(src, i) && i <= |src| && EmbedUrl(secure, colon, www, e) <= src[i..]
    ensures exists i: nat :: LineStart(src, i) && i <= |src| && EmbedUrlPrefix(src[i..])
  {
    var i: nat, secure, colon, www, e :| LineStart(src, i) && i <= |src| &&
      EmbedUrl(secure, colon, www, e) <= src[i..];
    EmbedUrlPrefixMeaning(src[i..]);
  }

  // ---------------------------------------------------------------------------
  // IframeNormalizer
  // ---------------------------------------------------------------------------

  /** A first line that is not an embed URL. */
  const ForeignLine: string := "http://evil.example/"

  /** `https://www.youtube.com/`, the longest spelling of the embed URL. */
  const EmbedLine: string := EmbedUrl(true, true, true, true)

  /** A source with another URL on its first line and a video embed on its second. */
  const SmuggledSource: string := ForeignLine + ("\n" + EmbedLine)

  /**
    The check as written trusts a source whose first line is not an embed URL
    at all: the pattern matches on the second line. Browsers drop line feeds
    from URLs, so such a frame loads the first host.
  */
  lemma LaterLineEmbedAccepted()
    ensures MatchesEmbedPattern(SmuggledSource)
    ensures !EmbedUrlPrefix(SmuggledSource)
  {
    SmuggledFirstLine();
    SmuggledLineFeed();
    SmuggledSecondLine();
  }

  lemma SmuggledFirstLine()
    ensures !EmbedUrlPrefix(SmuggledSource)
  {
    var src := SmuggledSource;
    assert src[4] == ':' && src[5] == '/' && src[6] == '/' && src[7] == 'e';
    assert SkipOptional(src, 4, "s") == 4;
    assert SkipOptional(src, 4, ":") == 5;
    assert SkipOptional(src, 7, "www.") == 7;
    assert !At(src, 7, "youtub");
  }

  lemma SmuggledLineFeed()
    ensures Rewrite.IndexOf(SmuggledSource, '\n', 0) == Some(20)
  {
    var src := SmuggledSource;
    var first := ForeignLine;
    assert src[..20] == first;
    assert '\n' !in first;
    assert src[20] == '\n';
    forall k | 0 <= k < 20
      ensures src[k] != '\n'
    {
      assert src[k] == first[k];
    }
  }

  lemma SmuggledSecondLine()
    ensures EmbedUrlPrefix(SmuggledSource[21..])
  {
    assert SmuggledSource[21..] == EmbedLine;
    EmbedUrlMatches(EmbedLine, true, true, true, true);
  }

  /**
    An iframe whose `src` is present and begins with an embed URL: the
    pattern anchored at the start of the attribute (`\A`), which the check
    evidently means. It is stricter than the check as written.
  */
  predicate TrustedEmbed(node: Node) {
    node.Element? && "src" in node.attributes && EmbedUrlPrefix(node.attributes["src"])
  }

  /** A trusted source starts with one of the sixteen embed URLs, and the check as written accepts it too. */
  lemma TrustedEmbedMeaning(node: Node)
    requires node.Element? && "src" in node.attributes
    ensures TrustedEmbed(node) <==>
      exists secure, colon, www, e :: EmbedUrl(secure, colon, www, e) <= node.attributes["src"]
    ensures TrustedEmbed(node) ==> MatchesEmbedPattern(node.attributes["src"])
  {
    EmbedUrlPrefixMeaning(node.attributes["src"]);
  }

  /** The attributes whose names are in `allowed`, with their values. */
  function RestrictAttributes(attributes: map<string, string>, allowed: seq<string>): (r: map<string, string>)
    ensures forall k :: k in r <==> k in attributes && k in allowed
    ensures forall k :: k in r ==> r[k] == attributes[k]
  {
    map k | k in attributes && k in allowed :: attributes[k]
  }

  /** Restricting twice to the same list changes nothing the second time. */
  lemma RestrictAttributesIdempotent(attributes: map<string, string>, allowed: seq<string>)
    ensures RestrictAttributes(RestrictAttributes(attributes, allowed), allowed) ==
      RestrictAttributes(attributes, allowed)
  {
    var once := RestrictAttributes(attributes, allowed);
    assert RestrictAttributes(once, allowed).Keys == once.Keys;
  }

  /**
    The check `IframeNormalizer#call` makes, as written: the node has a `src`
    (a missing one is `nil`, which `=~` does not match) and some line of it
    begins with an embed URL.
  */
  predicate EmbedSourceAccepted(node: Node) {
    node.Element? && "src" in node.attributes && MatchesEmbedPattern(node.attributes["src"])
  }

  /**
    `IframeNormalizer#call` as written: other nodes are left alone; an iframe
    whose source the `^` check rejects is unlinked; an accepted one is
    cleaned to the configured iframe attributes.
  */
  function NormalizeIframe(allowed: seq<string>, node: Node): (r: seq<Node>)
    ensures !IsElementNamed(node, "iframe") ==> r == [node]
    ensures IsElementNamed(node, "iframe") ==> (|r| == 1 <==> EmbedSourceAccepted(node))
    ensures IsElementNamed(node, "iframe") && !EmbedSourceAccepted(node) ==> r == []
    ensures IsElementNamed(node, "iframe") && EmbedSourceAccepted(node) ==>
      && IsElementNamed(r[0], "iframe")
      && r[0].children == node.children
      && (forall k :: k in r[0].attributes <==> k in node.attributes && k in allowed)
      && (forall k :: k in r[0].attributes ==> r[0].attributes[k] == node.attributes[k])
  {
    if !IsElementNamed(node, "iframe") then [node]
    else if !EmbedSourceAccepted(node) then []
    else [Element("iframe", RestrictAttributes(node.attributes, allowed), node.children)]
  }

  /**
    The iframe normaliser with the check anchored at the start of the
    attribute (`TrustedEmbed`): the source must begin with the embed URL, not
    merely have it on some line.
  */
  function NormalizeTrustedIframe(allowed: seq<string>, node: Node): (r: seq<Node>)
    ensures !IsElementNamed(node, "iframe") ==> r == [node]
    ensures IsElementNamed(node, "iframe") ==> (|r| == 1 <==> TrustedEmbed(node))
    ensures IsElementNamed(node, "iframe") && !TrustedEmbed(node) ==> r == []
    ensures IsElementNamed(node, "iframe") && TrustedEmbed(node) ==>
      && IsElementNamed(r[0], "iframe")
      && r[0].children == node.children
      && (forall k :: k in r[0].attributes <==> k in node.attributes && k in allowed)
      && (forall k :: k in r[0].attributes ==> r[0].attributes[k] == node.attributes[k])
  {
    if !IsElementNamed(node, "iframe") then [node]
    else if !TrustedEmbed(node) then []
    else [Element("iframe", RestrictAttributes(node.attributes, allowed), node.children)]
  }

  /**
    The anchored normaliser keeps only what the normaliser as written keeps,
    and the two differ exactly on the iframes whose embed URL starts a later
    line of `src` but not the first.
  */
  lemma NormalizeTrustedIframeKeepsLess(allowed: seq<string>, node: Node)
    ensures forall n :: n in NormalizeTrustedIframe(allowed, node) ==> n in NormalizeIframe(allowed, node)
    ensures NormalizeTrustedIframe(allowed, node) != NormalizeIframe(allowed, node) <==>
      IsElementNamed(node, "iframe") && EmbedSourceAccepted(node) && !TrustedEmbed(node)
  {
    if IsElementNamed(node, "iframe") && TrustedEmbed(node) {
      TrustedEmbedMeaning(node);
    }
  }

  /** An iframe whose embed URL is on the second line of `src` is kept as written and dropped when anchored. */
  lemma SmuggledIframeKept(allowed: seq<string>)
    ensures var node := Element("iframe", map["src" := SmuggledSource], []);
      && |NormalizeIframe(allowed, node)| == 1
      && NormalizeIframe(allowed, node)[0].children == []
      && NormalizeTrustedIframe(allowed, node) == []
  {
    LaterLineEmbedAccepted();
  }

  /** A second pass of the normaliser over its own output changes nothing. */
  lemma NormalizeIframeIdempotent(allowed: seq<string>, node: Node)
    requires IsElementNamed(node, "iframe") && EmbedSourceAccepted(node) && "src" in allowed
    ensures NormalizeIframe(allowed, NormalizeIframe(allowed, node)[0]) == NormalizeIframe(allowed, node)
  {
    var once := NormalizeIframe(allowed, node)[0];
    assert once.attributes["src"] == node.attributes["src"];
    RestrictAttributesIdempotent(node.attributes, allowed);
  }

  // ---------------------------------------------------------------------------
  // Conformance to a configuration
  // ---------------------------------------------------------------------------

  /** The attribute names configured for a tag; none when the tag has no list. */
  function AllowedAttributes(c: Config, name: string): (r: set<string>)
    ensures name !in c.attributes ==> r == {}
    ensures name in c.attributes ==> forall a :: a in r <==> a in c.attributes[name]
  {
    if name in c.attributes then set a | a in c.attributes[name] else {}
  }

  /** Every element of the tree is allowed and carries only allowed attributes. */
  predicate Conforms(c: Config, node: Node)
    decreases node
  {
    match node
    case Text(_) => true
    case Element(name, attributes, children) =>
      && name in c.elements
      && attributes.Keys <= AllowedAttributes(c, name)
      && forall child :: child in children ==> Conforms(c, child)
  }

  /**
    A transformer's answer: the nodes taking the visited node's place. A
    transformer works on the visited node only: it keeps it, drops it, swaps
    it for its children, or keeps its name and children and changes only
    attribute values or removes attributes. Text is never touched.
  */
  function Transform(t: Transformer, node: Node, normalize: string -> Option<string>): (r: seq<Node>)
    ensures |r| <= 1 || (node.Element? && r == node.children)
    ensures forall n :: n in r ==>
      || n == node
      || (node.Element? && n in node.children)
      || (&& n.Element? && node.Element? && n.name == node.name
          && n.children == node.children && n.attributes.Keys <= node.attributes.Keys)
    ensures r == [] ==> t.IframeNormalizer? || (node.Element? && node.children == [])
    ensures node.Text? ==> r == [node]
  {
    match t
    case LinkNormalizer => NormalizeLink(node, normalize)
    case IframeNormalizer(allowed) => NormalizeIframe(allowed, node)
  }

  /** Normalising a link keeps a conforming node conforming. */
  lemma NormalizeLinkKeepsConformance(c: Config, node: Node, normalize: string -> Option<string>)
    requires Conforms(c, node)
    ensures forall n :: n in NormalizeLink(node, normalize) ==> Conforms(c, n)
  {
    if HasLink(node) {
      var attr := LinkAttribute(node.name).value;
      match normalize(node.attributes[attr])
      case Some(value) =>
        var changed := NormalizeLink(node, normalize)[0];
        assert changed.attributes.Keys == node.attributes.Keys;
        assert Conforms(c, changed);
      case None =>
    }
  }

  /** The iframe normaliser bound to `c`'s iframe list keeps a conforming node conforming. */
  lemma NormalizeIframeKeepsConformance(c: Config, node: Node)
    requires "iframe" in c.attributes && Conforms(c, node)
    ensures forall n :: n in NormalizeIframe(c.attributes["iframe"], node) ==> Conforms(c, n)
  {
  }

  /** The anchored iframe normaliser keeps a conforming node conforming too. */
  lemma NormalizeTrustedIframeKeepsConformance(c: Config, node: Node)
    requires "iframe" in c.attributes && Conforms(c, node)
    ensures forall n :: n in NormalizeTrustedIframe(c.attributes["iframe"], node) ==> Conforms(c, n)
  {
    NormalizeTrustedIframeKeepsLess(c.attributes["iframe"], node);
    NormalizeIframeKeepsConformance(c, node);
  }

  /**
    An accepted iframe comes out conforming even when its own attributes did
    not, provided iframes are configured and its children already conform.
  */
  lemma NormalizeIframeRestores(text: string, overrides: map<string, seq<string>>, node: Node)
    requires "iframe" in overrides
    requires IsElementNamed(node, "iframe") && EmbedSourceAccepted(node)
    requires forall child :: child in node.children ==> Conforms(Configure(text, overrides), child)
    ensures var c := Configure(text, overrides);
      Conforms(c, NormalizeIframe(c.attributes["iframe"], node)[0])
  {
    var c := Configure(text, overrides);
    var r := NormalizeIframe(c.attributes["iframe"], node)[0];
    assert "iframe" in c.elements;
    assert r.attributes.Keys <= AllowedAttributes(c, "iframe");
  }

  /** Every transformer `Base#sanitize` registers keeps conforming nodes conforming. */
  lemma TransformersKeepConformance(text: string, overrides: map<string, seq<string>>,
                                    node: Node, normalize: string -> Option<string>)
    requires Conforms(Configure(text, overrides), node)
    ensures var c := Configure(text, overrides);
      forall t, n :: t in c.transformers && n in Transform(t, node, normalize) ==> Conforms(c, n)
  {
    var c := Configure(text, overrides);
    forall t, n | t in c.transformers && n in Transform(t, node, normalize)
      ensures Conforms(c, n)
    {
      match t
      case LinkNormalizer =>
        NormalizeLinkKeepsConformance(c, node, normalize);
      case IframeNormalizer(allowed) =>
        assert allowed == c.attributes["iframe"];
        NormalizeIframeKeepsConformance(c, node);
    }
  }
}
