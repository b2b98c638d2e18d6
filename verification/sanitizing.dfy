/**
  The text-level cleaning functions of `StringTools::Sanitizing`: the two
  character-deleting `tr` calls, the entity and whitespace removal done before
  `strip_all_tags_and_entities` parses its input, and the three `gsub` passes
  `strip_tags_leave_br` applies to the sanitized markup.
*/
module Sanitizing {
  import opened Rewrite

  // ---------------------------------------------------------------------------
  // Character classes
  // ---------------------------------------------------------------------------

  /** U+0000 to U+001F, the ASCII control characters. */
  predicate IsControl(c: char) {
    c as int <= 0x1F
  }

  /** U+2028 LINE SEPARATOR and U+2029 PARAGRAPH SEPARATOR. */
  predicate IsUnicodeSeparator(c: char) {
    0x2028 <= c as int <= 0x2029
  }

  const NoBreakSpace: char := '\U{00A0}'

  /** Ruby's `\s`: space, tab, line feed, vertical tab, form feed, carriage return. */
  predicate IsAsciiSpace(c: char) {
    c == ' ' || 0x09 <= c as int <= 0x0D
  }

  /** `(\s|\302\240)`: ASCII white space or the no-break space. */
  predicate IsBreakingSpace(c: char) {
    IsAsciiSpace(c) || c == NoBreakSpace
  }

  // ---------------------------------------------------------------------------
  // clear_control_characters / clear_unicode_separator_characters
  // ---------------------------------------------------------------------------

  function ClearControlCharacters(s: string): (r: string)
    ensures forall k :: 0 <= k < |r| ==> !IsControl(r[k])
    ensures forall c :: !IsControl(c) ==> multiset(r)[c] == multiset(s)[c]
    ensures IsSubsequence(r, s)
  {
    WithoutKeepsOthers(s, IsControl);
    WithoutIsSubsequence(s, IsControl);
    Without(s, IsControl)
  }

  lemma ClearControlCharactersIdempotent(s: string)
    ensures ClearControlCharacters(ClearControlCharacters(s)) == ClearControlCharacters(s)
  {
    WithoutIdempotent(s, IsControl);
  }

  function ClearUnicodeSeparatorCharacters(s: string): (r: string)
    ensures forall k :: 0 <= k < |r| ==> !IsUnicodeSeparator(r[k])
    ensures forall c :: !IsUnicodeSeparator(c) ==> multiset(r)[c] == multiset(s)[c]
    ensures IsSubsequence(r, s)
  {
    WithoutKeepsOthers(s, IsUnicodeSeparator);
    WithoutIsSubsequence(s, IsUnicodeSeparator);
    Without(s, IsUnicodeSeparator)
  }

  lemma ClearUnicodeSeparatorCharactersIdempotent(s: string)
    ensures ClearUnicodeSeparatorCharacters(ClearUnicodeSeparatorCharacters(s))
         == ClearUnicodeSeparatorCharacters(s)
  {
    WithoutIdempotent(s, IsUnicodeSeparator);
  }

  // ---------------------------------------------------------------------------
  // strip_all_tags_and_entities: the removal done before parsing
  // ---------------------------------------------------------------------------

  /**
    Every string `&#([0-9]|10|11|12|13);|&nbsp;|\xc2\xa0|\s` matches: the
    numeric entities of the characters 0 to 13, the named no-break space
    entity, the no-break space itself and the ASCII white space characters.
  */
  const RemovedTokens: set<string> := {
    "&#0;", "&#1;", "&#2;", "&#3;", "&#4;", "&#5;", "&#6;", "&#7;", "&#8;", "&#9;",
    "&#10;", "&#11;", "&#12;", "&#13;",
    "&nbsp;", [NoBreakSpace],
    " ", "\t", "\n", [0x0B as char], [0x0C as char], "\r"
  }

  predicate IsDigit(c: char) {
    '0' <= c <= '9'
  }

  /** The match of the removal pattern at the start of `t`. */
  function EntityOrSpaceLength(t: string): (r: nat)
    ensures r <= |t|
    ensures r > 0 ==> t[..r] in RemovedTokens
    ensures r == 0 ==> forall w :: w in RemovedTokens ==> !(w <= t)
    ensures |t| > 0 && IsBreakingSpace(t[0]) ==> r == 1
  {
    if |t| >= 4 && t[0] == '&' && t[1] == '#' && IsDigit(t[2]) && t[3] == ';' then
      assert t[..4] == ['&', '#', t[2], ';'];
      4
    else if |t| >= 5 && t[0] == '&' && t[1] == '#' && t[2] == '1' && '0' <= t[3] <= '3' && t[4] == ';' then
      assert t[..5] == ['&', '#', '1', t[3], ';'];
      5
    else if |t| >= 6 && t[..6] == "&nbsp;" then 6
    else if |t| > 0 && IsBreakingSpace(t[0]) then
      assert t[..1] == [t[0]];
      assert [t[0]] in RemovedTokens by {
        if t[0] == NoBreakSpace || t[0] == ' ' {
        } else {
          assert t[0] == 0x09 as char || t[0] == 0x0A as char || t[0] == 0x0B as char
              || t[0] == 0x0C as char || t[0] == 0x0D as char;
        }
      }
      1
    else 0
  }

  /**
    The text `strip_all_tags_and_entities` hands to the markup parser: every
    match of the removal pattern deleted.
  */
  function StripEntitiesAndSpaces(s: string): (r: string)
    ensures IsSubsequence(r, s)
    ensures forall k :: 0 <= k < |r| ==> !IsBreakingSpace(r[k])
  {
    GsubDeleteIsSubsequence(s, EntityOrSpaceLength);
    GsubKeepsProperty(s, EntityOrSpaceLength, "", c => !IsBreakingSpace(c));
    Gsub(s, EntityOrSpaceLength, "")
  }

  /** Text without `&`, white space or no-break spaces passes through unchanged. */
  lemma StripEntitiesAndSpacesKeepsPlainText(s: string)
    requires forall k :: 0 <= k < |s| ==> s[k] != '&' && !IsBreakingSpace(s[k])
    ensures StripEntitiesAndSpaces(s) == s
  {
    forall i | 0 <= i < |s|
      ensures !MatchesAt(EntityOrSpaceLength, s[i..])
    {
      assert s[i..][0] == s[i];
    }
    GsubWithoutMatch(s, EntityOrSpaceLength, "");
  }

  /**
    Deleting one entity can join the text around it into a new one, so the
    removal is not idempotent.
  */
  lemma StripEntitiesAndSpacesNotIdempotent()
    ensures StripEntitiesAndSpaces("&&nbsp;nbsp;") == "&nbsp;"
    ensures StripEntitiesAndSpaces(StripEntitiesAndSpaces("&&nbsp;nbsp;")) == ""
  {
    JoinedEntity();
    LoneEntity();
  }

  lemma JoinedEntity()
    ensures Gsub("&&nbsp;nbsp;", EntityOrSpaceLength, "") == "&nbsp;"
  {
    var m := EntityOrSpaceLength;
    var s := "&&nbsp;nbsp;";
    DoubledAmpersand();
    assert Gsub(s, m, "") == "&" + Gsub(s[1..], m, "");
    assert s[1..] == "&nbsp;nbsp;";
    EntityThenText();
    PlainTail();
  }

  lemma DoubledAmpersand()
    ensures EntityOrSpaceLength("&&nbsp;nbsp;") == 0
  {
    var s := "&&nbsp;nbsp;";
    assert s[1] == '&';
    assert s[..6] != "&nbsp;" by { assert s[..6][1] == '&'; }
  }

  lemma EntityThenText()
    ensures Gsub("&nbsp;nbsp;", EntityOrSpaceLength, "") == Gsub("nbsp;", EntityOrSpaceLength, "")
  {
    var s := "&nbsp;nbsp;";
    assert s[..6] == "&nbsp;";
    assert EntityOrSpaceLength(s) == 6;
    assert s[6..] == "nbsp;";
  }

  lemma PlainTail()
    ensures Gsub("nbsp;", EntityOrSpaceLength, "") == "nbsp;"
  {
    var s := "nbsp;";
    assert s[0] == 'n' && s[1] == 'b' && s[2] == 's' && s[3] == 'p' && s[4] == ';';
    StripEntitiesAndSpacesKeepsPlainText(s);
  }

  lemma LoneEntity()
    ensures Gsub("&nbsp;", EntityOrSpaceLength, "") == ""
  {
    var s := "&nbsp;";
    assert s[..6] == "&nbsp;";
    assert EntityOrSpaceLength(s) == 6;
    assert s[6..] == "";
  }

  // ---------------------------------------------------------------------------
  // strip_tags_leave_br: the three passes over the sanitized markup
  // ---------------------------------------------------------------------------

  /** The canonical line break every remaining tag becomes. */
  const Break: string := "<br />"

  /**
    `[^>]*>` after a tag name that ends at `nameEnd`: the length of `t` up to
    and including its first `>`, or 0 when `t` has none.
  */
  function ThroughFirstClose(t: string, nameEnd: nat): (r: nat)
    requires nameEnd <= |t| && '>' !in t[..nameEnd]
    ensures r <= |t|
    ensures r > 0 <==> '>' in t
    ensures r > 0 ==> t[r - 1] == '>' && '>' !in t[..r - 1]
  {
    match IndexOf(t, '>', nameEnd)
    case Some(j) =>
      assert t[..j] == t[..nameEnd] + t[nameEnd..j];
      j + 1
    case None =>
      assert t == t[..nameEnd] + t[nameEnd..];
      0
  }

  /** The match of `<(p|li|blockquote)[^>]*>` at the start of `t`. */
  function BlockOpeningLength(t: string): (r: nat)
    ensures r <= |t|
    ensures r > 0 <==> ("<p" <= t || "<li" <= t || "<blockquote" <= t) && '>' in t
    ensures r > 0 ==> t[r - 1] == '>' && '>' !in t[..r - 1]
  {
    var nameEnd := if "<p" <= t then 2 else if "<li" <= t then 3 else if "<blockquote" <= t then 11 else 0;
    if nameEnd == 0 then 0
    else
      assert '>' !in t[..nameEnd];
      ThroughFirstClose(t, nameEnd)
  }

  /** First pass: the opening tags of paragraphs, list items and quotes are deleted. */
  function DropBlockOpenings(s: string): (r: string)
    ensures IsSubsequence(r, s)
    ensures '>' !in s || '<' !in s ==> r == s
  {
    GsubDeleteIsSubsequence(s, BlockOpeningLength);
    if '>' !in s then
      GsubWithoutNeededChar(s, BlockOpeningLength, "", '>');
      Gsub(s, BlockOpeningLength, "")
    else if '<' !in s then
      BlockOpeningNeedsOpen();
      GsubWithoutNeededChar(s, BlockOpeningLength, "", '<');
      Gsub(s, BlockOpeningLength, "")
    else
      Gsub(s, BlockOpeningLength, "")
  }

  lemma BlockOpeningNeedsOpen()
    ensures forall t :: MatchesAt(BlockOpeningLength, t) ==> '<' in t
    ensures MatchesStartWith(BlockOpeningLength, '<')
  {
    forall t | MatchesAt(BlockOpeningLength, t)
      ensures '<' in t
    {
      assert t[0] == '<';
    }
  }

  /**
    Deleting one opening tag can join the text around it into another, so
    the first pass does not leave text free of opening tags: `<<p>p>` becomes
    `<p>`. Sanitized markup escapes a literal `<`, so this needs input the
    sanitizer does not produce.
  */
  lemma DropBlockOpeningsCanJoin()
    ensures DropBlockOpenings("<<p>p>") == "<p>"
  {
    var m := BlockOpeningLength;
    var s := "<<p>p>";
    assert m(s) == 0 by {
      assert s[1] == '<';
      assert !("<p" <= s) && !("<li" <= s) && !("<blockquote" <= s);
    }
    assert s[1..] == "<p>p>";
    OpeningThenText();
  }

  lemma OpeningThenText()
    ensures Gsub("<p>p>", BlockOpeningLength, "") == "p>"
  {
    var m := BlockOpeningLength;
    var t := "<p>p>";
    assert "<p" <= t && t[2] == '>';
    assert m(t) == 3;
    assert t[3..] == "p>";
    BlockOpeningNeedsOpen();
    GsubWithoutNeededChar("p>", m, "", '<');
  }

  /** The match of `<(br /|ul[^>]*|/[^>]*)>` at the start of `t`. */
  function BreakingTagLength(t: string): (r: nat)
    ensures r <= |t|
    ensures r > 0 <==> Break <= t || (("<ul" <= t || "</" <= t) && '>' in t)
    ensures r > 0 ==> t[r - 1] == '>' && '>' !in t[..r - 1]
  {
    if Break <= t then
      assert t[..6] == Break;
      assert t[..5] == "<br /";
      6
    else
      var nameEnd := if "<ul" <= t then 3 else if "</" <= t then 2 else 0;
      if nameEnd == 0 then 0
      else
        assert '>' !in t[..nameEnd];
        ThroughFirstClose(t, nameEnd)
  }

  /** `t` starts with a closing tag or a list opening tag that a `>` completes. */
  predicate CompleteTagAt(r: string, i: int) {
    0 <= i <= |r| && ("</" <= r[i..] || "<ul" <= r[i..]) && '>' in r[i..]
  }

  /**
    Second pass: line breaks, list openings and every closing tag become the
    canonical line break, so no complete closing or list tag is left.
  */
  function CanonicalBreaks(s: string): (r: string)
    ensures forall i :: !CompleteTagAt(r, i)
    ensures '>' !in s ==> r == s
  {
    CanonicalBreaksLeaveNoTag(s);
    if '>' !in s then
      GsubWithoutNeededChar(s, BreakingTagLength, Break, '>');
      Gsub(s, BreakingTagLength, Break)
    else
      Gsub(s, BreakingTagLength, Break)
  }

  lemma {:induction false} CanonicalBreaksLeaveNoTag(s: string)
    ensures forall i :: !CompleteTagAt(Gsub(s, BreakingTagLength, Break), i)
    decreases |s|
  {
    var m := BreakingTagLength;
    if |s| == 0 {
      assert Gsub(s, m, Break) == "";
      assert forall i :: !CompleteTagAt("", i);
    } else if MatchesAt(m, s) {
      CanonicalBreaksLeaveNoTag(s[m(s)..]);
      NoTagAfterBreak(Gsub(s[m(s)..], m, Break));
      assert Gsub(s, m, Break) == Break + Gsub(s[m(s)..], m, Break);
    } else {
      CanonicalBreaksLeaveNoTag(s[1..]);
      var tail := Gsub(s[1..], m, Break);
      var r := [s[0]] + tail;
      forall i | 0 <= i <= |r|
        ensures !CompleteTagAt(r, i)
      {
        if i >= 1 {
          assert r[i..] == tail[i - 1..];
          assert !CompleteTagAt(tail, i - 1);
        } else {
          NoTagAtCopiedHead(s);
        }
      }
      assert Gsub(s, m, Break) == r;
    }
  }

  /** A replaced tag is followed only by what the rest of the scan produces. */
  lemma NoTagAfterBreak(tail: string)
    requires forall i :: !CompleteTagAt(tail, i)
    ensures forall i :: !CompleteTagAt(Break + tail, i)
  {
    var r := Break + tail;
    forall i | 0 <= i <= |r|
      ensures !CompleteTagAt(r, i)
    {
      if i >= 6 {
        assert r[i..] == tail[i - 6..];
        assert !CompleteTagAt(tail, i - 6);
      } else {
        var x := r[i..];
        assert x[0] == Break[i];
        if i == 0 {
          assert x[1] == 'b';
        }
      }
    }
  }

  /**
    A tag start copied from the input was not matched, so no `>` follows it
    in the input, and then nothing after it is rewritten either.
  */
  lemma NoTagAtCopiedHead(s: string)
    requires |s| > 0 && !MatchesAt(BreakingTagLength, s)
    ensures !CompleteTagAt([s[0]] + Gsub(s[1..], BreakingTagLength, Break), 0)
  {
    var m := BreakingTagLength;
    var tail := Gsub(s[1..], m, Break);
    var r := [s[0]] + tail;
    if "</" <= r || "<ul" <= r {
      var k := if "</" <= r then 1 else 2;
      forall j | 0 <= j < k
        ensures tail[j] != Break[0]
      {
        assert tail[j] == r[j + 1];
      }
      GsubCopiedPrefix(s[1..], m, Break, k);
      assert s[..k + 1] == r[..k + 1];
      assert '>' !in s[1..];
      BreakingTagNeedsClose();
      GsubWithoutNeededChar(s[1..], m, Break, '>');
      assert r == s;
    }
    assert r[0..] == r;
  }

  lemma BreakingTagNeedsClose()
    ensures forall t :: MatchesAt(BreakingTagLength, t) ==> '>' in t
    ensures MatchesStartWith(BreakingTagLength, '<')
  {
    forall t | MatchesAt(BreakingTagLength, t)
      ensures '>' in t
    {
      assert t[BreakingTagLength(t) - 1] == '>';
    }
  }

  /** Ruby's greedy `(\s|\302\240)+`: the run of breaking spaces at the start of `t`. */
  function SpaceRunLength(t: string): (r: nat)
    ensures r <= |t|
    ensures forall k :: 0 <= k < r ==> IsBreakingSpace(t[k])
    ensures r < |t| ==> !IsBreakingSpace(t[r])
  {
    if |t| > 0 && IsBreakingSpace(t[0]) then 1 + SpaceRunLength(t[1..]) else 0
  }

  /** The match of `<br \/>(\s|\302\240)+` at the start of `t`. */
  function BreakThenSpacesLength(t: string): (r: nat)
    ensures r <= |t|
    ensures r > 0 <==> Break <= t && |t| > 6 && IsBreakingSpace(t[6])
    ensures r > 0 ==> r > 6 && forall k :: 6 <= k < r ==> IsBreakingSpace(t[k])
    ensures r > 0 ==> r == |t| || !IsBreakingSpace(t[r])
  {
    if Break <= t && |t| > 6 && IsBreakingSpace(t[6]) then 6 + SpaceRunLength(t[6..]) else 0
  }

  lemma BreakThenSpacesNeedsOpen()
    ensures MatchesStartWith(BreakThenSpacesLength, '<')
  {
    forall t | MatchesAt(BreakThenSpacesLength, t)
      ensures t[0] == '<'
    {
      assert t[..6] == Break;
    }
  }

  /** A canonical line break at `i` is directly followed by white space. */
  predicate SpaceAfterBreakAt(r: string, i: int) {
    0 <= i && i + 6 < |r| && Break <= r[i..] && IsBreakingSpace(r[i + 6])
  }

  /**
    Third pass: the white space after each line break is removed. Removing it
    never completes a closing or list tag the second pass had left incomplete.
  */
  function CollapseBreakSpaces(s: string): (r: string)
    ensures forall i :: !SpaceAfterBreakAt(r, i)
    ensures (forall i :: !CompleteTagAt(s, i)) ==> forall i :: !CompleteTagAt(r, i)
  {
    CollapseLeavesNoSpaceAfterBreak(s);
    if forall i | 0 <= i <= |s| :: !CompleteTagAt(s, i) then
      CollapseKeepsNoTag(s);
      Gsub(s, BreakThenSpacesLength, Break)
    else
      Gsub(s, BreakThenSpacesLength, Break)
  }

  /** Every match of the third pass contains the `>` of its line break. */
  lemma BreakThenSpacesNeedsClose()
    ensures forall t :: MatchesAt(BreakThenSpacesLength, t) ==> '>' in t
  {
    forall t | MatchesAt(BreakThenSpacesLength, t)
      ensures '>' in t
    {
      assert t[..6] == Break;
      assert t[5] == '>';
    }
  }

  /** A text with no complete closing or list tag keeps having none after the third pass. */
  lemma {:induction false} CollapseKeepsNoTag(s: string)
    requires forall i :: !CompleteTagAt(s, i)
    ensures forall i :: !CompleteTagAt(Gsub(s, BreakThenSpacesLength, Break), i)
    decreases |s|
  {
    var m := BreakThenSpacesLength;
    if |s| == 0 {
      assert Gsub(s, m, Break) == "";
      assert forall i :: !CompleteTagAt("", i);
    } else if MatchesAt(m, s) {
      var rest := s[m(s)..];
      forall j | 0 <= j <= |rest|
        ensures !CompleteTagAt(rest, j)
      {
        assert rest[j..] == s[m(s) + j..];
        assert !CompleteTagAt(s, m(s) + j);
      }
      CollapseKeepsNoTag(rest);
      NoTagAfterBreak(Gsub(rest, m, Break));
      assert Gsub(s, m, Break) == Break + Gsub(rest, m, Break);
    } else {
      forall j | 0 <= j <= |s| - 1
        ensures !CompleteTagAt(s[1..], j)
      {
        assert s[1..][j..] == s[1 + j..];
        assert !CompleteTagAt(s, 1 + j);
      }
      CollapseKeepsNoTag(s[1..]);
      var tail := Gsub(s[1..], m, Break);
      var r := [s[0]] + tail;
      forall i | 0 <= i <= |r|
        ensures !CompleteTagAt(r, i)
      {
        if i >= 1 {
          assert r[i..] == tail[i - 1..];
          assert !CompleteTagAt(tail, i - 1);
        } else {
          NoTagAtCollapsedHead(s);
        }
      }
      assert Gsub(s, m, Break) == r;
    }
  }

  /**
    A tag start copied by the third pass was incomplete in its input, so no
    `>` follows it there, and then nothing after it is rewritten.
  */
  lemma NoTagAtCollapsedHead(s: string)
    requires |s| > 0 && !MatchesAt(BreakThenSpacesLength, s) && !CompleteTagAt(s, 0)
    ensures !CompleteTagAt([s[0]] + Gsub(s[1..], BreakThenSpacesLength, Break), 0)
  {
    var m := BreakThenSpacesLength;
    var tail := Gsub(s[1..], m, Break);
    var r := [s[0]] + tail;
    if "</" <= r || "<ul" <= r {
      var k := if "</" <= r then 1 else 2;
      forall j | 0 <= j < k
        ensures tail[j] != Break[0]
      {
        assert tail[j] == r[j + 1];
      }
      GsubCopiedPrefix(s[1..], m, Break, k);
      assert s[..k + 1] == r[..k + 1];
      assert s[0..] == s;
      assert '>' !in s[1..];
      BreakThenSpacesNeedsClose();
      GsubWithoutNeededChar(s[1..], m, Break, '>');
      assert r == s;
    }
    assert r[0..] == r;
  }

  lemma {:induction false} CollapseLeavesNoSpaceAfterBreak(s: string)
    ensures forall i :: !SpaceAfterBreakAt(Gsub(s, BreakThenSpacesLength, Break), i)
    decreases |s|
  {
    var m := BreakThenSpacesLength;
    if |s| == 0 {
      assert Gsub(s, m, Break) == "";
    } else if MatchesAt(m, s) {
      var rest := s[m(s)..];
      CollapseLeavesNoSpaceAfterBreak(rest);
      SpacesAfterBreakConsumed(rest);
      NoSpaceAfterReplacedBreak(Gsub(rest, m, Break));
      assert Gsub(s, m, Break) == Break + Gsub(rest, m, Break);
    } else {
      CollapseLeavesNoSpaceAfterBreak(s[1..]);
      var tail := Gsub(s[1..], m, Break);
      var r := [s[0]] + tail;
      forall i | 0 <= i && i + 6 < |r|
        ensures !SpaceAfterBreakAt(r, i)
      {
        if i >= 1 {
          assert r[i..] == tail[i - 1..];
          assert !SpaceAfterBreakAt(tail, i - 1);
        } else {
          NoSpaceAfterCopiedBreak(s);
        }
      }
      assert Gsub(s, m, Break) == r;
    }
  }

  /** What follows a replaced break does not start with white space. */
  lemma SpacesAfterBreakConsumed(rest: string)
    requires |rest| == 0 || !IsBreakingSpace(rest[0])
    ensures var tail := Gsub(rest, BreakThenSpacesLength, Break);
      |tail| == 0 || !IsBreakingSpace(tail[0])
  {
    if |rest| > 0 && MatchesAt(BreakThenSpacesLength, rest) {
      assert Gsub(rest, BreakThenSpacesLength, Break)[0] == '<';
    }
  }

  lemma NoSpaceAfterReplacedBreak(tail: string)
    requires forall i :: !SpaceAfterBreakAt(tail, i)
    requires |tail| == 0 || !IsBreakingSpace(tail[0])
    ensures forall i :: !SpaceAfterBreakAt(Break + tail, i)
  {
    var r := Break + tail;
    forall i | 0 <= i && i + 6 < |r|
      ensures !SpaceAfterBreakAt(r, i)
    {
      if i >= 6 {
        assert r[i..] == tail[i - 6..];
        assert !SpaceAfterBreakAt(tail, i - 6);
      } else if i == 0 {
        assert r[6] == tail[0];
      } else {
        assert r[i..][0] == Break[i];
      }
    }
  }

  /**
    A break copied from the input followed by white space would have been
    matched there, so the copy is never followed by white space.
  */
  lemma NoSpaceAfterCopiedBreak(s: string)
    requires |s| > 0 && !MatchesAt(BreakThenSpacesLength, s)
    ensures !SpaceAfterBreakAt([s[0]] + Gsub(s[1..], BreakThenSpacesLength, Break), 0)
  {
    var m := BreakThenSpacesLength;
    var tail := Gsub(s[1..], m, Break);
    var r := [s[0]] + tail;
    if 6 < |r| && Break <= r && IsBreakingSpace(r[6]) {
      forall j | 0 <= j < 6
        ensures tail[j] != Break[0]
      {
        assert tail[j] == r[j + 1];
      }
      GsubCopiedPrefix(s[1..], m, Break, 6);
    }
    assert r[0..] == r;
  }

  /**
    `strip_tags_leave_br` after sanitizing: the three passes in order. No
    complete closing or list tag is left, and no line break in the result is
    followed by white space.
  */
  function LeaveBreaks(sanitized: string): (r: string)
    ensures forall i :: !CompleteTagAt(r, i)
    ensures forall i :: !SpaceAfterBreakAt(r, i)
  {
    CollapseBreakSpaces(CanonicalBreaks(DropBlockOpenings(sanitized)))
  }
}
