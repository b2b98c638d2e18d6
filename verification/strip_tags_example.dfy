/**
  The documented example of `strip_tags_leave_br`, from the markup the
  sanitizer leaves (the empty link is gone and the line break is serialised
  as `<br>`) through the three passes. The bare `<br>` is not the canonical
  `<br />`, so the second pass leaves it as it is.

  The texts are built from short pieces: each step of a pass is one lemma
  about one piece and the rest of the text.
*/
module StripTagsExample {
  import opened Sanitizing
  import opened Rewrite

  const Item: string := "элемент списка"
  const Para: string := "параграф"
  const Plain: string := "просто перенос"

  /** What the sanitizer leaves of `<a></a><ul><li>…</li></ul><p>…</p>…<br>`. */
  const Sanitized: string :=
    "<ul>" + ("<li>" + (Item + ("</li>" + ("</ul>" + ("<p>" + (Para + ("</p>" + (Plain + "<br>"))))))))

  /** After the first pass. */
  const Dropped: string :=
    "<ul>" + (Item + ("</li>" + ("</ul>" + (Para + ("</p>" + (Plain + "<br>"))))))

  /** After the second pass, and the documented result. */
  const Canonical: string :=
    Break + (Item + (Break + (Break + (Para + (Break + (Plain + "<br>"))))))

  /** The three passes turn the example into the documented result. */
  lemma DocumentedExample()
    ensures DropBlockOpenings(Sanitized) == Dropped
    ensures CanonicalBreaks(Dropped) == Canonical
    ensures CollapseBreakSpaces(Canonical) == Canonical
    ensures LeaveBreaks(Sanitized) == Canonical
  {
    DropPass();
    BreaksPass();
    CollapsePass();
  }

  /** The first `>` of `t` is at `p`, so a match that ends at the first `>` has length `p + 1`. */
  lemma FirstClose(t: string, r: nat, p: nat)
    requires p < |t| && t[p] == '>' && '>' !in t[..p]
    requires 0 < r <= |t| && t[r - 1] == '>' && '>' !in t[..r - 1]
    ensures r == p + 1
  {
    forall k | 0 <= k < p
      ensures t[k] != '>'
    {
      assert t[..p][k] == t[k];
    }
    forall k | 0 <= k < r - 1
      ensures t[k] != '>'
    {
      assert t[..r - 1][k] == t[k];
    }
  }

  /** A tag that is not a paragraph, list item or quote opening is not deleted. */
  lemma NoBlockOpening(t: string)
    requires |t| > 1 && t[0] == '<' && t[1] != 'p' && t[1] != 'l' && t[1] != 'b'
    ensures BlockOpeningLength(t) == 0
  {
    assert !("<p" <= t) && !("<li" <= t) && !("<blockquote" <= t);
  }

  // The suffixes of `Sanitized`.
  const Tail8: string := Plain + "<br>"
  const Tail7: string := "</p>" + Tail8
  const Tail6: string := Para + Tail7
  const Tail5: string := "<p>" + Tail6
  const Tail4: string := "</ul>" + Tail5
  const Tail3: string := "</li>" + Tail4
  const Tail2: string := Item + Tail3
  const Tail1: string := "<li>" + Tail2

  lemma DropPass()
    ensures DropBlockOpenings(Sanitized) == Dropped
  {
    DropList();
    DropItem();
    DropClosings();
    DropParagraph();
    DropRest();
  }

  lemma DropList()
    ensures Gsub(Sanitized, BlockOpeningLength, "") == "<ul>" + Gsub(Tail1, BlockOpeningLength, "")
  {
    BlockOpeningNeedsOpen();
    NoBlockOpening("<ul>" + Tail1);
    GsubCopyThrough("<ul>", Tail1, BlockOpeningLength, "", '<');
  }

  lemma DropItem()
    ensures Gsub(Tail1, BlockOpeningLength, "") == Item + Gsub(Tail3, BlockOpeningLength, "")
  {
    BlockOpeningNeedsOpen();
    var t := Tail1;
    assert t[..3] == "<li" && t[3] == '>';
    FirstClose(t, BlockOpeningLength(t), 3);
    assert '<' !in Item;
    GsubReplaceThrough("<li>", Item, Tail3, BlockOpeningLength, "", '<');
  }

  lemma DropClosings()
    ensures Gsub(Tail3, BlockOpeningLength, "") == "</li>" + ("</ul>" + Gsub(Tail5, BlockOpeningLength, ""))
  {
    BlockOpeningNeedsOpen();
    NoBlockOpening(Tail3);
    GsubCopyThrough("</li>", Tail4, BlockOpeningLength, "", '<');
    NoBlockOpening(Tail4);
    GsubCopyThrough("</ul>", Tail5, BlockOpeningLength, "", '<');
  }

  lemma DropParagraph()
    ensures Gsub(Tail5, BlockOpeningLength, "") == Para + Gsub(Tail7, BlockOpeningLength, "")
  {
    BlockOpeningNeedsOpen();
    var t := Tail5;
    assert t[..2] == "<p" && t[2] == '>';
    FirstClose(t, BlockOpeningLength(t), 2);
    assert '<' !in Para;
    GsubReplaceThrough("<p>", Para, Tail7, BlockOpeningLength, "", '<');
  }

  lemma DropRest()
    ensures Gsub(Tail7, BlockOpeningLength, "") == "</p>" + (Plain + "<br>")
  {
    BlockOpeningNeedsOpen();
    NoBlockOpening(Tail7);
    GsubCopyThrough("</p>", Tail8, BlockOpeningLength, "", '<');
    assert '<' !in Plain;
    GsubPlainPrefix(Plain, "<br>", BlockOpeningLength, "", '<');
    DropKeepsBareBreak();
  }

  lemma DropKeepsBareBreak()
    ensures Gsub("<br>", BlockOpeningLength, "") == "<br>"
  {
    var t := "<br>";
    assert t[1] == 'b' && !("<blockquote" <= t);
    assert BlockOpeningLength(t) == 0;
    assert t[1..] == "br>";
    BlockOpeningNeedsOpen();
    GsubPlainPrefix("br>", "", BlockOpeningLength, "", '<');
    assert "br>" + "" == "br>";
    assert t == [t[0]] + "br>";
  }

  lemma BreaksPass()
    ensures CanonicalBreaks(Dropped) == Canonical
  {
    BreakList();
    BreakItem();
    BreakListEnd();
    BreakParagraph();
    BreakRest();
  }

  /** A list opening or closing tag whose first `>` is at `p` is matched through it. */
  lemma BreakingTagThrough(t: string, p: nat)
    requires "<ul" <= t || "</" <= t
    requires p < |t| && t[p] == '>' && '>' !in t[..p]
    ensures BreakingTagLength(t) == p + 1
  {
    assert t[1] != 'b';
    assert !(Break <= t);
    assert t[p] in t;
    FirstClose(t, BreakingTagLength(t), p);
  }

  // The suffixes of `Dropped` that differ from those of `Sanitized`.
  const Closings: string := "</li>" + ListEnd
  const ListEnd: string := "</ul>" + (Para + Tail7)

  lemma BreakList()
    ensures Gsub(Dropped, BreakingTagLength, Break) == Break + (Item + Gsub(Closings, BreakingTagLength, Break))
  {
    BreakingTagNeedsClose();
    var t := Dropped;
    assert t[..3] == "<ul" && t[3] == '>';
    BreakingTagThrough(t, 3);
    assert '<' !in Item;
    assert Dropped == "<ul>" + (Item + Closings);
    GsubReplaceThrough("<ul>", Item, Closings, BreakingTagLength, Break, '<');
  }

  lemma BreakItem()
    ensures Gsub(Closings, BreakingTagLength, Break) == Break + Gsub(ListEnd, BreakingTagLength, Break)
  {
    BreakingTagNeedsClose();
    var t := Closings;
    assert t[..2] == "</" && t[..4] == "</li" && t[4] == '>';
    BreakingTagThrough(t, 4);
    assert Closings == "</li>" + ("" + ListEnd);
    GsubReplaceThrough("</li>", "", ListEnd, BreakingTagLength, Break, '<');
  }

  lemma BreakListEnd()
    ensures Gsub(ListEnd, BreakingTagLength, Break) == Break + (Para + Gsub(Tail7, BreakingTagLength, Break))
  {
    BreakingTagNeedsClose();
    var t := ListEnd;
    assert t[..2] == "</" && t[..4] == "</ul" && t[4] == '>';
    BreakingTagThrough(t, 4);
    assert '<' !in Para;
    GsubReplaceThrough("</ul>", Para, Tail7, BreakingTagLength, Break, '<');
  }

  lemma BreakParagraph()
    ensures Gsub(Tail7, BreakingTagLength, Break) == Break + (Plain + Gsub("<br>", BreakingTagLength, Break))
  {
    BreakingTagNeedsClose();
    var t := Tail7;
    assert t[..2] == "</" && t[..3] == "</p" && t[3] == '>';
    BreakingTagThrough(t, 3);
    assert '<' !in Plain;
    GsubReplaceThrough("</p>", Plain, "<br>", BreakingTagLength, Break, '<');
  }

  lemma BreakRest()
    ensures Gsub("<br>", BreakingTagLength, Break) == "<br>"
  {
    var t := "<br>";
    assert t[1] == 'b' && |t| < |Break|;
    assert !(Break <= t) && !("<ul" <= t) && !("</" <= t);
    assert BreakingTagLength(t) == 0;
    assert t[1..] == "br>";
    BreakingTagNeedsClose();
    GsubPlainPrefix("br>", "", BreakingTagLength, Break, '<');
    assert "br>" + "" == "br>";
    assert t == [t[0]] + "br>";
  }

  lemma CollapsePass()
    ensures CollapseBreakSpaces(Canonical) == Canonical
  {
    var r3 := Break + (Plain + "<br>");
    var r2 := Break + (Para + r3);
    var r1 := Break + r2;
    CollapseAfterText(Item, r1);
    CollapseBeforeBreak(r2);
    CollapseAfterText(Para, r3);
    CollapseAfterText(Plain, "<br>");
    CollapseBareBreak();
  }

  /** A break followed by text that starts with no space is copied with that text. */
  lemma CollapseAfterText(text: string, rest: string)
    requires |text| > 0 && !IsBreakingSpace(text[0]) && '<' !in text
    ensures Gsub(Break + (text + rest), BreakThenSpacesLength, Break)
         == Break + (text + Gsub(rest, BreakThenSpacesLength, Break))
  {
    BreakThenSpacesNeedsOpen();
    var a := Break + text;
    BreakBeforeText(text, rest);
    assert a[1..] == Break[1..] + text;
    BreakTail();
    GsubCopyThrough(a, rest, BreakThenSpacesLength, Break, '<');
    assert a + rest == Break + (text + rest);
  }

  lemma BreakBeforeText(text: string, rest: string)
    requires |text| > 0 && !IsBreakingSpace(text[0])
    ensures BreakThenSpacesLength((Break + text) + rest) == 0
  {
    var t := (Break + text) + rest;
    assert t[6] == text[0];
  }

  /** A break followed directly by another break is copied. */
  lemma CollapseBeforeBreak(rest: string)
    requires |rest| > 0 && rest[0] == '<'
    ensures Gsub(Break + rest, BreakThenSpacesLength, Break) == Break + Gsub(rest, BreakThenSpacesLength, Break)
  {
    BreakThenSpacesNeedsOpen();
    BreakBeforeTag(rest);
    BreakTail();
    GsubCopyThrough(Break, rest, BreakThenSpacesLength, Break, '<');
  }

  lemma BreakBeforeTag(rest: string)
    requires |rest| > 0 && rest[0] == '<'
    ensures BreakThenSpacesLength(Break + rest) == 0
  {
    var t := Break + rest;
    assert t[6] == '<' && !IsBreakingSpace(t[6]);
  }

  lemma BreakTail()
    ensures '<' !in Break[1..]
  {
    assert Break[1..] == "br />";
  }

  lemma CollapseBareBreak()
    ensures Gsub("<br>", BreakThenSpacesLength, Break) == "<br>"
  {
    var t := "<br>";
    assert |t| < |Break| && !(Break <= t);
    assert t[1..] == "br>";
    BreakThenSpacesNeedsOpen();
    GsubPlainPrefix("br>", "", BreakThenSpacesLength, Break, '<');
    assert "br>" + "" == "br>";
    assert t == [t[0]] + "br>";
  }
}
