/** `StringTools::WordProcessing`: cutting a text back to a word boundary. */
module WordProcessing {
  import opened Wrappers

  /** The last position of `s` whose character satisfies `p` (Ruby's `rindex`). */
  function LastIndexWhere(s: string, p: char -> bool): (r: Option<nat>)
    ensures r.Some? ==> r.value < |s| && p(s[r.value])
    ensures r.Some? ==> forall j :: r.value < j < |s| ==> !p(s[j])
    ensures r.None? ==> forall j :: 0 <= j < |s| ==> !p(s[j])
  {
    if |s| == 0 then None
    else if p(s[|s| - 1]) then Some(|s| - 1)
    else LastIndexWhere(s[..|s| - 1], p)
  }

  /**
    `k` is where `truncate_words` cuts a text longer than `length`: just before
    the last non-word character among the first `length`, or at 0 when all of
    those are word characters.
  */
  predicate WordCut(s: string, length: nat, isWord: char -> bool, k: nat)
    requires length <= |s|
  {
    || (k < length && !isWord(s[k]) && forall j :: k < j < length ==> isWord(s[j]))
    || (k == 0 && forall j :: 0 <= j < length ==> isWord(s[j]))
  }

  /**
    `truncate_words(text, length)`: `nil` stays `nil`, a text of at most
    `length` characters is kept, a longer one is cut before the last non-word
    character of its first `length` characters (75 when the caller gives
    none). `isWord` is the `[:word:]` character class.
  */
  function TruncateWords(text: Option<string>, length: nat, isWord: char -> bool): (r: Option<string>)
    ensures text.None? <==> r.None?
    ensures text.Some? ==> r.value <= text.value
    ensures text.Some? && |text.value| <= length ==> r == text
    ensures text.Some? && |text.value| > length ==> WordCut(text.value, length, isWord, |r.value|)
  {
    match text
    case None => None
    case Some(s) =>
      if |s| > length then
        var cut := match LastIndexWhere(s[..length], c => !isWord(c))
          case Some(i) => i
          case None => 0;
        Some(s[..cut])
      else
        Some(s)
  }

  /** The cut position is unique: the contract above determines the result. */
  lemma WordCutUnique(s: string, length: nat, isWord: char -> bool, k1: nat, k2: nat)
    requires length <= |s|
    requires WordCut(s, length, isWord, k1) && WordCut(s, length, isWord, k2)
    ensures k1 == k2
  {
  }

  /** A truncated text is short enough to be returned unchanged by a second call. */
  lemma TruncateWordsIdempotent(text: Option<string>, length: nat, isWord: char -> bool)
    ensures TruncateWords(TruncateWords(text, length, isWord), length, isWord)
         == TruncateWords(text, length, isWord)
  {
  }
}
