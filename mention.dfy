/** Recognising a leading mention of the bot, which the Snake client accepts
    as a command prefix. The client compiles the pattern `^(<@!?ID*>\s)`, ID
    being the bot's id in decimal; the `*` repeats only the id's last digit. */
module Mention {
  import opened Base

  function DigitChar(d: nat): (c: char)
    requires d < 10
    ensures '0' <= c <= '9'
  {
    (('0' as int) + d) as char
  }

  /** `str(n)`: the decimal digits of `n`, without leading zeros. */
  function Digits(n: nat): (s: string)
    ensures |s| >= 1
    ensures forall i :: 0 <= i < |s| ==> '0' <= s[i] <= '9'
  {
    if n < 10 then [DigitChar(n)] else Digits(n / 10) + [DigitChar(n % 10)]
  }

  /** The characters Python's `\s` matches in a `str` pattern (those for which
      `str.isspace` holds). */
  predicate IsSpace(c: char) {
    || '\U{0009}' <= c <= '\U{000D}'
    || '\U{001C}' <= c <= '\U{0020}'
    || c == '\U{0085}' || c == '\U{00A0}' || c == '\U{1680}'
    || '\U{2000}' <= c <= '\U{200A}'
    || c == '\U{2028}' || c == '\U{2029}' || c == '\U{202F}' || c == '\U{205F}' || c == '\U{3000}'
  }

  function Bang(bang: bool): string {
    if bang then "!" else ""
  }

  /** A text the pattern matches in full, for an id whose decimal form is
      `stem + [last]`: `<@`, an optional `!`, the stem, `k` copies of the last
      digit, `>`, one space character `w`. */
  function Pattern(bang: bool, stem: string, last: char, k: nat, w: char): string {
    "<@" + Bang(bang) + stem + Repeat(last, k) + ">" + [w]
  }

  function Stem(id: nat): string {
    var d := Digits(id);
    d[..|d| - 1]
  }

  function LastDigit(id: nat): char {
    var d := Digits(id);
    d[|d| - 1]
  }

  /** The end of the run of `c` that starts at `i`. */
  function RunEnd(s: string, c: char, i: nat): (j: nat)
    requires i <= |s|
    ensures i <= j <= |s|
    ensures forall k :: i <= k < j ==> s[k] == c
    ensures j < |s| ==> s[j] != c
    decreases |s| - i
  {
    if i < |s| && s[i] == c then RunEnd(s, c, i + 1) else i
  }

  /** `_mention_reg.search(content).group()` as the pattern is written, `None`
      when it does not match. The pattern is anchored, so only a match at the
      start counts; backtracking cannot change the outcome, since `!` is not a
      digit and `>` is not the repeated digit. */
  function MentionAsWritten(content: string, id: nat): Option<string> {
    if |content| < 2 || content[0] != '<' || content[1] != '@' then None
    else MatchTail(content, if |content| > 2 && content[2] == '!' then 3 else 2, Stem(id), LastDigit(id))
  }

  /** The rest of the pattern from position `i`: the stem, a run of the last
      digit, `>` and one space character. */
  function MatchTail(content: string, i: nat, stem: string, last: char): Option<string>
    requires i <= |content|
  {
    if !(stem <= content[i..]) then None
    else
      var j := RunEnd(content, last, i + |stem|);
      if j + 1 < |content| && content[j] == '>' && IsSpace(content[j + 1]) then Some(content[..j + 2])
      else None
  }

  /** What the as-written matcher returns is a prefix of the content and has
      the pattern's shape. */
  lemma MentionAsWrittenSound(content: string, id: nat)
    requires MentionAsWritten(content, id).Some?
    ensures var m := MentionAsWritten(content, id).value;
      && m <= content
      && exists bang: bool, k: nat, w: char :: IsSpace(w) && m == Pattern(bang, Stem(id), LastDigit(id), k, w)
  {
    var bang, k, w := MentionAsWrittenParts(content, id);
  }

  /** The parts of an as-written match: whether `!` was present, how often the
      last digit was repeated, and the trailing space. */
  lemma MentionAsWrittenParts(content: string, id: nat) returns (bang: bool, k: nat, w: char)
    requires MentionAsWritten(content, id).Some?
    ensures IsSpace(w) && MentionAsWritten(content, id).value == Pattern(bang, Stem(id), LastDigit(id), k, w)
    ensures MentionAsWritten(content, id).value <= content
  {
    var stem, last := Stem(id), LastDigit(id);
    bang := |content| > 2 && content[2] == '!';
    var i := if bang then 3 else 2;
    var j := RunEnd(content, last, i + |stem|);
    k := j - (i + |stem|);
    w := content[j + 1];
    var m := content[..j + 2];
    assert m == MentionAsWritten(content, id).value;
    assert content[2..i] == Bang(bang);
    assert content[i..i + |stem|] == stem;
    PatternFromPieces(content, bang, stem, last, k, w);
  }

  lemma PatternFromPieces(s: string, bang: bool, stem: string, last: char, k: nat, w: char)
    requires var i := if bang then 3 else 2;
      && i + |stem| + k + 2 <= |s|
      && s[0] == '<' && s[1] == '@' && s[2..i] == Bang(bang)
      && s[i..i + |stem|] == stem
      && (forall t :: i + |stem| <= t < i + |stem| + k ==> s[t] == last)
      && s[i + |stem| + k] == '>' && s[i + |stem| + k + 1] == w
    ensures s[..(if bang then 3 else 2) + |stem| + k + 2] == Pattern(bang, stem, last, k, w)
  {
    var i := if bang then 3 else 2;
    var j := i + |stem| + k;
    assert s[i + |stem|..j] == Repeat(last, k);
    assert s[..j + 2] == s[..2] + s[2..i] + s[i..i + |stem|] + s[i + |stem|..j] + [s[j]] + [w];
  }

  /** Every prefix of the content that has the pattern's shape is what the
      as-written matcher returns. */
  lemma MentionAsWrittenComplete(content: string, id: nat, bang: bool, k: nat, w: char)
    requires IsSpace(w)
    requires Pattern(bang, Stem(id), LastDigit(id), k, w) <= content
    ensures MentionAsWritten(content, id) == Some(Pattern(bang, Stem(id), LastDigit(id), k, w))
  {
    var stem, last := Stem(id), LastDigit(id);
    var d := Digits(id);
    assert forall t :: 0 <= t < |stem| ==> stem[t] == d[t];
    PatternMatches(content, bang, stem, last, k, w);
  }

  /** The indexwise layout of a pattern text. */
  lemma PatternAt(bang: bool, stem: string, last: char, k: nat, w: char)
    ensures var m := Pattern(bang, stem, last, k, w);
      var i := if bang then 3 else 2;
      && |m| == i + |stem| + k + 2
      && m[0] == '<' && m[1] == '@' && (bang ==> m[2] == '!')
      && (forall t :: 0 <= t < |stem| ==> m[i + t] == stem[t])
      && (forall t :: i + |stem| <= t < i + |stem| + k ==> m[t] == last)
      && m[i + |stem| + k] == '>' && m[i + |stem| + k + 1] == w
  {
    var i := if bang then 3 else 2;
    var m := Pattern(bang, stem, last, k, w);
    var head := "<@" + Bang(bang);
    assert |head| == i;
    assert m == head + stem + Repeat(last, k) + ">" + [w];
    assert forall t :: 0 <= t < |stem| ==> m[i + t] == (head + stem)[i + t] == stem[t];
  }

  /** The matcher walks a pattern text that starts the content exactly, for any
      stem without `!` and any last digit other than `!` and `>`. */
  lemma PatternMatches(content: string, bang: bool, stem: string, last: char, k: nat, w: char)
    requires forall t :: 0 <= t < |stem| ==> stem[t] != '!'
    requires last != '!' && last != '>' && IsSpace(w)
    requires Pattern(bang, stem, last, k, w) <= content
    ensures |content| >= 3 && content[0] == '<' && content[1] == '@'
    ensures bang <==> content[2] == '!'
    ensures MatchTail(content, if bang then 3 else 2, stem, last) == Some(Pattern(bang, stem, last, k, w))
  {
    var m := Pattern(bang, stem, last, k, w);
    var i := if bang then 3 else 2;
    var j := i + |stem| + k;
    PatternAt(bang, stem, last, k, w);
    assert forall t :: 0 <= t < |m| ==> content[t] == m[t];
    assert content[i..][..|stem|] == stem;
    RunEndAt(content, last, i + |stem|, j);
    assert content[..j + 2] == m;
  }

  lemma {:induction false} RunEndAt(s: string, c: char, i: nat, j: nat)
    requires i <= j < |s| && s[j] != c
    requires forall t :: i <= t < j ==> s[t] == c
    ensures RunEnd(s, c, i) == j
    decreases j - i
  {
    if i < j {
      RunEndAt(s, c, i + 1, j);
    }
  }

  /** The mention of bot `id`: `<@ID>` or `<@!ID>`. */
  function Tag(bang: bool, id: nat): string {
    "<@" + Bang(bang) + Digits(id) + ">"
  }

  /** The intended matcher: a leading `<@ID>` or `<@!ID>` with exactly the bot's
      id, followed by one space character; the result is that text. */
  function ExactMention(content: string, id: nat): (r: Option<string>)
    ensures r.Some? ==>
      && r.value <= content
      && |r.value| >= 1 && IsSpace(r.value[|r.value| - 1])
      && (r.value == Tag(false, id) + [r.value[|r.value| - 1]] || r.value == Tag(true, id) + [r.value[|r.value| - 1]])
    ensures forall bang: bool :: |Tag(bang, id)| < |content| && Tag(bang, id) <= content && IsSpace(content[|Tag(bang, id)|]) ==>
      r == Some(Tag(bang, id) + [content[|Tag(bang, id)|]])
  {
    var plain, banged := Tag(false, id), Tag(true, id);
    if |plain| < |content| && plain <= content && IsSpace(content[|plain|]) then
      assert content[..|plain| + 1] == plain + [content[|plain|]];
      Some(content[..|plain| + 1])
    else if |banged| < |content| && banged <= content && IsSpace(content[|banged|]) then
      assert content[..|banged| + 1] == banged + [content[|banged|]];
      Some(content[..|banged| + 1])
    else None
  }

  /** A tag followed by a space is the pattern with the last digit once. */
  lemma TagIsPattern(bang: bool, id: nat, w: char)
    ensures Tag(bang, id) + [w] == Pattern(bang, Stem(id), LastDigit(id), 1, w)
  {
    var d := Digits(id);
    var stem, last := Stem(id), LastDigit(id);
    var head := "<@" + Bang(bang);
    assert Repeat(last, 1) == [last];
    assert stem + [last] == d;
    calc {
      Pattern(bang, stem, last, 1, w);
      head + stem + Repeat(last, 1) + ">" + [w];
      head + stem + [last] + ">" + [w];
      { assert head + stem + [last] == head + d; }
      head + d + ">" + [w];
      Tag(bang, id) + [w];
    }
  }

  /** Whatever the intended matcher accepts, the written pattern accepts too,
      with the same text: the written pattern only accepts more. */
  lemma ExactMentionAcceptedAsWritten(content: string, id: nat)
    requires ExactMention(content, id).Some?
    ensures MentionAsWritten(content, id) == ExactMention(content, id)
  {
    var m := ExactMention(content, id).value;
    var w := m[|m| - 1];
    var bang := m != Tag(false, id) + [w];
    TagIsPattern(bang, id, w);
    MentionAsWrittenComplete(content, id, bang, 1, w);
  }

  /** For a bot whose id has two digits or more, a message that starts by
      mentioning the user whose id is the bot's id without its last digit is
      taken as addressed to the bot; the intended matcher refuses it. */
  lemma MentionOfOtherUserAccepted(id: nat, w: char, rest: string)
    requires id >= 10 && IsSpace(w)
    ensures var other := "<@" + Digits(id / 10) + ">" + [w];
      && other != Tag(false, id) + [w] && other != Tag(true, id) + [w]
      && MentionAsWritten(other + rest, id) == Some(other)
      && ExactMention(other + rest, id) == None
  {
    var other := "<@" + Digits(id / 10) + ">" + [w];
    StemPattern(id, w);
    assert other <= other + rest;
    MentionAsWrittenComplete(other + rest, id, false, 0, w);
    StemMentionNotTag(id, w, rest);
  }

  /** The stem's own mention is the pattern with the last digit zero times. */
  lemma StemPattern(id: nat, w: char)
    requires id >= 10
    ensures Pattern(false, Stem(id), LastDigit(id), 0, w) == "<@" + Digits(id / 10) + ">" + [w]
  {
    assert Digits(id) == Digits(id / 10) + [DigitChar(id % 10)];
    assert Stem(id) == Digits(id / 10);
  }

  lemma StemMentionNotTag(id: nat, w: char, rest: string)
    requires id >= 10
    ensures var other := "<@" + Digits(id / 10) + ">" + [w];
      && other != Tag(false, id) + [w] && other != Tag(true, id) + [w]
      && ExactMention(other + rest, id) == None
  {
    var other := "<@" + Digits(id / 10) + ">" + [w];
    var content := other + rest;
    var n := |Digits(id / 10)|;
    assert Digits(id) == Digits(id / 10) + [DigitChar(id % 10)];
    assert content[n + 2] == other[n + 2] == '>';
    assert Tag(false, id)[n + 2] == Digits(id)[n];
    assert Tag(true, id)[2] == '!' && content[2] == Digits(id / 10)[0];
  }
}
